/** schedos-boot.c: loading the kernel's segments from disk, a sector at a time, into memory. */
module Boot {
  import opened Wrappers
  import opened DiskImage

  const PAGE: nat := 4096
  const ELFHDR: nat := 0x10000
  const ELF_MAGIC: int := 0x464C457F
  const ELF_SIZE: nat := 52
  const PROGHDR: nat := 32
  const ADDRESSES: nat := 0x1_0000_0000

  // --- ELF fields, little endian ---------------------------------------------------------------------

  function Word16(m: seq<byte>, at: nat): (w: nat)
    requires at + 2 <= |m|
    ensures w < 0x1_0000
  {
    m[at] as nat + 0x100 * (m[at + 1] as nat)
  }

  function Word32(m: seq<byte>, at: nat): (w: nat)
    requires at + 4 <= |m|
    ensures w < ADDRESSES
  {
    Word16(m, at) + 0x1_0000 * Word16(m, at + 2)
  }

  /** The fields of a program header the loader uses. */
  datatype Segment = Segment(offset: nat, va: nat, filesz: nat, memsz: nat)

  function SegmentAt(m: seq<byte>, at: nat): Segment
    requires at + PROGHDR <= |m|
  {
    Segment(Word32(m, at + 4), Word32(m, at + 8), Word32(m, at + 16), Word32(m, at + 20))
  }

  // --- readseg ---------------------------------------------------------------------------------------

  function RoundDown(a: nat): (r: nat)
    ensures r <= a < r + SECTOR && r % SECTOR == 0
  {
    a - a % SECTOR
  }

  function RoundUp(a: nat): (r: nat)
    ensures a <= r < a + SECTOR && r % SECTOR == 0
  {
    (a + SECTOR - 1) / SECTOR * SECTOR
  }

  /** One past the last address the sectors read for [va, va + filesz) reach. */
  function ReadEnd(va: nat, filesz: nat): (r: nat)
    ensures RoundDown(va) <= r && va + filesz <= r && (r - RoundDown(va)) % SECTOR == 0
  {
    RoundUp(va + filesz)
  }

  /** The addresses readseg may write. */
  predicate InFootprint(g: Segment, a: int)
  {
    RoundDown(g.va) <= a && (a < ReadEnd(g.va, g.filesz) || a < g.va + g.memsz)
  }

  /** The read stays inside the disk and inside a memory of 32-bit addresses, so no address wraps around. */
  predicate SegmentFits(mem: nat, disk: nat, g: Segment, sect: nat)
  {
    && mem < ADDRESSES
    && ReadEnd(g.va, g.filesz) <= mem && g.va + g.memsz <= mem
    && SECTOR * sect + (ReadEnd(g.va, g.filesz) - RoundDown(g.va)) <= disk
  }

  /** What readseg leaves at address a. */
  function SegmentByte(mem: seq<byte>, disk: seq<byte>, g: Segment, sect: nat, a: nat): byte
    requires SegmentFits(|mem|, |disk|, g, sect) && a < |mem|
  {
    if g.va + g.filesz <= a < g.va + g.memsz then 0
    else if RoundDown(g.va) <= a < ReadEnd(g.va, g.filesz) then disk[SECTOR * sect + (a - RoundDown(g.va))]
    else mem[a]
  }

  function AfterSegment(mem: seq<byte>, disk: seq<byte>, g: Segment, sect: nat): (m: seq<byte>)
    requires SegmentFits(|mem|, |disk|, g, sect)
    ensures |m| == |mem|
  {
    seq(|mem|, a requires 0 <= a < |mem| => SegmentByte(mem, disk, g, sect, a))
  }

  /** One sector from the disk to memory. */
  method ReadSect(mem: array<byte>, va: nat, disk: seq<byte>, sect: nat)
    requires va + SECTOR <= mem.Length && SECTOR * (sect + 1) <= |disk|
    modifies mem
    ensures forall a :: 0 <= a < mem.Length ==>
              mem[a] == if va <= a < va + SECTOR then disk[SECTOR * sect + (a - va)] else old(mem[a])
  {
    for i := 0 to SECTOR
      invariant forall a :: 0 <= a < mem.Length ==>
                  mem[a] == if va <= a < va + i then disk[SECTOR * sect + (a - va)] else old(mem[a])
    {
      mem[va + i] := disk[SECTOR * sect + i];
    }
  }

  /** k sectors on, reading goes on exactly while whole sectors are left. */
  lemma SectorsLeft(va: nat, filesz: nat, k: nat)
    ensures var at := RoundDown(va) + SECTOR * k;
            if at < va + filesz then at + SECTOR <= ReadEnd(va, filesz) else ReadEnd(va, filesz) <= at
  {}

  /** Reads whole sectors from va rounded down until filesz bytes are in, then clears up to memsz. */
  method ReadSeg(mem: array<byte>, g: Segment, disk: seq<byte>, firstSect: nat)
    requires SegmentFits(mem.Length, |disk|, g, firstSect)
    modifies mem
    ensures mem[..] == AfterSegment(old(mem[..]), disk, g, firstSect)
  {
    var end_va := g.va + g.filesz;
    var memEnd := g.va + g.memsz;
    var va := g.va - g.va % SECTOR;
    var sect := firstSect;
    ghost var lo, hi := RoundDown(g.va), ReadEnd(g.va, g.filesz);
    assert va == lo;
    while va < end_va
      invariant lo <= va <= hi && va - lo == SECTOR * (sect - firstSect) && firstSect <= sect
      invariant forall a :: 0 <= a < mem.Length ==>
                  mem[a] == if lo <= a < va then disk[SECTOR * firstSect + (a - lo)] else old(mem[a])
      decreases hi - va
    {
      SectorsLeft(g.va, g.filesz, sect - firstSect);
      ReadSect(mem, va, disk, sect);
      va := va + SECTOR;
      sect := sect + 1;
    }
    ghost var loaded := end_va;
    while end_va < memEnd
      invariant loaded <= end_va && (end_va <= memEnd || end_va == loaded)
      invariant forall a :: 0 <= a < mem.Length ==>
                  mem[a] == if loaded <= a < end_va then 0
                            else if lo <= a < va then disk[SECTOR * firstSect + (a - lo)] else old(mem[a])
    {
      mem[end_va] := 0;
      end_va := end_va + 1;
    }
    SectorsLeft(g.va, g.filesz, sect - firstSect);
  }

  // --- bootmain --------------------------------------------------------------------------------------

  const HEADER: Segment := Segment(0, ELFHDR, PAGE, PAGE)

  function SectorOf(g: Segment): nat
  {
    1 + g.offset / SECTOR
  }

  /** Memory after the segment loop, or None when a read would leave the disk or memory. Each header is read
      from memory as it then stands. */
  function Load(mem: seq<byte>, disk: seq<byte>, ph: nat, eph: nat): (m: Option<seq<byte>>)
    ensures m.Some? ==> |m.value| == |mem|
    decreases eph - ph
  {
    if ph >= eph then Some(mem)
    else if ph + PROGHDR > |mem| then None
    else
      var g := SegmentAt(mem, ph);
      if SegmentFits(|mem|, |disk|, g, SectorOf(g))
      then Load(AfterSegment(mem, disk, g, SectorOf(g)), disk, ph + PROGHDR, eph)
      else None
  }

  predicate HeaderFits(mem: nat, disk: nat)
  {
    ELFHDR + PAGE <= mem < ADDRESSES && SECTOR + PAGE <= disk
  }

  function Magic(m: seq<byte>, at: nat): nat
    requires at + ELF_SIZE <= |m|
  {
    Word32(m, at)
  }

  function Entry(m: seq<byte>, at: nat): nat
    requires at + ELF_SIZE <= |m|
  {
    Word32(m, at + 24)
  }

  /** e_phoff and e_phnum */
  function HeaderOffset(m: seq<byte>, at: nat): nat
    requires at + ELF_SIZE <= |m|
  {
    Word32(m, at + 28)
  }

  function HeaderCount(m: seq<byte>, at: nat): nat
    requires at + ELF_SIZE <= |m|
  {
    Word16(m, at + 44)
  }

  function AfterHeader(mem: seq<byte>, disk: seq<byte>): (m: seq<byte>)
    requires HeaderFits(|mem|, |disk|)
    ensures |m| == |mem|
  {
    AfterSegment(mem, disk, HEADER, 1)
  }

  /** What booting leaves in memory, and the address it jumps to unless the disk holds no ELF image. */
  datatype Outcome = Outcome(memory: seq<byte>, entry: Option<nat>)

  function AfterBoot(mem: seq<byte>, disk: seq<byte>): (o: Option<Outcome>)
    ensures o.Some? ==> |o.value.memory| == |mem|
  {
    if !HeaderFits(|mem|, |disk|) then None
    else
      var m := AfterHeader(mem, disk);
      if Magic(m, ELFHDR) != ELF_MAGIC then Some(Outcome(m, None))
      else
        var ph := ELFHDR + HeaderOffset(m, ELFHDR);
        var final := Load(m, disk, ph, ph + PROGHDR * HeaderCount(m, ELFHDR));
        if final.None? then None else Some(Outcome(final.value, Some(Entry(final.value, ELFHDR))))
  }

  /** The loop over the program headers, each read from memory when its turn comes. */
  method LoadSegments(mem: array<byte>, disk: seq<byte>, first: nat, eph: nat)
    requires Load(mem[..], disk, first, eph).Some?
    modifies mem
    ensures Some(mem[..]) == Load(old(mem[..]), disk, first, eph)
  {
    hide SegmentAt, SegmentByte;
    var ph := first;
    ghost var final := Load(mem[..], disk, ph, eph);
    while ph < eph
      invariant Load(mem[..], disk, ph, eph) == final
      decreases eph - ph
    {
      var g := SegmentAt(mem[..], ph);
      ReadSeg(mem, g, disk, 1 + g.offset / SECTOR);
      ph := ph + PROGHDR;
    }
  }

  /** Loads the kernel and returns the address it jumps to, or nothing when the disk holds no ELF image. The
      entry point is read from the header page when all segments are in. */
  method Bootmain(mem: array<byte>, disk: seq<byte>) returns (entry: Option<nat>)
    requires AfterBoot(mem[..], disk).Some?
    modifies mem
    ensures Some(Outcome(mem[..], entry)) == AfterBoot(old(mem[..]), disk)
  {
    hide Word32, Word16, SegmentAt, SegmentByte;
    ReadSeg(mem, HEADER, disk, 1);
    if Magic(mem[..], ELFHDR) != ELF_MAGIC {
      return None;
    }
    var ph := ELFHDR + HeaderOffset(mem[..], ELFHDR);
    var eph := ph + PROGHDR * HeaderCount(mem[..], ELFHDR);
    LoadSegments(mem, disk, ph, eph);
    entry := Some(Entry(mem[..], ELFHDR));
  }
}
