/** Building the disk image and booting from it: what the kernel's memory holds in the end. */
module BootProperties {
  import opened Wrappers
  import opened DiskImage
  import opened Boot

  // --- What is on the disk ---------------------------------------------------------------------------

  /** Byte i of a file, which zeros follow. */
  function FileByte(kernel: seq<byte>, i: nat): byte
  {
    if i < |kernel| then kernel[i] else 0
  }

  /** The disk a boot sector and a kernel file make: sector 0, then the kernel, then zeros. */
  ghost predicate HoldsKernel(disk: seq<byte>, kernel: seq<byte>)
  {
    && SECTOR + RoundUp(|kernel|) <= |disk| && SECTOR * IMAGE_SECTORS <= |disk|
    && forall i :: 0 <= i < |disk| - SECTOR ==> disk[SECTOR + i] == FileByte(kernel, i)
  }

  /** The built image is a whole number of sectors, carries the boot signature, and holds the kernel from
      sector 1 on, followed by zeros. */
  lemma BuiltImageHoldsKernel(boot: seq<byte>, kernel: seq<byte>)
    requires |boot| <= 510
    ensures Image(boot, [File(kernel)]).Some?
    ensures var disk := Image(boot, [File(kernel)]).value;
            && |disk| % SECTOR == 0 && HoldsKernel(disk, kernel)
            && disk[..|boot|] == boot && disk[510] == 0x55 && disk[511] == 0xAA
  {
    var sector := BootSector(boot);
    assert [File(kernel)][1..] == [];
    assert Extended(sector, [File(kernel)]) == Extended(sector + Padded(kernel), []);
    var disk := Image(boot, [File(kernel)]).value;
    assert disk == sector + Padded(kernel) + Zeros(SECTOR * IMAGE_SECTORS - |sector + Padded(kernel)|);
    assert |Padded(kernel)| == RoundUp(|kernel|);
    forall i | 0 <= i < |disk| - SECTOR ensures disk[SECTOR + i] == FileByte(kernel, i) {
      assert i < |Padded(kernel)| ==> disk[SECTOR + i] == Padded(kernel)[i];
    }
  }

  // --- A kernel the loader can load ------------------------------------------------------------------

  /** The kernel's first 4096 bytes, which the loader keeps as its header page. */
  function HeaderPage(kernel: seq<byte>): (p: seq<byte>)
    ensures |p| == PAGE
  {
    seq(PAGE, i requires 0 <= i => FileByte(kernel, i))
  }

  /** The n program headers the page holds from offset off on. */
  function Headers(page: seq<byte>, off: nat, n: nat): (gs: seq<Segment>)
    requires off + PROGHDR * n <= |page|
    ensures |gs| == n && forall i :: 0 <= i < n ==> gs[i] == SegmentAt(page, off + PROGHDR * i)
  {
    seq(n, i requires 0 <= i < n => SegmentAt(page, off + PROGHDR * i))
  }

  /** The segments of a kernel whose headers lie in its first page. */
  function Segments(page: seq<byte>): seq<Segment>
    requires |page| == PAGE && HeaderOffset(page, 0) + PROGHDR * HeaderCount(page, 0) <= PAGE
  {
    Headers(page, HeaderOffset(page, 0), HeaderCount(page, 0))
  }

  /** The segment lies in the file, at an address congruent to its offset, in memory, off the header page. When it has
      no bytes in the file its address is free, as long as no sector past the file is read for it. */
  predicate GoodSegment(kernel: seq<byte>, memory: nat, g: Segment)
  {
    && g.offset + g.filesz <= |kernel|
    && (g.va % SECTOR == g.offset % SECTOR || (g.filesz == 0 && (g.offset < |kernel| || g.va % SECTOR == 0)))
    && ReadEnd(g.va, g.filesz) <= memory && g.va + g.memsz <= memory
    && (ELFHDR + PAGE <= RoundDown(g.va) || (ReadEnd(g.va, g.filesz) <= ELFHDR && g.va + g.memsz <= ELFHDR))
  }

  ghost predicate Disjoint(g: Segment, h: Segment)
  {
    forall a: int :: !(InFootprint(g, a) && InFootprint(h, a))
  }

  ghost predicate GoodSegments(kernel: seq<byte>, memory: nat, gs: seq<Segment>)
  {
    && memory < ADDRESSES
    && (forall i :: 0 <= i < |gs| ==> GoodSegment(kernel, memory, gs[i]))
    && (forall i, j :: 0 <= i < j < |gs| ==> Disjoint(gs[i], gs[j]))
  }

  /** A kernel image linked for this loader: its headers in the first page, and its segments, rounded to
      sectors, apart from each other and from the header page. */
  ghost predicate Bootable(kernel: seq<byte>, memory: nat)
  {
    var page := HeaderPage(kernel);
    && ELFHDR + PAGE <= memory < ADDRESSES
    && Magic(page, 0) == ELF_MAGIC
    && HeaderOffset(page, 0) + PROGHDR * HeaderCount(page, 0) <= PAGE
    && GoodSegments(kernel, memory, Segments(page))
  }

  /** The segment's bytes are in place and the rest of its memory is cleared. */
  predicate Loaded(mem: seq<byte>, kernel: seq<byte>, g: Segment)
  {
    && g.va + g.filesz <= |mem| && g.va + g.memsz <= |mem| && g.offset + g.filesz <= |kernel|
    && (forall a :: g.va <= a < g.va + g.filesz ==> mem[a] == kernel[g.offset + (a - g.va)])
    && (forall a :: g.va + g.filesz <= a < g.va + g.memsz ==> mem[a] == 0)
  }

  lemma RoundUpMonotonic(a: nat, b: nat)
    requires a <= b
    ensures RoundUp(a) <= RoundUp(b)
  {}

  lemma SameSpan(va: nat, offset: nat, filesz: nat)
    requires va % SECTOR == offset % SECTOR
    ensures ReadEnd(va, filesz) - RoundDown(va) == RoundUp(offset + filesz) - RoundDown(offset)
  {}

  lemma GoodSegmentFits(disk: nat, kernel: seq<byte>, memory: nat, g: Segment)
    requires SECTOR + RoundUp(|kernel|) <= disk && GoodSegment(kernel, memory, g) && memory < ADDRESSES
    ensures SegmentFits(memory, disk, g, SectorOf(g))
  {
    hide RoundUp, RoundDown;
    RoundUpMonotonic(g.offset + g.filesz, |kernel|);
    FirstSector(g);
    if g.va % SECTOR == g.offset % SECTOR {
      SameSpan(g.va, g.offset, g.filesz);
    } else {
      EmptySpan(g.va, g.offset, |kernel|);
    }
  }

  lemma FirstSector(g: Segment)
    ensures SECTOR * SectorOf(g) == SECTOR + RoundDown(g.offset)
  {}

  lemma EmptySpan(va: nat, offset: nat, size: nat)
    ensures RoundUp(va) - RoundDown(va) == if va % SECTOR == 0 then 0 else SECTOR
    ensures offset < size ==> RoundDown(offset) + SECTOR <= RoundUp(size)
  {}

  lemma SegmentLoads(mem: seq<byte>, disk: seq<byte>, kernel: seq<byte>, g: Segment)
    requires HoldsKernel(disk, kernel) && GoodSegment(kernel, |mem|, g) && |mem| < ADDRESSES
    ensures SegmentFits(|mem|, |disk|, g, SectorOf(g))
    ensures var m := AfterSegment(mem, disk, g, SectorOf(g));
            Loaded(m, kernel, g) && forall a :: 0 <= a < |mem| && !InFootprint(g, a) ==> m[a] == mem[a]
  {
    GoodSegmentFits(|disk|, kernel, |mem|, g);
    FirstSector(g);
    var m := AfterSegment(mem, disk, g, SectorOf(g));
    forall a | g.va <= a < g.va + g.filesz ensures m[a] == kernel[g.offset + (a - g.va)] {
      assert m[a] == disk[SECTOR * SectorOf(g) + (a - RoundDown(g.va))];
      assert disk[SECTOR + (g.offset + (a - g.va))] == FileByte(kernel, g.offset + (a - g.va));
    }
  }

  lemma CongruentSegmentLoads(mem: seq<byte>, disk: seq<byte>, g: Segment)
    requires SegmentFits(|mem|, |disk|, g, SectorOf(g)) && SECTOR + g.offset + g.filesz <= |disk|
    requires g.filesz == 0 || g.va % SECTOR == g.offset % SECTOR
    ensures Loaded(AfterSegment(mem, disk, g, SectorOf(g)), disk[SECTOR..], g)
  {
    FirstSector(g);
    var m := AfterSegment(mem, disk, g, SectorOf(g));
    forall a | g.va <= a < g.va + g.filesz ensures m[a] == disk[SECTOR..][g.offset + (a - g.va)] {
      assert m[a] == disk[SECTOR * SectorOf(g) + (a - RoundDown(g.va))];
    }
  }

  lemma OtherSegmentIsMisplaced(mem: seq<byte>, disk: seq<byte>, g: Segment)
    requires SegmentFits(|mem|, |disk|, g, SectorOf(g)) && SECTOR + g.offset + g.filesz <= |disk|
    requires g.filesz > 0 && g.va % SECTOR != g.offset % SECTOR
    requires forall i :: 0 <= i < |disk| ==> disk[i] == if i == SECTOR + g.offset then 1 else 0
    ensures !Loaded(AfterSegment(mem, disk, g, SectorOf(g)), disk[SECTOR..], g)
  {
    FirstSector(g);
    var m := AfterSegment(mem, disk, g, SectorOf(g));
    assert m[g.va] == disk[SECTOR * SectorOf(g) + (g.va - RoundDown(g.va))];
    assert m[g.va] != disk[SECTOR..][g.offset + (g.va - g.va)];
  }

  /** A segment is loaded right, whatever the disk holds, exactly when its address and its offset are congruent
      modulo the sector size or it has no bytes in the file. */
  lemma LoadingNeedsCongruence(memory: nat, size: nat, g: Segment)
    requires SegmentFits(memory, size, g, SectorOf(g)) && SECTOR + g.offset + g.filesz <= size
    ensures g.filesz == 0 || g.va % 512 == g.offset % 512
       <==> forall mem: seq<byte>, disk: seq<byte> :: |mem| == memory && |disk| == size ==>
              Loaded(AfterSegment(mem, disk, g, SectorOf(g)), disk[SECTOR..], g)
  {
    if g.filesz == 0 || g.va % SECTOR == g.offset % SECTOR {
      forall mem: seq<byte>, disk: seq<byte> | |mem| == memory && |disk| == size
        ensures Loaded(AfterSegment(mem, disk, g, SectorOf(g)), disk[SECTOR..], g)
      {
        CongruentSegmentLoads(mem, disk, g);
      }
    } else {
      var mem, disk := Zeros(memory), seq(size, i => if i == SECTOR + g.offset then 1 as byte else 0);
      OtherSegmentIsMisplaced(mem, disk, g);
      assert |mem| == memory && |disk| == size;
    }
  }

  lemma StaysLoaded(mem: seq<byte>, mem': seq<byte>, kernel: seq<byte>, g: Segment, h: Segment)
    requires Loaded(mem, kernel, g) && Disjoint(g, h) && |mem'| == |mem|
    requires forall a :: 0 <= a < |mem| && !InFootprint(h, a) ==> mem'[a] == mem[a]
    ensures Loaded(mem', kernel, g)
  {
    forall a | g.va <= a < g.va + g.filesz || g.va <= a < g.va + g.memsz ensures mem'[a] == mem[a] {
      assert InFootprint(g, a);
      assert !InFootprint(h, a);
    }
  }

  // --- The segment loop ------------------------------------------------------------------------------

  /** The first j segments are loaded, the header page is intact, and nothing else has changed since start. */
  ghost predicate LoadedUpTo(start: seq<byte>, mem: seq<byte>, kernel: seq<byte>, gs: seq<Segment>, j: nat)
  {
    && |mem| == |start| && ELFHDR + PAGE <= |mem| && j <= |gs|
    && mem[ELFHDR..ELFHDR + PAGE] == HeaderPage(kernel)
    && (forall i :: 0 <= i < j ==> Loaded(mem, kernel, gs[i]))
    && forall a :: 0 <= a < |mem| && (forall i :: 0 <= i < j ==> !InFootprint(gs[i], a)) ==> mem[a] == start[a]
  }

  ghost predicate AllLoaded(start: seq<byte>, m: Option<seq<byte>>, kernel: seq<byte>, gs: seq<Segment>)
  {
    m.Some? && LoadedUpTo(start, m.value, kernel, gs, |gs|)
  }

  lemma HeaderReadFromMemory(mem: seq<byte>, page: seq<byte>, at: nat)
    requires ELFHDR + PAGE <= |mem| && |page| == PAGE && mem[ELFHDR..ELFHDR + PAGE] == page && at + PROGHDR <= PAGE
    ensures SegmentAt(mem, ELFHDR + at) == SegmentAt(page, at)
  {
    assert forall i: nat :: i < PAGE ==> mem[ELFHDR + i] == page[i];
  }

  lemma LoadOne(start: seq<byte>, mem: seq<byte>, disk: seq<byte>, kernel: seq<byte>, gs: seq<Segment>, j: nat)
    requires HoldsKernel(disk, kernel) && j < |gs| && LoadedUpTo(start, mem, kernel, gs, j)
    requires GoodSegments(kernel, |mem|, gs)
    ensures SegmentFits(|mem|, |disk|, gs[j], SectorOf(gs[j]))
    ensures LoadedUpTo(start, AfterSegment(mem, disk, gs[j], SectorOf(gs[j])), kernel, gs, j + 1)
  {
    SegmentLoads(mem, disk, kernel, gs[j]);
    var m := AfterSegment(mem, disk, gs[j], SectorOf(gs[j]));
    forall a | ELFHDR <= a < ELFHDR + PAGE ensures m[a] == mem[a] {
      assert !InFootprint(gs[j], a);
    }
    assert m[ELFHDR..ELFHDR + PAGE] == mem[ELFHDR..ELFHDR + PAGE];
    forall i | 0 <= i < j ensures Loaded(m, kernel, gs[i]) {
      StaysLoaded(mem, m, kernel, gs[i], gs[j]);
    }
  }

  lemma {:induction false} LoadRest(start: seq<byte>, mem: seq<byte>, disk: seq<byte>, kernel: seq<byte>,
                                    off: nat, n: nat, j: nat)
    requires HoldsKernel(disk, kernel) && off + PROGHDR * n <= PAGE && j <= n
    requires GoodSegments(kernel, |mem|, Headers(HeaderPage(kernel), off, n))
    requires LoadedUpTo(start, mem, kernel, Headers(HeaderPage(kernel), off, n), j)
    ensures AllLoaded(start, Load(mem, disk, ELFHDR + off + PROGHDR * j, ELFHDR + off + PROGHDR * n), kernel,
                      Headers(HeaderPage(kernel), off, n))
    decreases n - j
  {
    hide SegmentAt, SegmentByte, Loaded, HoldsKernel, GoodSegments, Headers;
    if j < n {
      var gs := Headers(HeaderPage(kernel), off, n);
      HeaderReadFromMemory(mem, HeaderPage(kernel), off + PROGHDR * j);
      LoadOne(start, mem, disk, kernel, gs, j);
      LoadRest(start, AfterSegment(mem, disk, gs[j], SectorOf(gs[j])), disk, kernel, off, n, j + 1);
    }
  }

  lemma KernelByte(disk: seq<byte>, kernel: seq<byte>, i: nat)
    requires HoldsKernel(disk, kernel) && i < PAGE
    ensures SECTOR + i < |disk| && disk[SECTOR + i] == HeaderPage(kernel)[i]
  {
    assert HeaderPage(kernel)[i] == FileByte(kernel, i);
  }

  /** The header page in memory is the kernel's first page, and nothing else has changed. */
  lemma HeaderIsRead(mem: seq<byte>, disk: seq<byte>, kernel: seq<byte>)
    requires HoldsKernel(disk, kernel) && ELFHDR + PAGE <= |mem| < ADDRESSES
    ensures HeaderFits(|mem|, |disk|)
    ensures var m := AfterHeader(mem, disk);
            && m[ELFHDR..ELFHDR + PAGE] == HeaderPage(kernel)
            && forall a :: 0 <= a < |mem| && !(ELFHDR <= a < ELFHDR + PAGE) ==> m[a] == mem[a]
  {
    hide HoldsKernel, HeaderPage;
    KernelByte(disk, kernel, PAGE - 1);
    var m, page := AfterHeader(mem, disk), HeaderPage(kernel);
    assert RoundDown(ELFHDR) == ELFHDR && ReadEnd(ELFHDR, PAGE) == ELFHDR + PAGE;
    forall i | 0 <= i < PAGE ensures m[ELFHDR..ELFHDR + PAGE][i] == page[i] {
      assert m[ELFHDR + i] == SegmentByte(mem, disk, HEADER, 1, ELFHDR + i);
      assert SegmentByte(mem, disk, HEADER, 1, ELFHDR + i) == disk[SECTOR + i];
      KernelByte(disk, kernel, i);
    }
  }

  lemma PageFields(m: seq<byte>, page: seq<byte>)
    requires ELFHDR + PAGE <= |m| && |page| == PAGE && m[ELFHDR..ELFHDR + PAGE] == page
    ensures Magic(m, ELFHDR) == Magic(page, 0) && Entry(m, ELFHDR) == Entry(page, 0)
    ensures HeaderOffset(m, ELFHDR) == HeaderOffset(page, 0) && HeaderCount(m, ELFHDR) == HeaderCount(page, 0)
  {
    assert forall i: nat :: i < PAGE ==> m[ELFHDR + i] == page[i];
  }

  /** What booting promises of memory m, started from memory mem: every segment is in place and cleared beyond
      its file part, the header page is the kernel's first page, and outside it and the segments, rounded to
      sectors, nothing has changed. */
  ghost predicate Booted(mem: seq<byte>, m: seq<byte>, kernel: seq<byte>)
    requires Bootable(kernel, |mem|)
  {
    var page := HeaderPage(kernel);
    && |m| == |mem| && m[ELFHDR..ELFHDR + PAGE] == page
    && (forall i :: 0 <= i < |Segments(page)| ==> Loaded(m, kernel, Segments(page)[i]))
    && forall a :: 0 <= a < |mem| && Untouched(kernel, a) ==> m[a] == mem[a]
  }

  ghost predicate Untouched(kernel: seq<byte>, a: int)
    requires var page := HeaderPage(kernel); HeaderOffset(page, 0) + PROGHDR * HeaderCount(page, 0) <= PAGE
  {
    var gs := Segments(HeaderPage(kernel));
    !(ELFHDR <= a < ELFHDR + PAGE) && forall i :: 0 <= i < |gs| ==> !InFootprint(gs[i], a)
  }

  /** Booting from a disk that holds a bootable kernel jumps to the entry point the kernel file names. */
  lemma BootFromDisk(mem: seq<byte>, disk: seq<byte>, kernel: seq<byte>)
    requires HoldsKernel(disk, kernel) && Bootable(kernel, |mem|)
    ensures var after := AfterBoot(mem, disk);
            && after.Some? && Booted(mem, after.value.memory, kernel)
            && after.value.entry == Some(Entry(HeaderPage(kernel), 0))
  {
    hide SegmentByte, SegmentAt, Word32, Word16, Loaded;
    var page, m := HeaderPage(kernel), AfterHeader(mem, disk);
    HeaderIsRead(mem, disk, kernel);
    PageFields(m, page);
    LoadRest(m, m, disk, kernel, HeaderOffset(page, 0), HeaderCount(page, 0), 0);
    PageFields(AfterBoot(mem, disk).value.memory, HeaderPage(kernel));
  }

  /** The round trip: build a disk from a boot sector and a bootable kernel, and boot from it. */
  lemma BuildThenBoot(boot: seq<byte>, kernel: seq<byte>, mem: seq<byte>)
    requires |boot| <= 510 && Bootable(kernel, |mem|)
    ensures Image(boot, [File(kernel)]).Some?
    ensures var after := AfterBoot(mem, Image(boot, [File(kernel)]).value);
            && after.Some? && Booted(mem, after.value.memory, kernel)
            && after.value.entry == Some(Entry(HeaderPage(kernel), 0))
  {
    hide AfterBoot;
    BuiltImageHoldsKernel(boot, kernel);
    BootFromDisk(mem, Image(boot, [File(kernel)]).value, kernel);
  }
}
