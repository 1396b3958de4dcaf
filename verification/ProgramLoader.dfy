/** schedos-loader.c: loading an application from its image, which lies in the same memory, a segment at a time. */
module ProgramLoader {
  import opened Wrappers
  import opened DiskImage
  import opened Boot
  import opened BootProperties

  const ELF_PROG_LOAD: nat := 1

  // --- copyseg ---------------------------------------------------------------------------------------

  function PageDown(va: nat): (r: nat)
    ensures r <= va < r + PAGE && r % PAGE == 0
  {
    va - va % PAGE
  }

  /** The image as far as the segment's copy reads it: the copy starts at src but fills from va's page on. */
  predicate Fits(mem: nat, image: nat, g: Segment)
  {
    && mem < ADDRESSES && g.va + g.filesz <= mem && g.va + g.memsz <= mem
    && g.offset + (g.va + g.filesz - PageDown(g.va)) <= image
  }

  /** What copyseg leaves at address a. */
  function CopiedByte(mem: seq<byte>, image: seq<byte>, g: Segment, a: nat): byte
    requires Fits(|mem|, |image|, g) && a < |mem|
  {
    if g.va + g.filesz <= a < g.va + g.memsz then 0
    else if PageDown(g.va) <= a < g.va + g.filesz then image[g.offset + (a - PageDown(g.va))]
    else mem[a]
  }

  function AfterCopy(mem: seq<byte>, image: seq<byte>, g: Segment): (m: seq<byte>)
    requires Fits(|mem|, |image|, g)
    ensures |m| == |mem|
  {
    seq(|mem|, a requires 0 <= a < |mem| => CopiedByte(mem, image, g, a))
  }

  /** An application image as the linker placed it in memory. */
  datatype RamImage = RamImage(begin: nat, end: nat)

  predicate InMemory(r: RamImage, memory: nat)
  {
    r.begin + ELF_SIZE <= r.end <= memory
  }

  function ImageOf(mem: seq<byte>, r: RamImage): seq<byte>
    requires InMemory(r, |mem|)
  {
    mem[r.begin..r.end]
  }

  /** Nothing copyseg writes for the segment lies in the image. */
  predicate Clear(g: Segment, r: RamImage)
  {
    r.end <= PageDown(g.va) || (g.va + g.filesz <= r.begin && g.va + g.memsz <= r.begin)
  }

  /** memcpy between places that do not overlap. */
  method Memcpy(mem: array<byte>, dst: nat, src: nat, n: nat)
    requires dst + n <= mem.Length && src + n <= mem.Length && (dst + n <= src || src + n <= dst)
    modifies mem
    ensures forall a :: 0 <= a < mem.Length ==>
              mem[a] == if dst <= a < dst + n then old(mem[src + (a - dst)]) else old(mem[a])
  {
    var d, s, left := dst, src, n;
    while left > 0
      invariant 0 <= left <= n && d == dst + (n - left) && s == src + (n - left)
      invariant forall a :: 0 <= a < mem.Length ==>
                  mem[a] == if dst <= a < d then old(mem[src + (a - dst)]) else old(mem[a])
    {
      mem[d] := mem[s];
      d, s, left := d + 1, s + 1, left - 1;
    }
  }

  lemma CopyKeepsImage(mem: seq<byte>, g: Segment, r: RamImage)
    requires InMemory(r, |mem|) && Fits(|mem|, r.end - r.begin, g) && Clear(g, r)
    ensures ImageOf(AfterCopy(mem, ImageOf(mem, r), g), r) == ImageOf(mem, r)
  {
    var image, m := ImageOf(mem, r), AfterCopy(mem, ImageOf(mem, r), g);
    forall i | 0 <= i < |image| ensures ImageOf(m, r)[i] == image[i] {
      assert m[r.begin + i] == CopiedByte(mem, image, g, r.begin + i);
    }
  }

  method CopySeg(mem: array<byte>, g: Segment, r: RamImage)
    requires InMemory(r, mem.Length) && Fits(mem.Length, r.end - r.begin, g) && Clear(g, r)
    modifies mem
    ensures mem[..] == AfterCopy(old(mem[..]), old(mem[r.begin..r.end]), g)
    ensures mem[r.begin..r.end] == old(mem[r.begin..r.end])
  {
    var end_va := g.va + g.filesz;
    var memEnd := g.va + g.memsz;
    var va := g.va - g.va % PAGE;
    Memcpy(mem, va, r.begin + g.offset, end_va - va);
    ghost var loaded := end_va;
    while end_va < memEnd
      invariant loaded <= end_va && (end_va <= memEnd || end_va == loaded)
      invariant forall a :: 0 <= a < mem.Length ==>
                  mem[a] == if loaded <= a < end_va then 0
                            else if va <= a < loaded then old(mem[r.begin + g.offset + (a - va)]) else old(mem[a])
    {
      mem[end_va] := 0;
      end_va := end_va + 1;
    }
    CopyKeepsImage(old(mem[..]), g, r);
    assert ImageOf(old(mem[..]), r) == old(mem[r.begin..r.end]) && ImageOf(mem[..], r) == mem[r.begin..r.end];
    assert mem[..] == AfterCopy(old(mem[..]), ImageOf(old(mem[..]), r), g);
  }

  // --- What copyseg promises -------------------------------------------------------------------------

  /** The addresses the segment occupies. */
  predicate Holds(g: Segment, a: int)
  {
    g.va <= a < g.va + g.filesz || g.va <= a < g.va + g.memsz
  }

  /** The segment's bytes are at its address, zeros follow up to memsz, and all else is as before. */
  ghost predicate Promised(mem: seq<byte>, m: seq<byte>, image: seq<byte>, g: Segment)
  {
    && |m| == |mem| && Loaded(m, image, g)
    && forall a :: 0 <= a < |mem| && !Holds(g, a) ==> m[a] == mem[a]
  }

  /** Segments at page boundaries are loaded as promised, whatever memory and the image hold. */
  lemma AlignedSegmentIsLoaded(mem: seq<byte>, image: seq<byte>, g: Segment)
    requires Fits(|mem|, |image|, g) && g.va % 4096 == 0
    ensures Promised(mem, AfterCopy(mem, image, g), image, g)
  {
    assert PageDown(g.va) == g.va;
  }

  /** Where an unaligned segment's page began, the first byte of the source overwrites what was there. */
  lemma UnalignedSegmentSpills(mem: seq<byte>, image: seq<byte>, g: Segment)
    requires Fits(|mem|, |image|, g) && g.va % PAGE != 0 && mem[PageDown(g.va)] != image[g.offset]
    ensures !Promised(mem, AfterCopy(mem, image, g), image, g)
  {
    assert AfterCopy(mem, image, g)[PageDown(g.va)] == image[g.offset];
  }

  /** copyseg keeps its promise for every content of memory and image exactly when the address is aligned. */
  lemma PromiseNeedsAlignment(memory: nat, size: nat, g: Segment)
    requires Fits(memory, size, g)
    ensures g.va % 4096 == 0
        <==> forall mem: seq<byte>, image: seq<byte> :: |mem| == memory && |image| == size ==>
               Promised(mem, AfterCopy(mem, image, g), image, g)
  {
    if g.va % PAGE == 0 {
      forall mem: seq<byte>, image: seq<byte> | |mem| == memory && |image| == size
        ensures Promised(mem, AfterCopy(mem, image, g), image, g)
      {
        AlignedSegmentIsLoaded(mem, image, g);
      }
    } else {
      var mem, image := Zeros(memory), seq(size, i => 1 as byte);
      UnalignedSegmentSpills(mem, image, g);
      assert |mem| == memory && |image| == size;
    }
  }

  // --- program_loader --------------------------------------------------------------------------------

  function TypeAt(image: seq<byte>, at: nat): nat
    requires at + PROGHDR <= |image|
  {
    Word32(image, at)
  }

  /** The headers of the image lie in it, and each loadable segment fits and leaves the image alone. */
  predicate ImageFits(memory: nat, r: RamImage, image: seq<byte>, ph: nat, n: nat)
  {
    && ph + PROGHDR * n <= |image|
    && forall i :: 0 <= i < n && TypeAt(image, ph + PROGHDR * i) == ELF_PROG_LOAD ==>
         && Fits(memory, |image|, SegmentAt(image, ph + PROGHDR * i))
         && Clear(SegmentAt(image, ph + PROGHDR * i), r)
  }

  /** The loadable segments from header j to n - 1, in the order of their headers. */
  function Loadable(image: seq<byte>, ph: nat, j: nat, n: nat): seq<Segment>
    requires ph + PROGHDR * n <= |image|
    decreases n - j
  {
    if j >= n then []
    else (if TypeAt(image, ph + PROGHDR * j) == ELF_PROG_LOAD then [SegmentAt(image, ph + PROGHDR * j)] else [])
         + Loadable(image, ph, j + 1, n)
  }

  predicate AllFit(memory: nat, size: nat, gs: seq<Segment>)
  {
    forall i :: 0 <= i < |gs| ==> Fits(memory, size, gs[i])
  }

  function AfterCopies(mem: seq<byte>, image: seq<byte>, gs: seq<Segment>): (m: seq<byte>)
    requires AllFit(|mem|, |image|, gs)
    ensures |m| == |mem|
    decreases |gs|
  {
    if gs == [] then mem else AfterCopies(AfterCopy(mem, image, gs[0]), image, gs[1..])
  }

  function SegmentsOf(image: seq<byte>): seq<Segment>
    requires |image| >= ELF_SIZE && HeaderOffset(image, 0) + PROGHDR * HeaderCount(image, 0) <= |image|
  {
    Loadable(image, HeaderOffset(image, 0), 0, HeaderCount(image, 0))
  }

  lemma {:induction false} LoadableFit(memory: nat, r: RamImage, image: seq<byte>, ph: nat, j: nat, n: nat)
    requires ImageFits(memory, r, image, ph, n)
    ensures AllFit(memory, |image|, Loadable(image, ph, j, n))
    decreases n - j
  {
    if j < n {
      LoadableFit(memory, r, image, ph, j + 1, n);
    }
  }

  method LoadProgramSegments(mem: array<byte>, r: RamImage, ph: nat, n: nat)
    requires InMemory(r, mem.Length) && ImageFits(mem.Length, r, mem[r.begin..r.end], ph, n)
    modifies mem
    ensures var image := old(mem[r.begin..r.end]);
            && mem[r.begin..r.end] == image
            && AllFit(mem.Length, |image|, Loadable(image, ph, 0, n))
            && mem[..] == AfterCopies(old(mem[..]), image, Loadable(image, ph, 0, n))
  {
    hide SegmentAt, Word32, AfterCopy, Fits, Clear;
    ghost var image := mem[r.begin..r.end];
    LoadableFit(mem.Length, r, image, ph, 0, n);
    ghost var final := AfterCopies(mem[..], image, Loadable(image, ph, 0, n));
    var i := 0;
    while i < n
      invariant i <= n && mem[r.begin..r.end] == image && AllFit(mem.Length, |image|, Loadable(image, ph, i, n))
      invariant AfterCopies(mem[..], image, Loadable(image, ph, i, n)) == final
    {
      ghost var gs := Loadable(image, ph, i, n);
      LoadableFit(mem.Length, r, image, ph, i + 1, n);
      if TypeAt(mem[r.begin..r.end], ph + PROGHDR * i) == ELF_PROG_LOAD {
        assert gs[0] == SegmentAt(image, ph + PROGHDR * i) && gs[1..] == Loadable(image, ph, i + 1, n);
        CopySeg(mem, SegmentAt(mem[r.begin..r.end], ph + PROGHDR * i), r);
      } else {
        assert gs == Loadable(image, ph, i + 1, n);
      }
      i := i + 1;
    }
  }

  const CONSOLE: nat := 0xB8000

  /** The upper left cell shows a grey '!': the low byte is the character, the high byte the colour. */
  function Panicked(mem: seq<byte>): seq<byte>
    requires CONSOLE + 2 <= |mem|
  {
    mem[CONSOLE := 0x21][CONSOLE + 1 := 0x07]
  }

  /** The program exists and its image is an ELF image. */
  predicate Chosen(mem: seq<byte>, images: seq<RamImage>, program: int)
    requires forall i :: 0 <= i < |images| ==> InMemory(images[i], |mem|)
  {
    0 <= program < |images| && Magic(ImageOf(mem, images[program]), 0) == ELF_MAGIC
  }

  method LoaderPanic(mem: array<byte>)
    requires CONSOLE + 2 <= mem.Length
    modifies mem
    ensures mem[..] == Panicked(old(mem[..]))
  {
    mem[CONSOLE] := 0x21;
    mem[CONSOLE + 1] := 0x07;
  }

  /** Loads a program and returns its entry point. When the program does not exist or is no ELF image there is none:
      the source stops with a '!' on the screen. */
  method ProgramLoader(mem: array<byte>, images: seq<RamImage>, program: int) returns (entry: Option<nat>)
    requires CONSOLE + 2 <= mem.Length && forall i :: 0 <= i < |images| ==> InMemory(images[i], mem.Length)
    requires Chosen(mem[..], images, program) ==>
               var image := ImageOf(mem[..], images[program]);
               ImageFits(mem.Length, images[program], image, HeaderOffset(image, 0), HeaderCount(image, 0))
    modifies mem
    ensures entry.Some? <==> Chosen(old(mem[..]), images, program)
    ensures entry.None? ==> mem[..] == Panicked(old(mem[..]))
    ensures entry.Some? ==>
              && var image := ImageOf(old(mem[..]), images[program]);
              && HeaderOffset(image, 0) + PROGHDR * HeaderCount(image, 0) <= |image|
              && AllFit(mem.Length, |image|, SegmentsOf(image))
              && mem[..] == AfterCopies(old(mem[..]), image, SegmentsOf(image)) && entry.value == Entry(image, 0)
  {
    if program < 0 || program >= |images| {
      LoaderPanic(mem);
      return None;
    }
    var r := images[program];
    assert ImageOf(mem[..], r) == mem[r.begin..r.end];
    if Magic(mem[r.begin..r.end], 0) != ELF_MAGIC {
      LoaderPanic(mem);
      return None;
    }
    LoadProgramSegments(mem, r, HeaderOffset(mem[r.begin..r.end], 0), HeaderCount(mem[r.begin..r.end], 0));
    entry := Some(Entry(mem[r.begin..r.end], 0));
  }

  // --- The whole program -----------------------------------------------------------------------------

  predicate Apart(g: Segment, h: Segment)
  {
    || (g.va + g.filesz <= h.va && g.va + g.memsz <= h.va)
    || (h.va + h.filesz <= g.va && h.va + h.memsz <= g.va)
  }

  /** Segments at page boundaries, none of which overlaps another. */
  predicate Linked(gs: seq<Segment>)
  {
    && (forall i :: 0 <= i < |gs| ==> gs[i].va % PAGE == 0)
    && forall i, j :: 0 <= i < j < |gs| ==> Apart(gs[i], gs[j])
  }

  /** Every segment's bytes are in place, the rest of its memory is cleared, and nothing else has changed. */
  ghost predicate ProgramLoaded(mem: seq<byte>, m: seq<byte>, image: seq<byte>, gs: seq<Segment>)
  {
    && |m| == |mem|
    && (forall i :: 0 <= i < |gs| ==> Loaded(m, image, gs[i]))
    && forall a :: 0 <= a < |mem| && (forall i :: 0 <= i < |gs| ==> !Holds(gs[i], a)) ==> m[a] == mem[a]
  }

  lemma {:induction false} CopiesLoadTheProgram(mem: seq<byte>, image: seq<byte>, gs: seq<Segment>)
    requires AllFit(|mem|, |image|, gs) && Linked(gs)
    ensures ProgramLoaded(mem, AfterCopies(mem, image, gs), image, gs)
    decreases |gs|
  {
    if gs != [] {
      hide Fits, AfterCopy;
      var g, rest := gs[0], gs[1..];
      var first := AfterCopy(mem, image, g);
      AlignedSegmentIsLoaded(mem, image, g);
      CopiesLoadTheProgram(first, image, rest);
      var m := AfterCopies(first, image, rest);
      forall a | 0 <= a < |mem| && Holds(g, a) ensures m[a] == first[a] {
        forall i | 0 <= i < |rest| ensures !Holds(rest[i], a) {
          assert rest[i] == gs[i + 1];
        }
      }
      assert Loaded(m, image, g);
      forall i | 0 <= i < |gs| ensures Loaded(m, image, gs[i]) {
        assert i > 0 ==> gs[i] == rest[i - 1];
      }
    }
  }

  /** Every loadable header's segment is among those copied. */
  lemma {:induction false} LoadableIsComplete(image: seq<byte>, ph: nat, j: nat, n: nat, i: nat)
    requires ph + PROGHDR * n <= |image| && j <= i < n && TypeAt(image, ph + PROGHDR * i) == ELF_PROG_LOAD
    ensures SegmentAt(image, ph + PROGHDR * i) in Loadable(image, ph, j, n)
    decreases n - j
  {
    hide SegmentAt, Word32;
    if j < i {
      LoadableIsComplete(image, ph, j + 1, n, i);
    }
  }

  /** Loading an application linked at page boundaries leaves each loadable segment in place. */
  lemma ApplicationIsLoaded(mem: seq<byte>, image: seq<byte>, i: nat)
    requires |image| >= ELF_SIZE && HeaderOffset(image, 0) + PROGHDR * HeaderCount(image, 0) <= |image|
    requires AllFit(|mem|, |image|, SegmentsOf(image)) && Linked(SegmentsOf(image))
    requires i < HeaderCount(image, 0) && TypeAt(image, HeaderOffset(image, 0) + PROGHDR * i) == ELF_PROG_LOAD
    ensures Loaded(AfterCopies(mem, image, SegmentsOf(image)), image, SegmentAt(image, HeaderOffset(image, 0) + PROGHDR * i))
  {
    hide SegmentAt, Word32, Fits, AfterCopy, Loaded;
    CopiesLoadTheProgram(mem, image, SegmentsOf(image));
    LoadableIsComplete(image, HeaderOffset(image, 0), 0, HeaderCount(image, 0), i);
  }
}
