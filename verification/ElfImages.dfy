/** elf.h: ELF images as a linker writes them, field by field in little-endian order, and what both loaders make of
    them. */
module ElfImages {
  import opened Wrappers
  import opened DiskImage
  import opened Boot
  import opened BootProperties
  import opened ProgramLoader

  // --- Images as written -----------------------------------------------------------------------------

  type word16 = w: nat | w < 0x1_0000
  type word32 = w: nat | w < 0x1_0000_0000

  function Le16(w: word16): (s: seq<byte>)
    ensures |s| == 2
  {
    [(w % 0x100) as byte, (w / 0x100) as byte]
  }

  function Le32(w: word32): (s: seq<byte>)
    ensures |s| == 4
  {
    Le16(w % 0x1_0000) + Le16(w / 0x1_0000)
  }

  /** struct Elf */
  datatype ElfHeader = ElfHeader(magic: word32, elf: seq<byte>, kind: word16, machine: word16, version: word32,
                                 entry: word32, phoff: word32, shoff: word32, flags: word32, ehsize: word16,
                                 phentsize: word16, phnum: word16, shentsize: word16, shnum: word16, shstrndx: word16)

  /** struct Proghdr */
  datatype ProgramHeader = ProgramHeader(kind: word32, offset: word32, va: word32, pa: word32, filesz: word32,
                                         memsz: word32, flags: word32, align: word32)

  function HeaderBytes(h: ElfHeader): (s: seq<byte>)
    requires |h.elf| == 12
    ensures |s| == 52
  {
    Le32(h.magic) + h.elf + Le16(h.kind) + Le16(h.machine) + Le32(h.version)
    + Le32(h.entry) + Le32(h.phoff) + Le32(h.shoff) + Le32(h.flags)
    + Le16(h.ehsize) + Le16(h.phentsize) + Le16(h.phnum) + Le16(h.shentsize) + Le16(h.shnum) + Le16(h.shstrndx)
  }

  function ProgramHeaderBytes(p: ProgramHeader): (s: seq<byte>)
    ensures |s| == 32
  {
    Le32(p.kind) + Le32(p.offset) + Le32(p.va) + Le32(p.pa) + Le32(p.filesz) + Le32(p.memsz) + Le32(p.flags) + Le32(p.align)
  }

  /** The bytes at index `at` are these. */
  predicate StandsAt(m: seq<byte>, at: nat, s: seq<byte>)
  {
    at + |s| <= |m| && m[at..at + |s|] == s
  }

  /** "\x7FELF" */
  const MAGIC_BYTES: seq<byte> := [0x7F, 0x45, 0x4C, 0x46]

  /** The file begins with this ELF header, and the program headers stand where it says. */
  predicate IsElf(file: seq<byte>, h: ElfHeader, phs: seq<ProgramHeader>)
  {
    && |h.elf| == 12 && StandsAt(file, 0, HeaderBytes(h))
    && |phs| == h.phnum && h.phoff + 32 * |phs| <= |file|
    && forall i :: 0 <= i < |phs| ==> StandsAt(file, h.phoff + 32 * i, ProgramHeaderBytes(phs[i]))
  }

  /** The segment of a program header: its bytes in the file, at its address, and zeros from filesz to memsz. */
  predicate InPlace(m: seq<byte>, file: seq<byte>, p: ProgramHeader)
  {
    && p.offset + p.filesz <= |file| && p.va + p.filesz <= |m| && p.va + p.memsz <= |m|
    && m[p.va..p.va + p.filesz] == file[p.offset..p.offset + p.filesz]
    && forall a :: p.va + p.filesz <= a < p.va + p.memsz ==> m[a] == 0
  }

  // --- Reading back what is written ------------------------------------------------------------------

  lemma Word16IsReadBack(m: seq<byte>, at: nat, w: word16)
    requires StandsAt(m, at, Le16(w))
    ensures Word16(m, at) == w
  {
    assert m[at] == m[at..at + 2][0] && m[at + 1] == m[at..at + 2][1];
  }

  lemma Word32IsReadBack(m: seq<byte>, at: nat, w: word32)
    requires StandsAt(m, at, Le32(w))
    ensures Word32(m, at) == w
  {
    PartStands(m, at, [], Le16(w % 0x1_0000), Le16(w / 0x1_0000));
    PartStands(m, at, Le16(w % 0x1_0000), Le16(w / 0x1_0000), []);
    Word16IsReadBack(m, at, w % 0x1_0000);
    Word16IsReadBack(m, at + 2, w / 0x1_0000);
  }

  lemma PartStands(m: seq<byte>, at: nat, before: seq<byte>, s: seq<byte>, after: seq<byte>)
    requires StandsAt(m, at, before + s + after)
    ensures StandsAt(m, at + |before|, s)
  {
    var all, part := before + s + after, m[at + |before|..at + |before| + |s|];
    assert m[at..at + |all|] == all;
    forall i | 0 <= i < |s| ensures part[i] == s[i] {
      assert part[i] == m[at + (|before| + i)] == m[at..at + |all|][|before| + i] == all[|before| + i];
    }
  }

  /** The ELF header is read back, at whatever index it stands. */
  lemma HeaderIsReadBack(m: seq<byte>, at: nat, h: ElfHeader)
    requires |h.elf| == 12 && StandsAt(m, at, HeaderBytes(h))
    ensures Magic(m, at) == h.magic && Entry(m, at) == h.entry
    ensures HeaderOffset(m, at) == h.phoff && HeaderCount(m, at) == h.phnum
  {
    hide Le32, Le16, Word32, Word16, StandsAt;
    StandingIsInside(m, at, HeaderBytes(h));
    var a := Le32(h.magic);
    var b := h.elf + Le16(h.kind) + Le16(h.machine) + Le32(h.version);
    var c, d := Le32(h.entry), Le32(h.phoff);
    var e := Le32(h.shoff) + Le32(h.flags) + Le16(h.ehsize) + Le16(h.phentsize);
    var f := Le16(h.phnum);
    var g := Le16(h.shentsize) + Le16(h.shnum) + Le16(h.shstrndx);
    assert HeaderBytes(h) == [] + a + (b + c + d + e + f + g) == (a + b) + c + (d + e + f + g)
        == (a + b + c) + d + (e + f + g) == (a + b + c + d + e) + f + g;
    PartStands(m, at, [], a, b + c + d + e + f + g);
    PartStands(m, at, a + b, c, d + e + f + g);
    PartStands(m, at, a + b + c, d, e + f + g);
    PartStands(m, at, a + b + c + d + e, f, g);
    Word32IsReadBack(m, at, h.magic);
    Word32IsReadBack(m, at + 24, h.entry);
    Word32IsReadBack(m, at + 28, h.phoff);
    Word16IsReadBack(m, at + 44, h.phnum);
  }

  lemma StandingIsInside(m: seq<byte>, at: nat, s: seq<byte>)
    requires StandsAt(m, at, s)
    ensures at + |s| <= |m|
  {}

  /** So is a program header. */
  lemma ProgramHeaderIsReadBack(m: seq<byte>, at: nat, p: ProgramHeader)
    requires StandsAt(m, at, ProgramHeaderBytes(p))
    ensures at + PROGHDR <= |m| && TypeAt(m, at) == p.kind
    ensures var g := SegmentAt(m, at); g.offset == p.offset && g.va == p.va && g.filesz == p.filesz && g.memsz == p.memsz
  {
    hide Le32, Le16, Word32, Word16, StandsAt;
    StandingIsInside(m, at, ProgramHeaderBytes(p));
    var a, b, c, d := Le32(p.kind), Le32(p.offset), Le32(p.va), Le32(p.pa);
    var e, f, g := Le32(p.filesz), Le32(p.memsz), Le32(p.flags) + Le32(p.align);
    assert ProgramHeaderBytes(p) == [] + a + (b + c + d + e + f + g) == a + b + (c + d + e + f + g)
        == (a + b) + c + (d + e + f + g) == (a + b + c + d) + e + (f + g) == (a + b + c + d + e) + f + g;
    PartStands(m, at, [], a, b + c + d + e + f + g);
    PartStands(m, at, a, b, c + d + e + f + g);
    PartStands(m, at, a + b, c, d + e + f + g);
    PartStands(m, at, a + b + c + d, e, f + g);
    PartStands(m, at, a + b + c + d + e, f, g);
    Word32IsReadBack(m, at, p.kind);
    Word32IsReadBack(m, at + 4, p.offset);
    Word32IsReadBack(m, at + 8, p.va);
    Word32IsReadBack(m, at + 16, p.filesz);
    Word32IsReadBack(m, at + 20, p.memsz);
  }

  /** Both loaders take just those images for ELF images that begin with 7F, 'E', 'L', 'F'. */
  lemma MagicIsFourBytes(m: seq<byte>, at: nat)
    requires at + ELF_SIZE <= |m|
    ensures Magic(m, at) == ELF_MAGIC <==> StandsAt(m, at, MAGIC_BYTES)
  {
    var four := m[at..at + 4];
    assert four[0] == m[at] && four[1] == m[at + 1] && four[2] == m[at + 2] && four[3] == m[at + 3];
  }

  // --- The kernel ------------------------------------------------------------------------------------

  function SegmentOf(p: ProgramHeader): Segment
  {
    Segment(p.offset, p.va, p.filesz, p.memsz)
  }

  /** A kernel as written: ELF, with its headers in its first page and its segments where the boot loader can put
      them. */
  ghost predicate WrittenKernel(kernel: seq<byte>, memory: nat, h: ElfHeader, phs: seq<ProgramHeader>)
  {
    && 0x1_1000 <= memory < ADDRESSES
    && IsElf(kernel, h, phs) && StandsAt(kernel, 0, MAGIC_BYTES) && h.phoff + 32 * |phs| <= 4096
    && (forall i :: 0 <= i < |phs| ==> GoodSegment(kernel, memory, SegmentOf(phs[i])))
    && (forall i, j :: 0 <= i < j < |phs| ==> Disjoint(SegmentOf(phs[i]), SegmentOf(phs[j])))
  }

  lemma StandsInPage(kernel: seq<byte>, at: nat, s: seq<byte>)
    requires StandsAt(kernel, at, s) && at + |s| <= PAGE
    ensures StandsAt(HeaderPage(kernel), at, s)
  {
    var page := HeaderPage(kernel);
    forall i | 0 <= i < |s| ensures page[at..at + |s|][i] == s[i] {
      assert page[at + i] == kernel[at + i] == kernel[at..at + |s|][i];
    }
  }

  lemma LoadedIsInPlace(m: seq<byte>, file: seq<byte>, p: ProgramHeader)
    requires Loaded(m, file, SegmentOf(p))
    ensures InPlace(m, file, p)
  {
    var there, here := m[p.va..p.va + p.filesz], file[p.offset..p.offset + p.filesz];
    forall k | 0 <= k < p.filesz ensures there[k] == here[k] {
      assert m[p.va + k] == file[p.offset + (p.va + k - p.va)];
    }
  }

  /** The boot loader's segments of a written kernel are those of its program headers. */
  lemma WrittenSegments(kernel: seq<byte>, memory: nat, h: ElfHeader, phs: seq<ProgramHeader>)
    requires WrittenKernel(kernel, memory, h, phs)
    ensures Bootable(kernel, memory) && Entry(HeaderPage(kernel), 0) == h.entry
    ensures HeaderOffset(HeaderPage(kernel), 0) + PROGHDR * HeaderCount(HeaderPage(kernel), 0) <= PAGE
    ensures var gs := Segments(HeaderPage(kernel));
            |gs| == |phs| && forall i :: 0 <= i < |phs| ==> gs[i] == SegmentOf(phs[i])
  {
    hide HeaderBytes, ProgramHeaderBytes, StandsAt, GoodSegment, Disjoint, HeaderPage, SegmentAt, Magic, Entry,
      HeaderOffset, HeaderCount;
    var page := HeaderPage(kernel);
    StandsInPage(kernel, 0, HeaderBytes(h));
    StandsInPage(kernel, 0, MAGIC_BYTES);
    HeaderIsReadBack(page, 0, h);
    MagicIsFourBytes(page, 0);
    forall i | 0 <= i < |phs| ensures Segments(page)[i] == SegmentOf(phs[i]) {
      StandsInPage(kernel, h.phoff + 32 * i, ProgramHeaderBytes(phs[i]));
      ProgramHeaderIsReadBack(page, h.phoff + 32 * i, phs[i]);
    }
  }

  /** Neither the header page nor a sector read for a segment, nor the memory cleared for it, contains address a. */
  predicate OutsideKernel(phs: seq<ProgramHeader>, a: int)
  {
    !(0x1_0000 <= a < 0x1_1000) && forall i :: 0 <= i < |phs| ==> !InFootprint(SegmentOf(phs[i]), a)
  }

  /** From the linker to memory: building a disk image from a kernel so written and booting from it puts each segment
      in place, clears what its program header asks for beyond the file, changes nothing outside the header page and
      the segments' sectors, and jumps to the entry point its ELF header names. */
  lemma WrittenKernelBoots(boot: seq<byte>, kernel: seq<byte>, mem: seq<byte>, h: ElfHeader, phs: seq<ProgramHeader>)
    requires |boot| <= 510 && WrittenKernel(kernel, |mem|, h, phs)
    ensures Image(boot, [File(kernel)]).Some?
    ensures var after := AfterBoot(mem, Image(boot, [File(kernel)]).value);
            && after.Some? && after.value.entry == Some(h.entry)
            && (forall i :: 0 <= i < |phs| ==> InPlace(after.value.memory, kernel, phs[i]))
            && forall a :: 0 <= a < |mem| && OutsideKernel(phs, a) ==> after.value.memory[a] == mem[a]
  {
    hide AfterBoot, Loaded, InPlace, Bootable, WrittenKernel, HeaderPage, InFootprint, Image;
    WrittenSegments(kernel, |mem|, h, phs);
    BuildThenBoot(boot, kernel, mem);
    var m := AfterBoot(mem, Image(boot, [File(kernel)]).value).value.memory;
    var gs := Segments(HeaderPage(kernel));
    forall i | 0 <= i < |phs| ensures InPlace(m, kernel, phs[i]) {
      assert Loaded(m, kernel, gs[i]);
      LoadedIsInPlace(m, kernel, phs[i]);
    }
  }

  /** A disk whose kernel file begins with other bytes is refused. */
  lemma OtherKernelIsRefused(boot: seq<byte>, kernel: seq<byte>, mem: seq<byte>)
    requires |boot| <= 510 && 0x1_1000 <= |mem| < ADDRESSES && !StandsAt(kernel, 0, MAGIC_BYTES)
    ensures Image(boot, [File(kernel)]).Some?
    ensures var after := AfterBoot(mem, Image(boot, [File(kernel)]).value);
            after.Some? && after.value.entry == None
  {
    hide Image, Magic, HoldsKernel, HeaderPage, MAGIC_BYTES;
    BuiltImageHoldsKernel(boot, kernel);
    var disk, page := Image(boot, [File(kernel)]).value, HeaderPage(kernel);
    HeaderIsRead(mem, disk, kernel);
    PageFields(AfterHeader(mem, disk), page);
    MagicIsFourBytes(page, 0);
    if Magic(page, 0) == ELF_MAGIC {
      PageStartsLikeKernel(kernel);
    }
  }

  lemma PageStartsLikeKernel(kernel: seq<byte>)
    requires StandsAt(HeaderPage(kernel), 0, MAGIC_BYTES)
    ensures StandsAt(kernel, 0, MAGIC_BYTES)
  {
    var page := HeaderPage(kernel);
    assert page[0..4][0] == page[0] && page[0..4][1] == page[1] && page[0..4][2] == page[2] && page[0..4][3] == page[3];
    assert FileByte(kernel, 3) == 0x46;
    assert kernel[0..4] == MAGIC_BYTES;
  }

  // --- The applications ------------------------------------------------------------------------------

  /** The program header asks for its segment to be loaded: PT_LOAD. */
  predicate AsksForLoading(p: ProgramHeader)
  {
    p.kind == 1
  }

  /** An application as written: ELF, its loadable segments at page boundaries, apart from each other and from the image
      itself, with the image reaching as far as their bytes. */
  predicate WrittenApplication(memory: nat, r: RamImage, image: seq<byte>, h: ElfHeader, phs: seq<ProgramHeader>)
  {
    && IsElf(image, h, phs) && StandsAt(image, 0, MAGIC_BYTES) && memory < ADDRESSES
    && (forall i :: 0 <= i < |phs| && AsksForLoading(phs[i]) ==>
          && phs[i].va % 4096 == 0 && phs[i].offset + phs[i].filesz <= |image|
          && phs[i].va + phs[i].filesz <= memory && phs[i].va + phs[i].memsz <= memory
          && Clear(SegmentOf(phs[i]), r))
    && (forall i, j :: 0 <= i < j < |phs| && AsksForLoading(phs[i]) && AsksForLoading(phs[j]) ==>
          Apart(SegmentOf(phs[i]), SegmentOf(phs[j])))
  }

  /** The loadable segments of the program headers from index j on. */
  function AskedFor(phs: seq<ProgramHeader>, j: nat): (gs: seq<Segment>)
    decreases |phs| - j
  {
    if j >= |phs| then []
    else (if AsksForLoading(phs[j]) then [SegmentOf(phs[j])] else []) + AskedFor(phs, j + 1)
  }

  lemma {:induction false} LoadableAreAskedFor(image: seq<byte>, h: ElfHeader, phs: seq<ProgramHeader>, j: nat)
    requires IsElf(image, h, phs) && j <= |phs|
    ensures Loadable(image, h.phoff, j, |phs|) == AskedFor(phs, j)
    decreases |phs| - j
  {
    hide HeaderBytes, ProgramHeaderBytes, StandsAt, SegmentAt, TypeAt;
    if j < |phs| {
      ProgramHeaderIsReadBack(image, h.phoff + 32 * j, phs[j]);
      LoadableAreAskedFor(image, h, phs, j + 1);
    }
  }

  lemma {:induction false} AskedForComesFrom(phs: seq<ProgramHeader>, j: nat, k: nat) returns (i: nat)
    requires k < |AskedFor(phs, j)|
    ensures j <= i < |phs| && AsksForLoading(phs[i]) && AskedFor(phs, j)[k] == SegmentOf(phs[i])
    decreases |phs| - j
  {
    if AsksForLoading(phs[j]) && k == 0 {
      i := j;
    } else {
      i := AskedForComesFrom(phs, j + 1, if AsksForLoading(phs[j]) then k - 1 else k);
    }
  }

  lemma {:induction false} AskedForIsComplete(phs: seq<ProgramHeader>, j: nat, i: nat)
    requires j <= i < |phs| && AsksForLoading(phs[i])
    ensures SegmentOf(phs[i]) in AskedFor(phs, j)
    decreases |phs| - j
  {
    if j < i {
      AskedForIsComplete(phs, j + 1, i);
    }
  }

  lemma WrittenFits(memory: nat, r: RamImage, image: seq<byte>, h: ElfHeader, phs: seq<ProgramHeader>, i: nat)
    requires WrittenApplication(memory, r, image, h, phs) && i < |phs| && AsksForLoading(phs[i])
    ensures Fits(memory, |image|, SegmentOf(phs[i])) && SegmentOf(phs[i]).va % PAGE == 0
  {
    hide IsElf, Clear, Apart;
  }

  lemma {:induction false} AskedForAreLinked(memory: nat, r: RamImage, image: seq<byte>, h: ElfHeader,
                                             phs: seq<ProgramHeader>, j: nat)
    requires WrittenApplication(memory, r, image, h, phs) && j <= |phs|
    ensures AllFit(memory, |image|, AskedFor(phs, j)) && Linked(AskedFor(phs, j))
    decreases |phs| - j
  {
    hide IsElf, StandsAt, Clear, Apart, Fits;
    if j < |phs| {
      if AsksForLoading(phs[j]) {
        WrittenFits(memory, r, image, h, phs, j);
      }
      AskedForAreLinked(memory, r, image, h, phs, j + 1);
      var rest := AskedFor(phs, j + 1);
      forall k | 0 <= k < |rest| && AsksForLoading(phs[j]) ensures Apart(SegmentOf(phs[j]), rest[k]) {
        var i := AskedForComesFrom(phs, j + 1, k);
      }
    }
  }

  /** No segment that is to be loaded occupies address a. */
  predicate OutsideProgram(phs: seq<ProgramHeader>, a: int)
  {
    forall i :: 0 <= i < |phs| && AsksForLoading(phs[i]) ==> !Holds(SegmentOf(phs[i]), a)
  }

  /** From the linker to memory: an application so written is chosen, can be loaded, and is: each segment whose program
      header has type 1 is in place, what it asks for beyond the file is cleared, nothing else changes, and the entry
      point is the one its ELF header names. */
  lemma WrittenApplicationIsLoaded(mem: seq<byte>, images: seq<RamImage>, program: nat, h: ElfHeader,
                                   phs: seq<ProgramHeader>)
    requires program < |images| && forall i :: 0 <= i < |images| ==> InMemory(images[i], |mem|)
    requires WrittenApplication(|mem|, images[program], ImageOf(mem, images[program]), h, phs)
    ensures Chosen(mem, images, program)
    ensures var image := ImageOf(mem, images[program]);
            && ImageFits(|mem|, images[program], image, HeaderOffset(image, 0), HeaderCount(image, 0))
            && AllFit(|mem|, |image|, SegmentsOf(image)) && Entry(image, 0) == h.entry
            && var m := AfterCopies(mem, image, SegmentsOf(image));
            && (forall i :: 0 <= i < |phs| && AsksForLoading(phs[i]) ==> InPlace(m, image, phs[i]))
            && forall a :: 0 <= a < |mem| && OutsideProgram(phs, a) ==> m[a] == mem[a]
  {
    hide HeaderBytes, ProgramHeaderBytes, StandsAt, Loaded, InPlace, AfterCopies, Holds, Fits, Apart, Clear, SegmentAt;
    var image := ImageOf(mem, images[program]);
    HeaderIsReadBack(image, 0, h);
    MagicIsFourBytes(image, 0);
    LoadableAreAskedFor(image, h, phs, 0);
    AskedForAreLinked(|mem|, images[program], image, h, phs, 0);
    HeadersFit(|mem|, images[program], image, h, phs);
    var gs := SegmentsOf(image);
    assert gs == AskedFor(phs, 0);
    CopiesLoadTheProgram(mem, image, gs);
    var m := AfterCopies(mem, image, gs);
    forall i | 0 <= i < |phs| && AsksForLoading(phs[i]) ensures InPlace(m, image, phs[i]) {
      AskedForIsComplete(phs, 0, i);
      LoadedIsInPlace(m, image, phs[i]);
    }
    forall a | 0 <= a < |mem| && OutsideProgram(phs, a) ensures m[a] == mem[a] {
      forall k | 0 <= k < |gs| ensures !Holds(gs[k], a) {
        var i := AskedForComesFrom(phs, 0, k);
      }
    }
  }

  lemma HeadersFit(memory: nat, r: RamImage, image: seq<byte>, h: ElfHeader, phs: seq<ProgramHeader>)
    requires WrittenApplication(memory, r, image, h, phs)
    ensures ImageFits(memory, r, image, h.phoff, |phs|)
  {
    hide HeaderBytes, ProgramHeaderBytes, StandsAt, Clear, SegmentAt, TypeAt, Fits;
    forall i | 0 <= i < |phs| && TypeAt(image, h.phoff + PROGHDR * i) == ELF_PROG_LOAD
      ensures Fits(memory, |image|, SegmentAt(image, h.phoff + PROGHDR * i))
      ensures Clear(SegmentAt(image, h.phoff + PROGHDR * i), r)
    {
      ProgramHeaderIsReadBack(image, h.phoff + 32 * i, phs[i]);
      WrittenFits(memory, r, image, h, phs, i);
      assert SegmentAt(image, h.phoff + PROGHDR * i) == SegmentOf(phs[i]);
    }
  }

  /** Which programs are refused: those there are not, and those whose image does not begin with the magic bytes. */
  lemma ChosenExactlyWhen(mem: seq<byte>, images: seq<RamImage>, program: int)
    requires forall i :: 0 <= i < |images| ==> InMemory(images[i], |mem|)
    ensures Chosen(mem, images, program)
       <==> 0 <= program < |images| && StandsAt(ImageOf(mem, images[program]), 0, MAGIC_BYTES)
  {
    if 0 <= program < |images| {
      MagicIsFourBytes(ImageOf(mem, images[program]), 0);
    }
  }

  /** After a refusal the upper left cell of the screen shows a '!' in colour 7, and nothing else has changed. */
  lemma PanicShowsMark(mem: seq<byte>)
    requires CONSOLE + 2 <= |mem|
    ensures var m := Panicked(mem);
            && |m| == |mem| && Word16(m, 0xB_8000) == '!' as int + 0x700
            && forall a :: 0 <= a < |mem| && a != 0xB_8000 && a != 0xB_8001 ==> m[a] == mem[a]
  {}
}
