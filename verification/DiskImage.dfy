/** mkbootdisk.c: the disk image built from a boot sector and files, written in pieces of any size. */
module DiskImage {
  import opened Wrappers

  newtype byte = x: int | 0 <= x < 256

  const SECTOR: nat := 512
  const IMAGE_SECTORS: nat := 1024
  const BUFFER: nat := 4096

  /** An argument after the boot sector file: @X, or the contents of the file it names. */
  datatype Argument = SkipTo(sector: nat) | File(data: seq<byte>)

  // --- The image -------------------------------------------------------------------------------------

  function Zeros(n: int): (s: seq<byte>)
    ensures |s| == if n > 0 then n else 0
    ensures forall i :: 0 <= i < |s| ==> s[i] == 0
  {
    if n <= 0 then [] else seq(n, i => 0)
  }

  /** The boot code, zeros up to byte 510, and the signature the BIOS looks for. */
  function BootSector(boot: seq<byte>): (s: seq<byte>)
    requires |boot| <= 510
    ensures |s| == SECTOR
  {
    boot + Zeros(510 - |boot|) + [0x55, 0xAA]
  }

  /** A file, filled up to a whole number of sectors. */
  function Padded(data: seq<byte>): (s: seq<byte>)
    ensures |s| % SECTOR == 0 && |data| <= |s| < |data| + SECTOR
  {
    if |data| % SECTOR != 0 then data + Zeros(SECTOR - |data| % SECTOR) else data
  }

  /** The image after the remaining arguments: None when one asks to skip to a sector already passed. */
  function Extended(image: seq<byte>, arguments: seq<Argument>): (r: Option<seq<byte>>)
    requires |image| % SECTOR == 0
    ensures r.Some? ==> |r.value| % SECTOR == 0 && image <= r.value
    decreases |arguments|
  {
    if arguments == [] then Some(image)
    else match arguments[0]
      case SkipTo(sector) =>
        if |image| / SECTOR > sector then None
        else Extended(image + Zeros(SECTOR * (sector - |image| / SECTOR)), arguments[1..])
      case File(data) => Extended(image + Padded(data), arguments[1..])
  }

  function Filled(image: seq<byte>): seq<byte>
  {
    image + Zeros(SECTOR * IMAGE_SECTORS - |image|)
  }

  /** The whole image, or None when the arguments are refused. */
  function Image(boot: seq<byte>, arguments: seq<Argument>): (r: Option<seq<byte>>)
    ensures r.Some? ==> |r.value| % SECTOR == 0 && SECTOR * IMAGE_SECTORS <= |r.value|
  {
    if |boot| > 510 then None
    else
      var e := Extended(BootSector(boot), arguments);
      if e.Some? then Some(Filled(e.value)) else None
  }

  // --- Writing it ------------------------------------------------------------------------------------

  /** Standard output. failed tells that a write has come back with 0 or an error other than EINTR;
      interruptions bounds how often write() may still return early with EINTR. */
  class Disk {
    var contents: seq<byte>
    var failed: bool
    var interruptions: nat

    constructor (interruptions: nat)
      ensures contents == [] && !failed && this.interruptions == interruptions
    {
      contents := [];
      failed := false;
      this.interruptions := interruptions;
    }

    /** write(): some of the data, nothing (0), or an error (-1), which may be an interruption. The device
        decides which. */
    method Write(data: seq<byte>) returns (w: int, interrupted: bool)
      requires data != []
      modifies this
      ensures -1 <= w <= |data|
      ensures contents == old(contents) + data[..if w > 0 then w else 0]
      ensures interrupted ==> w == -1 && interruptions < old(interruptions)
      ensures interruptions <= old(interruptions)
      ensures failed == (old(failed) || w == 0 || (w == -1 && !interrupted))
    {
      w :| -1 <= w <= |data|;
      interrupted :| interrupted ==> w == -1 && interruptions > 0;
      if interrupted {
        interruptions := interruptions - 1;
      }
      failed := failed || w == 0 || (w == -1 && !interrupted);
      contents := contents + data[..if w > 0 then w else 0];
    }
  }

  class ImageWriter {
    const disk: Disk
    var curoff: nat
    const buf: array<byte>

    constructor (disk: Disk)
      ensures this.disk == disk && curoff == 0 && buf.Length == BUFFER && fresh(buf)
    {
      this.disk := disk;
      curoff := 0;
      buf := new byte[BUFFER](i => 0);
    }

    /** Writes all of the data however the device splits it. False is the program's exit with an error, and
        only a failing device leads to it. */
    method DiskWrite(data: seq<byte>) returns (ok: bool)
      requires !disk.failed
      modifies this`curoff, disk
      ensures ok <==> !disk.failed
      ensures ok ==> disk.contents == old(disk.contents) + data && curoff == old(curoff) + |data|
      ensures old(disk.contents) <= disk.contents <= old(disk.contents) + data
    {
      var rest := data;
      while |rest| > 0
        invariant !disk.failed && disk.contents + rest == old(disk.contents) + data
        invariant curoff + |rest| == old(curoff) + |data|
        invariant old(disk.contents) <= disk.contents
        decreases |rest|, disk.interruptions
      {
        var w, interrupted := disk.Write(rest);
        if w == -1 && !interrupted {
          return false;
        } else if w == 0 {
          return false;
        } else if w > 0 {
          curoff := curoff + w;
          assert rest == rest[..w] + rest[w..];
          rest := rest[w..];
        }
      }
      ok := true;
    }

    method WriteZeroSectors(from: nat, to: nat) returns (ok: bool)
      requires !disk.failed
      modifies this`curoff, disk
      ensures ok <==> !disk.failed
      ensures ok ==> disk.contents == old(disk.contents) + Zeros(SECTOR * (to - from))
      ensures ok ==> curoff == old(curoff) + |Zeros(SECTOR * (to - from))|
    {
      var nsectors := from;
      assert from >= to ==> Zeros(SECTOR * (to - from)) == [];
      while nsectors < to
        invariant !disk.failed && from <= nsectors && (nsectors <= to || nsectors == from)
        invariant disk.contents == old(disk.contents) + Zeros(SECTOR * (nsectors - from))
        invariant curoff == old(curoff) + SECTOR * (nsectors - from)
      {
        ok := DiskWrite(Zeros(SECTOR));
        if !ok {
          return;
        }
        assert Zeros(SECTOR * (nsectors - from)) + Zeros(SECTOR) == Zeros(SECTOR * (nsectors + 1 - from));
        nsectors := nsectors + 1;
      }
      ok := true;
    }

    /** Copies a file in pieces of at most 4096 bytes and fills up its last sector. */
    method WriteFile(file: seq<byte>) returns (ok: bool, sectors: nat)
      requires !disk.failed
      modifies this`curoff, disk
      ensures ok <==> !disk.failed
      ensures ok ==> disk.contents == old(disk.contents) + Padded(file) && sectors * SECTOR == |Padded(file)|
      ensures ok ==> curoff == old(curoff) + |Padded(file)|
    {
      var pos := 0;
      sectors := 0;
      while pos < |file|
        invariant !disk.failed && pos <= |file| && disk.contents == old(disk.contents) + file[..pos]
        invariant curoff == old(curoff) + pos
      {
        var n := if |file| - pos < BUFFER then |file| - pos else BUFFER;
        ok := DiskWrite(file[pos..pos + n]);
        if !ok {
          return;
        }
        assert file[..pos] + file[pos..pos + n] == file[..pos + n];
        pos := pos + n;
      }
      assert file[..pos] == file;
      if pos % SECTOR != 0 {
        ok := DiskWrite(Zeros(SECTOR - pos % SECTOR));
        if !ok {
          return;
        }
        pos := pos + (SECTOR - pos % SECTOR);
      }
      sectors := pos / SECTOR;
      ok := true;
    }

    method WriteBootSector(boot: seq<byte>) returns (ok: bool)
      requires buf.Length == BUFFER && !disk.failed
      modifies this`curoff, disk, buf
      ensures ok <==> |boot| <= 510 && !disk.failed
      ensures ok ==> disk.contents == old(disk.contents) + BootSector(boot) && curoff == old(curoff) + SECTOR
    {
      var n := if |boot| < BUFFER then |boot| else BUFFER;
      for i := 0 to n
        invariant forall j :: 0 <= j < i ==> buf[j] == boot[j]
        modifies buf
      {
        buf[i] := boot[i];
      }
      if n > 510 {
        return false;
      }
      for i := n to 510
        invariant forall j :: 0 <= j < i ==> buf[j] == if j < n then boot[j] else 0
        modifies buf
      {
        buf[i] := 0;
      }
      buf[510], buf[511] := 0x55, 0xAA;
      assert buf[..SECTOR] == BootSector(boot);
      ok := DiskWrite(buf[..SECTOR]);
    }

    /** main(): the image on standard output, unless the arguments are refused or the device fails. */
    method Build(boot: seq<byte>, arguments: seq<Argument>) returns (ok: bool)
      requires buf.Length == BUFFER && disk.contents == [] && !disk.failed && curoff == 0
      modifies this`curoff, disk, buf
      ensures ok <==> Image(boot, arguments).Some? && !disk.failed
      ensures ok ==> Image(boot, arguments) == Some(disk.contents) && curoff == |disk.contents|
    {
      hide Padded, BootSector, Zeros;
      ok := WriteBootSector(boot);
      if !ok {
        return;
      }
      var nsectors := 1;
      var i := 0;
      assert arguments[0..] == arguments && disk.contents == BootSector(boot);
      while i < |arguments|
        invariant i <= |arguments| && curoff == |disk.contents| == nsectors * SECTOR && |boot| <= 510 && !disk.failed
        invariant Extended(disk.contents, arguments[i..]) == Extended(BootSector(boot), arguments)
        decreases |arguments| - i
      {
        assert arguments[i..][1..] == arguments[i + 1..];
        match arguments[i] {
          case SkipTo(sector) =>
            if nsectors > sector {
              return false;
            }
            ok := WriteZeroSectors(nsectors, sector);
            if !ok {
              return;
            }
            nsectors := sector;
          case File(data) =>
            var sectors;
            ok, sectors := WriteFile(data);
            if !ok {
              return;
            }
            nsectors := nsectors + sectors;
        }
        i := i + 1;
      }
      ok := WriteZeroSectors(nsectors, IMAGE_SECTORS);
    }
  }
}
