/** Where the files of a disk image lie, for any list of files and @X arguments. */
module ImageLayout {
  import opened Wrappers
  import opened DiskImage

  /** The image before argument i. */
  function Before(boot: seq<byte>, arguments: seq<Argument>, i: nat): (r: Option<seq<byte>>)
    requires |boot| <= 510 && i <= |arguments|
    ensures r.Some? ==> |r.value| % SECTOR == 0
  {
    Extended(BootSector(boot), arguments[..i])
  }

  lemma {:induction false} ExtendedSplits(image: seq<byte>, arguments: seq<Argument>, i: nat)
    requires |image| % SECTOR == 0 && i <= |arguments|
    ensures var p := Extended(image, arguments[..i]);
            Extended(image, arguments) == if p.Some? then Extended(p.value, arguments[i..]) else None
    decreases i
  {
    hide Zeros, Padded;
    if i == 0 {
      assert arguments[0..] == arguments;
    } else {
      assert arguments[..i][1..] == arguments[1..][..i - 1] && arguments[1..][i - 1..] == arguments[i..];
      match arguments[0] {
        case SkipTo(sector) =>
          if |image| / SECTOR <= sector {
            ExtendedSplits(image + Zeros(SECTOR * (sector - |image| / SECTOR)), arguments[1..], i - 1);
          }
        case File(data) =>
          ExtendedSplits(image + Padded(data), arguments[1..], i - 1);
      }
    }
  }

  /** What argument i adds. */
  lemma ArgumentExtends(boot: seq<byte>, arguments: seq<Argument>, i: nat)
    requires |boot| <= 510 && i < |arguments| && Before(boot, arguments, i).Some?
    ensures var p, q := Before(boot, arguments, i).value, Before(boot, arguments, i + 1);
            match arguments[i]
            case File(data) => q == Some(p + Padded(data))
            case SkipTo(sector) =>
              if |p| > SECTOR * sector then q == None else q.Some? && p <= q.value && |q.value| == SECTOR * sector
  {
    var init := arguments[..i + 1];
    assert init[..i] == arguments[..i] && init[i..] == [arguments[i]];
    ExtendedSplits(BootSector(boot), init, i);
    assert [arguments[i]][1..] == [];
    var p := Before(boot, arguments, i).value;
    assert |p| == SECTOR * (|p| / SECTOR);
  }

  /** Where a file begins: right after the boot sector, at sector X after an argument @X, and otherwise after the
      file before it, filled up to a sector. */
  lemma FileBegins(boot: seq<byte>, arguments: seq<Argument>, i: nat)
    requires |boot| <= 510 && i < |arguments| && arguments[i].File? && Before(boot, arguments, i).Some?
    ensures var at := |Before(boot, arguments, i).value|;
            && at % SECTOR == 0
            && (i == 0 ==> at == SECTOR)
            && (i > 0 ==> Before(boot, arguments, i - 1).Some?)
            && (i > 0 && arguments[i - 1].SkipTo? ==> at == SECTOR * arguments[i - 1].sector)
            && (i > 0 && arguments[i - 1].File? ==>
                  at == |Before(boot, arguments, i - 1).value| + |Padded(arguments[i - 1].data)|)
  {
    if i > 0 {
      ExtendedSplits(BootSector(boot), arguments[..i], i - 1);
      assert arguments[..i][..i - 1] == arguments[..i - 1];
      ArgumentExtends(boot, arguments, i - 1);
    }
  }

  /** Every file of the finished image stands whole where it begins, with zeros up to the next sector. */
  lemma FileIsOnDisk(boot: seq<byte>, arguments: seq<Argument>, i: nat)
    requires Image(boot, arguments).Some? && i < |arguments| && arguments[i].File?
    ensures |boot| <= 510 && Before(boot, arguments, i).Some?
    ensures var disk, at := Image(boot, arguments).value, |Before(boot, arguments, i).value|;
            var data, padded := arguments[i].data, Padded(arguments[i].data);
            && at + |padded| <= |disk| && disk[at..at + |padded|] == padded
            && padded[..|data|] == data && forall k :: |data| <= k < |padded| ==> padded[k] == 0
  {
    var sector := BootSector(boot);
    ExtendedSplits(sector, arguments, i);
    ExtendedSplits(sector, arguments, i + 1);
    ArgumentExtends(boot, arguments, i);
    var p, q, e := Before(boot, arguments, i).value, Before(boot, arguments, i + 1).value, Extended(sector, arguments).value;
    assert q <= e <= Image(boot, arguments).value;
    assert q[|p|..|q|] == Padded(arguments[i].data);
    assert Image(boot, arguments).value[..|q|] == q;
  }

  // --- The bytes of no file --------------------------------------------------------------------------

  /** Byte k of the image is a byte of the file that argument i names. */
  predicate InFile(boot: seq<byte>, arguments: seq<Argument>, i: int, k: int)
    requires |boot| <= 510
  {
    && 0 <= i < |arguments| && arguments[i].File? && Before(boot, arguments, i).Some?
    && var at := |Before(boot, arguments, i).value|;
       at <= k < at + |arguments[i].data|
  }

  /** The boot sector: the code, zeros, and the signature. */
  lemma BootSectorBytes(boot: seq<byte>, k: nat)
    requires |boot| <= 510 && k < 512
    ensures |BootSector(boot)| == 512
    ensures BootSector(boot)[k] == if k < |boot| then boot[k] else if k < 510 then 0 else if k == 510 then 0x55 else 0xAA
  {}

  /** The image before argument i is the boot sector, the files so far, and zeros. */
  lemma {:induction false} ZerosBetweenFiles(boot: seq<byte>, arguments: seq<Argument>, i: nat, k: nat)
    requires |boot| <= 510 && i <= |arguments| && Before(boot, arguments, i).Some?
    requires 512 <= k < |Before(boot, arguments, i).value|
    requires forall j :: 0 <= j < i ==> !InFile(boot, arguments, j, k)
    ensures Before(boot, arguments, i).value[k] == 0
    decreases i
  {
    hide Extended;
    if i == 0 {
      NothingYet(boot, arguments);
    } else {
      EarlierIsSome(boot, arguments, i - 1);
      ArgumentExtends(boot, arguments, i - 1);
      if arguments[i - 1].SkipTo? {
        SkippedAreZeros(boot, arguments, i - 1);
      }
      var p, q := Before(boot, arguments, i - 1).value, Before(boot, arguments, i).value;
      if k < |p| {
        ZerosBetweenFiles(boot, arguments, i - 1, k);
        assert q[..|p|] == p;
      } else if arguments[i - 1].File? {
        assert !InFile(boot, arguments, i - 1, k);
        assert q[k] == Padded(arguments[i - 1].data)[k - |p|];
      }
    }
  }

  lemma NothingYet(boot: seq<byte>, arguments: seq<Argument>)
    requires |boot| <= 510
    ensures Before(boot, arguments, 0) == Some(BootSector(boot))
  {}

  lemma EarlierIsSome(boot: seq<byte>, arguments: seq<Argument>, i: nat)
    requires |boot| <= 510 && i < |arguments| && Before(boot, arguments, i + 1).Some?
    ensures Before(boot, arguments, i).Some?
  {
    ExtendedSplits(BootSector(boot), arguments[..i + 1], i);
    assert arguments[..i + 1][..i] == arguments[..i];
  }

  lemma SkippedAreZeros(boot: seq<byte>, arguments: seq<Argument>, i: nat)
    requires |boot| <= 510 && i < |arguments| && Before(boot, arguments, i + 1).Some? && arguments[i].SkipTo?
    ensures Before(boot, arguments, i).Some?
    ensures var p, q := Before(boot, arguments, i).value, Before(boot, arguments, i + 1).value;
            p <= q && forall k :: |p| <= k < |q| ==> q[k] == 0
  {
    var init := arguments[..i + 1];
    assert init[..i] == arguments[..i] && init[i..] == [arguments[i]];
    ExtendedSplits(BootSector(boot), init, i);
    assert [arguments[i]][1..] == [];
  }

  /** Every byte of every image: boot code, zeros and signature in sector 0, and after it zeros wherever no file stands
      (FileIsOnDisk says what is there where one does). Its length is 1024 sectors, or what boot sector
      and arguments ask for when that is more. */
  lemma BytesOfNoFile(boot: seq<byte>, arguments: seq<Argument>, k: nat)
    requires Image(boot, arguments).Some? && k < |Image(boot, arguments).value|
    ensures |boot| <= 510 && Before(boot, arguments, |arguments|).Some?
    ensures var disk, content := Image(boot, arguments).value, |Before(boot, arguments, |arguments|).value|;
            && |disk| == (if content <= 1024 * 512 then 1024 * 512 else content)
            && (k < |boot| ==> disk[k] == boot[k])
            && (|boot| <= k < 510 ==> disk[k] == 0)
            && (k == 510 ==> disk[k] == 0x55) && (k == 511 ==> disk[k] == 0xAA)
            && (512 <= k && (forall i :: 0 <= i < |arguments| ==> !InFile(boot, arguments, i, k)) ==> disk[k] == 0)
  {
    hide Extended;
    assert arguments[..|arguments|] == arguments;
    var all, disk := Before(boot, arguments, |arguments|).value, Image(boot, arguments).value;
    assert disk == Filled(all);
    if k < 512 {
      StartsWithBootSector(boot, arguments);
      BootSectorBytes(boot, k);
      assert disk[k] == all[k] == all[..512][k];
    } else if k < |all| && forall i :: 0 <= i < |arguments| ==> !InFile(boot, arguments, i, k) {
      ZerosBetweenFiles(boot, arguments, |arguments|, k);
    }
  }

  lemma StartsWithBootSector(boot: seq<byte>, arguments: seq<Argument>)
    requires |boot| <= 510 && Extended(BootSector(boot), arguments).Some?
    ensures BootSector(boot) <= Extended(BootSector(boot), arguments).value
  {}

  /** The arguments are refused exactly when the boot code is too long or an @X lies before what is written. */
  lemma {:induction false} RefusedExactlyWhen(boot: seq<byte>, arguments: seq<Argument>)
    requires |boot| <= 510
    ensures Image(boot, arguments).None? <==>
            exists i :: 0 <= i < |arguments| && arguments[i].SkipTo? && Before(boot, arguments, i).Some?
                        && |Before(boot, arguments, i).value| > SECTOR * arguments[i].sector
  {
    assert arguments[..|arguments|] == arguments;
    if Image(boot, arguments).None? {
      FirstRefused(boot, arguments, |arguments|);
    }
    if i :| 0 <= i < |arguments| && arguments[i].SkipTo? && Before(boot, arguments, i).Some?
            && |Before(boot, arguments, i).value| > SECTOR * arguments[i].sector {
      ArgumentExtends(boot, arguments, i);
      ExtendedSplits(BootSector(boot), arguments, i + 1);
    }
  }

  lemma {:induction false} FirstRefused(boot: seq<byte>, arguments: seq<Argument>, n: nat)
    requires |boot| <= 510 && n <= |arguments| && Before(boot, arguments, n).None?
    ensures exists i :: 0 <= i < n && arguments[i].SkipTo? && Before(boot, arguments, i).Some?
                        && |Before(boot, arguments, i).value| > SECTOR * arguments[i].sector
  {
    if n > 0 {
      if Before(boot, arguments, n - 1).None? {
        FirstRefused(boot, arguments, n - 1);
      } else {
        ArgumentExtends(boot, arguments, n - 1);
      }
    }
  }
}
