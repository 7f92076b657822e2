/** Formatting a device and mounting it. */
module FatFormat {
  import opened Bytes
  import opened Device
  import opened FatTable
  import opened FatGeometry
  import opened FatWindow
  import opened Chains
  import opened FormatPlan
  import opened FormatLimits
  import opened BootSector
  import opened FatVolumes

  /** The first sector of the working buffer. */
  ghost function First(buf: array<byte>): (w: seq<byte>)
    requires 512 <= buf.Length
    reads buf
    ensures |w| == 512
  {
    buf[..512]
  }

  method Put(buf: array<byte>, at: nat, d: seq<byte>)
    requires 512 <= buf.Length && at + |d| <= 512
    modifies buf
    ensures First(buf) == Splice(old(First(buf)), at, d)
    ensures forall i :: 512 <= i < buf.Length ==> buf[i] == old(buf[i])
  {
    forall i | 0 <= i < |d| {
      buf[at + i] := d[i];
    }
  }

  method Clear(buf: array<byte>, n: nat)
    requires 512 <= n <= buf.Length
    modifies buf
    ensures First(buf) == Blank(512)
    ensures buf[..n] == Blank(n)
    ensures forall i :: n <= i < buf.Length ==> buf[i] == old(buf[i])
  {
    forall i | 0 <= i < n {
      buf[i] := 0;
    }
    assert buf[..512] == Blank(512);
  }

  /** Fills in the common fields of the boot sector. */
  method PutCommon(buf: array<byte>, c: Layout, szVol: nat)
    requires 512 <= buf.Length && c.pau < 256 && |JUMP| == 11
    modifies buf
    ensures First(buf) == CommonFields(c, szVol)
  {
    hide Splice, First, WordBytes, DwordBytes;
    Clear(buf, 512);
    Put(buf, 0, JUMP);
    Put(buf, 11, WordBytes(512));
    Put(buf, 13, [c.pau]);
    Put(buf, 14, WordBytes(c.szRsv));
    Put(buf, 16, [1]);
    Put(buf, 17, WordBytes(if c.fmt.FAT32? then 0 else 512));
    if szVol < 0x1_0000 {
      Put(buf, 19, WordBytes(szVol));
    } else {
      Put(buf, 32, DwordBytes(szVol));
    }
    Put(buf, 21, [0xF8]);
    Put(buf, 24, WordBytes(63));
    Put(buf, 26, WordBytes(255));
    Put(buf, 28, DwordBytes(0));
  }

  /** Fills in the fields of the FAT type and the signature. */
  method PutType(buf: array<byte>, c: Layout, vsn: nat)
    requires 512 <= buf.Length
    modifies buf
    ensures First(buf) == TypeFields(old(First(buf)), c, vsn)
  {
    hide Splice, First, WordBytes, DwordBytes;
    if c.fmt.FAT32? {
      Put(buf, 67, DwordBytes(vsn));
      Put(buf, 36, DwordBytes(c.szFat));
      Put(buf, 44, DwordBytes(2));
      Put(buf, 48, WordBytes(1));
      Put(buf, 50, WordBytes(6));
      Put(buf, 64, [0x80]);
      Put(buf, 66, [0x29]);
      Put(buf, 71, LABEL32);
    } else {
      Put(buf, 39, DwordBytes(vsn));
      Put(buf, 22, WordBytes(c.szFat));
      Put(buf, 36, [0x80]);
      Put(buf, 38, [0x29]);
      Put(buf, 43, LABEL);
    }
    Put(buf, 510, WordBytes(0xAA55));
  }

  method PutFsInfo(buf: array<byte>, free: nat)
    requires 512 <= buf.Length
    modifies buf
    ensures First(buf) == FsInfo(free)
  {
    hide Splice, First, WordBytes, DwordBytes;
    Clear(buf, 512);
    Put(buf, 0, DwordBytes(0x4161_5252));
    Put(buf, 484, DwordBytes(0x6141_7272));
    Put(buf, 488, DwordBytes(free));
    Put(buf, 492, DwordBytes(2));
    Put(buf, 510, WordBytes(0xAA55));
  }

  /** What the first entries of a new table hold: the reserved ones, and on FAT32 the root directory. */
  function Head(t: FatType): (h: seq<byte>)
    ensures |h| == if t.FAT32? then 12 else 4
  {
    match t
    case FAT12 => DwordBytes(0xFF_FFF8)
    case FAT16 => DwordBytes(0xFFFF_FFF8)
    case FAT32 => DwordBytes(0xFFFF_FFF8) + DwordBytes(0xFFFF_FFFF) + DwordBytes(0x0FFF_FFFF)
  }

  /** A new table of `n` sectors. */
  function NewTable(t: FatType, n: nat): (f: seq<byte>)
    requires n > 0
    ensures |f| == 512 * n
  {
    Head(t) + Blank(512 * n - |Head(t)|)
  }

  /** Fills sectors with zeros, as many at a time as the buffer has. */
  method FillZeros(disk: StorageDevice, buf: array<byte>, szBuf: nat, start: nat, count: nat) returns (ok: bool)
    requires 0 < szBuf && buf.Length == 512 * szBuf && buf[..] == Blank(512 * szBuf)
    requires 512 * (start + count) <= |disk.image|
    modifies disk
    ensures |disk.image| == old(|disk.image|)
    ensures ok ==> disk.image == Splice(old(disk.image), 512 * start, Blank(512 * count))
    ensures disk.Healthy() ==> ok
  {
    hide Splice, Blank;
    var sect, nsect: nat := start, count;
    ghost var image := disk.image;
    NoBlank(image, 512 * start);
    while nsect > 0
      invariant sect + nsect == start + count && start <= sect && |disk.image| == |image|
      invariant disk.image == Splice(image, 512 * start, Blank(512 * (sect - start)))
    {
      var n := if nsect > szBuf then szBuf else nsect;
      BlankPart(buf[..], 512 * szBuf, 512 * n);
      assert buf[0..512 * n] == buf[..][..512 * n];
      ok := disk.Write(buf, 0, sect, n);
      if !ok {
        return;
      }
      MoreBlank(image, 512 * start, 512 * (sect - start), 512 * n);
      sect, nsect := sect + n, nsect - n;
    }
    ok := true;
  }

  lemma BlankPart(b: seq<byte>, n: nat, m: nat)
    requires b == Blank(n) && m <= n
    ensures b[..m] == Blank(m)
  {
  }

  /** Writes the head of a table into the blank buffer. */
  method PutHead(buf: array<byte>, t: FatType)
    requires 512 <= buf.Length && buf[..] == Blank(buf.Length)
    modifies buf
    ensures buf[..] == Head(t) + Blank(buf.Length - |Head(t)|)
  {
    hide DwordBytes;
    var h := Head(t);
    assert forall i :: 512 <= i < buf.Length ==> buf[i] == buf[..][i] == 0;
    assert First(buf) == buf[..][..512];
    Put(buf, 0, h);
    forall i | 0 <= i < buf.Length
      ensures buf[i] == if i < |h| then h[i] else 0
    {
      assert i < 512 ==> buf[i] == First(buf)[i];
    }
  }

  lemma HeadPart(t: FatType, n: nat, m: nat)
    requires 512 <= m <= n
    ensures (Head(t) + Blank(n - |Head(t)|))[..m] == Head(t) + Blank(m - |Head(t)|)
  {
  }

  lemma HeadMore(t: FatType, n: nat, m: nat)
    requires 512 <= n
    ensures Head(t) + Blank(n - |Head(t)|) + Blank(m) == Head(t) + Blank(n + m - |Head(t)|)
  {
  }

  /** Writes a new table. Only the first piece written holds the head. */
  method FillTable(disk: StorageDevice, buf: array<byte>, szBuf: nat, t: FatType, start: nat, count: nat)
    returns (ok: bool)
    requires 0 < szBuf && buf.Length == 512 * szBuf && buf[..] == Blank(512 * szBuf)
    requires 0 < count && 512 * (start + count) <= |disk.image|
    modifies disk, buf
    ensures |disk.image| == old(|disk.image|)
    ensures ok ==>
      buf[..] == Blank(512 * szBuf) && disk.image == Splice(old(disk.image), 512 * start, NewTable(t, count))
    ensures disk.Healthy() ==> ok
  {
    hide Splice, Blank, Head, First, NewTable;
    ghost var image := disk.image;
    NewTableIs(t, count);
    PutHead(buf, t);
    var n := if count > szBuf then szBuf else count;
    ghost var chunk := Head(t) + Blank(512 * n - |Head(t)|);
    HeadPart(t, 512 * szBuf, 512 * n);
    assert buf[0..512 * n] == buf[..][..512 * n] == chunk;
    ok := disk.Write(buf, 0, start, n);
    if ok {
      ghost var tail := buf[512..];
      BlankBehind(buf[..], t, 512 * szBuf);
      assert tail == buf[..][512..];
      Clear(buf, 512);
      assert buf[..] == buf[..512] + tail;
      BlankTogether(512, 512 * szBuf - 512);
      ok := FillZeros(disk, buf, szBuf, start + n, count - n);
      if ok {
        SpliceAppend(image, 512 * start, chunk, Blank(512 * (count - n)));
        HeadMore(t, 512 * n, 512 * (count - n));
      }
    }
  }

  lemma NewTableIs(t: FatType, n: nat)
    requires n > 0
    ensures NewTable(t, n) == Head(t) + Blank(512 * n - |Head(t)|)
  {
  }

  lemma BlankBehind(b: seq<byte>, t: FatType, n: nat)
    requires 512 <= n && b == Head(t) + Blank(n - |Head(t)|)
    ensures b[512..] == Blank(n - 512)
  {
  }

  lemma BlankTogether(n: nat, m: nat)
    ensures Blank(n) + Blank(m) == Blank(n + m)
  {
  }

  /** Sectors in front of the root directory, and of the root directory. */
  function RootStart(c: Layout): nat
  {
    c.szRsv + c.szFat
  }

  function RootSectors(c: Layout): nat
  {
    if c.fmt.FAT32? then c.pau else c.szDir
  }

  /** What a formatted device holds. */
  predicate IsFormatted(image: seq<byte>, c: Layout, szVol: nat, vsn: nat)
  {
    && Sound(szVol, c) && |image| == 512 * szVol && c.pau < 256
    && image[..512] == Vbr(c, szVol, vsn)
    && 0 < c.szRsv && 0 < c.szFat && RootStart(c) + RootSectors(c) <= szVol
    && image[512 * c.szRsv..512 * RootStart(c)] == NewTable(c.fmt, c.szFat)
    && image[512 * RootStart(c)..512 * (RootStart(c) + RootSectors(c))] == Blank(512 * RootSectors(c))
  }

  lemma Sizes(szVol: nat, c: Layout)
    requires Sound(szVol, c)
    ensures c.pau < 256 && 0 < c.szRsv && 0 < c.szFat && RootStart(c) + RootSectors(c) <= szVol && 0 < RootSectors(c)
    ensures (c.fmt.FAT32? ==> c.szRsv == 32) && RootStart(c) == c.szRsv + c.szFat && 0 < c.nClst
  {
  }

  /** Writes the boot sector and, on FAT32, its copy and the FSInfo sectors; only the first write is checked. */
  method WriteRecords(disk: StorageDevice, buf: array<byte>, c: Layout, szVol: nat, vsn: nat) returns (ok: bool)
    requires 512 <= buf.Length && Sound(szVol, c) && |disk.image| == 512 * szVol
    modifies disk, buf
    ensures |disk.image| == old(|disk.image|) && c.pau < 256
    ensures ok ==> disk.image[..512] == Vbr(c, szVol, vsn)
    ensures ok && disk.Healthy() && c.fmt.FAT32? && 4096 <= |disk.image| ==>
      && disk.image[512..1024] == disk.image[3584..4096] == FsInfo(c.nClst - 1)
      && disk.image[3072..3584] == Vbr(c, szVol, vsn)
    ensures disk.Healthy() ==> ok
  {
    hide Sound, FsInfo, TypeFields, CommonFields, Splice, First;
    Sizes(szVol, c);
    PutCommon(buf, c, szVol);
    PutType(buf, c, vsn);
    ok := WriteOne(disk, buf, 0);
    if ok && c.fmt.FAT32? {
      assert disk.image[..512] == disk.image[512 * 0..512 * 0 + 512];
      ghost var w := disk.image[..512];
      var copied := WriteOne(disk, buf, 6);
      PutFsInfo(buf, c.nClst - 1);
      copied := WriteOne(disk, buf, 7);
      copied := WriteOne(disk, buf, 1);
      assert disk.image[..512] == disk.image[512 * 0..512 * 0 + 512] == w;
      assert disk.image[3072..3584] == disk.image[512 * 6..512 * 6 + 512];
      assert disk.image[3584..4096] == disk.image[512 * 7..512 * 7 + 512];
    }
  }

  /** Writes the first sector of the buffer. */
  method WriteOne(disk: StorageDevice, buf: array<byte>, sector: nat) returns (ok: bool)
    requires 512 <= buf.Length && 512 * (sector + 1) <= |disk.image|
    modifies disk
    ensures |disk.image| == old(|disk.image|)
    ensures ok ==> disk.image[512 * sector..512 * (sector + 1)] == First(buf)
    ensures forall s: nat :: s != sector && 512 * s + 512 <= |disk.image| ==>
      disk.image[512 * s..512 * s + 512] == old(disk.image)[512 * s..512 * s + 512]
    ensures disk.Healthy() ==> ok
  {
    ok := disk.Write(buf, 0, sector, 1);
    if ok {
      SplicedSlice(old(disk.image), 512 * sector, buf[0..512]);
    }
  }

  /** Writes the table and the root directory. */
  method WriteAreas(disk: StorageDevice, buf: array<byte>, szBuf: nat, c: Layout, szVol: nat) returns (ok: bool)
    requires 0 < szBuf && buf.Length == 512 * szBuf && Sound(szVol, c) && |disk.image| == 512 * szVol
    modifies disk, buf
    ensures |disk.image| == old(|disk.image|) && 0 < c.szFat && 0 < c.szRsv && RootStart(c) + RootSectors(c) <= szVol
    ensures ok ==> disk.image[..512 * c.szRsv] == old(disk.image)[..512 * c.szRsv]
    ensures ok ==> disk.image[512 * c.szRsv..512 * RootStart(c)] == NewTable(c.fmt, c.szFat)
    ensures ok ==> disk.image[512 * RootStart(c)..512 * (RootStart(c) + RootSectors(c))] == Blank(512 * RootSectors(c))
    ensures disk.Healthy() ==> ok
  {
    hide *;
    Sizes(szVol, c);
    ghost var image := disk.image;
    Clear(buf, 512 * szBuf);
    assert buf[..] == buf[..512 * szBuf];
    ok := FillTable(disk, buf, szBuf, c.fmt, c.szRsv, c.szFat);
    if ok {
      ok := FillZeros(disk, buf, szBuf, RootStart(c), RootSectors(c));
      if ok {
        TwoAreas(image, 512 * c.szRsv, NewTable(c.fmt, c.szFat), Blank(512 * RootSectors(c)));
      }
    }
  }

  lemma TwoAreas(s: seq<byte>, at: nat, a: seq<byte>, b: seq<byte>)
    requires at + |a| + |b| <= |s|
    ensures var r := Splice(Splice(s, at, a), at + |a|, b);
      r[..at] == s[..at] && r[at..at + |a|] == a && r[at + |a|..at + |a| + |b|] == b
  {
  }

  /** f_mkfs: formats the device. The working buffer has `szBuf` sectors. */
  method Format(disk: StorageDevice, opt: Options, au: nat, szBuf: nat, vsn: nat) returns (res: FResult, c: Layout)
    requires |disk.image| % 512 == 0 && |disk.image| / 512 < 0x1_0000_0000
    modifies disk
    ensures |disk.image| == old(|disk.image|)
    ensures res == Ok || res == InvalidParameter || res == NotEnoughCore || res == MkfsAborted || res == DiskErr
    ensures !ValidUnit(au) ==> res == InvalidParameter
    ensures ValidUnit(au) && szBuf == 0 ==> res == NotEnoughCore
    ensures res == Ok ==>
      IsFormatted(disk.image, c, |disk.image| / 512, vsn) && (if c.fmt.FAT32? then opt.fat32 else opt.fat)
    ensures res == Ok && disk.Healthy() && c.fmt.FAT32? ==>
      && 4096 <= |disk.image| && disk.image[512..1024] == disk.image[3584..4096] == FsInfo(c.nClst - 1)
      && c.pau < 256 && disk.image[3072..3584] == Vbr(c, |disk.image| / 512, vsn)
    ensures res == Ok ==> c.pau > 0 && HasTableSize(|disk.image| / 512, c)
    ensures res == Ok && au != 0 ==> c.pau == au / 512
    ensures res != Ok && res != DiskErr ==> disk.image == old(disk.image)
    ensures disk.Healthy() ==> res != DiskErr
    ensures disk.Healthy() && au == 0 && szBuf > 0 ==> (res == Ok <==> CanFormat(|disk.image| / 512, opt))
  {
    hide Sound, Vbr, NewTable, FsInfo, Blank, RootSectors, Planned;
    c := Layout(FAT16, 0, 0, 0, 0, 0);
    if !ValidUnit(au) {
      return InvalidParameter, c;
    }
    if szBuf == 0 {
      return NotEnoughCore, c;
    }
    var szVol := disk.SectorCount();
    if szVol >= 128 && (opt.fat || opt.fat32) {
      FormatsExactly(szVol, opt);
    }
    res, c := Plan(szVol, opt, au);
    if res != Ok {
      return;
    }
    Sizes(szVol, c);
    var buf := new byte[512 * szBuf](_ => 0);
    var ok := WriteRecords(disk, buf, c, szVol, vsn);
    if ok {
      ghost var image := disk.image;
      ok := WriteAreas(disk, buf, szBuf, c, szVol);
      KeptInFront(image, disk.image, 512 * c.szRsv);
    }
    res := if ok then Ok else DiskErr;
  }

  lemma KeptInFront(a: seq<byte>, b: seq<byte>, n: nat)
    requires |a| == |b| && 512 <= n <= |a|
    ensures a[..n] == b[..n] ==> a[..512] == b[..512]
    ensures a[..n] == b[..n] && n >= 4096 ==>
      a[512..1024] == b[512..1024] && a[3072..3584] == b[3072..3584] && a[3584..4096] == b[3584..4096]
  {
    if a[..n] == b[..n] {
      assert a[..512] == a[..n][..512];
      if n >= 4096 {
        assert a[512..1024] == a[..n][512..1024] && b[512..1024] == b[..n][512..1024];
        assert a[3072..3584] == a[..n][3072..3584] && b[3072..3584] == b[..n][3072..3584];
        assert a[3584..4096] == a[..n][3584..4096] && b[3584..4096] == b[..n][3584..4096];
      }
    }
  }

  // Mounting

  /** check_fs: what kind of record a sector holds. */
  method CheckFs(disk: StorageDevice, win: array<byte>, sect: nat) returns (r: Record)
    requires win.Length == 512
    modifies disk`ops, win
    ensures r != Unread ==>
      512 * (sect + 1) <= |disk.image| && win[..] == disk.image[512 * sect..512 * (sect + 1)] && r == Classify(win[..])
    ensures disk.Healthy() && 512 * (sect + 1) <= |disk.image| ==> r != Unread
  {
    hide Classify;
    ghost var w := win[..];
    var ok := disk.Read(win, 0, sect, 1);
    if !ok {
      return Unread;
    }
    WholeBuffer(w, 0, disk.image[512 * sect..512 * (sect + 1)]);
    r := Classify(win[..]);
  }

  /** Start of partition `i` in the partition table; 0 when it has no type. */
  function PartitionStart(w: seq<byte>, i: nat): nat
    requires |w| == 512 && i < 4
  {
    if w[446 + 16 * i + 4] != 0 then LdDword(w, 446 + 16 * i + 8) else 0
  }

  /** The partition table of a sector has a partition `i` that starts at sector `s`: its type is not 0, and the four
      bytes of its start, the lowest first, give `s`. */
  predicate HasPartition(w: seq<byte>, i: nat, s: nat)
    requires |w| == 512 && i < 4
  {
    w[450 + 16 * i] != 0 && s == w[454 + 16 * i] as int + 0x100 * w[455 + 16 * i] as int +
      0x1_0000 * w[456 + 16 * i] as int + 0x100_0000 * w[457 + 16 * i] as int
  }

  /** Sector `s` is on the device and holds a FAT boot record. */
  predicate HoldsFat(image: seq<byte>, s: nat)
  {
    512 * (s + 1) <= |image| && IsFatRecord(image[512 * s..512 * (s + 1)])
  }

  /** Partition `i` starts at sector `s`, which is not the first and holds a FAT boot record. */
  predicate IsCandidate(image: seq<byte>, i: nat, s: nat)
    requires 512 <= |image| && i < 4
  {
    HasPartition(image[..512], i, s) && s != 0 && HoldsFat(image, s)
  }

  ghost predicate NoneBefore(image: seq<byte>, i: nat)
    requires 512 <= |image| && i <= 4
  {
    forall j, s: nat :: 0 <= j < i ==> !IsCandidate(image, j, s)
  }

  /** Sector `b` is the one to mount: the first, or else, if that one is signed, the start of the first partition that
      has a FAT boot record. */
  ghost predicate IsBootSector(image: seq<byte>, b: nat)
  {
    && 512 <= |image| && Signed(image[..512])
    && if HoldsFat(image, 0) then b == 0
       else exists i :: 0 <= i < 4 && IsCandidate(image, i, b) && NoneBefore(image, i)
  }

  lemma OneStart(w: seq<byte>, i: nat, s: nat)
    requires |w| == 512 && i < 4
    ensures HasPartition(w, i, s) && s != 0 <==> PartitionStart(w, i) == s && s != 0
  {
  }

  /** Finds a FAT boot record: in sector 0, or at the start of one of the four partitions. */
  method FindRecord(disk: StorageDevice, win: array<byte>) returns (r: Record, bsect: nat)
    requires win.Length == 512
    modifies disk`ops, win
    ensures r == FatRecord ==>
      && 512 * (bsect + 1) <= |disk.image| && win[..] == disk.image[512 * bsect..512 * (bsect + 1)]
      && Classify(win[..]) == FatRecord
    ensures 512 <= |disk.image| && Classify(disk.image[..512]) == FatRecord ==>
      (r == FatRecord && bsect == 0) || (r == Unread && !disk.Healthy())
    ensures disk.Healthy() && 512 <= |disk.image| ==>
      if r == FatRecord then IsBootSector(disk.image, bsect) else forall b: nat :: !IsBootSector(disk.image, b)
  {
    hide Classify, IsFatRecord, Signed, LdDword, PartitionStart, HasPartition;
    bsect := 0;
    r := CheckFs(disk, win, bsect);
    assert 512 <= |disk.image| ==> disk.image[0..512] == disk.image[..512];
    if r == Other {
      var w := win[..];
      var i := 0;
      while i < 4 && r != FatRecord
        invariant 0 <= i <= 4
        invariant r == FatRecord ==>
          && 512 * (bsect + 1) <= |disk.image| && win[..] == disk.image[512 * bsect..512 * (bsect + 1)]
          && Classify(win[..]) == FatRecord
        invariant r != FatRecord && disk.Healthy() ==> NoneBefore(disk.image, i)
        invariant r == FatRecord && disk.Healthy() ==> IsBootSector(disk.image, bsect)
      {
        bsect := PartitionStart(w, i);
        forall s: nat
          ensures HasPartition(w, i, s) && s != 0 <==> bsect == s && s != 0
        {
          OneStart(w, i, s);
        }
        r := NoRecord;
        if bsect != 0 {
          r := CheckFs(disk, win, bsect);
        }
        assert r == FatRecord ==> IsCandidate(disk.image, i, bsect);
        i := i + 1;
      }
    }
  }

  /** The number of free clusters an FSInfo sector claims, and the cluster last allocated; unknown without its
      signatures. */
  function Claims(w: seq<byte>): (nat, nat)
    requires |w| == 512
  {
    if LdWord(w, 510) == 0xAA55 && LdDword(w, 0) == 0x4161_5252 && LdDword(w, 484) == 0x6141_7272
      then (LdDword(w, 488), LdDword(w, 492))
    else (MAX32, MAX32)
  }

  lemma OneBootSector(image: seq<byte>, b: nat)
    ensures IsBootSector(image, b) ==> forall c: nat :: IsBootSector(image, c) ==> c == b
  {
  }

  /** find_volume: mounts the volume on the device. */
  method Mount(disk: StorageDevice) returns (res: FResult, g: Geometry, freeClst: nat, lastClst: nat, ghost bsect: nat)
    modifies disk`ops
    ensures res == Ok || res == NoFilesystem || res == DiskErr
    ensures res == Ok ==>
      && 512 * (bsect + 1) <= |disk.image| && Classify(disk.image[512 * bsect..512 * (bsect + 1)]) == FatRecord
      && Analyze(disk.image[512 * bsect..512 * (bsect + 1)], bsect) == Mounted(g)
    ensures 512 <= |disk.image| && Classify(disk.image[..512]) == FatRecord ==>
      if res == DiskErr then !disk.Healthy() else bsect == 0 && (res == Ok <==> Analyze(disk.image[..512], 0).Mounted?)
    ensures disk.Healthy() && 512 <= |disk.image| ==>
      if res == Ok then IsBootSector(disk.image, bsect)
      else forall b: nat :: IsBootSector(disk.image, b) ==>
        512 * (b + 1) <= |disk.image| && Analyze(disk.image[512 * b..512 * (b + 1)], b) == NotMounted
    ensures res == Ok && |disk.image| / 512 < MAX32 ==>
      var w, size := disk.image[512 * bsect..512 * (bsect + 1)], |disk.image| / 512;
      && (g.Valid(size) <==>
            SystemSectors(w) < 0x1_0000_0000 && bsect + SystemSectors(w) + g.csize * (g.nFatent - 2) <= size)
      && (bsect + TotalSectors(w) <= size ==> (g.Valid(size) <==> SystemSectors(w) < 0x1_0000_0000))
    ensures res == Ok && !g.fsType.FAT32? ==> freeClst == lastClst == MAX32
    ensures res == Ok && disk.Healthy() && g.fsType.FAT32? && 512 * (Wrap(bsect + 1) + 1) <= |disk.image| ==>
      (freeClst, lastClst) ==
        if LdWord(disk.image[512 * bsect..512 * (bsect + 1)], 48) == 1
        then Claims(disk.image[512 * Wrap(bsect + 1)..512 * (Wrap(bsect + 1) + 1)]) else (MAX32, MAX32)
  {
    hide Classify, Analyze, Claims, LdWord, IsBootSector, Geometry.Valid, SystemSectors, TotalSectors;
    g := Geometry(FAT12, 0, 0, 0, 0, 0, 0, 0, 0, 0);
    freeClst, lastClst := MAX32, MAX32;
    var win := new byte[512](_ => 0);
    var r, b := FindRecord(disk, win);
    bsect := b;
    if r == Unread {
      return DiskErr, g, freeClst, lastClst, bsect;
    }
    if r != FatRecord {
      return NoFilesystem, g, freeClst, lastClst, bsect;
    }
    var w := win[..];
    assert b == 0 ==> disk.image[0..512] == disk.image[..512];
    var m := Analyze(w, b);
    if m == NotMounted {
      OneBootSector(disk.image, b);
      return NoFilesystem, g, freeClst, lastClst, bsect;
    }
    g := m.g;
    if |disk.image| / 512 < MAX32 {
      MountedValid(w, b, g, |disk.image| / 512);
    }
    if g.fsType.FAT32? && LdWord(w, 48) == 1 {
      var info := Wrap(b + 1);
      var ok := disk.Read(win, 0, info, 1);
      if ok {
        WholeBuffer(w, 0, disk.image[512 * info..512 * (info + 1)]);
        var claims := Claims(win[..]);
        freeClst, lastClst := claims.0, claims.1;
      }
    }
    res := Ok;
  }

  /** Mounts the volume on the device. It is a volume of this model, with one table or two, if its system area does not
      wrap around and it lies inside the device. */
  method MountVolume(disk: StorageDevice) returns (res: FResult, fs: FatVolume?, ghost bsect: nat)
    requires |disk.image| % 512 == 0 && |disk.image| / 512 < MAX32
    modifies disk`ops
    ensures res == Ok || res == NoFilesystem || res == DiskErr
    ensures res == Ok ==>
      512 * (bsect + 1) <= |disk.image| && Classify(disk.image[512 * bsect..512 * (bsect + 1)]) == FatRecord
    ensures 512 <= |disk.image| && Classify(disk.image[..512]) == FatRecord ==>
      if res == DiskErr then !disk.Healthy() else bsect == 0 && (res == Ok <==> Analyze(disk.image[..512], 0).Mounted?)
    ensures disk.Healthy() && 512 <= |disk.image| ==>
      if res == Ok then IsBootSector(disk.image, bsect)
      else forall b: nat :: IsBootSector(disk.image, b) ==>
        512 * (b + 1) <= |disk.image| && Analyze(disk.image[512 * b..512 * (b + 1)], b) == NotMounted
    ensures res == Ok ==>
      var w, size := disk.image[512 * bsect..512 * (bsect + 1)], |disk.image| / 512;
      && Analyze(w, bsect).Mounted? && (fs != null <==> Analyze(w, bsect).g.Valid(size))
      && (SystemSectors(w) < 0x1_0000_0000 && bsect + TotalSectors(w) <= size ==> fs != null)
    ensures res == Ok && fs != null ==>
      && fresh(fs) && fresh(fs.win) && fs.disk == disk && fs.size == |disk.image| / 512
      && fs.Valid() && fs.g.Valid(fs.size) && !fs.wflag && fs.winsect == MAX32
      && Mounted(fs.g) == Analyze(disk.image[512 * bsect..512 * (bsect + 1)], bsect)
      && (fs.twins <==> Mirrored(fs.g, fs.size, disk.image, false, 0))
    ensures res == Ok && fs != null && !fs.g.fsType.FAT32? ==> fs.freeClst == fs.lastClst == MAX32
    ensures res == Ok && fs != null && disk.Healthy() && fs.g.fsType.FAT32? && 512 * (bsect + 2) <= |disk.image| ==>
      (fs.freeClst, fs.lastClst) == if LdWord(disk.image[512 * bsect..512 * (bsect + 1)], 48) == 1
        then Claims(disk.image[512 * (bsect + 1)..512 * (bsect + 2)]) else (MAX32, MAX32)
  {
    hide Classify, Analyze, Claims, LdWord, IsBootSector, Geometry.Valid, SystemSectors, TotalSectors, Mirrored, Wrap;
    fs := null;
    var g, free, last;
    res, g, free, last, bsect := Mount(disk);
    if res == Ok {
      WrapSmall(bsect + 1);
    }
    if res == Ok && g.Valid(|disk.image| / 512) {
      Fits(g, |disk.image| / 512);
      fs := new FatVolume(disk, g);
      fs.freeClst, fs.lastClst := free, last;
    }
  }

  // A new volume

  lemma HeadBytes(t: FatType)
    ensures Head(t) == match t
      case FAT12 => [0xF8, 0xFF, 0xFF, 0]
      case FAT16 => [0xF8, 0xFF, 0xFF, 0xFF]
      case FAT32 => [0xF8, 0xFF, 0xFF, 0xFF, 0xFF, 0xFF, 0xFF, 0xFF, 0xFF, 0xFF, 0xFF, 0x0F]
  {
  }

  lemma ZeroEntry(t: FatType, i: nat, d: seq<byte>)
    requires |d| == Span(t) && forall k :: 0 <= k < |d| ==> d[k] == 0
    ensures Decode(t, i, d) == 0
  {
  }

  lemma FullEntry(t: FatType, i: nat, d: seq<byte>)
    requires |d| == Span(t) && i < 3 && (i < 2 || t.FAT32?)
    requires t.FAT12? ==> d == if i == 0 then [0xF8, 0xFF] else [0xFF, 0xFF]
    requires t.FAT16? ==> d == if i == 0 then [0xF8, 0xFF] else [0xFF, 0xFF]
    requires t.FAT32? ==>
      d == if i == 0 then [0xF8, 0xFF, 0xFF, 0xFF] else if i == 1 then [0xFF, 0xFF, 0xFF, 0xFF]
        else [0xFF, 0xFF, 0xFF, 0x0F]
    ensures Decode(t, i, d) > 0 && (i == 2 ==> Decode(t, i, d) == 0xFFF_FFFF)
  {
  }

  /** The bytes of a new table. */
  lemma NewByte(t: FatType, n: nat, k: nat)
    requires n > 0 && k < 512 * n
    ensures NewTable(t, n)[k] == if k < |Head(t)| then Head(t)[k] else 0
  {
  }

  /** The entries of a new table: the reserved ones, on FAT32 the one-cluster root directory, and free clusters. */
  lemma NewEntry(t: FatType, szFat: nat, n: nat, i: nat)
    requires szFat > 0 && TableBytes(t, n) <= 512 * szFat && i < n
    ensures var v := Entries(t, NewTable(t, szFat), n)[i];
      if i < 2 || (t.FAT32? && i == 2) then v > 0 && (i == 2 ==> v == 0xFFF_FFFF) else v == 0
  {
    hide Decode, NewTable, Head;
    EntryInside(t, n, i);
    var f, o := NewTable(t, szFat), Offset(t, i);
    var d := f[o..o + Span(t)];
    forall k | 0 <= k < |d|
      ensures d[k] == if o + k < |Head(t)| then Head(t)[o + k] else 0
    {
      NewByte(t, szFat, o + k);
    }
    HeadBytes(t);
    if i < 2 || (t.FAT32? && i == 2) {
      FullEntry(t, i, d);
    } else {
      ZeroEntry(t, i, d);
    }
  }

  /** A new table is in order: its chains are those of the root directory alone, and all other clusters are free. */
  lemma NewTableSound(t: FatType, szFat: nat, n: nat)
    requires szFat > 0 && 3 <= n <= MaxClusters(t) + 2 && TableBytes(t, n) <= 512 * szFat
    ensures var f := Entries(t, NewTable(t, szFat), n);
      && |f| == n && IsPartition(f, if t.FAT32? then {[2]} else {}) && Sane(f)
      && FreeCount(f) == n - 2 - (if t.FAT32? then 1 else 0)
      && f[0] != 0 && f[1] != 0
  {
    hide Entries, NewTable, TableBytes;
    var f := Entries(t, NewTable(t, szFat), n);
    var used: nat := if t.FAT32? then 3 else 2;
    forall i | 0 <= i < n
      ensures if i < used then f[i] > 0 && (i == 2 ==> f[i] == 0xFFF_FFFF) else f[i] == 0
    {
      NewEntry(t, szFat, n, i);
    }
    AllFreeFrom(f, used, n);
    if t.FAT32? {
      assert IsChain(f, [2]);
      assert OnSome({[2]}, 2) by {
        assert 2 in [2];
      }
    }
  }

  /** Counting free entries of which only the first may be in use. */
  lemma {:induction false} AllFreeFrom(f: seq<nat>, used: nat, n: nat)
    requires 2 <= used <= 3 && used <= n <= |f| && (forall i :: used <= i < n ==> f[i] == 0)
    requires (used == 3 ==> f[2] != 0)
    ensures Zeros(f, 2, n) == n - used
  {
    if n > used {
      AllFreeFrom(f, used, n - 1);
    }
  }

  lemma FormattedParts(image: seq<byte>, c: Layout, szVol: nat, vsn: nat)
    requires IsFormatted(image, c, szVol, vsn) && szVol < MAX32
    ensures Sound(szVol, c) && |image| == 512 * szVol && 1024 <= |image| && c.pau < 256 && 0 < c.szFat
    ensures image[..512] == image[0..512] == Vbr(c, szVol, vsn)
    ensures GeometryOf(c).Valid(szVol) && GeometryOf(c).fsType == c.fmt && GeometryOf(c).nFatent == c.nClst + 2
    ensures 0 < c.nClst
    ensures GeometryOf(c).nFats == 1 && GeometryOf(c).fsize == c.szFat
    ensures TableOf(GeometryOf(c), image) == NewTable(c.fmt, c.szFat)
  {
    hide Vbr, NewTable, Classify, Analyze;
    MountsAsFormatted(c, szVol, vsn);
    assert image[0..512] == image[..512];
  }

  /** The table of a volume with one table and a clean window is that of the device. */
  lemma OneTable(g: Geometry, image: seq<byte>, shown: nat, win: seq<byte>)
    requires g.nFats == 1 && |win| == 512 && 512 * g.AreaBase() <= |image|
    ensures TableOf(g, Overlaid(g, image, false, shown, win)) == TableOf(g, image)
  {
  }

  /** Formats a device and mounts it: the volume found is the one laid out, all its clusters are free but the root
      directory, and the free count, if the mounter knows one, is right. */
  method FormatAndMount(disk: StorageDevice, opt: Options, au: nat, szBuf: nat, vsn: nat)
    returns (res: FResult, c: Layout, fs: FatVolume?)
    requires |disk.image| % 512 == 0 && |disk.image| / 512 < MAX32
    modifies disk
    ensures res == Ok ==>
      && fs != null && fresh(fs) && fresh(fs.win) && fs.disk == disk && fs.Valid()
      && fs.g == GeometryOf(c) && fs.g.Valid(fs.size) && fs.size == |disk.image| / 512
      && IsPartition(fs.Fat(), if c.fmt.FAT32? then {[2]} else {}) && Sane(fs.Fat())
    ensures res == Ok ==>
      && IsFormatted(disk.image, c, |disk.image| / 512, vsn) && (if c.fmt.FAT32? then opt.fat32 else opt.fat)
      && c.pau > 0 && HasTableSize(|disk.image| / 512, c) && (au != 0 ==> c.pau == au / 512)
    ensures res == Ok && disk.Healthy() ==>
      fs.CacheOk() && (c.fmt.FAT32? ==> fs.freeClst == FreeCount(fs.Fat()) == c.nClst - 1)
    ensures disk.Healthy() ==> res == Ok || res == InvalidParameter || res == NotEnoughCore || res == MkfsAborted
    ensures disk.Healthy() && au == 0 && szBuf > 0 ==> (res == Ok <==> CanFormat(|disk.image| / 512, opt))
  {
    hide IsFormatted, CanFormat, IsBootSector, SystemSectors, TotalSectors, LdWord, Classify, Analyze, Claims, Sound,
      Vbr, NewTable, FsInfo, GeometryOf, Geometry.Valid, Mirrored, Overlaid, Entries, IsPartition, FreeCount, Sane,
      TableOf, FatVolume.Fat, FatVolume.Valid, Wrap, Geometry.AreaBase, HasTableSize;
    fs := null;
    res, c := Format(disk, opt, au, szBuf, vsn);
    if res != Ok {
      return;
    }
    ghost var szVol := |disk.image| / 512;
    FormattedParts(disk.image, c, szVol, vsn);
    MountsAsFormatted(c, szVol, vsn);
    assert disk.image[0..512] == disk.image[..512];
    ghost var bsect;
    res, fs, bsect := MountVolume(disk);
    if res != Ok {
      return;
    }
    assert fs.g == GeometryOf(c);
    Fits(fs.g, szVol);
    NewVolume(fs, c);
    if disk.Healthy() && c.fmt.FAT32? {
      FreeRead(c, szVol, vsn);
    }
  }

  /** The boot sector refers to the free count, and the mounter reads it. */
  lemma FreeRead(c: Layout, szVol: nat, vsn: nat)
    requires Sound(szVol, c) && c.fmt.FAT32? && 0 < c.nClst < 0x1_0000_0000
    ensures c.pau < 256 && LdWord(Vbr(c, szVol, vsn), 48) == 1 && Claims(FsInfo(c.nClst - 1)) == (c.nClst - 1, 2)
  {
    hide Sound, Vbr, LdWord, Claims, FsInfo;
    Loaded(c, szVol, vsn);
    FsInfoRead(c.nClst - 1);
    KnownFree(c.nClst - 1);
  }

  /** A volume with a new table and a clean window. */
  lemma NewVolume(fs: FatVolume, c: Layout)
    requires fs.Valid() && fs.g.Valid(fs.size) && !fs.wflag && fs.g.nFats == 1 && fs.g.fsType == c.fmt
    requires fs.g.nFatent == c.nClst + 2 && fs.g.fsize == c.szFat && 0 < c.szFat
    requires 512 * fs.g.AreaBase() <= |fs.disk.image| && TableOf(fs.g, fs.disk.image) == NewTable(c.fmt, c.szFat)
    ensures IsPartition(fs.Fat(), if c.fmt.FAT32? then {[2]} else {}) && Sane(fs.Fat())
    ensures FreeCount(fs.Fat()) == c.nClst - (if c.fmt.FAT32? then 1 else 0)
  {
    hide NewTable, Overlaid, Mirrored, Entries, IsPartition, FreeCount, Sane, TableOf;
    Fits(fs.g, fs.size);
    OneTable(fs.g, fs.disk.image, fs.winsect, fs.win[..]);
    NewTableSound(c.fmt, c.szFat, c.nClst + 2);
  }

  lemma Fits(g: Geometry, szVol: nat)
    requires g.Valid(szVol)
    ensures g.TablesFit(szVol) && 3 <= g.nFatent <= MaxClusters(g.fsType) + 2 && g.nFatent < MAX32
    ensures TableBytes(g.fsType, g.nFatent) <= 512 * g.fsize
  {
  }

  lemma KnownFree(free: nat)
    requires free < 0x1_0000_0000
    ensures Claims(FsInfo(free)) == (free, 2)
  {
    hide FsInfo, LdWord, LdDword;
    FsInfoRead(free);
  }
}
