/** The boot sector and the FSInfo sector: written by the formatter, read by the mounter. */
module BootSector {
  import opened Bytes
  import opened FatTable
  import opened FatGeometry
  import opened FatWindow
  import opened FormatPlan

  /** "MSDOS5.0" behind the jump instruction. */
  const JUMP: seq<byte> := [0xEB, 0xFE, 0x90, 77, 83, 68, 79, 83, 53, 46, 48]
  /** "NO NAME    " and "FAT32   " or "FAT     ". */
  const LABEL32: seq<byte> := [78, 79, 32, 78, 65, 77, 69, 32, 32, 32, 32, 70, 65, 84, 51, 50, 32, 32, 32]
  const LABEL: seq<byte> := [78, 79, 32, 78, 65, 77, 69, 32, 32, 32, 32, 70, 65, 84, 32, 32, 32, 32, 32]

  /** The fields every boot sector has. */
  function CommonFields(c: Layout, szVol: nat): (w: seq<byte>)
    requires c.pau < 256
    ensures |w| == 512
  {
    var w := Splice(Blank(512), 0, JUMP);
    var w := Splice(w, 11, WordBytes(512));
    var w := Splice(w, 13, [c.pau]);
    var w := Splice(w, 14, WordBytes(c.szRsv));
    var w := Splice(w, 16, [1]);
    var w := Splice(w, 17, WordBytes(if c.fmt.FAT32? then 0 else 512));
    var w := if szVol < 0x1_0000 then Splice(w, 19, WordBytes(szVol)) else Splice(w, 32, DwordBytes(szVol));
    var w := Splice(w, 21, [0xF8]);
    var w := Splice(w, 24, WordBytes(63));
    var w := Splice(w, 26, WordBytes(255));
    Splice(w, 28, DwordBytes(0))
  }

  /** The fields that depend on the FAT type, and the signature. */
  function TypeFields(w: seq<byte>, c: Layout, vsn: nat): (r: seq<byte>)
    requires |w| == 512
    ensures |r| == 512
  {
    var w :=
      if c.fmt.FAT32? then
        var w := Splice(w, 67, DwordBytes(vsn));
        var w := Splice(w, 36, DwordBytes(c.szFat));
        var w := Splice(w, 44, DwordBytes(2));
        var w := Splice(w, 48, WordBytes(1));
        var w := Splice(w, 50, WordBytes(6));
        var w := Splice(w, 64, [0x80]);
        var w := Splice(w, 66, [0x29]);
        Splice(w, 71, LABEL32)
      else
        var w := Splice(w, 39, DwordBytes(vsn));
        var w := Splice(w, 22, WordBytes(c.szFat));
        var w := Splice(w, 36, [0x80]);
        var w := Splice(w, 38, [0x29]);
        Splice(w, 43, LABEL);
    Splice(w, 510, WordBytes(0xAA55))
  }

  /** The boot sector of a new volume. */
  function Vbr(c: Layout, szVol: nat, vsn: nat): (w: seq<byte>)
    requires c.pau < 256
    ensures |w| == 512
  {
    TypeFields(CommonFields(c, szVol), c, vsn)
  }

  /** The FSInfo sector of a new FAT32 volume. */
  function FsInfo(free: nat): (w: seq<byte>)
    ensures |w| == 512
  {
    var w := Splice(Blank(512), 0, DwordBytes(0x4161_5252));
    var w := Splice(w, 484, DwordBytes(0x6141_7272));
    var w := Splice(w, 488, DwordBytes(free));
    var w := Splice(w, 492, DwordBytes(2));
    Splice(w, 510, WordBytes(0xAA55))
  }

  // What the mounter makes of a boot sector

  /** The results of the check of a boot record. */
  datatype Record = FatRecord | Other | NoRecord | Unread

  /** The bytes of a sector that end in 0x55 0xAA. */
  predicate Signed(w: seq<byte>)
    requires |w| == 512
  {
    w[510] == 0x55 && w[511] == 0xAA
  }

  /** The bytes of a FAT boot record: a jump instruction, and "FAT" at byte 54 or "FAT32" at byte 82. */
  predicate IsFatRecord(w: seq<byte>)
    requires |w| == 512
    ensures IsFatRecord(w) ==> Signed(w)
  {
    && Signed(w) && (w[0] == 0xE8 || w[0] == 0xE9 || w[0] == 0xEB)
    && ((w[54] == 0x46 && w[55] == 0x41 && w[56] == 0x54)
        || (w[82] == 0x46 && w[83] == 0x41 && w[84] == 0x54 && w[85] == 0x33 && w[86] == 0x32))
  }

  function Classify(w: seq<byte>): (r: Record)
    requires |w| == 512
    ensures r != Unread
    ensures r == (if IsFatRecord(w) then FatRecord else if Signed(w) then Other else NoRecord)
  {
    assert w[54..57] == [w[54], w[55], w[56]] && w[82..87] == [w[82], w[83], w[84], w[85], w[86]];
    if LdWord(w, 510) != 0xAA55 then NoRecord
    else if w[0] in {0xE9, 0xEB, 0xE8} && (w[54..57] == [70, 65, 84] || w[82..87] == [70, 65, 84, 51, 50])
      then FatRecord
    else Other
  }

  /** The geometry a boot sector at sector `bsect` describes, or none when a check fails. The arithmetic is that of
      32-bit words. */
  datatype Mounted = NotMounted | Mounted(g: Geometry)

  function FatSize(w: seq<byte>): nat
    requires |w| == 512
  {
    if LdWord(w, 22) != 0 then LdWord(w, 22) else LdDword(w, 36)
  }

  function TotalSectors(w: seq<byte>): nat
    requires |w| == 512
  {
    if LdWord(w, 19) != 0 then LdWord(w, 19) else LdDword(w, 32)
  }

  function Subtype(nclst: nat): FatType
  {
    if nclst <= 0xFF5 then FAT12 else if nclst <= 0xFFF5 then FAT16 else FAT32
  }

  function Analyze(w: seq<byte>, bsect: nat): Mounted
    requires |w| == 512
  {
    var fsize, nFats, csize, nRootdir := FatSize(w), w[16], w[13], LdWord(w, 17);
    var fasize, tsect, nrsv := Wrap(fsize * nFats), TotalSectors(w), LdWord(w, 14);
    var sysect := Wrap(nrsv + fasize + nRootdir / 16);
    if LdWord(w, 11) != 512 || (nFats != 1 && nFats != 2) || !ClusterSize(csize) then NotMounted
    else if nRootdir % 16 != 0 || nrsv == 0 || tsect < sysect then NotMounted
    else
      var nclst := Clusters(tsect, sysect, csize);
      if nclst == 0 || nclst > 0xFFF_FFF5 then NotMounted
      else
        var fmt := Subtype(nclst);
        if fmt.FAT32? && (LdWord(w, 42) != 0 || nRootdir != 0) then NotMounted
        else if !fmt.FAT32? && nRootdir == 0 then NotMounted
        else if fsize < (TableBytes(fmt, nclst + 2) + 511) / 512 then NotMounted
        else Mounted(Geometry(fmt, nFats, csize, nRootdir, nclst + 2, fsize, bsect, Wrap(bsect + nrsv),
                              if fmt.FAT32? then LdDword(w, 44) else Wrap(bsect + nrsv + fasize),
                              Wrap(bsect + sysect)))
  }

  // What the mounter accepts

  /** The sectors in front of the data area, as the boot sector gives them: reserved ones, tables and root directory. */
  function SystemSectors(w: seq<byte>): nat
    requires |w| == 512
  {
    LdWord(w, 14) + TableSectors(w) + LdWord(w, 17) / 16
  }

  function TableSectors(w: seq<byte>): nat
    requires |w| == 512
  {
    var n: nat := w[16];
    FatSize(w) * n
  }

  /** What the mounter accepts is a volume of the device exactly when the number of sectors in front of the data area,
      which is computed in 32 bits, does not wrap around, and the data area lies inside the device. The mounter tests
      neither. */
  lemma MountedValid(w: seq<byte>, bsect: nat, g: Geometry, size: nat)
    requires |w| == 512 && Analyze(w, bsect) == Mounted(g) && size < MAX32 && bsect <= MAX32
    ensures g.Valid(size)
      <==> SystemSectors(w) < 0x1_0000_0000 && bsect + SystemSectors(w) + g.csize * (g.nFatent - 2) <= size
    ensures bsect + TotalSectors(w) <= size ==> (g.Valid(size) <==> SystemSectors(w) < 0x1_0000_0000)
  {
    hide LdWord, Analyze, TotalSectors, FatSize, Geometry.Valid, ProperFields, AreasMeet;
    AnalyzedFields(w, bsect, g);
    WordSmall(w);
    TablesOf(w, g);
    AreasMeetExactly(g, bsect, LdWord(w, 14));
    ValidExactly(g, size);
    ClaimedInside(w, bsect, g);
  }

  /** The conditions on a volume that the mounter tests. */
  predicate ProperFields(g: Geometry)
  {
    && (g.nFats == 1 || g.nFats == 2) && ClusterSize(g.csize) && 3 <= g.nFatent <= MaxClusters(g.fsType) + 2
    && TableBytes(g.fsType, g.nFatent) <= 512 * g.fsize && g.nRootdir % 16 == 0
    && (if g.fsType.FAT32? then g.nRootdir == 0 else g.nRootdir > 0)
  }

  /** Every area of a volume starts where the one in front of it ends. */
  predicate AreasMeet(g: Geometry)
  {
    && g.volbase < g.fatbase && g.database == g.AreaBase() + g.nRootdir / 16
    && (!g.fsType.FAT32? ==> g.dirbase == g.AreaBase())
  }

  lemma ValidExactly(g: Geometry, size: nat)
    requires ProperFields(g) && size < MAX32
    ensures g.Valid(size) <==> AreasMeet(g) && g.database + g.csize * (g.nFatent - 2) <= size
  {
    hide ClusterSize, TableBytes, MaxClusters;
  }

  lemma TablesOf(w: seq<byte>, g: Geometry)
    requires |w| == 512 && (g.nFats == 1 || g.nFats == 2) && g.nFats == w[16] && g.fsize == FatSize(w)
    ensures g.AreaBase() == g.fatbase + TableSectors(w)
  {
    hide FatSize;
    Doubled(FatSize(w), g.nFats);
  }

  /** The bases, computed in 32 bits, are those of areas that meet exactly when none of the sums wraps around. */
  lemma AreasMeetExactly(g: Geometry, bsect: nat, nrsv: nat)
    requires bsect <= MAX32 && 0 < nrsv < 0x1_0000
    requires var tables := g.AreaBase() - g.fatbase; var f, dir := Wrap(tables), g.nRootdir / 16;
      && g.volbase == bsect && g.fatbase == Wrap(bsect + nrsv) && g.database == Wrap(bsect + Wrap(nrsv + f + dir))
      && (!g.fsType.FAT32? ==> g.dirbase == Wrap(bsect + nrsv + f))
    ensures var last := bsect + nrsv + (g.AreaBase() - g.fatbase) + g.nRootdir / 16;
      (AreasMeet(g) <==> last <= MAX32) && (AreasMeet(g) ==> g.database == last)
  {
    hide Wrap;
    Bases(bsect, nrsv, g.AreaBase() - g.fatbase, g.nRootdir / 16);
  }

  /** The sectors a boot sector claims hold what it describes, unless the number of those in front of the data area
      wraps around. */
  lemma ClaimedInside(w: seq<byte>, bsect: nat, g: Geometry)
    requires |w| == 512 && Analyze(w, bsect) == Mounted(g) && bsect <= MAX32
    ensures SystemSectors(w) < 0x1_0000_0000 ==> SystemSectors(w) + g.csize * (g.nFatent - 2) <= TotalSectors(w)
  {
    hide LdWord, Wrap, ClusterSize, Clusters, Analyze, TotalSectors, FatSize, ProperFields;
    AnalyzedFields(w, bsect, g);
    WordSmall(w);
    Bases(bsect, LdWord(w, 14), TableSectors(w), LdWord(w, 17) / 16);
    ClustersInside(TotalSectors(w), Wrap(LdWord(w, 14) + Wrap(TableSectors(w)) + LdWord(w, 17) / 16), g.csize);
  }

  /** The fields of an accepted boot sector. */
  lemma AnalyzedFields(w: seq<byte>, bsect: nat, g: Geometry)
    requires |w| == 512 && Analyze(w, bsect) == Mounted(g)
    ensures ProperFields(g) && (g.nFats == 1 || g.nFats == 2) && ClusterSize(g.csize) && g.nFatent >= 2
    ensures g.nFats == w[16] && g.fsize == FatSize(w) && g.nRootdir == LdWord(w, 17) && LdWord(w, 14) > 0
    ensures var f, sys := Wrap(TableSectors(w)), Wrap(LdWord(w, 14) + Wrap(TableSectors(w)) + LdWord(w, 17) / 16);
      && g.volbase == bsect && g.fatbase == Wrap(bsect + LdWord(w, 14)) && g.database == Wrap(bsect + sys)
      && (!g.fsType.FAT32? ==> g.dirbase == Wrap(bsect + LdWord(w, 14) + f)) && sys <= TotalSectors(w)
      && g.nFatent == Clusters(TotalSectors(w), sys, g.csize) + 2
  {
    hide LdWord, LdDword, Wrap, ClusterSize, Clusters, TotalSectors, FatSize, TableBytes;
    EnoughSectors(TableBytes(g.fsType, g.nFatent), FatSize(w));
  }

  /** Where the areas start, if 32 bits are enough for the numbers of their sectors. */
  lemma Bases(bsect: nat, nrsv: nat, tables: nat, dir: nat)
    requires bsect <= MAX32 && 0 < nrsv < 0x1_0000
    ensures bsect + nrsv + tables + dir <= MAX32 ==>
      && Wrap(bsect + nrsv) == bsect + nrsv && Wrap(tables) == tables
      && Wrap(bsect + nrsv + Wrap(tables)) == bsect + nrsv + tables
      && Wrap(nrsv + Wrap(tables) + dir) == nrsv + tables + dir
      && Wrap(bsect + Wrap(nrsv + Wrap(tables) + dir)) == bsect + nrsv + tables + dir
    ensures nrsv + tables + dir <= MAX32 ==> Wrap(nrsv + Wrap(tables) + dir) == nrsv + tables + dir
    ensures Wrap(bsect + Wrap(nrsv + Wrap(tables) + dir)) <= MAX32
    ensures bsect < Wrap(bsect + nrsv) ==> Wrap(bsect + nrsv) == bsect + nrsv
  {
    WrapOnce(bsect, nrsv);
  }

  /** A boot sector with two tables of 0x8000_0001 sectors each. */
  function Oversized(): (w: seq<byte>)
    ensures |w| == 512
  {
    seq(512, i =>
      if i == 0 then 0xEB
      else if i == 12 || i == 16 || i == 34 then 2
      else if i == 13 || i == 36 then 1
      else if i == 14 then 32
      else if i == 39 then 0x80
      else if 82 <= i < 87 then [70, 65, 84, 51, 50][i - 82]
      else if i == 510 then 0x55
      else if i == 511 then 0xAA
      else 0)
  }

  /** The mounter accepts it as a FAT32 volume of 0x20000 sectors, 34 of them in front of the data area, which no device
      of that size can hold. */
  lemma OversizedMounts(size: nat)
    requires 0x2_0000 <= size < MAX32
    ensures Classify(Oversized()) == FatRecord && TotalSectors(Oversized()) == 0x2_0000
    ensures Analyze(Oversized(), 0).Mounted? && !Analyze(Oversized(), 0).g.Valid(size)
    ensures Analyze(Oversized(), 0).g.database == 34
  {
    hide ClusterSize, Clusters, Geometry.Valid, Oversized, LdWord, LdDword;
    var w := Oversized();
    OversizedFields();
    OneSector(0x2_0000, 34);
    MountedValid(w, 0, Analyze(w, 0).g, size);
  }

  lemma OversizedFields()
    ensures var w := Oversized();
      && LdWord(w, 11) == 512 && w[13] == 1 && LdWord(w, 14) == 32 && w[16] == 2 && LdWord(w, 17) == 0
      && LdWord(w, 19) == 0 && LdWord(w, 22) == 0 && LdDword(w, 32) == 0x2_0000 && LdDword(w, 36) == 0x8000_0001
      && LdWord(w, 42) == 0
      && w[0] == 0xEB && w[82..87] == [70, 65, 84, 51, 50] && LdWord(w, 510) == 0xAA55
  {
  }

  lemma OneSector(tsect: nat, sysect: nat)
    requires sysect <= tsect
    ensures ClusterSize(1) && Clusters(tsect, sysect, 1) == tsect - sysect
  {
  }

  lemma WrapSmall(n: nat)
    ensures Wrap(n) < 0x1_0000_0000 && Wrap(n) <= n && (Wrap(n) == n <==> n < 0x1_0000_0000)
  {
  }

  lemma WrapOnce(a: nat, b: nat)
    requires a < 0x1_0000_0000 && b < 0x1_0000_0000
    ensures Wrap(a + b) == if a + b < 0x1_0000_0000 then a + b else a + b - 0x1_0000_0000
  {
  }

  lemma Doubled(n: nat, k: nat)
    requires k == 1 || k == 2
    ensures n * k == n + if k == 2 then n else 0
  {
  }

  lemma WordSmall(w: seq<byte>)
    requires |w| == 512
    ensures LdWord(w, 14) < 0x1_0000 && LdWord(w, 17) < 0x1_0000
  {
  }

  lemma ClustersInside(tsect: nat, sysect: nat, csize: nat)
    requires sysect <= tsect && ClusterSize(csize)
    ensures sysect + csize * Clusters(tsect, sysect, csize) <= tsect
  {
    if csize == 1 {} else if csize == 2 {} else if csize == 4 {} else if csize == 8 {}
    else if csize == 16 {} else if csize == 32 {} else if csize == 64 {} else {}
  }

  lemma EnoughSectors(bytes: nat, fsize: nat)
    ensures fsize >= (bytes + 511) / 512 ==> bytes <= 512 * fsize
  {
  }

  // Reading back what was written

  /** Byte `i` of the common fields. */
  lemma CommonByte(c: Layout, szVol: nat, i: nat)
    requires c.pau < 256 && i < 512
    ensures CommonFields(c, szVol)[i] ==
      if i < 11 then JUMP[i]
      else if i < 13 then WordBytes(512)[i - 11]
      else if i == 13 then c.pau
      else if i < 16 then WordBytes(c.szRsv)[i - 14]
      else if i == 16 then 1
      else if i < 19 then WordBytes(if c.fmt.FAT32? then 0 else 512)[i - 17]
      else if 19 <= i < 21 then (if szVol < 0x1_0000 then WordBytes(szVol)[i - 19] else 0)
      else if i == 21 then 0xF8
      else if 24 <= i < 26 then WordBytes(63)[i - 24]
      else if 26 <= i < 28 then WordBytes(255)[i - 26]
      else if 32 <= i < 36 then (if szVol < 0x1_0000 then 0 else DwordBytes(szVol)[i - 32])
      else 0
  {
    hide WordBytes;
    assert 28 <= i < 32 ==> DwordBytes(0)[i - 28] == 0 by {
      NoDword(i);
    }
  }

  lemma NoDword(i: int)
    ensures 28 <= i < 32 ==> DwordBytes(0)[i - 28] == 0
  {
  }

  /** Byte `i` once the fields of the type are filled in. */
  lemma TypeByte(w: seq<byte>, c: Layout, vsn: nat, i: nat)
    requires |w| == 512 && i < 512
    ensures TypeFields(w, c, vsn)[i] ==
      if 510 <= i then WordBytes(0xAA55)[i - 510]
      else if c.fmt.FAT32? then
        if 36 <= i < 40 then DwordBytes(c.szFat)[i - 36]
        else if 44 <= i < 48 then DwordBytes(2)[i - 44]
        else if 48 <= i < 50 then WordBytes(1)[i - 48]
        else if 50 <= i < 52 then WordBytes(6)[i - 50]
        else if i == 64 then 0x80
        else if i == 66 then 0x29
        else if 67 <= i < 71 then DwordBytes(vsn)[i - 67]
        else if 71 <= i < 90 then LABEL32[i - 71]
        else w[i]
      else
        if 22 <= i < 24 then WordBytes(c.szFat)[i - 22]
        else if i == 36 then 0x80
        else if i == 38 then 0x29
        else if 39 <= i < 43 then DwordBytes(vsn)[i - 39]
        else if 43 <= i < 62 then LABEL[i - 43]
        else w[i]
  {
    hide WordBytes, DwordBytes;
  }

  lemma WordFrom(w: seq<byte>, at: nat, v: nat)
    requires at + 2 <= |w| && w[at] == WordBytes(v)[0] && w[at + 1] == WordBytes(v)[1]
    ensures LdWord(w, at) == v % 0x1_0000
  {
    assert w[at..at + 2] == WordBytes(v);
    StoredWord(w, at, v);
  }

  lemma DwordFrom(w: seq<byte>, at: nat, v: nat)
    requires at + 4 <= |w| && forall i :: 0 <= i < 4 ==> w[at + i] == DwordBytes(v)[i]
    ensures LdDword(w, at) == v % 0x1_0000_0000
  {
    assert w[at..at + 4] == DwordBytes(v);
    StoredDword(w, at, v);
  }

  /** Two bytes of a sector that hold a word. */
  predicate Has(w: seq<byte>, at: nat, v: nat)
    requires at + 2 <= |w|
  {
    w[at] == WordBytes(v)[0] && w[at + 1] == WordBytes(v)[1]
  }

  /** The words of the boot sector that do not depend on the FAT type. */
  lemma CommonWords(c: Layout, szVol: nat, vsn: nat)
    requires c.pau < 256
    ensures var w := Vbr(c, szVol, vsn);
      && w[0] == 0xEB && Has(w, 11, 512) && w[13] == c.pau && Has(w, 14, c.szRsv) && w[16] == 1
      && Has(w, 17, if c.fmt.FAT32? then 0 else 512) && Has(w, 510, 0xAA55)
      && (if szVol < 0x1_0000 then Has(w, 19, szVol) else w[19] == w[20] == 0 && forall i :: 0 <= i < 4 ==>
        w[32 + i] == DwordBytes(szVol)[i])
  {
    hide WordBytes, DwordBytes, CommonFields, TypeFields;
    var u, w := CommonFields(c, szVol), Vbr(c, szVol, vsn);
    forall i | i in {0, 11, 12, 13, 14, 15, 16, 17, 18, 19, 20, 32, 33, 34, 35}
      ensures w[i] == u[i]
    {
      TypeByte(u, c, vsn, i);
    }
    CommonByte(c, szVol, 0);
    CommonByte(c, szVol, 11);
    CommonByte(c, szVol, 12);
    CommonByte(c, szVol, 13);
    CommonByte(c, szVol, 14);
    CommonByte(c, szVol, 15);
    CommonByte(c, szVol, 16);
    CommonByte(c, szVol, 17);
    CommonByte(c, szVol, 18);
    CommonByte(c, szVol, 19);
    CommonByte(c, szVol, 20);
    forall i | 0 <= i < 4
      ensures szVol >= 0x1_0000 ==> w[32 + i] == DwordBytes(szVol)[i]
    {
      CommonByte(c, szVol, 32 + i);
    }
    TypeByte(u, c, vsn, 510);
    TypeByte(u, c, vsn, 511);
  }

  predicate HasDword(w: seq<byte>, at: nat, v: nat)
    requires at + 4 <= |w|
  {
    forall i :: 0 <= i < 4 ==> w[at + i] == DwordBytes(v)[i]
  }

  /** The fields of a FAT32 boot sector. */
  lemma Words32(c: Layout, szVol: nat, vsn: nat)
    requires c.pau < 256 && c.fmt.FAT32?
    ensures var w := Vbr(c, szVol, vsn);
      && w[22] == w[23] == 0 && HasDword(w, 36, c.szFat) && w[42] == w[43] == 0 && HasDword(w, 44, 2) && Has(w, 48, 1)
      && w[82..87] == [70, 65, 84, 51, 50]
  {
    hide WordBytes, DwordBytes, CommonFields, TypeFields;
    var u, w := CommonFields(c, szVol), Vbr(c, szVol, vsn);
    forall i | i in {22, 23, 42, 43}
      ensures w[i] == 0
    {
      TypeByte(u, c, vsn, i);
      CommonByte(c, szVol, i);
    }
    forall i | 0 <= i < 4
      ensures w[36 + i] == DwordBytes(c.szFat)[i] && w[44 + i] == DwordBytes(2)[i]
    {
      TypeByte(u, c, vsn, 36 + i);
      TypeByte(u, c, vsn, 44 + i);
    }
    TypeByte(u, c, vsn, 48);
    TypeByte(u, c, vsn, 49);
    forall i | 82 <= i < 87
      ensures w[i] == LABEL32[i - 71]
    {
      TypeByte(u, c, vsn, i);
    }
  }

  /** The fields of a FAT12 or FAT16 boot sector. */
  lemma Words16(c: Layout, szVol: nat, vsn: nat)
    requires c.pau < 256 && !c.fmt.FAT32?
    ensures var w := Vbr(c, szVol, vsn);
      Has(w, 22, c.szFat) && w[54..57] == [70, 65, 84]
  {
    hide WordBytes, DwordBytes, CommonFields, TypeFields;
    var u, w := CommonFields(c, szVol), Vbr(c, szVol, vsn);
    TypeByte(u, c, vsn, 22);
    TypeByte(u, c, vsn, 23);
    forall i | 54 <= i < 57
      ensures w[i] == LABEL[i - 43]
    {
      TypeByte(u, c, vsn, i);
    }
  }

  /** The fields as the mounter loads them. */
  lemma Loaded(c: Layout, szVol: nat, vsn: nat)
    requires Sound(szVol, c)
    ensures c.pau < 256
    ensures var w := Vbr(c, szVol, vsn);
      && Classify(w) == FatRecord
      && LdWord(w, 11) == 512 && w[13] == c.pau && LdWord(w, 14) == c.szRsv && w[16] == 1
      && LdWord(w, 17) == (if c.fmt.FAT32? then 0 else 512) && TotalSectors(w) == szVol && FatSize(w) == c.szFat
      && (c.fmt.FAT32? ==> LdWord(w, 42) == 0 && LdDword(w, 44) == 2 && LdWord(w, 48) == 1)
  {
    hide WordBytes, DwordBytes, Vbr, LdDword, Clusters, TableBytes, Classify;
    var w := Vbr(c, szVol, vsn);
    RecordWritten(c, szVol, vsn);
    CommonWords(c, szVol, vsn);
    WordFrom(w, 11, 512);
    WordFrom(w, 14, c.szRsv);
    WordFrom(w, 17, if c.fmt.FAT32? then 0 else 512);
    if szVol < 0x1_0000 {
      WordFrom(w, 19, szVol);
    } else {
      DwordFrom(w, 32, szVol);
    }
    if c.fmt.FAT32? {
      Words32(c, szVol, vsn);
      FatBound(szVol, c);
      DwordFrom(w, 36, c.szFat);
      DwordFrom(w, 44, 2);
      WordFrom(w, 48, 1);
    } else {
      Words16(c, szVol, vsn);
      WordFrom(w, 22, c.szFat);
    }
  }

  lemma RecordWritten(c: Layout, szVol: nat, vsn: nat)
    requires Sound(szVol, c)
    ensures c.pau < 256 && Classify(Vbr(c, szVol, vsn)) == FatRecord
  {
    hide WordBytes, DwordBytes, Vbr, LdDword, Clusters, TableBytes, IsFatRecord;
    CommonWords(c, szVol, vsn);
    WordFrom(Vbr(c, szVol, vsn), 510, 0xAA55);
    if c.fmt.FAT32? {
      Words32(c, szVol, vsn);
    } else {
      Words16(c, szVol, vsn);
    }
  }

  lemma FatBound(szVol: nat, c: Layout)
    requires Sound(szVol, c)
    ensures c.szFat < 0x1_0000_0000 && ClusterSize(c.pau) && c.pau < 256
  {
  }

  /** The geometry that belongs to a layout. */
  function GeometryOf(c: Layout): Geometry
  {
    Geometry(c.fmt, 1, c.pau, if c.fmt.FAT32? then 0 else 512, c.nClst + 2, c.szFat, 0, c.szRsv,
             if c.fmt.FAT32? then 2 else c.szRsv + c.szFat, c.szRsv + c.szFat + c.szDir)
  }

  /** A new volume mounts: the mounter accepts its boot sector and finds the FAT type, the number of clusters,
      the cluster size and the places of the table and the data that the formatter chose. */
  lemma MountsAsFormatted(c: Layout, szVol: nat, vsn: nat)
    requires Sound(szVol, c)
    ensures c.pau < 256
    ensures Classify(Vbr(c, szVol, vsn)) == FatRecord
    ensures Analyze(Vbr(c, szVol, vsn), 0) == Mounted(GeometryOf(c))
    ensures szVol < MAX32 ==> GeometryOf(c).Valid(szVol)
  {
    hide Vbr, LdWord, LdDword, Classify, FatSize, TotalSectors, Clusters, Wrap;
    Loaded(c, szVol, vsn);
    WrapSmall(c.szFat);
    WrapSmall(c.szRsv);
    WrapSmall(c.szRsv + c.szFat);
    WrapSmall(c.szRsv + c.szFat + c.szDir);
    ClustersFit(szVol, c.szRsv + c.szFat + c.szDir, c.pau);
  }

  lemma ClustersFit(szVol: nat, used: nat, pau: nat)
    requires ClusterSize(pau) && used <= szVol
    ensures used + pau * Clusters(szVol, used, pau) <= szVol
  {
    if pau == 1 {} else if pau == 2 {} else if pau == 4 {} else if pau == 8 {}
    else if pau == 16 {} else if pau == 32 {} else if pau == 64 {} else {}
  }

  /** Byte `i` of an FSInfo sector. */
  lemma FsInfoByte(free: nat, i: nat)
    requires i < 512
    ensures FsInfo(free)[i] ==
      if i < 4 then DwordBytes(0x4161_5252)[i]
      else if 484 <= i < 488 then DwordBytes(0x6141_7272)[i - 484]
      else if 488 <= i < 492 then DwordBytes(free)[i - 488]
      else if 492 <= i < 496 then DwordBytes(2)[i - 492]
      else if 510 <= i then WordBytes(0xAA55)[i - 510]
      else 0
  {
    hide WordBytes, DwordBytes;
  }

  /** The fields of an FSInfo sector as the mounter loads them. */
  lemma FsInfoRead(free: nat)
    requires free < 0x1_0000_0000
    ensures var w := FsInfo(free);
      && LdWord(w, 510) == 0xAA55 && LdDword(w, 0) == 0x4161_5252 && LdDword(w, 484) == 0x6141_7272
      && LdDword(w, 488) == free && LdDword(w, 492) == 2
  {
    hide WordBytes, DwordBytes, FsInfo, LdWord, LdDword;
    var w := FsInfo(free);
    FsInfoByte(free, 510);
    FsInfoByte(free, 511);
    WordFrom(w, 510, 0xAA55);
    forall i | 0 <= i < 4
      ensures w[0 + i] == DwordBytes(0x4161_5252)[i] && w[484 + i] == DwordBytes(0x6141_7272)[i]
      ensures w[488 + i] == DwordBytes(free)[i] && w[492 + i] == DwordBytes(2)[i]
    {
      FsInfoByte(free, i);
      FsInfoByte(free, 484 + i);
      FsInfoByte(free, 488 + i);
      FsInfoByte(free, 492 + i);
    }
    DwordFrom(w, 0, 0x4161_5252);
    DwordFrom(w, 484, 0x6141_7272);
    DwordFrom(w, 488, free);
    DwordFrom(w, 492, 2);
  }
}
