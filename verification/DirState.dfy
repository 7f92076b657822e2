/** Where the entries of a directory lie: in the fixed root directory or along a cluster chain. */
module DirState {
  import opened Bytes
  import opened FatTable
  import opened FatGeometry
  import opened FatWindow
  import opened Chains
  import opened FileModel
  import opened FileState
  import opened LongNames
  import opened DirTable

  /** A directory has at most this many entries. */
  const MAX_ENTRIES: nat := 65536

  /** The sectors of a directory; only the root directory of a volume without FAT32 has no chain. */
  function DirSectors(g: Geometry, chain: seq<nat>): (r: seq<nat>)
    requires ClusterSize(g.csize) && forall c :: c in chain ==> 2 <= c
  {
    if chain == [] then seq(g.nRootdir / 16, i requires 0 <= i => g.dirbase + i) else Sectors(g, chain)
  }

  /** The cluster a directory starts at; 0 stands for the root directory. */
  function StartCluster(g: Geometry, sclust: nat): nat
  {
    if sclust == 0 && g.fsType.FAT32? then g.dirbase else sclust
  }

  ghost predicate DirOk(g: Geometry, size: nat, f: seq<nat>, chain: seq<nat>, sclust: nat)
  {
    && g.Valid(size) && |f| == g.nFatent
    && ChainOk(f, chain, StartCluster(g, sclust)) && (StartCluster(g, sclust) == 0 ==> !g.fsType.FAT32?)
  }

  ghost predicate SectorsOk(area: seq<byte>, ab: nat, secs: seq<nat>)
    ensures SectorsOk(area, ab, secs) ==> forall s :: s in secs ==> InArea(area, ab, s)
  {
    (forall s :: s in secs ==> InArea(area, ab, s)) && Distinct(secs)
  }

  function EntryCount(secs: seq<nat>): nat
  {
    if 16 * |secs| < MAX_ENTRIES then 16 * |secs| else MAX_ENTRIES
  }

  function EntryIn(d: seq<byte>, e: nat): (r: seq<byte>)
    requires 32 * e + 32 <= |d|
    ensures |r| == 32
  {
    d[32 * e..32 * e + 32]
  }

  /** The entries these sectors hold. */
  ghost function TableIn(area: seq<byte>, ab: nat, secs: seq<nat>): (t: seq<seq<byte>>)
    requires SectorsOk(area, ab, secs)
    ensures IsTable(t) && |t| == EntryCount(secs)
  {
    seq(EntryCount(secs), e requires 0 <= e < EntryCount(secs) => EntryIn(FileData(area, ab, secs), e))
  }

  lemma NoChain(f: seq<nat>, chain: seq<nat>, sclust: nat)
    requires ChainOk(f, chain, sclust)
    ensures chain == [] <==> sclust == 0
  {
  }

  /** The sectors of a directory lie behind the tables and are distinct. */
  lemma DirSectorsOk(g: Geometry, size: nat, f: seq<nat>, chain: seq<nat>, sclust: nat, area: seq<byte>)
    requires DirOk(g, size, f, chain, sclust) && |area| == 512 * (size - g.AreaBase())
    ensures ClusterSize(g.csize) && forall c :: c in chain ==> 2 <= c < g.nFatent
    ensures SectorsOk(area, g.AreaBase(), DirSectors(g, chain)) && |DirSectors(g, chain)| > 0
    ensures forall s :: s in DirSectors(g, chain) ==> g.AreaBase() <= s < size && s > 0
  {
    hide ChainOk, Sectors, Geometry.Valid, ClusterSize, Distinct;
    CsizeOk(g, size);
    GoodSectors(g, size, f, chain, StartCluster(g, sclust), area);
    NoChain(f, chain, StartCluster(g, sclust));
    if chain == [] {
      RootSectors(g, size, area);
    } else {
      assert g.csize * |chain| > 0;
    }
  }

  lemma RootSectors(g: Geometry, size: nat, area: seq<byte>)
    requires g.Valid(size) && !g.fsType.FAT32? && |area| == 512 * (size - g.AreaBase())
    ensures ClusterSize(g.csize) && Distinct(DirSectors(g, [])) && |DirSectors(g, [])| > 0
    ensures forall s :: s in DirSectors(g, []) ==> InArea(area, g.AreaBase(), s)
  {
  }

  /** An entry in the sector it lies in. */
  lemma EntrySlice(area: seq<byte>, ab: nat, secs: seq<nat>, e: nat)
    requires SectorsOk(area, ab, secs) && e < EntryCount(secs)
    ensures e / 16 < |secs| && InArea(area, ab, secs[e / 16])
    ensures TableIn(area, ab, secs)[e]
         == area[512 * (secs[e / 16] - ab)..512 * (secs[e / 16] - ab + 1)][32 * (e % 16)..32 * (e % 16) + 32]
  {
    FileSlice(area, ab, secs, e / 16);
    SubSlice(FileData(area, ab, secs), 512 * (e / 16), 512 * (e / 16 + 1), 32 * (e % 16), 32);
  }

  /** Bytes written into one sector of a file. */
  lemma SectorPatched(area: seq<byte>, ab: nat, secs: seq<nat>, k: nat, o: nat, d: seq<byte>)
    requires SectorsOk(area, ab, secs) && k < |secs| && o + |d| <= 512
    ensures InArea(area, ab, secs[k])
    ensures SectorsOk(Splice(area, 512 * (secs[k] - ab) + o, d), ab, secs)
    ensures FileData(Splice(area, 512 * (secs[k] - ab) + o, d), ab, secs) ==
      Splice(FileData(area, ab, secs), 512 * k + o, d)
  {
    assert InArea(area, ab, secs[k]);
    var area' := Splice(area, 512 * (secs[k] - ab) + o, d);
    assert SectorsOk(area', ab, secs);
    var x, y := FileData(area', ab, secs), Splice(FileData(area, ab, secs), 512 * k + o, d);
    forall i | 0 <= i < |x|
      ensures x[i] == y[i]
    {
      var q, r := i / 512, i % 512;
      assert InArea(area, ab, secs[q]);
      assert q < k || q == k || k < q;
    }
  }

  /** Writing one entry changes that entry of the table and no other. */
  lemma EntryPatched(area: seq<byte>, ab: nat, secs: seq<nat>, e: nat, d: seq<byte>)
    requires SectorsOk(area, ab, secs) && e < EntryCount(secs) && |d| == 32
    ensures e / 16 < |secs| && InArea(area, ab, secs[e / 16])
    ensures SectorsOk(Splice(area, 512 * (secs[e / 16] - ab) + 32 * (e % 16), d), ab, secs)
    ensures TableIn(Splice(area, 512 * (secs[e / 16] - ab) + 32 * (e % 16), d), ab, secs) ==
      TableIn(area, ab, secs)[e := d]
  {
    hide SectorsOk, FileData, Splice;
    SectorPatched(area, ab, secs, e / 16, 32 * (e % 16), d);
    var b := FileData(area, ab, secs);
    forall i | 0 <= i < EntryCount(secs)
      ensures EntryIn(Splice(b, 32 * e, d), i) == if i == e then d else EntryIn(b, i)
    {
      OtherEntry(b, e, d, i);
    }
  }

  lemma OtherEntry(b: seq<byte>, e: nat, d: seq<byte>, i: nat)
    requires |d| == 32 && 32 * e + 32 <= |b| && 32 * i + 32 <= |b|
    ensures EntryIn(Splice(b, 32 * e, d), i) == if i == e then d else EntryIn(b, i)
  {
    if i == e {
      SplicedSlice(b, 32 * e, d);
    } else {
      SliceOfSplice(b, 32 * e, d, 32 * i, 32 * i + 32);
    }
  }

  /** The entries of longer data, of which the rest is blank. */
  lemma BlankEntries(d: seq<byte>, k: nat, x: seq<byte>, i: nat)
    requires 512 * k <= |x| && |d| == 512 * k && x[..512 * k] == d && x[512 * k..] == Blank(|x| - 512 * k)
    requires 32 * i + 32 <= |x|
    ensures i < 16 * k ==> EntryIn(x, i) == EntryIn(d, i)
    ensures i >= 16 * k ==> EntryIn(x, i)[0] == 0
  {
    if i < 16 * k {
      assert x[..512 * k][32 * i..32 * i + 32] == x[32 * i..32 * i + 32];
    } else {
      assert EntryIn(x, i)[0] == x[32 * i] == x[512 * k..][32 * i - 512 * k];
    }
  }

  /** A table in longer data starts with the table in the shorter. */
  lemma TableLonger(area: seq<byte>, ab: nat, secs: seq<nat>, area': seq<byte>, secs': seq<nat>)
    requires SectorsOk(area, ab, secs) && SectorsOk(area', ab, secs') && |secs| <= |secs'|
    requires FileData(area', ab, secs')[..512 * |secs|] == FileData(area, ab, secs)
    requires FileData(area', ab, secs')[512 * |secs|..] == Blank(512 * (|secs'| - |secs|))
    ensures |TableIn(area, ab, secs)| <= |TableIn(area', ab, secs')|
    ensures TableIn(area', ab, secs')[..|TableIn(area, ab, secs)|] == TableIn(area, ab, secs)
    ensures AllUnused(TableIn(area', ab, secs')[|TableIn(area, ab, secs)|..])
    ensures |TableIn(area', ab, secs')| > |TableIn(area, ab, secs)| || |secs'| == |secs| ||
      |TableIn(area, ab, secs)| == MAX_ENTRIES
  {
    hide SectorsOk, FileData, Blank;
    var t, t' := TableIn(area, ab, secs), TableIn(area', ab, secs');
    forall i | 0 <= i < |t'|
      ensures i < |t| ==> t'[i] == t[i]
      ensures i >= |t| ==> t'[i][0] == 0
    {
      BlankEntries(FileData(area, ab, secs), |secs|, FileData(area', ab, secs'), i);
    }
    assert t'[..|t|] == t;
    var more := t'[|t|..];
    assert forall i :: 0 <= i < |more| ==> more[i] == t'[|t| + i];
  }

  /** Clearing the cluster just linked behind the chain. */
  lemma DataStretched(g: Geometry, area: seq<byte>, chain: seq<nat>, c: nat, area': seq<byte>)
    requires ClusterSize(g.csize) && chain != [] && 2 <= c && (forall c :: c in chain ==> 2 <= c)
    requires SectorsOk(area, g.AreaBase(), Sectors(g, chain)) && SectorsOk(area, g.AreaBase(), Sectors(g, chain + [c]))
    requires IsCleared(g, area, c, area')
    ensures SectorsOk(area', g.AreaBase(), Sectors(g, chain + [c]))
    ensures g.csize * |chain| + g.csize == |Sectors(g, chain + [c])|
    ensures FileData(area', g.AreaBase(), Sectors(g, chain + [c]))[..512 * (g.csize * |chain|)] ==
      FileData(area, g.AreaBase(), Sectors(g, chain))
    ensures FileData(area', g.AreaBase(), Sectors(g, chain + [c]))[512 * (g.csize * |chain|)..] == Blank(512 * g.csize)
  {
    hide Sectors, FileData, Splice, Blank, ClusterSize, Run, Distinct;
    var ab, k, n := g.AreaBase(), g.csize * |chain|, g.csize;
    var secs, secs', z := Sectors(g, chain), Sectors(g, chain + [c]), Blank(512 * n);
    NewRun(g, chain, c);
    RunWritten(area, ab, secs', k, n, z, area');
    SectorsStretched(g, chain, c);
    FileDataPrefix(area, ab, secs, secs');
    SplicedTail(FileData(area, ab, secs'), 512 * k, z);
  }

  lemma SplicedTail(s: seq<byte>, at: nat, d: seq<byte>)
    requires at + |d| == |s|
    ensures Splice(s, at, d)[..at] == s[..at] && Splice(s, at, d)[at..] == d
  {
  }

  /** The sectors of the last cluster of a chain. */
  lemma NewRun(g: Geometry, chain: seq<nat>, c: nat)
    requires ClusterSize(g.csize) && 2 <= c && (forall c :: c in chain ==> 2 <= c)
    ensures g.csize > 0 && |Sectors(g, chain + [c])| == g.csize * |chain| + g.csize
    ensures Run(Sectors(g, chain + [c]), g.csize * |chain|, g.csize)
    ensures Sectors(g, chain + [c])[g.csize * |chain|] == g.database + g.csize * (c - 2)
  {
    hide Sectors, Run, ClusterSize;
    var ch := chain + [c];
    var k := g.csize * |chain|;
    assert g.csize * (|chain| + 1) == k + g.csize;
    SplitSector(g.csize, |chain|, 0);
    assert k / g.csize == |chain| && k % g.csize == 0;
    RunHere(g, ch, k, g.csize);
    SectorsInCluster(g, ch, |chain|, 0);
  }

  /** A directory that got another, blank cluster has the same entries and more that were never used. */
  lemma DirStretched(g: Geometry, size: nat, f: seq<nat>, chain: seq<nat>, sclust: nat, area: seq<byte>, c: nat,
                     eoc: nat, f': seq<nat>, area': seq<byte>)
    requires DirOk(g, size, f, chain, sclust) && |area| == 512 * (size - g.AreaBase()) && chain != []
    requires 2 <= c < |f| <= eoc && f[c] == 0 && chain[|chain| - 1] < |f| && f' == Taken(f, chain[|chain| - 1], c, eoc)
    requires IsCleared(g, area, c, area')
    ensures DirOk(g, size, f', chain + [c], sclust)
    ensures ClusterSize(g.csize) && forall c :: c in chain ==> 2 <= c
    ensures SectorsOk(area, g.AreaBase(), DirSectors(g, chain))
    ensures SectorsOk(area', g.AreaBase(), DirSectors(g, chain + [c]))
    ensures
      var t := TableIn(area, g.AreaBase(), DirSectors(g, chain));
      var t' := TableIn(area', g.AreaBase(), DirSectors(g, chain + [c]));
      |t| <= |t'| && t'[..|t|] == t && AllUnused(t'[|t|..]) && (|t'| > |t| || |t| == MAX_ENTRIES)
  {
    hide Sectors, FileData, Splice, Blank, ClusterSize, Run, Distinct, ChainOk, Geometry.Valid, TableIn, SectorsOk;
    DirSectorsOk(g, size, f, chain, sclust, area);
    ChainGrown(f, chain, StartCluster(g, sclust), c, eoc);
    DirSectorsOk(g, size, f', chain + [c], sclust, area);
    DataStretched(g, area, chain, c, area');
    TableLonger(area, g.AreaBase(), Sectors(g, chain), area', Sectors(g, chain + [c]));
  }

  /** The cursor of a directory, its offset, cluster and sector, is at entry `e`. */
  ghost predicate CursorIn(g: Geometry, chain: seq<nat>, dptr: nat, clust: nat, sect: nat, e: nat)
    requires ClusterSize(g.csize) && forall c :: c in chain ==> 2 <= c
  {
    && e < EntryCount(DirSectors(g, chain)) && e / 16 < |DirSectors(g, chain)|
    && dptr == 32 * e && sect == DirSectors(g, chain)[e / 16]
    && (if chain == [] then clust == 0 else e / 16 / g.csize < |chain| && clust == chain[e / 16 / g.csize])
  }

  lemma ClusterOffset(csize: nat, j: nat, o: nat)
    ensures (512 * csize * j + o) / 512 == csize * j + o / 512
  {
    var a := csize * j;
    assert 512 * csize * j == 512 * a;
    assert (512 * a + o) / 512 == a + o / 512;
  }

  /** The sector of an entry, and its cluster. */
  lemma SectorOfEntry(g: Geometry, size: nat, f: seq<nat>, chain: seq<nat>, sclust: nat, j: nat, o: nat)
    requires DirOk(g, size, f, chain, sclust) && j < |chain| && o < 512 * g.csize
    ensures ClusterSize(g.csize) && forall c :: c in chain ==> 2 <= c < g.nFatent
    ensures var k := (512 * g.csize * j + o) / 512;
      && k < |DirSectors(g, chain)| && k / g.csize == j
      && g.ClusterSector(chain[j]) != 0 && DirSectors(g, chain)[k] == g.ClusterSector(chain[j]) + o / 512
  {
    hide ChainOk, Sectors, ClusterSize, Geometry.Valid, Geometry.ClusterSector;
    CsizeOk(g, size);
    ChainMembers(f, chain, StartCluster(g, sclust));
    ClusterOffset(g.csize, j, o);
    SplitSector(g.csize, j, o / 512);
    SectorsInCluster(g, chain, j, o / 512);
    ClusterNumber(g, size, chain[j]);
  }

  /** The links a directory follows. */
  lemma DirLink(g: Geometry, size: nat, f: seq<nat>, chain: seq<nat>, sclust: nat, j: nat)
    requires DirOk(g, size, f, chain, sclust) && j < |chain|
    ensures 2 <= chain[j] < |f| == g.nFatent < MAX32
    ensures if j + 1 < |chain| then 2 <= f[chain[j]] == chain[j + 1] < |f| else f[chain[j]] >= |f|
    ensures chain[0] == StartCluster(g, sclust)
  {
    if j + 1 < |chain| {
      assert 2 <= chain[j + 1] < |f|;
    }
  }

  lemma DirStart(g: Geometry, size: nat, f: seq<nat>, chain: seq<nat>, sclust: nat)
    requires DirOk(g, size, f, chain, sclust)
    ensures chain == [] <==> StartCluster(g, sclust) == 0
    ensures chain != [] ==> chain[0] == StartCluster(g, sclust)
    ensures chain == [] ==>
      ClusterSize(g.csize) && |DirSectors(g, chain)| == g.nRootdir / 16 && g.nRootdir % 16 == 0 && 0 < g.dirbase
    ensures chain == [] ==> forall i :: 0 <= i < g.nRootdir / 16 ==> DirSectors(g, chain)[i] == g.dirbase + i
  {
  }

  /** Behind the last cluster of a directory there is no entry. */
  lemma BeyondChain(g: Geometry, chain: seq<nat>, ofs: nat)
    requires ClusterSize(g.csize) && chain != [] && forall c :: c in chain ==> 2 <= c
    ensures 512 * (g.csize * |chain|) <= ofs ==> EntryCount(DirSectors(g, chain)) <= ofs / 32
    ensures ofs % 32 == 0 && ofs < 0x20_0000 && ofs < 512 * (g.csize * |chain|) ==>
      ofs / 32 < EntryCount(DirSectors(g, chain))
  {
  }

  /** The cursor in cluster `j` of the chain. */
  lemma CursorInChain(g: Geometry, size: nat, f: seq<nat>, chain: seq<nat>, sclust: nat, j: nat, o: nat)
    requires DirOk(g, size, f, chain, sclust) && j < |chain| && o < 512 * g.csize
    requires (512 * g.csize * j + o) % 32 == 0 && 512 * g.csize * j + o < 0x20_0000
    ensures ClusterSize(g.csize) && (forall c :: c in chain ==> 2 <= c) && g.ClusterSector(chain[j]) != 0
    ensures CursorIn(g, chain, 512 * g.csize * j + o, chain[j], g.ClusterSector(chain[j]) + o / 512,
      (512 * g.csize * j + o) / 32)
  {
    hide ChainOk, Sectors, ClusterSize, Geometry.Valid, Geometry.ClusterSector, DirSectors, DirOk;
    SectorOfEntry(g, size, f, chain, sclust, j, o);
    var ofs := 512 * g.csize * j + o;
    assert ofs / 32 / 16 == ofs / 512;
  }

  /** The cursor in the root directory. */
  lemma CursorInRoot(g: Geometry, size: nat, f: seq<nat>, chain: seq<nat>, sclust: nat, ofs: nat)
    requires DirOk(g, size, f, chain, sclust) && chain == [] && ofs % 32 == 0 && ofs < 0x20_0000
    ensures ClusterSize(g.csize) && g.dirbase != 0
    ensures ofs / 32 < g.nRootdir ==> CursorIn(g, chain, ofs, 0, g.dirbase + ofs / 512, ofs / 32)
    ensures ofs / 32 >= g.nRootdir ==> ofs / 32 >= EntryCount(DirSectors(g, chain))
  {
    hide ChainOk, Sectors, Geometry.Valid, DirSectors;
    DirStart(g, size, f, chain, sclust);
  }

  /** The next entry in the same sector. */
  lemma NextInSector(g: Geometry, chain: seq<nat>, dptr: nat, clust: nat, sect: nat, e: nat)
    requires ClusterSize(g.csize) && (forall c :: c in chain ==> 2 <= c) && CursorIn(g, chain, dptr, clust, sect, e)
    ensures dptr + 32 >= 0x20_0000 ==> e + 1 == EntryCount(DirSectors(g, chain))
    ensures (dptr + 32) % 512 != 0 && dptr + 32 < 0x20_0000 ==> CursorIn(g, chain, dptr + 32, clust, sect, e + 1)
  {
    hide DirSectors, ClusterSize;
    if (dptr + 32) % 512 != 0 {
      assert (e + 1) % 16 != 0 && (e + 1) / 16 == e / 16;
    }
  }

  /** The next entry in the next sector of the root directory. */
  lemma NextInRoot(g: Geometry, size: nat, f: seq<nat>, chain: seq<nat>, sclust: nat, dptr: nat, clust: nat, sect: nat,
                   e: nat)
    requires DirOk(g, size, f, chain, sclust) && chain == [] && ClusterSize(g.csize)
    requires CursorIn(g, chain, dptr, clust, sect, e)
    requires (dptr + 32) % 512 == 0 && dptr + 32 < 0x20_0000
    ensures (dptr + 32) / 32 < g.nRootdir ==> CursorIn(g, chain, dptr + 32, clust, sect + 1, e + 1)
    ensures (dptr + 32) / 32 >= g.nRootdir ==> e + 1 == EntryCount(DirSectors(g, chain))
  {
    hide ChainOk, Sectors, Geometry.Valid, DirSectors, ClusterSize;
    DirStart(g, size, f, chain, sclust);
    assert (e + 1) % 16 == 0 && (e + 1) / 16 == e / 16 + 1;
  }

  lemma NextSlot(csize: nat, k: nat)
    requires ClusterSize(csize)
    ensures (k + 1) % csize != 0 ==> (k + 1) / csize == k / csize && (k + 1) % csize == k % csize + 1
    ensures (k + 1) % csize == 0 ==> (k + 1) / csize == k / csize + 1 && k + 1 == csize * (k / csize + 1)
  {
    if csize == 1 {} else if csize == 2 {} else if csize == 4 {} else if csize == 8 {}
    else if csize == 16 {} else if csize == 32 {} else if csize == 64 {} else {}
  }

  lemma EntrySector(e: nat)
    requires (32 * e + 32) % 512 == 0
    ensures (e + 1) / 16 == e / 16 + 1 == (32 * e + 32) / 512 && 32 * e + 32 == 512 * (e / 16 + 1)
  {
  }

  /** The next entry in the next sector of the same cluster. */
  lemma NextInCluster(g: Geometry, chain: seq<nat>, dptr: nat, clust: nat, sect: nat, e: nat)
    requires ClusterSize(g.csize) && (forall c :: c in chain ==> 2 <= c) && chain != []
    requires CursorIn(g, chain, dptr, clust, sect, e)
    requires (dptr + 32) % 512 == 0 && dptr + 32 < 0x20_0000 && (dptr + 32) / 512 % g.csize != 0
    ensures CursorIn(g, chain, dptr + 32, clust, sect + 1, e + 1)
  {
    hide ClusterSize;
    EntrySector(e);
    var k := e / 16;
    NextSlot(g.csize, k);
    SectorInCluster(g.csize, k, |chain|);
    SectorInCluster(g.csize, k + 1, |chain|);
  }

  /** The next entry in the next cluster: the links on both sides of the cursor. */
  lemma AtClusterEnd(g: Geometry, chain: seq<nat>, dptr: nat, clust: nat, sect: nat, e: nat) returns (j: nat)
    requires ClusterSize(g.csize) && (forall c :: c in chain ==> 2 <= c) && chain != []
    requires CursorIn(g, chain, dptr, clust, sect, e)
    requires (dptr + 32) % 512 == 0 && dptr + 32 < 0x20_0000 && (dptr + 32) / 512 % g.csize == 0
    ensures j < |chain| && clust == chain[j] && dptr + 32 == 512 * g.csize * (j + 1)
    ensures j + 1 == |chain| ==> e + 1 == EntryCount(DirSectors(g, chain))
  {
    hide ClusterSize, Sectors;
    EntrySector(e);
    j := LinkIndex(g.csize, e / 16);
    NextSlot(g.csize, e / 16);
    Bytes512(g.csize, j);
  }

  lemma Bytes512(csize: nat, j: nat)
    ensures 512 * (csize * (j + 1)) == 512 * csize * (j + 1)
  {
  }

  lemma CursorFacts(g: Geometry, chain: seq<nat>, dptr: nat, clust: nat, sect: nat, e: nat)
    requires ClusterSize(g.csize) && (forall c :: c in chain ==> 2 <= c) && CursorIn(g, chain, dptr, clust, sect, e)
    requires forall s :: s in DirSectors(g, chain) ==> s > 0
    ensures sect in DirSectors(g, chain) && (clust == 0 <==> chain == []) && dptr == 32 * e
    ensures e < EntryCount(DirSectors(g, chain))
  {
    if chain != [] {
      assert clust in chain;
    }
  }

  lemma Aligned(csize: nat, j: nat)
    ensures (512 * csize * j + 0) % 32 == 0
  {
    var a := csize * j;
    assert 512 * csize * j == 32 * (16 * a);
  }

  /** The table `r` is `t` with unused entries appended; the cached count is right if it was, and no entry is 1 if none
      was. */
  ghost predicate Grew(t: seq<seq<byte>>, r: seq<seq<byte>>, f: seq<nat>, free: nat, counted: bool, sane: bool)
    requires IsTable(r) && 2 <= |f|
    ensures Grew(t, r, f, free, counted, sane) ==> Extends(t, r)
  {
    && Extends(t, r)
    && (counted ==> free <= |f| - 2 ==> free == FreeCount(f))
    && (sane ==> Sane(f))
  }

  lemma GrewMore(t: seq<seq<byte>>, r: seq<seq<byte>>, f: seq<nat>, free: nat, counted: bool, sane: bool,
                 s: seq<seq<byte>>, f': seq<nat>, free': nat)
    requires IsTable(t) && IsTable(r) && IsTable(s) && 2 <= |f| && 2 <= |f'|
    requires Grew(t, r, f, free, counted, sane)
    requires Grew(r, s, f', free', free <= |f| - 2 ==> free == FreeCount(f), Sane(f))
    ensures Grew(t, s, f', free', counted, sane)
  {
    ExtendsMore(t, r, s);
  }

  /** Overwriting part of an entry is overwriting the entry. */
  lemma EntryPiece(area: seq<byte>, ab: nat, secs: seq<nat>, e: nat, o: nat, x: seq<byte>)
    requires SectorsOk(area, ab, secs) && e < EntryCount(secs) && o + |x| <= 32
    ensures e / 16 < |secs| && InArea(area, ab, secs[e / 16])
    ensures Splice(area, 512 * (secs[e / 16] - ab) + 32 * (e % 16) + o, x)
         == Splice(area, 512 * (secs[e / 16] - ab) + 32 * (e % 16), Splice(TableIn(area, ab, secs)[e], o, x))
  {
    hide SectorsOk, TableIn, Splice;
    EntrySlice(area, ab, secs, e);
    var at := 512 * (secs[e / 16] - ab);
    SubSlice(area, at, at + 512, 32 * (e % 16), 32);
    SpliceInner(area, at + 32 * (e % 16), TableIn(area, ab, secs)[e], o, x);
  }
}
