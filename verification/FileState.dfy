/** An open file as a value: its chain, its size and its one-sector buffer, against the volume. */
module FileState {
  import opened Bytes
  import opened FatTable
  import opened FatGeometry
  import opened Chains
  import opened FileModel

  /** An earlier state of the volume, and the chain the file had then. */
  datatype Base = Base(table: seq<nat>, area: seq<byte>, chain: seq<nat>)

  /** `slot` is the number, within the file, of the sector in the buffer. */
  datatype File = File(chain: seq<nat>, sclust: nat, objsize: nat, sect: nat, slot: nat, dirty: bool, buf: seq<byte>,
    base: Base)

  /** Is sector `s` one of cluster `c`? */
  predicate ClusterHas(g: Geometry, c: nat, s: nat)
  {
    2 <= c && g.database + g.csize * (c - 2) <= s < g.database + g.csize * (c - 2) + g.csize
  }

  /** The window shows no sector of the file, nor of a cluster it may still get. */
  ghost predicate Away(g: Geometry, f: seq<nat>, ch: seq<nat>, shown: nat)
  {
    forall c: nat :: 2 <= c < |f| && (c in ch || f[c] == 0) ==> !ClusterHas(g, c, shown)
  }

  ghost predicate ChainOk(f: seq<nat>, ch: seq<nat>, sclust: nat)
  {
    if sclust == 0 then ch == [] else IsChain(f, ch) && ch[0] == sclust
  }

  ghost predicate Owns(g: Geometry, ch: seq<nat>, s: nat)
  {
    exists c :: c in ch && ClusterHas(g, c, s)
  }

  /** Nothing but the file has changed since `b`: its chain was stretched by clusters that were free, the links of other
      clusters are as they were, and so are all sectors that are not its own. */
  ghost predicate OnlyFile(g: Geometry, b: Base, f: seq<nat>, area: seq<byte>, ch: seq<nat>)
  {
    && |b.table| == |f| && |b.area| == |area|
    && |b.chain| <= |ch| && ch[..|b.chain|] == b.chain
    && (forall i :: |b.chain| <= i < |ch| ==> ch[i] < |f| && b.table[ch[i]] == 0)
    && (forall c :: 0 <= c < |f| && c !in ch ==> f[c] == b.table[c])
    && (forall s {:trigger Owns(g, ch, s)} :: InArea(area, g.AreaBase(), s) && !Owns(g, ch, s) ==>
      SameSector(b.area, area, g.AreaBase(), s))
  }

  ghost predicate SameSector(a: seq<byte>, b: seq<byte>, ab: nat, s: nat)
    requires |a| == |b| && InArea(b, ab, s)
  {
    a[512 * (s - ab)..512 * (s - ab + 1)] == b[512 * (s - ab)..512 * (s - ab + 1)]
  }

  lemma SectorOwned(g: Geometry, ch: seq<nat>, k: nat)
    requires ClusterSize(g.csize) && k < g.csize * |ch| && forall c :: c in ch ==> 2 <= c
    ensures Owns(g, ch, FileSector(g, ch, k))
  {
    SectorInCluster(g.csize, k, |ch|);
    assert ch[k / g.csize] in ch && ClusterHas(g, ch[k / g.csize], FileSector(g, ch, k));
  }

  lemma OnlyFileWritten(g: Geometry, b: Base, f: seq<nat>, area: seq<byte>, ch: seq<nat>, k: nat, n: nat, d: seq<byte>,
                        area': seq<byte>)
    requires OnlyFile(g, b, f, area, ch) && ClusterSize(g.csize) && (forall c :: c in ch ==> 2 <= c)
    requires Run(Sectors(g, ch), k, n) && n > 0 && |d| == 512 * n
    requires g.AreaBase() <= Sectors(g, ch)[k] && 512 * (Sectors(g, ch)[k] - g.AreaBase() + n) <= |area|
    requires area' == Splice(area, 512 * (Sectors(g, ch)[k] - g.AreaBase()), d)
    ensures OnlyFile(g, b, f, area', ch)
  {
    var ab, secs := g.AreaBase(), Sectors(g, ch);
    forall s: nat | InArea(area', ab, s) && !Owns(g, ch, s)
      ensures SameSector(b.area, area', ab, s)
    {
      if secs[k] <= s < secs[k] + n {
        assert secs[k + (s - secs[k])] == s;
        SectorOwned(g, ch, k + (s - secs[k]));
      }
      assert SameSector(b.area, area, ab, s);
    }
  }

  lemma OnlyFileGrown(g: Geometry, b: Base, f: seq<nat>, area: seq<byte>, ch: seq<nat>, r: nat, eoc: nat)
    requires OnlyFile(g, b, f, area, ch) && r < |f| && f[r] == 0 && r !in ch
    requires ch != [] ==> ch[|ch| - 1] < |f|
    ensures OnlyFile(g, b, Taken(f, if ch == [] then 0 else ch[|ch| - 1], r, eoc), area, ch + [r])
  {
    forall s: nat | InArea(area, g.AreaBase(), s) && !Owns(g, ch + [r], s)
      ensures SameSector(b.area, area, g.AreaBase(), s)
    {
      assert !Owns(g, ch, s);
    }
  }

  /** The clusters of the chain hold the same bytes in `a` and in `b`. */
  ghost predicate SameBytes(g: Geometry, a: seq<byte>, b: seq<byte>, o: seq<nat>)
  {
    && ClusterSize(g.csize) && (forall c :: c in o ==> 2 <= c)
    && (forall s :: s in Sectors(g, o) ==> InArea(a, g.AreaBase(), s) && InArea(b, g.AreaBase(), s))
    && FileData(a, g.AreaBase(), Sectors(g, o)) == FileData(b, g.AreaBase(), Sectors(g, o))
  }

  /** Compared with itself, the volume has not changed. */
  lemma Rebased(g: Geometry, size: nat, f: seq<nat>, area: seq<byte>, shown: nat, x: File)
    requires Good(g, size, f, area, shown, x)
    ensures var x' := x.(base := Base(f, area, x.chain));
      Good(g, size, f, area, shown, x') && Placed(g, area, x) && Placed(g, area, x') &&
        BytesOf(g, area, x') == BytesOf(g, area, x)
  {
    hide Geometry.Valid, ClusterSize, Away, ChainOk, FileSector, Sectors, Holds, OnlyFile, FileData, Splice;
    GoodPlaced(g, size, f, area, shown, x);
    OnlyFileStart(g, f, area, x.chain);
  }

  lemma OnlyFileStart(g: Geometry, f: seq<nat>, area: seq<byte>, ch: seq<nat>)
    ensures OnlyFile(g, Base(f, area, ch), f, area, ch)
  {
  }

  /** Any other chain is still there, and its clusters hold what they held. */
  lemma OthersKept(g: Geometry, size: nat, b: Base, f: seq<nat>, area: seq<byte>, ch: seq<nat>, o: seq<nat>)
    requires g.Valid(size) && |f| == g.nFatent && |area| == 512 * (size - g.AreaBase())
    requires OnlyFile(g, b, f, area, ch) && IsChain(b.table, o) && Disjoint(o, b.chain)
    requires forall c :: c in ch ==> 2 <= c
    ensures IsChain(f, o) && Disjoint(o, ch) && SameBytes(g, b.area, area, o)
  {
    hide Geometry.Valid, OnlyFile;
    StillDisjoint(g, b, f, area, ch, o);
    GoodSectors(g, size, f, o, o[0], area);
    var ab, secs := g.AreaBase(), Sectors(g, o);
    var x, y := FileData(area, ab, secs), FileData(b.area, ab, secs);
    forall i | 0 <= i < |x|
      ensures x[i] == y[i]
    {
      OtherSector(g, b, f, area, ch, o, i / 512);
      assert 0 <= i % 512 < 512;
      var t := 512 * (secs[i / 512] - ab);
      assert x[i] == area[t..t + 512][i % 512];
      assert y[i] == b.area[t..t + 512][i % 512];
    }
  }

  lemma StillDisjoint(g: Geometry, b: Base, f: seq<nat>, area: seq<byte>, ch: seq<nat>, o: seq<nat>)
    requires OnlyFile(g, b, f, area, ch) && IsChain(b.table, o) && Disjoint(o, b.chain)
    ensures IsChain(f, o) && Disjoint(o, ch) && |b.area| == |area|
  {
    forall c | c in o
      ensures c !in ch
    {
      if c in ch {
        var i, j :| 0 <= i < |ch| && ch[i] == c && 0 <= j < |o| && o[j] == c;
        LinkUsed(b.table, o, j);
      }
    }
    assert forall i :: 0 <= i < |o| ==> o[i] in o;
  }

  lemma OtherSector(g: Geometry, b: Base, f: seq<nat>, area: seq<byte>, ch: seq<nat>, o: seq<nat>, k: nat)
    requires OnlyFile(g, b, f, area, ch) && Disjoint(o, ch) && ClusterSize(g.csize)
    requires (forall c :: c in ch ==> 2 <= c) && (forall c :: c in o ==> 2 <= c)
    requires k < |Sectors(g, o)| && InArea(area, g.AreaBase(), Sectors(g, o)[k])
    ensures SameSector(b.area, area, g.AreaBase(), Sectors(g, o)[k])
  {
    hide ClusterSize, Sectors;
    NotOwned(g, ch, o, k);
  }

  lemma NotOwned(g: Geometry, ch: seq<nat>, o: seq<nat>, k: nat)
    requires Disjoint(o, ch) && ClusterSize(g.csize) && (forall c :: c in ch ==> 2 <= c)
    requires (forall c :: c in o ==> 2 <= c)
    requires k < |Sectors(g, o)|
    ensures !Owns(g, ch, Sectors(g, o)[k])
  {
    hide ClusterSize;
    var s := Sectors(g, o)[k];
    SectorInCluster(g.csize, k, |o|);
    var a := o[k / g.csize];
    assert a in o;
    if Owns(g, ch, s) {
      var c :| c in ch && ClusterHas(g, c, s);
      OneCluster(g.csize, a - 2, c - 2, k % g.csize, s - g.database - g.csize * (c - 2));
    }
  }

  /** Sector `s` holds these bytes. */
  ghost predicate Holds(area: seq<byte>, ab: nat, s: nat, d: seq<byte>)
  {
    InArea(area, ab, s) && d == area[512 * (s - ab)..512 * (s - ab + 1)]
  }

  /** What holds of an open file: `f` is the table, `area` what lies behind the tables, `shown` the
      sector in the window of the volume. */
  ghost predicate Good(g: Geometry, size: nat, f: seq<nat>, area: seq<byte>, shown: nat, x: File)
  {
    && g.Valid(size) && |f| == g.nFatent && |area| == 512 * (size - g.AreaBase())
    && ChainOk(f, x.chain, x.sclust)
    && x.objsize <= 512 * (g.csize * |x.chain|)
    && |x.buf| == 512
    && Away(g, f, x.chain, shown)
    && (x.dirty ==> x.sect != 0)
    && (x.sect != 0 ==> x.slot < g.csize * |x.chain| && x.sect == FileSector(g, x.chain, x.slot))
    && (x.sect != 0 && !x.dirty ==> Holds(area, g.AreaBase(), x.sect, x.buf))
    && OnlyFile(g, x.base, f, area, x.chain)
  }

  lemma ClusterInside(csize: nat, a: nat, n: nat, r: nat)
    requires ClusterSize(csize) && a < n && r < csize
    ensures 0 <= csize * a + r < csize * n
  {
    assert csize * n >= csize * (a + 1) == csize * a + csize;
  }

  lemma GoodSector(g: Geometry, size: nat, ch: seq<nat>, k: nat)
    requires g.Valid(size) && k < g.csize * |ch| && forall c :: c in ch ==> 2 <= c < g.nFatent
    ensures g.AreaBase() <= g.database <= FileSector(g, ch, k) < size
  {
    SectorInCluster(g.csize, k, |ch|);
    var c := ch[k / g.csize];
    assert c in ch;
    ClusterInside(g.csize, c - 2, g.nFatent - 2, k % g.csize);
  }

  lemma ChainMembers(f: seq<nat>, ch: seq<nat>, sclust: nat)
    requires ChainOk(f, ch, sclust)
    ensures forall c :: c in ch ==> 2 <= c < |f|
  {
  }

  /** The sectors of a file lie behind the tables and are distinct. */
  lemma GoodSectors(g: Geometry, size: nat, f: seq<nat>, ch: seq<nat>, sclust: nat, area: seq<byte>)
    requires g.Valid(size) && |f| == g.nFatent && ChainOk(f, ch, sclust) && |area| == 512 * (size - g.AreaBase())
    ensures ClusterSize(g.csize) && forall c :: c in ch ==> 2 <= c < g.nFatent
    ensures forall s :: s in Sectors(g, ch) ==> InArea(area, g.AreaBase(), s)
    ensures Distinct(Sectors(g, ch))
  {
    hide FatGeometry.Geometry.Valid, ChainOk;
    CsizeOk(g, size);
    ChainMembers(f, ch, sclust);
    var secs := Sectors(g, ch);
    forall s | s in secs
      ensures InArea(area, g.AreaBase(), s)
    {
      var k :| 0 <= k < |secs| && secs[k] == s;
      GoodSector(g, size, ch, k);
    }
    AnySectorsDistinct(g, f, ch, sclust);
  }

  lemma CsizeOk(g: Geometry, size: nat)
    requires g.Valid(size)
    ensures ClusterSize(g.csize) && g.AreaBase() <= g.database <= size < MAX32 && 0 < g.AreaBase()
  {
  }

  lemma AnySectorsDistinct(g: Geometry, f: seq<nat>, ch: seq<nat>, sclust: nat)
    requires ChainOk(f, ch, sclust) && ClusterSize(g.csize) && forall c :: c in ch ==> 2 <= c
    ensures Distinct(Sectors(g, ch))
  {
    if sclust != 0 {
      SectorsDistinct(g, f, ch);
    }
  }

  /** The sectors of the file, and its buffer, lie inside the area. */
  ghost predicate Placed(g: Geometry, area: seq<byte>, x: File)
  {
    && ClusterSize(g.csize) && (forall c :: c in x.chain ==> 2 <= c)
    && (forall s :: s in Sectors(g, x.chain) ==> InArea(area, g.AreaBase(), s))
    && |x.buf| == 512
    && (x.dirty ==> x.sect in Sectors(g, x.chain))
  }

  lemma GoodPlaced(g: Geometry, size: nat, f: seq<nat>, area: seq<byte>, shown: nat, x: File)
    requires Good(g, size, f, area, shown, x)
    ensures ClusterSize(g.csize) && (forall c :: c in x.chain ==> 2 <= c) && |x.buf| == 512
    ensures Placed(g, area, x) && Distinct(Sectors(g, x.chain))
    ensures x.sect != 0 ==> x.slot < |Sectors(g, x.chain)| && x.sect == Sectors(g, x.chain)[x.slot]
  {
    GoodSectors(g, size, f, x.chain, x.sclust, area);
    assert x.sect != 0 ==> x.sect == Sectors(g, x.chain)[x.slot];
  }

  /** The area with the dirty buffer laid over it. */
  ghost function View(g: Geometry, area: seq<byte>, x: File): (v: seq<byte>)
    requires Placed(g, area, x)
    ensures |v| == |area|
  {
    if x.dirty then Splice(area, 512 * (x.sect - g.AreaBase()), x.buf) else area
  }

  lemma ViewPlaced(g: Geometry, area: seq<byte>, v: seq<byte>, x: File)
    requires Placed(g, area, x) && |v| == |area|
    ensures forall s :: s in Sectors(g, x.chain) ==> InArea(v, g.AreaBase(), s)
  {
  }

  /** All bytes of the clusters of the file, as the file sees them. */
  ghost function BytesOf(g: Geometry, area: seq<byte>, x: File): (b: seq<byte>)
    requires Placed(g, area, x)
    ensures |b| == 512 * |Sectors(g, x.chain)|
  {
    ViewPlaced(g, area, View(g, area, x), x);
    FileData(View(g, area, x), g.AreaBase(), Sectors(g, x.chain))
  }

  lemma SameArea(area: seq<byte>, area': seq<byte>, ab: nat, secs: seq<nat>)
    requires |area'| == |area| && forall s :: s in secs ==> InArea(area, ab, s)
    ensures forall s :: s in secs ==> InArea(area', ab, s)
  {
  }

  /** Writing the buffer back changes nothing the file sees. */
  lemma Flushed(g: Geometry, size: nat, f: seq<nat>, area: seq<byte>, shown: nat, x: File, area': seq<byte>)
    requires Good(g, size, f, area, shown, x) && x.dirty
    requires InArea(area, g.AreaBase(), x.sect) && area' == Splice(area, 512 * (x.sect - g.AreaBase()), x.buf)
    ensures Good(g, size, f, area', shown, x.(dirty := false))
    ensures Placed(g, area, x) && Placed(g, area', x.(dirty := false))
    ensures BytesOf(g, area', x.(dirty := false)) == BytesOf(g, area, x)
  {
    hide Geometry.Valid, ClusterSize, Away, ChainOk, OnlyFile, FileData, Splice, Distinct, Run, FileSector, Sectors;
    GoodPlaced(g, size, f, area, shown, x);
    var x' := x.(dirty := false);
    RunOfOne(Sectors(g, x.chain), x.slot);
    OnlyFileWritten(g, x.base, f, area, x.chain, x.slot, 1, x.buf, area');
    SameArea(area, area', g.AreaBase(), Sectors(g, x.chain));
    SplicedSlice(area, 512 * (x.sect - g.AreaBase()), x.buf);
    assert Holds(area', g.AreaBase(), x.sect, x.buf);
  }

  /** Loading a sector of the file into a clean buffer. */
  lemma Loaded(g: Geometry, size: nat, f: seq<nat>, area: seq<byte>, shown: nat, x: File, k: nat, x': File)
    requires Good(g, size, f, area, shown, x) && !x.dirty && k < g.csize * |x.chain|
    requires ClusterSize(g.csize) && forall c :: c in x.chain ==> 2 <= c
    requires x' == x.(sect := Sectors(g, x.chain)[k], slot := k, buf := x'.buf)
    requires Holds(area, g.AreaBase(), x'.sect, x'.buf)
    ensures Good(g, size, f, area, shown, x')
    ensures Placed(g, area, x) && Placed(g, area, x') && BytesOf(g, area, x') == BytesOf(g, area, x)
  {
    GoodPlaced(g, size, f, area, shown, x);
    CsizeOk(g, size);
  }

  /** The file sees its buffer, dirty or not. */
  lemma BufferSeen(g: Geometry, size: nat, f: seq<nat>, area: seq<byte>, shown: nat, x: File)
    requires Good(g, size, f, area, shown, x) && x.sect != 0
    ensures Placed(g, area, x) && x.slot < |Sectors(g, x.chain)|
    ensures BytesOf(g, area, x)[512 * x.slot..512 * (x.slot + 1)] == x.buf
  {
    GoodPlaced(g, size, f, area, shown, x);
    var v := View(g, area, x);
    ViewPlaced(g, area, v, x);
    FileSlice(v, g.AreaBase(), Sectors(g, x.chain), x.slot);
    if x.dirty {
      SplicedSlice(area, 512 * (x.sect - g.AreaBase()), x.buf);
    }
  }

  /** One sector of the file becomes the dirty buffer with these bytes. */
  lemma Claimed(g: Geometry, size: nat, f: seq<nat>, area: seq<byte>, shown: nat, x: File, k: nat, x': File)
    requires Good(g, size, f, area, shown, x) && k < g.csize * |x.chain| && (x.dirty ==> x.slot == k)
    requires ClusterSize(g.csize) && forall c :: c in x.chain ==> 2 <= c
    requires x' == x.(sect := Sectors(g, x.chain)[k], slot := k, dirty := true, buf := x'.buf) && |x'.buf| == 512
    ensures Good(g, size, f, area, shown, x')
    ensures Placed(g, area, x) && Placed(g, area, x')
    ensures BytesOf(g, area, x') == Splice(BytesOf(g, area, x), 512 * k, x'.buf)
  {
    hide Geometry.Valid, ClusterSize, Away, ChainOk, OnlyFile, FileData, Splice, Distinct, Run, Holds, FileSector,
      Sectors;
    GoodPlaced(g, size, f, area, shown, x);
    CsizeOk(g, size);
    var ab, secs := g.AreaBase(), Sectors(g, x.chain);
    SectorIs(g, size, f, x.chain, x.sclust, k);
    assert x'.sect in secs && InArea(area, ab, x'.sect);
    var v, v' := View(g, area, x), View(g, area, x');
    ViewPlaced(g, area, v, x);
    Twice(area, 512 * (x'.sect - ab), x.buf, x'.buf);
    RunOfOne(secs, k);
    RunWritten(v, ab, secs, k, 1, x'.buf, v');
  }

  lemma SectorIs(g: Geometry, size: nat, f: seq<nat>, ch: seq<nat>, sclust: nat, k: nat)
    requires g.Valid(size) && |f| == g.nFatent && ChainOk(f, ch, sclust) && ClusterSize(g.csize) && k < g.csize * |ch|
    requires forall c :: c in ch ==> 2 <= c
    ensures Sectors(g, ch)[k] == FileSector(g, ch, k) != 0
  {
    ChainMembers(f, ch, sclust);
    GoodSector(g, size, ch, k);
    CsizeOk(g, size);
  }

  lemma Twice(s: seq<byte>, at: nat, d: seq<byte>, e: seq<byte>)
    requires |d| == |e| && at + |d| <= |s|
    ensures Splice(Splice(s, at, d), at, e) == Splice(s, at, e)
  {
  }

  lemma RunOfOne(secs: seq<nat>, k: nat)
    requires k < |secs|
    ensures Run(secs, k, 1)
  {
  }

  lemma SpliceInner(s: seq<byte>, at: nat, d: seq<byte>, o: nat, e: seq<byte>)
    requires at + |d| <= |s| && s[at..at + |d|] == d && o + |e| <= |d|
    ensures Splice(s, at, Splice(d, o, e)) == Splice(s, at + o, e)
  {
    assert forall i :: 0 <= i < |d| ==> d[i] == s[at + i];
  }

  /** Bytes copied into the buffer. */
  lemma Patched(g: Geometry, size: nat, f: seq<nat>, area: seq<byte>, shown: nat, x: File, o: nat, e: seq<byte>)
    requires Good(g, size, f, area, shown, x) && x.sect != 0 && o + |e| <= 512
    ensures Good(g, size, f, area, shown, x.(dirty := true, buf := Splice(x.buf, o, e)))
    ensures Placed(g, area, x) && Placed(g, area, x.(dirty := true, buf := Splice(x.buf, o, e)))
    ensures 512 * x.slot + 512 <= |BytesOf(g, area, x)|
    ensures BytesOf(g, area, x.(dirty := true, buf := Splice(x.buf, o, e))) ==
      Splice(BytesOf(g, area, x), 512 * x.slot + o, e)
  {
    hide *;
    GoodPlaced(g, size, f, area, shown, x);
    Claimed(g, size, f, area, shown, x, x.slot, x.(dirty := true, buf := Splice(x.buf, o, e)));
    BufferSeen(g, size, f, area, shown, x);
    SpliceInner(BytesOf(g, area, x), 512 * x.slot, x.buf, o, e);
  }

  /** A run of sectors written directly; a buffer of one of them takes over the new bytes. */
  lemma DirectlyWritten(g: Geometry, size: nat, f: seq<nat>, area: seq<byte>, shown: nat, x: File, k: nat, n: nat,
                        d: seq<byte>, area': seq<byte>, x': File)
    requires Good(g, size, f, area, shown, x) && !x.dirty
    requires ClusterSize(g.csize) && forall c :: c in x.chain ==> 2 <= c
    requires Run(Sectors(g, x.chain), k, n) && n > 0 && |d| == 512 * n
    requires g.AreaBase() <= Sectors(g, x.chain)[k] && 512 * (Sectors(g, x.chain)[k] - g.AreaBase() + n) <= |area|
    requires area' == Splice(area, 512 * (Sectors(g, x.chain)[k] - g.AreaBase()), d)
    requires x' == if x.sect != 0 && k <= x.slot < k + n then x.(buf := d[512 * (x.slot - k)..512 * (x.slot - k + 1)])
      else x
    ensures Good(g, size, f, area', shown, x')
    ensures Placed(g, area, x) && Placed(g, area', x')
    ensures BytesOf(g, area', x') == Splice(BytesOf(g, area, x), 512 * k, d)
  {
    hide Geometry.Valid, ClusterSize, Away, ChainOk, FileSector, Sectors, OnlyFile, FileData, Splice, Distinct, Run,
      Holds;
    GoodPlaced(g, size, f, area, shown, x);
    var ab, secs := g.AreaBase(), Sectors(g, x.chain);
    RunWritten(area, ab, secs, k, n, d, area');
    OnlyFileWritten(g, x.base, f, area, x.chain, k, n, d, area');
    if x.sect != 0 {
      BufferKept(area, ab, secs, k, n, d, area', x.slot, x.buf);
    }
  }

  lemma BufferKept(area: seq<byte>, ab: nat, secs: seq<nat>, k: nat, n: nat, d: seq<byte>, area': seq<byte>, slot: nat,
                   buf: seq<byte>)
    requires Distinct(secs) && Run(secs, k, n) && n > 0 && |d| == 512 * n && slot < |secs|
    requires ab <= secs[k] && 512 * (secs[k] - ab + n) <= |area|
    requires area' == Splice(area, 512 * (secs[k] - ab), d)
    requires Holds(area, ab, secs[slot], buf)
    ensures Holds(area', ab, secs[slot], if k <= slot < k + n then d[512 * (slot - k)..512 * (slot - k + 1)] else buf)
  {
    if k <= slot < k + n {
      assert secs[slot] == secs[k] + (slot - k);
    } else {
      NotInRun(secs, k, n, slot, k as int + secs[slot] as int - secs[k] as int);
    }
  }

  /** A run of sectors read directly, with a dirty buffer of one of them copied over it. */
  lemma DirectlyRead(g: Geometry, size: nat, f: seq<nat>, area: seq<byte>, shown: nat, x: File, k: nat, n: nat,
                     d: seq<byte>)
    requires Good(g, size, f, area, shown, x)
    requires ClusterSize(g.csize) && forall c :: c in x.chain ==> 2 <= c
    requires Run(Sectors(g, x.chain), k, n) && n > 0
    requires g.AreaBase() <= Sectors(g, x.chain)[k] && 512 * (Sectors(g, x.chain)[k] - g.AreaBase() + n) <= |area|
    requires d == area[512 * (Sectors(g, x.chain)[k] - g.AreaBase())..512 * (Sectors(g, x.chain)[k] - g.AreaBase() + n)]
    ensures Placed(g, area, x) && 512 * (k + n) <= |BytesOf(g, area, x)|
    ensures BytesOf(g, area, x)[512 * k..512 * (k + n)]
         == if x.dirty && k <= x.slot < k + n then Splice(d, 512 * (x.slot - k), x.buf) else d
  {
    hide Good, Splice, Sectors, FileData, ClusterSize, Distinct;
    GoodPlaced(g, size, f, area, shown, x);
    var ab, secs := g.AreaBase(), Sectors(g, x.chain);
    var v := View(g, area, x);
    ViewPlaced(g, area, v, x);
    RunSlice(v, ab, secs, k, n);
    if x.dirty {
      DirtyHasSector(g, size, f, area, shown, x);
      RunMember(secs, k, n, x.slot);
      SliceOfSplice(area, 512 * (x.sect - ab), x.buf, 512 * (secs[k] - ab), 512 * (secs[k] - ab + n));
    }
  }

  lemma UnsignedTest(a: nat, s: nat, n: nat)
    requires a < 0x1_0000_0000 && s + n <= 0x1_0000_0000
    ensures Sub32(a, s) < n <==> s <= a < s + n
    ensures s <= a < s + n ==> Sub32(a, s) == a - s
  {
  }

  lemma RunMember(secs: seq<nat>, k: nat, n: nat, slot: nat)
    requires Distinct(secs) && Run(secs, k, n) && n > 0 && slot < |secs|
    ensures secs[k] <= secs[slot] < secs[k] + n <==> k <= slot < k + n
    ensures k <= slot < k + n ==> secs[slot] - secs[k] == slot - k
  {
    if k <= slot < k + n {
      assert secs[slot] == secs[k] + (slot - k);
    } else {
      NotInRun(secs, k, n, slot, k as int + secs[slot] as int - secs[k] as int);
    }
  }

  /** Does the buffer hold a sector of this run? The subtraction is unsigned. */
  lemma InRunTest(g: Geometry, size: nat, f: seq<nat>, area: seq<byte>, shown: nat, x: File, k: nat, n: nat)
    requires Good(g, size, f, area, shown, x)
    requires ClusterSize(g.csize) && forall c :: c in x.chain ==> 2 <= c
    requires Run(Sectors(g, x.chain), k, n) && n > 0 && Sectors(g, x.chain)[k] + n <= size
    ensures Sub32(x.sect, Sectors(g, x.chain)[k]) < n <==> x.sect != 0 && k <= x.slot < k + n
    ensures x.sect != 0 && k <= x.slot < k + n ==> Sub32(x.sect, Sectors(g, x.chain)[k]) == x.slot - k
  {
    hide Sub32, Sectors, ClusterSize, Distinct;
    GoodPlaced(g, size, f, area, shown, x);
    CsizeOk(g, size);
    var s := Sectors(g, x.chain)[k];
    assert s in Sectors(g, x.chain);
    if x.sect != 0 {
      RunMember(Sectors(g, x.chain), k, n, x.slot);
      GoodSector(g, size, x.chain, x.slot);
    }
    UnsignedTest(x.sect, s, n);
  }

  /** The window may move over the tables, or show nothing. */
  lemma AwayStill(g: Geometry, size: nat, f: seq<nat>, ch: seq<nat>, f': seq<nat>, ch': seq<nat>, shown: nat,
                  shown': nat)
    requires g.Valid(size) && |f| == |f'| == g.nFatent && Away(g, f, ch, shown)
    requires shown' == shown || shown' == MAX32 || shown' < g.AreaBase()
    requires forall c: nat :: 2 <= c < |f| && (c in ch' || f'[c] == 0) ==> c in ch || f[c] == 0
    ensures Away(g, f', ch', shown')
  {
    forall c: nat | 2 <= c < |f'| && (c in ch' || f'[c] == 0)
      ensures !ClusterHas(g, c, shown')
    {
      assert !ClusterHas(g, c, shown);
      ClusterInside(g.csize, c - 2, g.nFatent - 2, 0);
      ClusterInside(g.csize, c - 2, g.nFatent - 2, g.csize - 1);
    }
  }

  lemma WindowMoved(g: Geometry, size: nat, f: seq<nat>, area: seq<byte>, shown: nat, shown': nat, x: File)
    requires Good(g, size, f, area, shown, x)
    requires shown' == shown || shown' == MAX32 || shown' < g.AreaBase()
    ensures Good(g, size, f, area, shown', x)
  {
    AwayStill(g, size, f, x.chain, f, x.chain, shown, shown');
  }

  /** The chain after cluster `r` has been taken for it. */
  lemma ChainGrown(f: seq<nat>, ch: seq<nat>, sclust: nat, r: nat, eoc: nat)
    requires ChainOk(f, ch, sclust) && 2 <= r < |f| <= eoc && f[r] == 0
    ensures r !in ch
    ensures var clst := if ch == [] then 0 else ch[|ch| - 1];
      clst < |f| && ChainOk(Taken(f, clst, r, eoc), ch + [r], if ch == [] then r else sclust)
  {
    if r in ch {
      var i :| 0 <= i < |ch| && ch[i] == r;
      LinkUsed(f, ch, i);
    }
    if ch != [] {
      Stretched(f, ch, r, eoc, f[r := eoc][ch[|ch| - 1] := r]);
    }
  }

  /** More clusters behind the chain leave the bytes of the file in place. */
  lemma BytesGrown(g: Geometry, area: seq<byte>, x: File, x': File, r: nat)
    requires Placed(g, area, x) && Placed(g, area, x') && 2 <= r
    requires x' == x.(chain := x.chain + [r], sclust := x'.sclust)
    ensures |BytesOf(g, area, x)| <= |BytesOf(g, area, x')|
    ensures BytesOf(g, area, x')[..|BytesOf(g, area, x)|] == BytesOf(g, area, x)
  {
    hide Splice, Sectors, FileData, ClusterSize;
    SectorsStretched(g, x.chain, r);
    ViewPlaced(g, area, View(g, area, x), x');
    FileDataPrefix(View(g, area, x), g.AreaBase(), Sectors(g, x.chain), Sectors(g, x'.chain));
  }

  lemma SectorStays(g: Geometry, ch: seq<nat>, r: nat, k: nat)
    requires ClusterSize(g.csize) && 2 <= r && k < g.csize * |ch| && forall c :: c in ch ==> 2 <= c
    ensures k < g.csize * |ch + [r]| && FileSector(g, ch + [r], k) == FileSector(g, ch, k)
  {
    SectorInCluster(g.csize, k, |ch|);
    SectorInCluster(g.csize, k, |ch| + 1);
  }

  /** Stretching the chain of a file leaves all its bytes in place. */
  lemma FileGrown(g: Geometry, size: nat, f: seq<nat>, area: seq<byte>, shown: nat, x: File, r: nat, eoc: nat,
                  f': seq<nat>, shown': nat, x': File)
    requires Good(g, size, f, area, shown, x) && 2 <= r < |f| <= eoc && f[r] == 0
    requires shown' == shown || shown' == MAX32 || shown' < g.AreaBase()
    requires x.chain != [] ==> x.chain[|x.chain| - 1] < |f|
    requires f' == Taken(f, if x.chain == [] then 0 else x.chain[|x.chain| - 1], r, eoc)
    requires x' == x.(chain := x.chain + [r], sclust := if x.chain == [] then r else x.sclust)
    ensures Good(g, size, f', area, shown', x')
    ensures Placed(g, area, x) && Placed(g, area, x') && |BytesOf(g, area, x)| <= |BytesOf(g, area, x')|
    ensures BytesOf(g, area, x')[..|BytesOf(g, area, x)|] == BytesOf(g, area, x)
  {
    hide FatGeometry.Geometry.Valid, ClusterSize, Away, IsChain, ChainOk, BytesOf, Placed, FileSector, Holds, Sectors,
      OnlyFile;
    GoodPlaced(g, size, f, area, shown, x);
    ChainGrown(f, x.chain, x.sclust, r, eoc);
    OnlyFileGrown(g, x.base, f, area, x.chain, r, eoc);
    TakenUsed(g, size, f, x.chain, r, eoc, shown, shown');
    if x.sect != 0 {
      SectorStays(g, x.chain, r, x.slot);
    }
    GoodPlaced(g, size, f', area, shown', x');
    BytesGrown(g, area, x, x', r);
  }

  lemma TakenUsed(g: Geometry, size: nat, f: seq<nat>, ch: seq<nat>, r: nat, eoc: nat, shown: nat, shown': nat)
    requires g.Valid(size) && |f| == g.nFatent && Away(g, f, ch, shown) && 2 <= r < |f| <= eoc && f[r] == 0
    requires shown' == shown || shown' == MAX32 || shown' < g.AreaBase()
    requires ch != [] ==> ch[|ch| - 1] < |f|
    ensures Away(g, Taken(f, if ch == [] then 0 else ch[|ch| - 1], r, eoc), ch + [r], shown')
  {
    AwayStill(g, size, f, ch, Taken(f, if ch == [] then 0 else ch[|ch| - 1], r, eoc), ch + [r], shown, shown');
  }

  lemma SectorHere(g: Geometry, ch: seq<nat>, k: nat, q: nat)
    requires ClusterSize(g.csize) && (forall c :: c in ch ==> 2 <= c)
    requires k / g.csize < |ch| && k <= q < k + g.csize - k % g.csize
    ensures q < g.csize * |ch| && ch[k / g.csize] in ch
    ensures Sectors(g, ch)[q] == g.database + g.csize * (ch[k / g.csize] - 2) + k % g.csize + (q - k)
  {
    SectorInCluster(g.csize, k, |ch|);
    SectorsInCluster(g, ch, k / g.csize, k % g.csize + (q - k));
  }

  /** Sectors inside one cluster follow each other. */
  lemma RunHere(g: Geometry, ch: seq<nat>, k: nat, n: nat)
    requires ClusterSize(g.csize) && (forall c :: c in ch ==> 2 <= c)
    requires k / g.csize < |ch| && 0 < n && k % g.csize + n <= g.csize
    ensures Run(Sectors(g, ch), k, n)
  {
    hide *;
    var secs := Sectors(g, ch);
    SectorHere(g, ch, k, k);
    SectorHere(g, ch, k, k + (n - 1));
    forall q | k <= q < k + n
      ensures secs[q] == secs[k] + (q - k)
    {
      SectorHere(g, ch, k, q);
    }
    MakeRun(secs, k, n);
  }

  lemma MakeRun(secs: seq<nat>, k: nat, n: nat)
    requires k + n <= |secs| && forall q :: k <= q < k + n ==> secs[q] == secs[k] + (q - k)
    ensures Run(secs, k, n)
  {
  }

  /** Sectors `k` to `k + n` of the file, inside one cluster: they follow each other, and the window
      shows none of them. */
  lemma RunInCluster(g: Geometry, size: nat, f: seq<nat>, area: seq<byte>, shown: nat, x: File, k: nat, n: nat)
    requires Good(g, size, f, area, shown, x)
    requires ClusterSize(g.csize) && forall c :: c in x.chain ==> 2 <= c
    requires LinkIndex(g.csize, k) < |x.chain| && 0 < n && k % g.csize + n <= g.csize
    ensures Run(Sectors(g, x.chain), k, n)
    ensures x.chain[LinkIndex(g.csize, k)] in x.chain
    ensures Sectors(g, x.chain)[k] == g.database + g.csize * (x.chain[LinkIndex(g.csize, k)] - 2) + k % g.csize
    ensures g.AreaBase() <= Sectors(g, x.chain)[k] && Sectors(g, x.chain)[k] + n <= size
    ensures !(Sectors(g, x.chain)[k] <= shown < Sectors(g, x.chain)[k] + n)
  {
    hide FatGeometry.Geometry.Valid, ClusterSize, ChainOk, Holds, Run;
    RunHere(g, x.chain, k, n);
    SectorHere(g, x.chain, k, k);
    SectorHere(g, x.chain, k, k + (n - 1));
    ChainMembers(f, x.chain, x.sclust);
    GoodSector(g, size, x.chain, k);
    GoodSector(g, size, x.chain, k + (n - 1));
    assert !ClusterHas(g, x.chain[k / g.csize], shown);
  }

  /** The sector in the buffer may be written: it lies behind the tables, away from the window. */
  lemma BufferSector(g: Geometry, size: nat, f: seq<nat>, area: seq<byte>, shown: nat, x: File)
    requires Good(g, size, f, area, shown, x) && x.sect != 0
    ensures g.AreaBase() <= x.sect < size && x.sect != shown && InArea(area, g.AreaBase(), x.sect)
  {
    GoodPlaced(g, size, f, area, shown, x);
    SectorInCluster(g.csize, x.slot, |x.chain|);
    RunInCluster(g, size, f, area, shown, x, x.slot, 1);
  }

  /** Where the cursor stands: in the cluster before or around position `p`, and, inside a sector,
      with that sector in the buffer. */
  ghost predicate CursorAt(g: Geometry, ch: seq<nat>, sect: nat, slot: nat, clust: nat, p: nat)
    requires ClusterSize(g.csize)
  {
    && (p > 0 ==> (p - 1) / (512 * g.csize) < |ch| && clust == ch[(p - 1) / (512 * g.csize)])
    && (p % 512 != 0 ==> sect != 0 && slot == p / 512)
  }

  /** At a sector boundary inside a cluster the cursor is in that cluster, at its start in the one
      before. */
  lemma AtBoundary(g: Geometry, x: File, clust: nat, p: nat)
    requires ClusterSize(g.csize) && CursorAt(g, x.chain, x.sect, x.slot, clust, p) && p % 512 == 0
    ensures var k := p / 512;
      && p == 512 * k
      && (k % g.csize != 0 ==> LinkIndex(g.csize, k) < |x.chain| && clust == x.chain[LinkIndex(g.csize, k)])
      && (k % g.csize == 0 && p > 0 ==>
            0 < LinkIndex(g.csize, k) <= |x.chain| && clust == x.chain[LinkIndex(g.csize, k) - 1])
  {
    hide ClusterSize;
    var k := p / 512;
    SectorLink(g.csize, k);
  }

  lemma SectorLink(csize: nat, k: nat)
    requires ClusterSize(csize)
    ensures k % csize != 0 ==> 512 * k > 0 && (512 * k - 1) / (512 * csize) == k / csize
    ensures k % csize == 0 && k > 0 ==> k / csize > 0 && (512 * k - 1) / (512 * csize) == k / csize - 1
  {
    if csize == 1 {} else if csize == 2 {} else if csize == 4 {} else if csize == 8 {}
    else if csize == 16 {} else if csize == 32 {} else if csize == 64 {} else {}
  }

  /** Behind some sectors of cluster `k / csize` the cursor is in that cluster. */
  lemma CursorMoved(g: Geometry, x: File, clust: nat, k: nat, p: nat)
    requires ClusterSize(g.csize) && LinkIndex(g.csize, k) < |x.chain| && clust == x.chain[LinkIndex(g.csize, k)]
    requires 512 * k < p <= 512 * (k + g.csize - k % g.csize)
    requires p % 512 != 0 ==> x.sect != 0 && x.slot == p / 512
    ensures CursorAt(g, x.chain, x.sect, x.slot, clust, p)
  {
    hide ClusterSize;
    var j, r := k / g.csize, k % g.csize;
    SectorInCluster(g.csize, k, 0);
    assert 512 * k == 512 * g.csize * j + 512 * r;
    LinkOf(g.csize, p, j);
  }

  lemma DirtyHasSector(g: Geometry, size: nat, f: seq<nat>, area: seq<byte>, shown: nat, x: File)
    requires Good(g, size, f, area, shown, x) && x.dirty
    ensures x.sect != 0
  {
  }

  /** The links a reader at sector `k`, inside the file, follows. */
  lemma LinkHere(g: Geometry, size: nat, f: seq<nat>, area: seq<byte>, shown: nat, x: File, k: nat)
    requires Good(g, size, f, area, shown, x) && ClusterSize(g.csize) && 512 * k < x.objsize
    ensures LinkIndex(g.csize, k) < |x.chain| && x.sclust != 0 && x.chain[0] == x.sclust
    ensures 2 <= x.chain[LinkIndex(g.csize, k)] < g.nFatent < MAX32
    ensures LinkIndex(g.csize, k) > 0 ==>
      && 2 <= x.chain[LinkIndex(g.csize, k) - 1] < |f|
      && f[x.chain[LinkIndex(g.csize, k) - 1]] == x.chain[LinkIndex(g.csize, k)]
    ensures k == 0 ==> LinkIndex(g.csize, k) == 0
  {
    hide OnlyFile, Away, Holds, ClusterSize, FileSector;
    SectorInCluster(g.csize, k, |x.chain|);
  }

  /** The sector number computed from the cluster is that of the file's sector. */
  lemma SectorNumber(g: Geometry, size: nat, f: seq<nat>, area: seq<byte>, shown: nat, x: File, k: nat)
    requires Good(g, size, f, area, shown, x)
    requires ClusterSize(g.csize) && (forall c :: c in x.chain ==> 2 <= c < g.nFatent)
    requires LinkIndex(g.csize, k) < |x.chain|
    ensures k < |Sectors(g, x.chain)|
    ensures g.ClusterSector(x.chain[LinkIndex(g.csize, k)]) != 0
    ensures g.ClusterSector(x.chain[LinkIndex(g.csize, k)]) + k % g.csize == Sectors(g, x.chain)[k]
  {
    var c := x.chain[LinkIndex(g.csize, k)];
    assert c in x.chain;
    SectorInCluster(g.csize, k, |x.chain|);
    ClusterNumber(g, size, c);
  }

  lemma ClusterNumber(g: Geometry, size: nat, c: nat)
    requires g.Valid(size) && 2 <= c < g.nFatent
    ensures g.ClusterSector(c) == g.database + g.csize * (c - 2) > 0
  {
    assert Sub32(c, 2) == c - 2 && Sub32(g.nFatent, 2) == g.nFatent - 2;
  }

  /** How many sectors a direct transfer of `want` sectors moves: at most to the end of the cluster. */
  function Clip(csize: nat, csect: nat, want: nat): nat
    requires csect < csize
  {
    if csect + want > csize then csize - csect else want
  }

  /** Where a direct transfer of some of `bytes` bytes from position `p` on ends. */
  lemma Clipped(csize: nat, csect: nat, p: nat, bytes: nat)
    requires csect < csize && p % 512 == 0 && 512 <= bytes
    ensures var cc := Clip(csize, csect, bytes / 512);
      && 0 < cc && csect + cc <= csize && 0 < 512 * cc <= bytes && (p + 512 * cc) % 512 == 0 && p == 512 * (p / 512)
      && 512 * (p / 512) < p + 512 * cc <= 512 * (p / 512 + csize - csect)
  {
  }

  /** Inside a sector the cursor is in the cluster of that sector. */
  lemma MidSector(g: Geometry, x: File, clust: nat, p: nat)
    requires ClusterSize(g.csize) && CursorAt(g, x.chain, x.sect, x.slot, clust, p) && p % 512 != 0
    ensures LinkIndex(g.csize, p / 512) < |x.chain| && clust == x.chain[LinkIndex(g.csize, p / 512)]
    ensures x.sect != 0 && x.slot == p / 512
  {
    MidLink(g.csize, p);
  }

  lemma MidLink(csize: nat, p: nat)
    requires ClusterSize(csize) && p % 512 != 0
    ensures (p - 1) / (512 * csize) == p / 512 / csize
  {
    if csize == 1 {} else if csize == 2 {} else if csize == 4 {} else if csize == 8 {}
    else if csize == 16 {} else if csize == 32 {} else if csize == 64 {} else {}
  }

  /** A sector already in the buffer is in it as this sector of the file. */
  lemma SameSlot(g: Geometry, size: nat, f: seq<nat>, area: seq<byte>, shown: nat, x: File, k: nat)
    requires Good(g, size, f, area, shown, x)
    requires ClusterSize(g.csize) && (forall c :: c in x.chain ==> 2 <= c) && k < |Sectors(g, x.chain)|
    ensures Sectors(g, x.chain)[k] != 0
    ensures x.sect == Sectors(g, x.chain)[k] ==> x.slot == k
  {
    GoodPlaced(g, size, f, area, shown, x);
    CsizeOk(g, size);
    assert Sectors(g, x.chain)[k] in Sectors(g, x.chain);
    assert x.slot < k || x.slot == k || x.slot > k;
  }

  /** A new size within the clusters of the file changes none of its bytes. */
  lemma Resized(g: Geometry, size: nat, f: seq<nat>, area: seq<byte>, shown: nat, x: File, n: nat)
    requires Good(g, size, f, area, shown, x) && Placed(g, area, x) && n <= |BytesOf(g, area, x)|
    ensures Good(g, size, f, area, shown, x.(objsize := n))
    ensures Placed(g, area, x.(objsize := n)) && BytesOf(g, area, x.(objsize := n)) == BytesOf(g, area, x)
  {
  }

  /** What a writer meets at link `j` of the chain, or just behind its last one. */
  lemma TailHere(g: Geometry, size: nat, f: seq<nat>, area: seq<byte>, shown: nat, x: File, j: nat)
    requires Good(g, size, f, area, shown, x) && j <= |x.chain|
    ensures x.sclust == 0 <==> x.chain == []
    ensures x.sclust != 0 ==> x.chain[0] == x.sclust && 2 <= x.sclust < |f|
    ensures j > 0 ==> 2 <= x.chain[j - 1] < |f| && x.chain[|x.chain| - 1] < |f|
    ensures 0 < j < |x.chain| ==> 2 <= f[x.chain[j - 1]] == x.chain[j] < |f|
    ensures 0 < j == |x.chain| ==> f[x.chain[j - 1]] >= |f|
  {
    if 0 < j < |x.chain| {
      assert f[x.chain[j - 1]] == x.chain[j - 1 + 1];
    }
  }

  lemma StartLink(csize: nat, k: nat)
    requires ClusterSize(csize) && k % csize == 0
    ensures k == 0 <==> LinkIndex(csize, k) == 0
  {
    SectorInCluster(csize, k, 0);
  }

  /** Bytes written into the buffer as sector `k` of the file: loaded before, or at the end of the file
      not loaded at all. */
  lemma BufferWritten(g: Geometry, size: nat, f: seq<nat>, area: seq<byte>, shown: nat, x: File, k: nat, o: nat,
                      d: seq<byte>, x': File)
    requires Good(g, size, f, area, shown, x) && Placed(g, area, x) && x.objsize <= |BytesOf(g, area, x)|
    requires ClusterSize(g.csize) && (forall c :: c in x.chain ==> 2 <= c) && k < |Sectors(g, x.chain)|
    requires |x.buf| == 512 && o + |d| <= 512 && 512 * k + o <= x.objsize
    requires x.sect == Sectors(g, x.chain)[k] || (!x.dirty && o == 0 && 512 * k == x.objsize)
    requires x' == x.(sect := Sectors(g, x.chain)[k], slot := k, dirty := true, buf := Splice(x.buf, o, d))
    ensures Good(g, size, f, area, shown, x') && Placed(g, area, x')
    ensures var m := if 512 * k + o + |d| <= x.objsize then x.objsize else 512 * k + o + |d|;
      m <= |BytesOf(g, area, x')| && BytesOf(g, area, x')[..m] ==
        Overwrite(BytesOf(g, area, x)[..x.objsize], 512 * k + o, d)
  {
    hide *;
    SameSlot(g, size, f, area, shown, x, k);
    var b := BytesOf(g, area, x);
    if x.sect == Sectors(g, x.chain)[k] {
      Patched(g, size, f, area, shown, x, o, d);
      SpliceIsOverwrite(b, x.objsize, 512 * k + o, d);
    } else {
      Claimed(g, size, f, area, shown, x, k, x');
      SplicePrefix(x.buf, d);
      SpliceAtEnd(b, 512 * k, x'.buf, d);
    }
  }

  lemma SplicePrefix(s: seq<byte>, d: seq<byte>)
    requires |d| <= |s|
    ensures Splice(s, 0, d)[..|d|] == d
  {
  }
}
