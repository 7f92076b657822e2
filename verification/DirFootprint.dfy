/** What a directory leaves alone on the volume. */
module DirFootprint {
  import opened Bytes
  import opened FatTable
  import opened FatGeometry
  import opened FatWindow
  import opened Chains
  import opened FileModel
  import opened FileState
  import opened DirState

  ghost predicate InRoot(g: Geometry, s: nat)
  {
    g.dirbase <= s < g.dirbase + g.nRootdir / 16
  }

  /** Nothing but the directory has changed since `b`. */
  ghost predicate OnlyDir(g: Geometry, b: Base, f: seq<nat>, area: seq<byte>, ch: seq<nat>)
  {
    if ch == [] then
      && b.chain == [] && b.table == f && |b.area| == |area|
      && forall s {:trigger InRoot(g, s)} :: InArea(area, g.AreaBase(), s) && !InRoot(g, s) ==>
        SameSector(b.area, area, g.AreaBase(), s)
    else b.chain != [] && OnlyFile(g, b, f, area, ch)
  }

  lemma OnlyDirStart(g: Geometry, f: seq<nat>, area: seq<byte>, ch: seq<nat>)
    ensures OnlyDir(g, Base(f, area, ch), f, area, ch)
  {
    OnlyFileStart(g, f, area, ch);
  }

  /** Bytes of one sector overwritten. */
  lemma OtherSectorsStay(area: seq<byte>, ab: nat, s: nat, k: nat, d: seq<byte>, t: nat)
    requires InArea(area, ab, s) && InArea(area, ab, t) && k + |d| <= 512 && s != t
    ensures SameSector(area, Splice(area, 512 * (s - ab) + k, d), ab, t)
  {
  }

  /** Writing into a sector of the directory. */
  lemma OnlyDirPatched(g: Geometry, b: Base, f: seq<nat>, area: seq<byte>, ch: seq<nat>, s: nat, k: nat, d: seq<byte>)
    requires OnlyDir(g, b, f, area, ch) && ClusterSize(g.csize) && (forall c :: c in ch ==> 2 <= c)
    requires s in DirSectors(g, ch) && InArea(area, g.AreaBase(), s) && k + |d| <= 512
    ensures OnlyDir(g, b, f, Splice(area, 512 * (s - g.AreaBase()) + k, d), ch)
  {
    hide ClusterSize, Splice, SameSector;
    var ab := g.AreaBase();
    var area' := Splice(area, 512 * (s - ab) + k, d);
    OwnSector(g, ch, s);
    forall t: nat | InArea(area', ab, t) && t != s && SameSector(b.area, area, ab, t)
      ensures SameSector(b.area, area', ab, t)
    {
      OtherSectorsStay(area, ab, s, k, d, t);
      SameThrough(b.area, area, area', ab, t);
    }
  }

  lemma SameThrough(a: seq<byte>, b: seq<byte>, c: seq<byte>, ab: nat, t: nat)
    requires |a| == |b| == |c| && InArea(c, ab, t) && SameSector(a, b, ab, t) && SameSector(b, c, ab, t)
    ensures SameSector(a, c, ab, t)
  {
  }

  lemma OwnSector(g: Geometry, ch: seq<nat>, s: nat)
    requires ClusterSize(g.csize) && (forall c :: c in ch ==> 2 <= c) && s in DirSectors(g, ch)
    ensures if ch == [] then InRoot(g, s) else Owns(g, ch, s)
  {
    if ch != [] {
      var k :| 0 <= k < |Sectors(g, ch)| && Sectors(g, ch)[k] == s;
      SectorOwned(g, ch, k);
    }
  }

  /** Linking a cluster that was free and clearing it. */
  lemma OnlyDirGrown(g: Geometry, b: Base, f: seq<nat>, area: seq<byte>, ch: seq<nat>, c: nat, eoc: nat,
                     area': seq<byte>)
    requires OnlyDir(g, b, f, area, ch) && ch != [] && 2 <= c < |f| && f[c] == 0 && c !in ch && ch[|ch| - 1] < |f|
    requires IsCleared(g, area, c, area')
    ensures OnlyDir(g, b, Taken(f, ch[|ch| - 1], c, eoc), area', ch + [c])
  {
    OnlyFileGrown(g, b, f, area, ch, c, eoc);
    var ab, ch' := g.AreaBase(), ch + [c];
    assert c in ch';
    forall s: nat | InArea(area', ab, s) && !Owns(g, ch', s)
      ensures SameSector(b.area, area', ab, s)
    {
      assert !ClusterHas(g, c, s);
      assert SameSector(b.area, area, ab, s);
      OutsideCluster(g, area, c, area', s);
      SameThrough(b.area, area, area', ab, s);
    }
  }

  lemma OutsideCluster(g: Geometry, area: seq<byte>, c: nat, area': seq<byte>, s: nat)
    requires IsCleared(g, area, c, area') && !ClusterHas(g, c, s) && InArea(area', g.AreaBase(), s)
    ensures SameSector(area, area', g.AreaBase(), s)
  {
  }

  /** All chains but that of the directory are still there, and their clusters hold what they held. */
  ghost predicate Survive(g: Geometry, b: Base, f: seq<nat>, area: seq<byte>)
  {
    forall o :: IsChain(b.table, o) && Disjoint(o, b.chain) ==> IsChain(f, o) && SameBytes(g, b.area, area, o)
  }

  lemma OnlyDirSurvive(g: Geometry, size: nat, b: Base, f: seq<nat>, area: seq<byte>, ch: seq<nat>, sclust: nat)
    requires DirOk(g, size, f, ch, sclust) && |area| == 512 * (size - g.AreaBase()) && OnlyDir(g, b, f, area, ch)
    ensures Survive(g, b, f, area)
  {
    hide DirOk, OnlyDir, IsChain, Disjoint, SameBytes;
    forall o | IsChain(b.table, o) && Disjoint(o, b.chain)
      ensures IsChain(f, o) && SameBytes(g, b.area, area, o)
    {
      OthersUntouched(g, size, b, f, area, ch, sclust, o);
    }
  }

  /** An allocation behind the directory that fails, or a cluster taken for it that could not be cleared. */
  lemma FailedSurvive(g: Geometry, size: nat, b: Base, f: seq<nat>, area: seq<byte>, ch: seq<nat>, sclust: nat, c: nat,
                      f': seq<nat>, area': seq<byte>, r: nat)
    requires DirOk(g, size, f, ch, sclust) && |area| == 512 * (size - g.AreaBase()) && OnlyDir(g, b, f, area, ch)
    requires c in ch && OnlyFree(f, c, f') && |area'| == |area| && 2 <= r
    requires forall s: nat :: InArea(area', g.AreaBase(), s) && !ClusterHas(g, r, s) ==>
      SameSector(area, area', g.AreaBase(), s)
    requires area' == area || (r < |f| && f[r] == 0)
    ensures Survive(g, b, f', area')
  {
    hide Geometry.Valid, ChainOk, OnlyDir, SameSector, IsChain, Disjoint, SameBytes;
    forall o | IsChain(b.table, o) && Disjoint(o, b.chain)
      ensures IsChain(f', o) && SameBytes(g, b.area, area', o)
    {
      OthersUntouched(g, size, b, f, area, ch, sclust, o);
      LinksSurvive(f, c, f', ch, o);
      if area' != area {
        FreeApart(f, o, r);
        BytesSurvive(g, size, f, area, area', o, r);
        SameBytesTwice(g, b.area, area, area', o);
      }
    }
  }

  /** What volumes have in common that differ in a cluster only. */
  lemma ClusterSpoilt(g: Geometry, v: seq<byte>, v': seq<byte>, c: nat, sect: nat)
    requires 512 * g.AreaBase() <= |v| && TableBytes(g.fsType, g.nFatent) <= 512 * g.fsize
    requires OnlyThere(v, v', sect, g.csize)
    requires 2 <= c && g.AreaBase() <= sect == g.database + g.csize * (c - 2)
    ensures EntriesOf(g, v') == EntriesOf(g, v) && |AreaOf(g, v')| == |AreaOf(g, v)|
    ensures forall s: nat :: InArea(AreaOf(g, v'), g.AreaBase(), s) && !ClusterHas(g, c, s) ==>
      SameSector(AreaOf(g, v), AreaOf(g, v'), g.AreaBase(), s)
  {
    hide Entries;
    assert TableOf(g, v') == TableOf(g, v);
    var ab, a, a' := g.AreaBase(), AreaOf(g, v), AreaOf(g, v');
    forall s: nat | InArea(a', ab, s) && !ClusterHas(g, c, s)
      ensures SameSector(a, a', ab, s)
    {
      assert forall i :: 512 * s <= i < 512 * (s + 1) ==> v'[i] == v[i];
      var x, y := a[512 * (s - ab)..512 * (s - ab + 1)], a'[512 * (s - ab)..512 * (s - ab + 1)];
      assert forall i :: 0 <= i < 512 ==> x[i] == v[512 * s + i] && y[i] == v'[512 * s + i];
    }
  }

  lemma LinksSurvive(f: seq<nat>, c: nat, f': seq<nat>, ch: seq<nat>, o: seq<nat>)
    requires IsChain(f, o) && Disjoint(o, ch) && c in ch && OnlyFree(f, c, f')
    ensures IsChain(f', o)
  {
    forall i | 0 <= i < |o|
      ensures f'[o[i]] == f[o[i]]
    {
      assert o[i] in o;
      LinkUsed(f, o, i);
    }
  }

  lemma FreeApart(f: seq<nat>, o: seq<nat>, r: nat)
    requires IsChain(f, o) && r < |f| && f[r] == 0
    ensures r !in o
  {
    if r in o {
      var i :| 0 <= i < |o| && o[i] == r;
      LinkUsed(f, o, i);
    }
  }

  lemma SameBytesTwice(g: Geometry, a: seq<byte>, b: seq<byte>, c: seq<byte>, o: seq<nat>)
    requires SameBytes(g, a, b, o) && SameBytes(g, b, c, o)
    ensures SameBytes(g, a, c, o)
  {
  }

  lemma BytesSurvive(g: Geometry, size: nat, f: seq<nat>, area: seq<byte>, area': seq<byte>, o: seq<nat>, r: nat)
    requires g.Valid(size) && |f| == g.nFatent && IsChain(f, o) && r !in o && 2 <= r
    requires |area'| == |area| == 512 * (size - g.AreaBase())
    requires forall s: nat :: InArea(area', g.AreaBase(), s) && !ClusterHas(g, r, s) ==>
      SameSector(area, area', g.AreaBase(), s)
    ensures SameBytes(g, area, area', o)
  {
    hide Geometry.Valid, FileData, SameSector, ClusterSize;
    GoodSectors(g, size, f, o, o[0], area);
    var ab, secs := g.AreaBase(), Sectors(g, o);
    forall k | 0 <= k < |secs|
      ensures InArea(area', ab, secs[k]) && SameSector(area, area', ab, secs[k])
    {
      NotOwned(g, [r], o, k);
      assert secs[k] in secs && r in [r];
    }
    SameSectors(area, area', ab, secs);
  }

  lemma SameSectors(area: seq<byte>, area': seq<byte>, ab: nat, secs: seq<nat>)
    requires |area'| == |area| && forall s :: s in secs ==> InArea(area, ab, s)
    requires forall k :: 0 <= k < |secs| ==> InArea(area', ab, secs[k]) && SameSector(area, area', ab, secs[k])
    ensures forall s :: s in secs ==> InArea(area', ab, s)
    ensures FileData(area', ab, secs) == FileData(area, ab, secs)
  {
    hide FileData;
    var x, y := FileData(area', ab, secs), FileData(area, ab, secs);
    forall i | 0 <= i < |x|
      ensures x[i] == y[i]
    {
      var k, r := i / 512, i % 512;
      assert i == 512 * k + r;
      FileByte(area, ab, secs, k, r);
      FileByte(area', ab, secs, k, r);
      var t := 512 * (secs[k] - ab);
      assert SameSector(area, area', ab, secs[k]);
      assert area[t + r] == area[t..t + 512][r] && area'[t + r] == area'[t..t + 512][r];
    }
  }

  /** Any other chain is still there, and its clusters hold what they held. */
  lemma OthersUntouched(g: Geometry, size: nat, b: Base, f: seq<nat>, area: seq<byte>, ch: seq<nat>, sclust: nat,
                        o: seq<nat>)
    requires DirOk(g, size, f, ch, sclust) && |area| == 512 * (size - g.AreaBase())
    requires OnlyDir(g, b, f, area, ch) && IsChain(b.table, o) && Disjoint(o, b.chain)
    ensures IsChain(f, o) && Disjoint(o, ch) && SameBytes(g, b.area, area, o)
  {
    hide Geometry.Valid, OnlyFile, IsChain, SameBytes, ClusterSize;
    DirSectorsOk(g, size, f, ch, sclust, area);
    DirStart(g, size, f, ch, sclust);
    if ch == [] {
      RootApart(g, size, b, f, area, o);
    } else {
      OthersKept(g, size, b, f, area, ch, o);
    }
  }

  lemma RootApart(g: Geometry, size: nat, b: Base, f: seq<nat>, area: seq<byte>, o: seq<nat>)
    requires g.Valid(size) && !g.fsType.FAT32? && |f| == g.nFatent && |area| == 512 * (size - g.AreaBase())
    requires OnlyDir(g, b, f, area, []) && IsChain(f, o)
    ensures SameBytes(g, b.area, area, o)
  {
    hide OnlyDir, FileData;
    Behind(g, size, b, f, area, o);
    GoodSectors(g, size, f, o, o[0], area);
    SameSectors(b.area, area, g.AreaBase(), Sectors(g, o));
  }

  lemma Behind(g: Geometry, size: nat, b: Base, f: seq<nat>, area: seq<byte>, o: seq<nat>)
    requires g.Valid(size) && !g.fsType.FAT32? && |f| == g.nFatent && |area| == 512 * (size - g.AreaBase())
    requires OnlyDir(g, b, f, area, []) && IsChain(f, o)
    ensures ClusterSize(g.csize) && (forall c :: c in o ==> 2 <= c < g.nFatent) && |b.area| == |area|
    ensures forall k :: 0 <= k < |Sectors(g, o)| ==>
      InArea(area, g.AreaBase(), Sectors(g, o)[k]) && SameSector(b.area, area, g.AreaBase(), Sectors(g, o)[k])
  {
    hide SameSector;
    CsizeOk(g, size);
    ChainMembers(f, o, o[0]);
    forall k | 0 <= k < |Sectors(g, o)|
      ensures InArea(area, g.AreaBase(), Sectors(g, o)[k]) && SameSector(b.area, area, g.AreaBase(), Sectors(g, o)[k])
    {
      GoodSector(g, size, o, k);
      assert !InRoot(g, Sectors(g, o)[k]);
    }
  }
}
