/** Where the bytes of a file lie: the sectors of its cluster chain, and what they hold. */
module FileModel {
  import opened Bytes
  import opened FatTable
  import opened FatGeometry
  import opened Chains

  /** The link of the chain that sector `k` of a file lies in. */
  function LinkIndex(csize: nat, k: nat): (j: nat)
    requires ClusterSize(csize)
  {
    k / csize
  }

  // Division by the cluster size, one power of two at a time.

  lemma SectorInCluster(csize: nat, k: nat, n: nat)
    requires ClusterSize(csize)
    ensures k == csize * (k / csize) + k % csize && 0 <= k % csize < csize
    ensures k < csize * n <==> k / csize < n
  {
    if csize == 1 {} else if csize == 2 {} else if csize == 4 {} else if csize == 8 {}
    else if csize == 16 {} else if csize == 32 {} else if csize == 64 {} else {}
  }

  /** Sector `r` of cluster `j`. */
  lemma SplitSector(csize: nat, j: nat, r: nat)
    requires ClusterSize(csize) && r < csize
    ensures (csize * j + r) / csize == j && (csize * j + r) % csize == r
  {
    if csize == 1 {} else if csize == 2 {} else if csize == 4 {} else if csize == 8 {}
    else if csize == 16 {} else if csize == 32 {} else if csize == 64 {} else {}
  }

  /** Byte position `p` lies behind the start of cluster `j` and not behind its end. */
  lemma LinkOf(csize: nat, p: nat, j: nat)
    requires ClusterSize(csize)
    ensures 512 * csize * j < p <= 512 * csize * (j + 1) <==> p > 0 && (p - 1) / (512 * csize) == j
  {
    if csize == 1 {} else if csize == 2 {} else if csize == 4 {} else if csize == 8 {}
    else if csize == 16 {} else if csize == 32 {} else if csize == 64 {} else {}
  }

  /** Sector `k` of a file with this chain. */
  function FileSector(g: Geometry, ch: seq<nat>, k: nat): nat
    requires ClusterSize(g.csize) && k < g.csize * |ch|
    requires forall c :: c in ch ==> 2 <= c
  {
    SectorInCluster(g.csize, k, |ch|);
    assert ch[k / g.csize] in ch;
    g.database + g.csize * (ch[k / g.csize] - 2) + k % g.csize
  }

  /** All sectors of the file, in order. */
  function Sectors(g: Geometry, ch: seq<nat>): (r: seq<nat>)
    requires ClusterSize(g.csize)
    requires forall c :: c in ch ==> 2 <= c
    ensures |r| == g.csize * |ch|
  {
    seq(g.csize * |ch|, k requires 0 <= k < g.csize * |ch| => FileSector(g, ch, k))
  }

  /** The sectors of one cluster follow each other. */
  lemma SectorsInCluster(g: Geometry, ch: seq<nat>, j: nat, r: nat)
    requires ClusterSize(g.csize) && j < |ch| && r < g.csize
    requires forall c :: c in ch ==> 2 <= c
    ensures g.csize * j + r < g.csize * |ch|
    ensures ch[j] in ch && Sectors(g, ch)[g.csize * j + r] == g.database + g.csize * (ch[j] - 2) + r
  {
    SplitSector(g.csize, j, r);
    SectorInCluster(g.csize, g.csize * j + r, |ch|);
  }

  /** Stretching the chain appends the sectors of the new cluster. */
  lemma SectorsStretched(g: Geometry, ch: seq<nat>, c: nat)
    requires ClusterSize(g.csize) && 2 <= c
    requires forall c :: c in ch ==> 2 <= c
    ensures g.csize * |ch| <= g.csize * |ch + [c]|
    ensures Sectors(g, ch + [c])[..g.csize * |ch|] == Sectors(g, ch)
  {
    var n := g.csize * |ch|;
    assert g.csize * |ch + [c]| == n + g.csize;
    forall k | 0 <= k < n
      ensures Sectors(g, ch + [c])[k] == Sectors(g, ch)[k]
    {
      SectorInCluster(g.csize, k, |ch|);
    }
  }

  ghost predicate Distinct(s: seq<nat>)
  {
    forall i, j :: 0 <= i < j < |s| ==> s[i] != s[j]
  }

  /** A sector belongs to one cluster only. */
  lemma OneCluster(csize: nat, a: nat, b: nat, r: nat, t: nat)
    requires ClusterSize(csize) && r < csize && t < csize && csize * a + r == csize * b + t
    ensures a == b && r == t
  {
    SplitSector(csize, a, r);
    SplitSector(csize, b, t);
  }

  /** A chain has every sector once. */
  lemma SectorsDistinct(g: Geometry, f: seq<nat>, ch: seq<nat>)
    requires ClusterSize(g.csize) && IsChain(f, ch)
    ensures Distinct(Sectors(g, ch))
  {
    hide FileSector, ClusterSize;
    var s := Sectors(g, ch);
    forall i, j | 0 <= i < j < |s|
      ensures s[i] != s[j]
    {
      SectorsDiffer(g, f, ch, i, j);
    }
  }

  lemma SectorsDiffer(g: Geometry, f: seq<nat>, ch: seq<nat>, i: nat, j: nat)
    requires ClusterSize(g.csize) && IsChain(f, ch) && i < j < g.csize * |ch|
    ensures FileSector(g, ch, i) != FileSector(g, ch, j)
  {
    hide ClusterSize, FileSector;
    var a, r := ClusterOfSector(g, ch, i);
    var b, t := ClusterOfSector(g, ch, j);
    if FileSector(g, ch, i) == FileSector(g, ch, j) {
      OneCluster(g.csize, ch[a] - 2, ch[b] - 2, r, t);
      if a < b {
        ChainDistinct(f, ch, a, b);
      } else if b < a {
        ChainDistinct(f, ch, b, a);
      }
    }
  }

  lemma ClusterOfSector(g: Geometry, ch: seq<nat>, k: nat) returns (a: nat, r: nat)
    requires ClusterSize(g.csize) && k < g.csize * |ch| && forall c :: c in ch ==> 2 <= c
    ensures a < |ch| && r < g.csize && k == g.csize * a + r && ch[a] in ch
    ensures FileSector(g, ch, k) == g.database + g.csize * (ch[a] - 2) + r
  {
    hide ClusterSize;
    SectorInCluster(g.csize, k, |ch|);
    a, r := k / g.csize, k % g.csize;
  }

  /** Offset of a sector in the part of the volume behind the tables, which starts at sector `ab`. */
  ghost predicate InArea(area: seq<byte>, ab: nat, s: nat)
  {
    ab <= s && 512 * (s - ab + 1) <= |area|
  }

  /** The bytes these sectors hold, in order. */
  ghost function FileData(area: seq<byte>, ab: nat, secs: seq<nat>): (d: seq<byte>)
    requires forall s :: s in secs ==> InArea(area, ab, s)
    ensures |d| == 512 * |secs|
  {
    seq(512 * |secs|, i requires 0 <= i < 512 * |secs| => assert InArea(area, ab, secs[i / 512]);
      area[512 * (secs[i / 512] - ab) + i % 512])
  }

  /** The bytes of sector `k` of the file. */
  lemma FileSlice(area: seq<byte>, ab: nat, secs: seq<nat>, k: nat)
    requires forall s :: s in secs ==> InArea(area, ab, s)
    requires k < |secs|
    ensures InArea(area, ab, secs[k])
    ensures FileData(area, ab, secs)[512 * k..512 * (k + 1)] == area[512 * (secs[k] - ab)..512 * (secs[k] - ab + 1)]
  {
    var d := FileData(area, ab, secs);
    assert InArea(area, ab, secs[k]);
    var x, y := d[512 * k..512 * (k + 1)], area[512 * (secs[k] - ab)..512 * (secs[k] - ab + 1)];
    forall i | 0 <= i < 512
      ensures x[i] == y[i]
    {
      assert x[i] == d[512 * k + i];
      assert (512 * k + i) / 512 == k && (512 * k + i) % 512 == i;
    }
  }

  /** Sectors `k` to `k + n` of the file follow each other on the device. */
  ghost predicate Run(secs: seq<nat>, k: nat, n: nat)
  {
    k + n <= |secs| && forall j :: k <= j < k + n ==> secs[j] == secs[k] + (j - k)
  }

  /** The bytes of a run of sectors are one slice of the area. */
  lemma RunSlice(area: seq<byte>, ab: nat, secs: seq<nat>, k: nat, n: nat)
    requires forall s :: s in secs ==> InArea(area, ab, s)
    requires Run(secs, k, n) && n > 0
    ensures ab <= secs[k] && 512 * (secs[k] - ab + n) <= |area|
    ensures FileData(area, ab, secs)[512 * k..512 * (k + n)] == area[512 * (secs[k] - ab)..512 * (secs[k] - ab + n)]
  {
    hide FileData;
    var d := FileData(area, ab, secs);
    assert InArea(area, ab, secs[k]) && InArea(area, ab, secs[k + n - 1]);
    var x, y := d[512 * k..512 * (k + n)], area[512 * (secs[k] - ab)..512 * (secs[k] - ab + n)];
    forall i | 0 <= i < 512 * n
      ensures x[i] == y[i]
    {
      var q, r := i / 512, i % 512;
      assert i == 512 * q + r;
      FileByte(area, ab, secs, k + q, r);
      assert secs[k + q] == secs[k] + q;
    }
  }

  lemma FileByte(area: seq<byte>, ab: nat, secs: seq<nat>, k: nat, r: nat)
    requires forall s :: s in secs ==> InArea(area, ab, s)
    requires k < |secs| && r < 512
    ensures InArea(area, ab, secs[k]) && FileData(area, ab, secs)[512 * k + r] == area[512 * (secs[k] - ab) + r]
  {
    assert (512 * k + r) / 512 == k && (512 * k + r) % 512 == r;
    assert InArea(area, ab, secs[k]);
  }

  lemma NotInRun(secs: seq<nat>, k: nat, n: nat, q: nat, j: int)
    requires Distinct(secs) && Run(secs, k, n) && k < |secs| && q < |secs| && !(k <= q < k + n)
    ensures k <= j < k + n ==> secs[q] != secs[k] + (j - k)
  {
    if k <= j < k + n {
      assert secs[j] == secs[k] + (j - k);
    }
  }

  /** Writing a run of sectors overwrites that part of the file. */
  lemma RunWritten(area: seq<byte>, ab: nat, secs: seq<nat>, k: nat, n: nat, d: seq<byte>, area': seq<byte>)
    requires forall s :: s in secs ==> InArea(area, ab, s)
    requires Distinct(secs) && Run(secs, k, n) && n > 0 && |d| == 512 * n
    requires ab <= secs[k] && 512 * (secs[k] - ab + n) <= |area|
    requires area' == Splice(area, 512 * (secs[k] - ab), d)
    ensures forall s :: s in secs ==> InArea(area', ab, s)
    ensures FileData(area', ab, secs) == Splice(FileData(area, ab, secs), 512 * k, d)
  {
    var x, y := FileData(area', ab, secs), Splice(FileData(area, ab, secs), 512 * k, d);
    forall i | 0 <= i < |x|
      ensures x[i] == y[i]
    {
      var q, r := i / 512, i % 512;
      assert InArea(area, ab, secs[q]);
      if k <= q < k + n {
        assert secs[q] == secs[k] + (q - k);
      } else {
        NotInRun(secs, k, n, q, k as int + secs[q] as int - secs[k] as int);
      }
    }
  }

  /** Appending sectors to a file appends to its bytes. */
  lemma FileDataPrefix(area: seq<byte>, ab: nat, secs: seq<nat>, more: seq<nat>)
    requires forall s :: s in more ==> InArea(area, ab, s)
    requires |secs| <= |more| && more[..|secs|] == secs
    ensures forall s :: s in secs ==> InArea(area, ab, s)
    ensures FileData(area, ab, more)[..512 * |secs|] == FileData(area, ab, secs)
  {
    forall s | s in secs
      ensures InArea(area, ab, s)
    {
      assert s in more[..|secs|];
    }
    var x, y := FileData(area, ab, more), FileData(area, ab, secs);
    forall i | 0 <= i < 512 * |secs|
      ensures x[i] == y[i]
    {
      assert more[i / 512] == more[..|secs|][i / 512];
    }
  }

  /** `c` with `d` written at position `at`, which makes it longer when `d` reaches behind its end. */
  function Overwrite(c: seq<byte>, at: nat, d: seq<byte>): (r: seq<byte>)
    requires at <= |c|
    ensures |r| == if at + |d| <= |c| then |c| else at + |d|
  {
    c[..at] + d + if at + |d| <= |c| then c[at + |d|..] else []
  }

  /** Writing one piece behind the other. */
  lemma OverwriteAppend(c: seq<byte>, at: nat, a: seq<byte>, b: seq<byte>)
    requires at <= |c|
    ensures Overwrite(Overwrite(c, at, a), at + |a|, b) == Overwrite(c, at, a + b)
  {
  }

  lemma OverwriteNothing(c: seq<byte>, at: nat)
    requires at <= |c|
    ensures Overwrite(c, at, []) == c
  {
  }

  /** A splice into the bytes of a file of size `n`, seen as a write. */
  lemma SpliceIsOverwrite(b: seq<byte>, n: nat, at: nat, d: seq<byte>)
    requires at <= n <= |b| && at + |d| <= |b|
    ensures Splice(b, at, d)[..if at + |d| <= n then n else at + |d|] == Overwrite(b[..n], at, d)
  {
  }

  /** A splice of `e` at the end of the file, of which only the first part `d` counts. */
  lemma SpliceAtEnd(b: seq<byte>, n: nat, e: seq<byte>, d: seq<byte>)
    requires n + |e| <= |b| && |d| <= |e| && e[..|d|] == d
    ensures Splice(b, n, e)[..n + |d|] == Overwrite(b[..n], n, d)
  {
    var x, y := Splice(b, n, e)[..n + |d|], Overwrite(b[..n], n, d);
    forall i | 0 <= i < n + |d|
      ensures x[i] == y[i]
    {
      if i >= n {
        assert e[i - n] == e[..|d|][i - n];
      }
    }
  }

  /** Where cluster `j` of a file starts. */
  function ClusterStart(csize: nat, j: nat): nat
  {
    512 * csize * j
  }

  lemma NextStart(csize: nat, j: nat)
    requires ClusterSize(csize)
    ensures ClusterStart(csize, 0) == 0
    ensures ClusterStart(csize, j + 1) == ClusterStart(csize, j) + 512 * csize
  {
  }

  /** A position at a cluster boundary, as a number of clusters. */
  lemma BoundaryStart(csize: nat, p: nat)
    requires ClusterSize(csize) && p % 512 == 0 && p / 512 % csize == 0
    ensures p == ClusterStart(csize, LinkIndex(csize, p / 512))
  {
    SectorInCluster(csize, p / 512, 0);
    var j := p / 512 / csize;
    assert p == 512 * (csize * j);
  }

  /** The cluster around position `p`, found by division. */
  lemma StartOf(csize: nat, p: nat)
    requires ClusterSize(csize) && p > 0
    ensures ClusterStart(csize, (p - 1) / (512 * csize)) == (p - 1) / (512 * csize) * (512 * csize)
    ensures ClusterStart(csize, (p - 1) / (512 * csize)) < p <= ClusterStart(csize,
      (p - 1) / (512 * csize)) + 512 * csize
  {
    LinkOf(csize, p, (p - 1) / (512 * csize));
  }

  lemma StartBefore(csize: nat, p: nat, t: nat)
    requires ClusterSize(csize) && p > 0 && t > 0 && (t - 1) / (512 * csize) >= (p - 1) / (512 * csize)
    ensures ClusterStart(csize, (p - 1) / (512 * csize)) < t
  {
    if csize == 1 {} else if csize == 2 {} else if csize == 4 {} else if csize == 8 {}
    else if csize == 16 {} else if csize == 32 {} else if csize == 64 {} else {}
  }

  /** A position inside cluster `j`, or at its end. */
  lemma InLink(csize: nat, j: nat, p: nat)
    requires ClusterSize(csize) && ClusterStart(csize, j) < p <= ClusterStart(csize, j) + 512 * csize
    ensures p > 0 && (p - 1) / (512 * csize) == j
    ensures p % 512 != 0 ==> p / 512 / csize == j && p / 512 % csize == (p - ClusterStart(csize, j)) / 512
    ensures (p - ClusterStart(csize, j)) % 512 == p % 512
  {
    LinkOf(csize, p, j);
    var a, d := csize * j, p - ClusterStart(csize, j);
    assert p == 512 * a + d;
    assert p / 512 == a + d / 512 && p % 512 == d % 512;
    if p % 512 != 0 {
      SplitSector(csize, j, d / 512);
    }
  }

  /** A position behind the end of cluster `j` needs another one. */
  lemma NeedsNext(csize: nat, j: nat, n: nat, p: nat)
    requires ClusterSize(csize) && ClusterStart(csize, j) + 512 * csize < p <= 512 * (csize * n)
    ensures j + 1 < n
  {
    if csize == 1 {} else if csize == 2 {} else if csize == 4 {} else if csize == 8 {}
    else if csize == 16 {} else if csize == 32 {} else if csize == 64 {} else {}
  }
}
