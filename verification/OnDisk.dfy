/** Where on the volume the entries of the table, the bytes of a file and the entries of a directory lie. */
module OnDisk {
  import opened Bytes
  import opened Device
  import opened FatTable
  import opened FatGeometry
  import opened FatWindow
  import opened Chains
  import opened FileModel
  import opened FileState
  import opened DirTable
  import opened DirState
  import DirFootprint
  import opened FatVolumes
  import opened FatFiles
  import opened FatDirectories

  /** The number of the cluster, of `n` things each, that number `i` of them is in, and its number there. */
  function Link(n: nat, i: nat): nat
  {
    if n == 0 then 0 else i / n
  }

  function Rest(n: nat, i: nat): nat
  {
    if n == 0 then 0 else i % n
  }

  /** The address of a byte: `b` bytes behind the start of cluster `c`. The first cluster is number 2. */
  function Address(g: Geometry, c: nat, b: int): (a: int)
  {
    512 * (g.database + g.csize * (c - 2)) + b
  }

  /** What the volume holds is what the device holds, apart from the sector of the dirty window and the second table. */
  lemma BytesOnDevice(fs: FatVolume, a: nat)
    requires fs.Valid() && a < 512 * fs.size && !fs.g.InMirror(a) && !(fs.wflag && a / 512 == fs.winsect)
    ensures a < |fs.disk.image| && fs.Contents()[a] == fs.disk.image[a]
  {
  }

  /** An entry of the table lies in the sectors of the first table. */
  lemma EntryOnVolume(fs: FatVolume, c: nat)
    requires fs.Valid() && fs.g.Valid(fs.size) && c < fs.g.nFatent
    ensures 512 * (fs.g.fatbase + fs.g.fsize) <= |fs.Contents()| && c < |fs.Fat()|
    ensures Offset(fs.g.fsType, c) + Span(fs.g.fsType) <= 512 * fs.g.fsize
    ensures EntryIs(fs.g.fsType, fs.Contents()[512 * fs.g.fatbase..512 * (fs.g.fatbase + fs.g.fsize)], c, fs.Fat()[c])
  {
    hide Overlaid, EntryIs, Mirrored;
    var v := fs.Contents();
    EntryInside(fs.g.fsType, fs.g.nFatent, c);
    assert TableOf(fs.g, v) == v[512 * fs.g.fatbase..512 * (fs.g.fatbase + fs.g.fsize)];
    EntryByBytes(fs.g.fsType, TableOf(fs.g, v), c);
  }

  lemma Split(csize: nat, p: nat)
    requires ClusterSize(csize)
    ensures p / 512 / csize == Link(512 * csize, p)
    ensures 512 * (p / 512 % csize) + p % 512 == Rest(512 * csize, p)
  {
    if csize == 1 {} else if csize == 2 {} else if csize == 4 {} else if csize == 8 {}
    else if csize == 16 {} else if csize == 32 {} else if csize == 64 {} else {}
  }

  lemma SplitEntry(csize: nat, e: nat, x: nat)
    requires ClusterSize(csize) && x < 32
    ensures Link(512 * csize, 32 * e + x) == Link(16 * csize, e)
    ensures Rest(512 * csize, 32 * e + x) == 32 * Rest(16 * csize, e) + x
  {
    if csize == 1 {} else if csize == 2 {} else if csize == 4 {} else if csize == 8 {}
    else if csize == 16 {} else if csize == 32 {} else if csize == 64 {} else {}
  }

  lemma SectorAt(g: Geometry, ch: seq<nat>, k: nat)
    requires ClusterSize(g.csize) && (forall c :: c in ch ==> 2 <= c) && k < |Sectors(g, ch)|
    ensures k / g.csize < |ch| && 512 * Sectors(g, ch)[k] == Address(g, ch[k / g.csize], 512 * (k % g.csize))
  {
    hide ClusterSize;
    SectorInCluster(g.csize, k, |ch|);
    assert Sectors(g, ch)[k] == FileSector(g, ch, k);
  }

  /** Byte `p` of the sectors of a chain. */
  lemma ChainByte(g: Geometry, v: seq<byte>, ch: seq<nat>, p: nat)
    requires ClusterSize(g.csize) && (forall c :: c in ch ==> 2 <= c) && 512 * g.AreaBase() <= |v|
    requires forall s :: s in Sectors(g, ch) ==> InArea(AreaOf(g, v), g.AreaBase(), s)
    requires p < 512 * |Sectors(g, ch)|
    ensures Link(512 * g.csize, p) < |ch|
    ensures var a := Address(g, ch[Link(512 * g.csize, p)], Rest(512 * g.csize, p));
      && 0 <= a < |v| && FileData(AreaOf(g, v), g.AreaBase(), Sectors(g, ch))[p] == v[a]
      && a == 512 * Sectors(g, ch)[p / 512] + p % 512
  {
    hide Link, Rest, ClusterSize, Sectors;
    Split(g.csize, p);
    SectorAt(g, ch, p / 512);
    assert InArea(AreaOf(g, v), g.AreaBase(), Sectors(g, ch)[p / 512]);
  }

  /** The entry `d` is number `e` of the sectors of a chain. */
  predicate InChain(g: Geometry, v: seq<byte>, ch: seq<nat>, e: nat, d: seq<byte>)
  {
    && Link(16 * g.csize, e) < |ch|
    && var a := Address(g, ch[Link(16 * g.csize, e)], 32 * Rest(16 * g.csize, e));
      0 <= a && a + 32 <= |v| && d == v[a..a + 32]
  }

  /** The entry `d` is number `e` from sector `first` on. */
  predicate InRow(v: seq<byte>, first: nat, e: nat, d: seq<byte>)
  {
    512 * first + 32 * e + 32 <= |v| && d == v[512 * first + 32 * e..512 * first + 32 * e + 32]
  }

  lemma SamePiece(d: seq<byte>, o: nat, v: seq<byte>, a: nat)
    requires o + 32 <= |d| && a + 32 <= |v| && forall i :: o <= i < o + 32 ==> d[i] == v[a + (i - o)]
    ensures d[o..o + 32] == v[a..a + 32]
  {
    var x, y := d[o..o + 32], v[a..a + 32];
    assert forall i :: 0 <= i < 32 ==> x[i] == d[o + i] && y[i] == v[a + i];
  }

  /** Entry `e` in the sectors of a chain. */
  lemma ChainEntry(g: Geometry, v: seq<byte>, ch: seq<nat>, e: nat)
    requires ClusterSize(g.csize) && (forall c :: c in ch ==> 2 <= c) && 512 * g.AreaBase() <= |v|
    requires forall s :: s in Sectors(g, ch) ==> InArea(AreaOf(g, v), g.AreaBase(), s)
    requires 32 * e + 32 <= 512 * |Sectors(g, ch)|
    ensures InChain(g, v, ch, e, EntryIn(FileData(AreaOf(g, v), g.AreaBase(), Sectors(g, ch)), e))
  {
    hide Link, Rest, ClusterSize, Sectors, FileData, AreaOf, Address;
    var data := FileData(AreaOf(g, v), g.AreaBase(), Sectors(g, ch));
    EntryByte(g, v, ch, e, 0);
    var a := Address(g, ch[Link(16 * g.csize, e)], 32 * Rest(16 * g.csize, e));
    forall i | 32 * e <= i < 32 * e + 32
      ensures 0 <= a + (i - 32 * e) < |v| && data[i] == v[a + (i - 32 * e)]
    {
      EntryByte(g, v, ch, e, i - 32 * e);
    }
    EntryByte(g, v, ch, e, 31);
    SamePiece(data, 32 * e, v, a);
  }

  lemma EntryByte(g: Geometry, v: seq<byte>, ch: seq<nat>, e: nat, x: nat)
    requires ClusterSize(g.csize) && (forall c :: c in ch ==> 2 <= c) && 512 * g.AreaBase() <= |v| && x < 32
    requires forall s :: s in Sectors(g, ch) ==> InArea(AreaOf(g, v), g.AreaBase(), s)
    requires 32 * e + 32 <= 512 * |Sectors(g, ch)|
    ensures Link(16 * g.csize, e) < |ch|
    ensures var a := Address(g, ch[Link(16 * g.csize, e)], 32 * Rest(16 * g.csize, e));
      0 <= a + x < |v| && FileData(AreaOf(g, v), g.AreaBase(), Sectors(g, ch))[32 * e + x] == v[a + x]
  {
    hide Link, Rest, ClusterSize, Sectors, FileData, AreaOf, Address;
    SplitEntry(g.csize, e, x);
    ChainByte(g, v, ch, 32 * e + x);
    Further(g, ch[Link(16 * g.csize, e)], 32 * Rest(16 * g.csize, e), x);
  }

  lemma Further(g: Geometry, c: nat, b: int, x: int)
    ensures Address(g, c, b + x) == Address(g, c, b) + x
  {
  }

  /** Entry `e` in sectors in a row. */
  lemma RowEntry(ab: nat, v: seq<byte>, area: seq<byte>, first: nat, secs: seq<nat>, e: nat)
    requires 512 * ab <= |v| && area == v[512 * ab..] && forall i :: 0 <= i < |secs| ==> secs[i] == first + i
    requires forall s :: s in secs ==> InArea(area, ab, s)
    requires 32 * e + 32 <= 512 * |secs|
    ensures InRow(v, first, e, EntryIn(FileData(area, ab, secs), e))
  {
    var data, a := FileData(area, ab, secs), 512 * first + 32 * e;
    forall i | 32 * e <= i < 32 * e + 32
      ensures a + (i - 32 * e) < |v| && data[i] == v[a + (i - 32 * e)]
    {
      RowByte(ab, v, area, first, secs, i);
    }
    RowByte(ab, v, area, first, secs, 32 * e + 31);
    SamePiece(data, 32 * e, v, a);
  }

  lemma RowByte(ab: nat, v: seq<byte>, area: seq<byte>, first: nat, secs: seq<nat>, i: nat)
    requires 512 * ab <= |v| && area == v[512 * ab..] && forall i :: 0 <= i < |secs| ==> secs[i] == first + i
    requires forall s :: s in secs ==> InArea(area, ab, s)
    requires i < 512 * |secs|
    ensures 512 * first + i < |v| && FileData(area, ab, secs)[i] == v[512 * first + i]
  {
    var k := i / 512;
    assert secs[k] == first + k && secs[k] in secs && InArea(area, ab, secs[k]);
  }

  /** Byte `p` of an open file lies `p` bytes further on along its clusters, or in the dirty buffer. */
  lemma ByteOnVolume(f: FatFile, p: nat)
    requires f.Valid() && p < f.objsize
    ensures ClusterSize(f.fs.g.csize) && f.buf.Length == 512 && Link(512 * f.fs.g.csize, p) < |f.chain|
    ensures var a := Address(f.fs.g, f.chain[Link(512 * f.fs.g.csize, p)], Rest(512 * f.fs.g.csize, p));
      && 0 <= a < |f.fs.Contents()|
      && f.Content()[p] == if f.dirty && a / 512 == f.sect then f.buf[a % 512] else f.fs.Contents()[a]
  {
    hide FatVolume.Valid, Geometry.Valid, Link, Rest, ClusterSize, Overlaid, Good, Address, Sectors, FileData, AreaOf;
    f.Placement();
    var g, v := f.fs.g, f.fs.Contents();
    var secs, area := Sectors(g, f.chain), AreaOf(g, v);
    ChainByte(g, v, f.chain, p);
    if f.dirty {
      BufferByte(area, g.AreaBase(), secs, f.sect, f.buf[..], p);
    }
  }

  lemma BufferByte(area: seq<byte>, ab: nat, secs: seq<nat>, sect: nat, buf: seq<byte>, p: nat)
    requires (forall s :: s in secs ==> InArea(area, ab, s)) && sect in secs && |buf| == 512 && p < 512 * |secs|
    ensures 512 * (sect - ab) + 512 <= |area| && ab <= sect
    ensures var v := Splice(area, 512 * (sect - ab), buf);
      && (forall s :: s in secs ==> InArea(v, ab, s))
      && FileData(v, ab, secs)[p] == if secs[p / 512] == sect then buf[p % 512] else FileData(area, ab, secs)[p]
  {
    assert InArea(area, ab, sect) && InArea(area, ab, secs[p / 512]);
  }

  /** The clusters of an open file are linked in the table, from its start cluster on. */
  lemma FileStart(f: FatFile)
    requires f.Valid()
    ensures if f.sclust == 0 then f.chain == [] else IsChain(f.fs.Fat(), f.chain) && f.chain[0] == f.sclust
  {
    hide FatVolume.Valid, Geometry.Valid, Sectors, IsChain;
  }

  /** Those of a directory as well. Start cluster 0 is the root directory, which has an area of its own, or on FAT32 the
      start cluster from the boot sector. */
  lemma DirectoryStart(d: FatDirectory)
    requires d.Valid()
    ensures d.sclust == 0 && !d.fs.g.fsType.FAT32? ==> d.chain == []
    ensures d.sclust != 0 || d.fs.g.fsType.FAT32? ==>
      IsChain(d.fs.Fat(), d.chain) && d.chain[0] == if d.sclust == 0 then d.fs.g.dirbase else d.sclust
  {
    hide FatVolume.Valid, Geometry.Valid, DirFootprint.OnlyDir, IsChain;
  }

  /** Entry `e` of an open directory lies `e` entries further on along its clusters, or in the root directory area. */
  lemma EntryOnDirectory(d: FatDirectory, e: nat)
    requires d.Valid() && e < |d.Table()|
    ensures if d.chain == [] then InRow(d.fs.Contents(), d.fs.g.dirbase, e, d.Table()[e])
      else InChain(d.fs.g, d.fs.Contents(), d.chain, e, d.Table()[e])
  {
    hide FatVolume.Valid, Geometry.Valid, Link, Rest, ClusterSize, Overlaid, DirOk, DirFootprint.OnlyDir, Address,
      Sectors, FileData, EntryIn, InRow, InChain;
    d.Placement();
    var g, v := d.fs.g, d.fs.Contents();
    var secs := DirSectors(g, d.chain);
    if d.chain == [] {
      RowEntry(g.AreaBase(), v, AreaOf(g, v), g.dirbase, secs, e);
    } else {
      ChainEntry(g, v, d.chain, e);
    }
  }
}
