/** What a volume holds behind its one-sector write-back window. */
module FatWindow {
  import opened Bytes
  import opened Device
  import opened FatTable
  import opened FatGeometry

  datatype FResult = Ok | DiskErr | IntErr | NoFile | NoPath | InvalidName | Denied | NoFilesystem
    | MkfsAborted | NotEnoughCore | InvalidParameter

  /** What a volume holds: the device image with a dirty window laid over it. The second table
      carries no information of its own and is blanked out. */
  function Overlaid(g: Geometry, image: seq<byte>, dirty: bool, sector: nat, win: seq<byte>): (v: seq<byte>)
    requires |win| == 512
    ensures |v| == |image|
    ensures forall i :: 0 <= i < |v| ==>
      v[i] == if g.InMirror(i) then 0
              else if dirty && 512 * sector <= i < 512 * (sector + 1) then win[i - 512 * sector]
              else image[i]
  {
    seq(|image|, i requires 0 <= i < |image| =>
      if g.InMirror(i) then 0 else if dirty && 512 * sector <= i < 512 * (sector + 1) then win[i - 512 * sector]
        else image[i])
  }

  /** Byte `k` of the first table equals its copy in the second. */
  predicate TwinAt(g: Geometry, size: nat, image: seq<byte>, k: nat)
    requires |image| == 512 * size && g.TablesFit(size) && g.nFats == 2 && k < 512 * g.fsize
  {
    image[512 * g.fatbase + k] == image[512 * (g.fatbase + g.fsize) + k]
  }

  /** Byte `k` of the first table lies in this sector. */
  predicate Covers(g: Geometry, sector: nat, k: nat)
  {
    512 * sector <= 512 * g.fatbase + k < 512 * (sector + 1)
  }

  /** Every byte of the first table equals its copy in the second, except under a dirty window. */
  ghost predicate Mirrored(g: Geometry, size: nat, image: seq<byte>, dirty: bool, sector: nat)
    requires |image| == 512 * size && g.TablesFit(size)
  {
    g.nFats == 2 ==>
      forall k: nat :: k < 512 * g.fsize && !(dirty && Covers(g, sector, k)) ==> TwinAt(g, size, image, k)
  }

  /** Writing one sector, not of the second table, disturbs the tables in that sector only. */
  lemma MirrorWritten(g: Geometry, size: nat, image: seq<byte>, sector: nat, d: seq<byte>, image': seq<byte>)
    requires |image| == 512 * size && g.TablesFit(size) && |d| == 512 && sector < size
    requires !g.InMirror(512 * sector)
    requires Mirrored(g, size, image, true, sector)
    requires image' == Splice(image, 512 * sector, d)
    ensures Mirrored(g, size, image', true, sector)
  {
    if g.nFats == 2 {
      forall k: nat | k < 512 * g.fsize && !Covers(g, sector, k)
        ensures TwinAt(g, size, image', k)
      {
        assert TwinAt(g, size, image, k);
      }
    }
  }

  /** Copying that sector to the second table makes the tables equal again. */
  lemma MirrorReflected(g: Geometry, size: nat, image: seq<byte>, sector: nat, d: seq<byte>, image': seq<byte>)
    requires |image| == 512 * size && g.TablesFit(size) && |d| == 512
    requires g.nFats == 2 && g.fatbase <= sector < g.fatbase + g.fsize
    requires Mirrored(g, size, image, true, sector)
    requires d == image[512 * sector..512 * (sector + 1)]
    requires image' == Splice(image, 512 * (sector + g.fsize), d)
    ensures Mirrored(g, size, image', false, sector)
  {
    forall k: nat | k < 512 * g.fsize
      ensures TwinAt(g, size, image', k)
    {
      if !Covers(g, sector, k) {
        assert TwinAt(g, size, image, k);
      }
    }
  }

  /** A sector outside the tables does not matter to them. */
  lemma MirrorElsewhere(g: Geometry, size: nat, image: seq<byte>, sector: nat)
    requires |image| == 512 * size && g.TablesFit(size)
    requires g.nFats == 2 ==> sector < g.fatbase || g.fatbase + g.fsize <= sector
    requires Mirrored(g, size, image, true, sector)
    ensures Mirrored(g, size, image, false, sector)
  {
    if g.nFats == 2 {
      forall k: nat | k < 512 * g.fsize
        ensures TwinAt(g, size, image, k)
      {
        assert !Covers(g, sector, k);
      }
    }
  }

  /** A change of the device that leaves all bytes but those of the window and of the second table
      alone does not show. */
  lemma Unseen(g: Geometry, image: seq<byte>, image': seq<byte>, dirty: bool, sector: nat, win: seq<byte>)
    requires |win| == 512 && |image'| == |image| && 512 * (sector + 1) <= |image|
    requires forall i :: 0 <= i < |image| && !g.InMirror(i) && !(512 * sector <= i < 512 * (sector + 1)) ==>
      image'[i] == image[i]
    requires dirty || win == image'[512 * sector..512 * (sector + 1)]
    ensures Overlaid(g, image', dirty, sector, win) == Overlaid(g, image, true, sector, win)
  {
    assert !dirty ==> forall i :: 0 <= i < 512 ==> win[i] == image'[512 * sector + i];
  }

  /** Editing the window edits the volume. */
  lemma Edited(g: Geometry, image: seq<byte>, dirty: bool, sector: nat, win: seq<byte>, k: nat, d: seq<byte>)
    requires |win| == 512 && 512 * (sector + 1) <= |image| && !g.InMirror(512 * sector)
    requires dirty || win == image[512 * sector..512 * (sector + 1)]
    requires k + |d| <= 512
    ensures Overlaid(g, image, true, sector, Splice(win, k, d)) ==
      Splice(Overlaid(g, image, dirty, sector, win), 512 * sector + k, d)
  {
  }

  /** What the window shows is what the volume holds in that sector. */
  lemma Shown(g: Geometry, image: seq<byte>, dirty: bool, sector: nat, win: seq<byte>)
    requires |win| == 512 && 512 * (sector + 1) <= |image| && !g.InMirror(512 * sector)
    requires dirty || win == image[512 * sector..512 * (sector + 1)]
    ensures Overlaid(g, image, dirty, sector, win)[512 * sector..512 * (sector + 1)] == win
  {
  }

  /** The first table, and everything behind the tables. */
  function TableOf(g: Geometry, v: seq<byte>): (f: seq<byte>)
    requires 512 * g.AreaBase() <= |v|
    ensures |f| == 512 * g.fsize
  {
    v[512 * g.fatbase..512 * (g.fatbase + g.fsize)]
  }

  function AreaOf(g: Geometry, v: seq<byte>): (a: seq<byte>)
    requires 512 * g.AreaBase() <= |v|
    ensures |a| == |v| - 512 * g.AreaBase()
  {
    v[512 * g.AreaBase()..]
  }

  /** The entries of the table of a volume that holds `v`. */
  function EntriesOf(g: Geometry, v: seq<byte>): (r: seq<nat>)
    requires 512 * g.AreaBase() <= |v| && TableBytes(g.fsType, g.nFatent) <= 512 * g.fsize
    ensures |r| == g.nFatent
  {
    Entries(g.fsType, TableOf(g, v), g.nFatent)
  }

  /** The reserved bits of all entries of a FAT32 table. */
  function ReservedOf(g: Geometry, v: seq<byte>): seq<nat>
    requires 512 * g.AreaBase() <= |v| && g.fsType.FAT32? && TableBytes(g.fsType, g.nFatent) <= 512 * g.fsize
  {
    seq(g.nFatent, i requires 0 <= i < g.nFatent => Reserved(TableOf(g, v), i))
  }

  /** Everything before the tables. */
  function BootOf(g: Geometry, v: seq<byte>): seq<byte>
    requires 512 * g.AreaBase() <= |v|
  {
    v[..512 * g.fatbase]
  }

  /** The volume once `v` holds `val` in entry `clst` of its table. */
  function WithEntry(g: Geometry, v: seq<byte>, clst: nat, val: nat): (r: seq<byte>)
    requires 512 * g.AreaBase() <= |v| && Offset(g.fsType, clst) + Span(g.fsType) <= 512 * g.fsize
    ensures |r| == |v|
  {
    var o := Offset(g.fsType, clst);
    Splice(v, 512 * g.fatbase + o, Merged(g.fsType, clst, TableOf(g, v)[o..o + Span(g.fsType)], val))
  }

  /** The volume once byte `o` of its table has been merged with `val`. */
  function WithByte(g: Geometry, v: seq<byte>, clst: nat, val: nat, o: nat, second: bool): (r: seq<byte>)
    requires 512 * g.AreaBase() <= |v| && o < 512 * g.fsize
    ensures |r| == |v|
  {
    Splice(v, 512 * g.fatbase + o, [MergedByte(clst, val, second, TableOf(g, v)[o])])
  }

  lemma WithByteAt(g: Geometry, v: seq<byte>, clst: nat, val: nat, o: nat, second: bool)
    requires 512 * g.AreaBase() <= |v| && o < 512 * g.fsize
    ensures WithByte(g, v, clst, val, o, second)
         == Splice(v, 512 * (g.fatbase + o / 512) + o % 512, [MergedByte(clst, val, second, TableOf(g, v)[o])])
  {
    assert o == 512 * (o / 512) + o % 512;
  }

  /** One byte after the other stores a FAT12 entry; the first alone stores another value. */
  lemma ByteByByte(g: Geometry, v: seq<byte>, clst: nat, val: nat) returns (half: nat)
    requires g.fsType.FAT12? && 512 * g.AreaBase() <= |v| && clst + clst / 2 + 2 <= 512 * g.fsize
    ensures WithByte(g, v, clst, val, clst + clst / 2, false) == WithEntry(g, v, clst, half)
    ensures WithByte(g, WithByte(g, v, clst, val, clst + clst / 2, false), clst, val, clst + clst / 2 + 1, true)
         == WithEntry(g, v, clst, val)
  {
    hide MergedByte, Splice;
    var o := clst + clst / 2;
    var p, d := 512 * g.fatbase + o, TableOf(g, v)[o..o + 2];
    half := HalfMerged(clst, d, val);
    var a, b := MergedByte(clst, val, false, d[0]), MergedByte(clst, val, true, d[1]);
    FirstOfTwo(v, p, a);
    SpliceAppend(v, p, [a], [b]);
    assert [a] + [b] == [a, b];
    assert d == [v[p], v[p + 1]];
  }

  lemma FirstOfTwo(v: seq<byte>, p: nat, a: byte)
    requires p + 2 <= |v|
    ensures Splice(v, p, [a]) == Splice(v, p, [a, v[p + 1]]) && Splice(v, p, [a])[p + 1] == v[p + 1]
  {
  }

  lemma WithWord(g: Geometry, v: seq<byte>, clst: nat, val: nat)
    requires g.fsType.FAT16? && 512 * g.AreaBase() <= |v| && Offset(g.fsType, clst) + Span(g.fsType) <= 512 * g.fsize
    ensures clst / 256 < g.fsize && clst * 2 % 512 + 2 <= 512
    ensures WithEntry(g, v, clst, val) == Splice(v, 512 * (g.fatbase + clst / 256) + clst * 2 % 512, WordBytes(val))
  {
    assert 512 * (clst / 256) + clst * 2 % 512 == clst * 2;
  }

  lemma WithDword(g: Geometry, v: seq<byte>, clst: nat, val: nat)
    requires g.fsType.FAT32? && 512 * g.AreaBase() <= |v| && Offset(g.fsType, clst) + Span(g.fsType) <= 512 * g.fsize
    ensures clst / 128 < g.fsize && clst * 4 % 512 + 4 <= 512
    ensures 512 * (clst / 128) + clst * 4 % 512 + 4 <= 512 * g.fsize
    ensures var o := 512 * (clst / 128) + clst * 4 % 512;
      WithEntry(g, v, clst, val) == Splice(v, 512 * (g.fatbase + clst / 128) + clst * 4 % 512,
        DwordBytes(val % 0x1000_0000 + LdDword(TableOf(g, v)[o..o + 4], 0) / 0x1000_0000 * 0x1000_0000))
  {
    assert 512 * (clst / 128) + clst * 4 % 512 == clst * 4;
  }

  /** Storing an entry updates the array of entries there and changes nothing else: neither the
      reserved bits nor anything outside the table. */
  lemma EntryWritten(g: Geometry, v: seq<byte>, clst: nat, val: nat)
    requires 512 * g.AreaBase() <= |v| && TableBytes(g.fsType, g.nFatent) <= 512 * g.fsize && clst < g.nFatent
    ensures Offset(g.fsType, clst) + Span(g.fsType) <= 512 * g.fsize
    ensures EntriesOf(g, WithEntry(g, v, clst, val)) == EntriesOf(g, v)[clst := val % Modulus(g.fsType)]
    ensures g.fsType.FAT32? ==> ReservedOf(g, WithEntry(g, v, clst, val)) == ReservedOf(g, v)
    ensures AreaOf(g, WithEntry(g, v, clst, val)) == AreaOf(g, v)
    ensures BootOf(g, WithEntry(g, v, clst, val)) == BootOf(g, v)
  {
    hide Merged, Splice, Entries, Reserved, TableOf, AreaOf, BootOf, Offset;
    EntryInside(g.fsType, g.nFatent, clst);
    StoredEntries(g.fsType, TableOf(g, v), g.nFatent, clst, val);
    var o := Offset(g.fsType, clst);
    TableSpliced(g, v, o, Merged(g.fsType, clst, TableOf(g, v)[o..o + Span(g.fsType)], val));
    if g.fsType.FAT32? {
      SameReserved(g, v, WithEntry(g, v, clst, val));
    }
  }

  lemma SameReserved(g: Geometry, v: seq<byte>, w: seq<byte>)
    requires g.fsType.FAT32? && 512 * g.AreaBase() <= |v| == |w| && TableBytes(g.fsType, g.nFatent) <= 512 * g.fsize
    requires forall j :: 0 <= j < g.nFatent ==>
      && j * 4 + 4 <= |TableOf(g, v)| && j * 4 + 4 <= |TableOf(g, w)|
      && Reserved(TableOf(g, w), j) == Reserved(TableOf(g, v), j)
    ensures ReservedOf(g, w) == ReservedOf(g, v)
  {
  }

  /** Bytes written inside the first table. */
  lemma TableSpliced(g: Geometry, v: seq<byte>, o: nat, d: seq<byte>)
    requires 512 * g.AreaBase() <= |v| && o + |d| <= 512 * g.fsize
    ensures TableOf(g, Splice(v, 512 * g.fatbase + o, d)) == Splice(TableOf(g, v), o, d)
    ensures AreaOf(g, Splice(v, 512 * g.fatbase + o, d)) == AreaOf(g, v)
    ensures BootOf(g, Splice(v, 512 * g.fatbase + o, d)) == BootOf(g, v)
  {
  }

  /** Bytes of the table, found in the sector they lie in. */
  lemma TableSlice(g: Geometry, v: seq<byte>, q: nat, r: nat, n: nat)
    requires 512 * g.AreaBase() <= |v| && q < g.fsize && r + n <= 512
    ensures 512 * (g.fatbase + q + 1) <= |v|
    ensures v[512 * (g.fatbase + q)..512 * (g.fatbase + q + 1)][r..r + n] == TableOf(g, v)[512 * q + r..512 * q + r + n]
    ensures !g.InMirror(512 * (g.fatbase + q))
  {
    SubSlice(v, 512 * (g.fatbase + q), 512 * (g.fatbase + q + 1), r, n);
    SubSlice(v, 512 * g.fatbase, 512 * (g.fatbase + g.fsize), 512 * q + r, n);
  }

  /** Byte `o` of the table, found in the sector it lies in. */
  lemma TableAt(g: Geometry, v: seq<byte>, o: nat)
    requires 512 * g.AreaBase() <= |v| && o < 512 * g.fsize
    ensures o / 512 < g.fsize && 512 * (g.fatbase + o / 512 + 1) <= |v|
    ensures v[512 * (g.fatbase + o / 512)..512 * (g.fatbase + o / 512 + 1)][o % 512] == TableOf(g, v)[o]
  {
    var q, r := o / 512, o % 512;
    assert o == 512 * q + r;
    assert v[512 * (g.fatbase + q)..512 * (g.fatbase + q + 1)][r] == v[512 * g.fatbase + o];
  }

  /** The entry at byte `i` of a sector of a FAT16 or FAT32 table. */
  function EntryAt(t: FatType, d: seq<byte>, i: nat): nat
    requires !t.FAT12? && i + Span(t) <= |d|
  {
    if t.FAT16? then LdWord(d, i) else LdDword(d, i) % 0x1000_0000
  }

  /** Entry `k` of a table of words or double words, found in the sector it lies in. */
  lemma EntryInSector(g: Geometry, v: seq<byte>, k: nat, q: nat, i: nat)
    requires !g.fsType.FAT12? && 512 * g.AreaBase() <= |v| && TableBytes(g.fsType, g.nFatent) <= 512 * g.fsize
    requires k < g.nFatent && Offset(g.fsType, k) == 512 * q + i && i < 512
    ensures q < g.fsize && i + Span(g.fsType) <= 512 && 512 * (g.fatbase + q + 1) <= |v|
    ensures EntryAt(g.fsType, v[512 * (g.fatbase + q)..512 * (g.fatbase + q + 1)], i) == EntriesOf(g, v)[k]
  {
    hide Decode, EntryAt, Offset, TableBytes;
    EntryInside(g.fsType, g.nFatent, k);
    EntryFits(g.fsType, k, q, i);
    TableSlice(g, v, q, i, Span(g.fsType));
    SameEntry(g.fsType, v[512 * (g.fatbase + q)..512 * (g.fatbase + q + 1)], k, i);
  }

  lemma EntryFits(t: FatType, k: nat, q: nat, i: nat)
    requires !t.FAT12? && Offset(t, k) == 512 * q + i && i < 512
    ensures i + Span(t) <= 512
  {
    if t.FAT16? {
      assert i == 2 * (k - 256 * q);
    } else {
      assert i == 4 * (k - 128 * q);
    }
  }

  lemma SameEntry(t: FatType, d: seq<byte>, k: nat, i: nat)
    requires !t.FAT12? && i + Span(t) <= |d|
    ensures Decode(t, k, d[i..i + Span(t)]) == EntryAt(t, d, i)
  {
    var e := d[i..i + Span(t)];
    assert forall j :: 0 <= j < |e| ==> e[j] == d[i + j];
  }

  /** Where the bytes of an entry lie, and that they decode to it. */
  lemma EntryBytes(g: Geometry, v: seq<byte>, clst: nat)
    requires 512 * g.AreaBase() <= |v| && TableBytes(g.fsType, g.nFatent) <= 512 * g.fsize && clst < g.nFatent
    ensures Offset(g.fsType, clst) + Span(g.fsType) <= 512 * g.fsize
    ensures Decode(g.fsType, clst, TableOf(g, v)[Offset(g.fsType, clst)..Offset(g.fsType, clst) + Span(g.fsType)]) ==
      EntriesOf(g, v)[clst]
    ensures EntriesOf(g, v)[clst] < MAX32
  {
    EntryInside(g.fsType, g.nFatent, clst);
  }

  lemma WordSector(g: Geometry, clst: nat)
    requires g.fsType.FAT16? && Offset(g.fsType, clst) + Span(g.fsType) <= 512 * g.fsize
    ensures clst / 256 < g.fsize && clst * 2 % 512 + 2 <= 512
    ensures 512 * (clst / 256) + clst * 2 % 512 == Offset(g.fsType, clst) && Span(g.fsType) == 2
  {
  }

  lemma DwordSector(g: Geometry, clst: nat)
    requires g.fsType.FAT32? && Offset(g.fsType, clst) + Span(g.fsType) <= 512 * g.fsize
    ensures clst / 128 < g.fsize && clst * 4 % 512 + 4 <= 512
    ensures 512 * (clst / 128) + clst * 4 % 512 == Offset(g.fsType, clst) && Span(g.fsType) == 4
  {
  }

  /** Where the entry behind entry `k` lies. */
  lemma NextEntry(t: FatType, k: nat, q: nat, i: nat)
    requires !t.FAT12? && Offset(t, k) == 512 * q + i && i + Span(t) <= 512
    ensures (i + Span(t)) % 512 == if i + Span(t) == 512 then 0 else i + Span(t)
    ensures Offset(t, k + 1) == 512 * (if i + Span(t) == 512 then q + 1 else q) + (i + Span(t)) % 512
    ensures Span(t) > 0
  {
  }

  /** The two bytes of a FAT12 entry, loaded one by one. */
  lemma TwoBytes(g: Geometry, v: seq<byte>, o: nat)
    requires 512 * g.AreaBase() <= |v| && o + 2 <= 512 * g.fsize
    ensures var f := TableOf(g, v);
      && o / 512 <= (o + 1) / 512 < g.fsize
      && 512 * (o / 512) + o % 512 == o && 512 * ((o + 1) / 512) + (o + 1) % 512 == o + 1
      && f[o..o + 1] + f[o + 1..o + 2] == f[o..o + 2]
  {
  }

  /** Two volumes that agree before sector `sector`, which lies behind the tables. */
  lemma SameTables(g: Geometry, v: seq<byte>, v': seq<byte>, sector: nat)
    requires |v'| == |v| && g.AreaBase() <= sector && 512 * sector <= |v|
    requires forall i :: 0 <= i < 512 * sector ==> v'[i] == v[i]
    ensures TableOf(g, v') == TableOf(g, v) && BootOf(g, v') == BootOf(g, v)
  {
  }

  /** Sectors behind the tables and away from the window, written directly. */
  lemma DataWritten(g: Geometry, image: seq<byte>, image': seq<byte>, dirty: bool, shown: nat, win: seq<byte>,
                    sector: nat, d: seq<byte>)
    requires |win| == 512 && g.AreaBase() <= sector && 512 * sector + |d| <= |image|
    requires 512 * (shown + 1) <= 512 * sector || 512 * sector + |d| <= 512 * shown
    requires image' == Splice(image, 512 * sector, d)
    ensures Overlaid(g, image', dirty, shown, win) == Splice(Overlaid(g, image, dirty, shown, win), 512 * sector, d)
  {
  }

  /** Sectors behind the tables and away from the window are seen as the device has them. */
  lemma DataSeen(g: Geometry, image: seq<byte>, dirty: bool, shown: nat, win: seq<byte>, sector: nat, count: nat)
    requires |win| == 512 && g.AreaBase() <= sector && 512 * (sector + count) <= |image|
    requires shown < sector || sector + count <= shown
    ensures var ab := g.AreaBase();
      AreaOf(g, Overlaid(g, image, dirty, shown, win))[512 * (sector - ab)..512 * (sector - ab + count)]
        == image[512 * sector..512 * (sector + count)]
  {
    var ab := g.AreaBase();
    var v := Overlaid(g, image, dirty, shown, win);
    SubSlice(v, 512 * ab, |v|, 512 * (sector - ab), 512 * count);
    var x, y := v[512 * sector..512 * (sector + count)], image[512 * sector..512 * (sector + count)];
    assert forall i :: 0 <= i < 512 * count ==> x[i] == v[512 * sector + i] == image[512 * sector + i] == y[i];
  }

  lemma AreaWritten(g: Geometry, v: seq<byte>, sector: nat, d: seq<byte>)
    requires g.AreaBase() <= sector && 512 * sector + |d| <= |v|
    ensures AreaOf(g, Splice(v, 512 * sector, d)) == Splice(AreaOf(g, v), 512 * (sector - g.AreaBase()), d)
  {
  }

  /** Mirrored tables do not see changes behind them. */
  lemma MirrorBehind(g: Geometry, size: nat, image: seq<byte>, image': seq<byte>, dirty: bool, shown: nat)
    requires |image'| == |image| == 512 * size && g.TablesFit(size)
    requires forall i :: 0 <= i < 512 * g.AreaBase() ==> image'[i] == image[i]
    requires Mirrored(g, size, image, dirty, shown)
    ensures Mirrored(g, size, image', dirty, shown)
  {
    if g.nFats == 2 {
      forall k: nat | k < 512 * g.fsize && !(dirty && Covers(g, shown, k))
        ensures TwinAt(g, size, image', k)
      {
        assert TwinAt(g, size, image, k);
      }
    }
  }

  /** The window shows the same sector of the device when that sector has not changed. */
  lemma StillShown(image: seq<byte>, image': seq<byte>, shown: nat)
    requires |image'| == |image| && 512 * (shown + 1) <= |image|
    requires forall i :: 512 * shown <= i < 512 * (shown + 1) ==> image'[i] == image[i]
    ensures image'[512 * shown..512 * (shown + 1)] == image[512 * shown..512 * (shown + 1)]
  {
  }

  /** Bytes written behind the tables change nothing else. */
  lemma AreaEdited(g: Geometry, v: seq<byte>, sector: nat, k: nat, d: seq<byte>)
    requires g.AreaBase() <= sector && 512 * sector + k + |d| <= |v|
    ensures AreaOf(g, Splice(v, 512 * sector + k, d)) == Splice(AreaOf(g, v), 512 * (sector - g.AreaBase()) + k, d)
    ensures TableOf(g, Splice(v, 512 * sector + k, d)) == TableOf(g, v)
    ensures BootOf(g, Splice(v, 512 * sector + k, d)) == BootOf(g, v)
  {
    SameTables(g, v, Splice(v, 512 * sector + k, d), sector);
  }

  /** Sectors behind the tables written on the device, while the window is not dirty. */
  lemma Cleared(g: Geometry, image: seq<byte>, shown: nat, win: seq<byte>, shown': nat, win': seq<byte>, sector: nat,
                d: seq<byte>)
    requires |win| == 512 && |win'| == 512 && g.AreaBase() <= sector && 512 * sector + |d| <= |image|
    ensures Overlaid(g, Splice(image, 512 * sector, d), false, shown', win') ==
      Splice(Overlaid(g, image, false, shown, win), 512 * sector, d)
  {
  }

  /** Two volumes differ at most in these sectors. */
  ghost predicate OnlyThere(v: seq<byte>, v': seq<byte>, sector: nat, count: nat)
  {
    |v'| == |v| && forall i :: 0 <= i < |v| && !(512 * sector <= i < 512 * (sector + count)) ==> v'[i] == v[i]
  }

  /** What changes on the device shows behind a clean window. */
  lemma SeenThere(g: Geometry, image: seq<byte>, image': seq<byte>, shown: nat, shown': nat, w: seq<byte>,
                  w': seq<byte>, sector: nat, count: nat)
    requires |w| == |w'| == 512 && OnlyThere(image, image', sector, count)
    ensures OnlyThere(Overlaid(g, image, false, shown, w), Overlaid(g, image', false, shown', w'), sector, count)
  {
  }

  lemma ThereOnly(v: seq<byte>, v': seq<byte>, sector: nat, count: nat)
    requires |v'| == |v|
    requires forall i :: 0 <= i < |v| && !(512 * sector <= i < 512 * (sector + count)) ==> v'[i] == v[i]
    ensures OnlyThere(v, v', sector, count)
  {
  }

  /** Sectors behind the tables and away from the window that were written, with or without success. */
  lemma DataSpoilt(g: Geometry, size: nat, image: seq<byte>, image': seq<byte>, dirty: bool, shown: nat, win: seq<byte>,
                   sector: nat, count: nat)
    requires |image| == 512 * size && g.TablesFit(size) && |win| == 512 && OnlyThere(image, image', sector, count)
    requires g.AreaBase() <= sector && sector + count <= size && !(sector <= shown < sector + count)
    ensures Mirrored(g, size, image, dirty, shown) ==> Mirrored(g, size, image', dirty, shown)
    ensures shown < size ==> image'[512 * shown..512 * (shown + 1)] == image[512 * shown..512 * (shown + 1)]
    ensures var v, v' := Overlaid(g, image, dirty, shown, win), Overlaid(g, image', dirty, shown, win);
      TableOf(g, v') == TableOf(g, v) && BootOf(g, v') == BootOf(g, v)
  {
    hide TableOf, BootOf, Mirrored;
    if Mirrored(g, size, image, dirty, shown) {
      MirrorBehind(g, size, image, image', dirty, shown);
    }
    if shown < size {
      StillShown(image, image', shown);
    }
    SameTables(g, Overlaid(g, image, dirty, shown, win), Overlaid(g, image', dirty, shown, win), sector);
  }

  lemma MirrorBlank(g: Geometry, size: nat, image: seq<byte>, shown: nat, sector: nat, d: seq<byte>)
    requires |image| == 512 * size && g.TablesFit(size) && g.AreaBase() <= sector && 512 * sector + |d| <= |image|
    requires Mirrored(g, size, image, false, shown)
    ensures Mirrored(g, size, Splice(image, 512 * sector, d), false, sector)
  {
    var image' := Splice(image, 512 * sector, d);
    MirrorBehind(g, size, image, image', false, shown);
    if g.nFats == 2 {
      assert forall k: nat :: k < 512 * g.fsize && !(false && Covers(g, shown, k)) ==> TwinAt(g, size, image', k);
    }
  }

  lemma BlankShown(image: seq<byte>, sector: nat, n: nat)
    requires 512 * (sector + n) <= |image| && n > 0
    ensures Splice(image, 512 * sector, Blank(512 * n))[512 * sector..512 * (sector + 1)] == Blank(512)
  {
  }

  /** Behind the tables, only the sectors of this cluster have changed, and they are blank. */
  predicate IsCleared(g: Geometry, area: seq<byte>, clst: nat, area': seq<byte>)
    ensures IsCleared(g, area, clst, area') ==> |area'| == |area|
  {
    && g.AreaBase() <= g.database && 2 <= clst
    && 512 * (g.database + g.csize * (clst - 2) - g.AreaBase() + g.csize) <= |area|
    && area' == Splice(area, 512 * (g.database + g.csize * (clst - 2) - g.AreaBase()), Blank(512 * g.csize))
  }

  lemma MakeCleared(g: Geometry, v: seq<byte>, clst: nat, sect: nat)
    requires g.AreaBase() <= g.database <= sect && 2 <= clst && sect == g.database + g.csize * (clst - 2)
    requires 512 * (sect + g.csize) <= |v|
    ensures 512 * sect + |Blank(512 * g.csize)| <= |v|
    ensures IsCleared(g, AreaOf(g, v), clst, AreaOf(g, Splice(v, 512 * sect, Blank(512 * g.csize))))
    ensures TableOf(g, Splice(v, 512 * sect, Blank(512 * g.csize))) == TableOf(g, v)
    ensures BootOf(g, Splice(v, 512 * sect, Blank(512 * g.csize))) == BootOf(g, v)
  {
    hide AreaOf, TableOf, BootOf, Splice, Blank;
    AreaEdited(g, v, sect, 0, Blank(512 * g.csize));
  }
}
