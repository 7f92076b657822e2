/** The file allocation table as bytes and as a plain array of entries. */
module FatTable {
  import opened Bytes

  datatype FatType = FAT12 | FAT16 | FAT32

  /** Number of values an entry can take. */
  function Modulus(t: FatType): nat
  {
    match t
    case FAT12 => 0x1000
    case FAT16 => 0x1_0000
    case FAT32 => 0x1000_0000
  }

  /** Largest number of clusters of a volume of this type. */
  function MaxClusters(t: FatType): nat
  {
    match t
    case FAT12 => 0xFF5
    case FAT16 => 0xFFF5
    case FAT32 => 0x0FFF_FFF5
  }

  /** Size in bytes of a table of `n` entries, as the mount check computes it. */
  function TableBytes(t: FatType, n: nat): nat
  {
    match t
    case FAT12 => n * 3 / 2 + n % 2
    case FAT16 => n * 2
    case FAT32 => n * 4
  }

  /** Offset of the first byte of entry `i`. */
  function Offset(t: FatType, i: nat): nat
  {
    match t
    case FAT12 => i + i / 2
    case FAT16 => i * 2
    case FAT32 => i * 4
  }

  /** Number of bytes entry `i` lies in. */
  function Span(t: FatType): nat
  {
    if t.FAT32? then 4 else 2
  }

  /** Every byte of an entry lies inside a table of the size the mount check demands. */
  lemma EntryInside(t: FatType, n: nat, i: nat)
    requires i < n
    ensures Offset(t, i) + Span(t) <= TableBytes(t, n)
  {
  }

  /** The value of entry `i`, given the bytes it lies in. An even FAT12 entry has the low nibble of
      its second byte, an odd one the high nibble of its first. */
  function Decode(t: FatType, i: nat, d: seq<byte>): (v: nat)
    requires |d| == Span(t)
    ensures v < Modulus(t)
  {
    match t
    case FAT12 => if i % 2 == 1 then LdWord(d, 0) / 16 else LdWord(d, 0) % 0x1000
    case FAT16 => LdWord(d, 0)
    case FAT32 => LdDword(d, 0) % 0x1000_0000
  }

  function Entry(t: FatType, f: seq<byte>, i: nat): (v: nat)
    requires Offset(t, i) + Span(t) <= |f|
    ensures v < Modulus(t)
  {
    Decode(t, i, f[Offset(t, i)..Offset(t, i) + Span(t)])
  }

  /** An entry by the bytes of the table. Two FAT12 entries share three bytes: the even one has the first and the low
      half of the second, the odd one the high half of the second and the third. */
  predicate EntryIs(t: FatType, f: seq<byte>, i: nat, v: nat)
    requires Offset(t, i) + Span(t) <= |f|
  {
    match t
    case FAT12 =>
      if i % 2 == 0 then i / 2 * 3 + 1 < |f| && v == f[i / 2 * 3] as int + 0x100 * (f[i / 2 * 3 + 1] as int % 16)
      else i / 2 * 3 + 2 < |f| && v == f[i / 2 * 3 + 1] as int / 16 + 0x10 * f[i / 2 * 3 + 2] as int
    case FAT16 => v == f[2 * i] as int + 0x100 * f[2 * i + 1] as int
    case FAT32 =>
      v == f[4 * i] as int + 0x100 * f[4 * i + 1] as int + 0x1_0000 * f[4 * i + 2] as int
           + 0x100_0000 * (f[4 * i + 3] as int % 16)
  }

  lemma EntryByBytes(t: FatType, f: seq<byte>, i: nat)
    requires Offset(t, i) + Span(t) <= |f|
    ensures EntryIs(t, f, i, Entry(t, f, i))
  {
    var o := Offset(t, i);
    var d := f[o..o + Span(t)];
    match t
    case FAT12 => assert d[0] == f[o] && d[1] == f[o + 1]; Halves(d[0], d[1]);
    case FAT16 => assert d[0] == f[o] && d[1] == f[o + 1];
    case FAT32 =>
      assert d[0] == f[o] && d[1] == f[o + 1] && d[2] == f[o + 2] && d[3] == f[o + 3];
      TopCut(d[0] as int + 0x100 * d[1] as int + 0x1_0000 * d[2] as int, d[3]);
  }

  lemma Halves(a: byte, b: byte)
    ensures (a as int + 256 * b as int) / 16 == a as int / 16 + 16 * b as int
    ensures (a as int + 256 * b as int) % 0x1000 == a as int + 0x100 * (b as int % 16)
  {
    var q, r := b as int / 16, b as int % 16;
    assert a as int + 256 * b as int == 0x1000 * q + (a as int + 256 * r);
  }

  lemma TopCut(low: nat, b: byte)
    requires low < 0x100_0000
    ensures (low + 0x100_0000 * b as int) % 0x1000_0000 == low + 0x100_0000 * (b as int % 16)
  {
    var q, r := b as int / 16, b as int % 16;
    assert low + 0x100_0000 * b as int == 0x1000_0000 * q + (low + 0x100_0000 * r);
  }

  /** The table as an array of `n` entries. */
  function Entries(t: FatType, f: seq<byte>, n: nat): (r: seq<nat>)
    requires TableBytes(t, n) <= |f|
    ensures |r| == n
  {
    seq(n, i requires 0 <= i < n => EntryInside(t, n, i); Entry(t, f, i))
  }

  /** The four reserved bits at the top of a FAT32 entry. */
  function Reserved(f: seq<byte>, i: nat): nat
    requires i * 4 + 4 <= |f|
  {
    f[i * 4 + 3] / 16
  }

  /** The first or second byte of FAT12 entry `i`, once `v` has been merged into it. */
  function MergedByte(i: nat, v: nat, second: bool, b: byte): byte
  {
    if i % 2 == 1
    then if second then v / 16 % 256 else b % 16 + v % 16 * 16
    else if second then b / 16 * 16 + v / 256 % 16 else v % 256
  }

  /** The bytes `d` entry `i` lies in, once `v` has been merged into them. */
  function Merged(t: FatType, i: nat, d: seq<byte>, v: nat): (r: seq<byte>)
    requires |d| == Span(t)
    ensures |r| == Span(t)
  {
    match t
    case FAT12 => [MergedByte(i, v, false, d[0]), MergedByte(i, v, true, d[1])]
    case FAT16 => WordBytes(v)
    case FAT32 => DwordBytes(v % 0x1000_0000 + LdDword(d, 0) / 0x1000_0000 * 0x1000_0000)
  }

  /** The table after `v` has been stored in entry `i`. */
  function Stored(t: FatType, f: seq<byte>, i: nat, v: nat): (r: seq<byte>)
    requires Offset(t, i) + Span(t) <= |f|
    ensures |r| == |f|
  {
    var o := Offset(t, i);
    Splice(f, o, Merged(t, i, f[o..o + Span(t)], v))
  }

  lemma TopNibble(f: seq<byte>, o: nat)
    requires o + 4 <= |f|
    ensures LdDword(f, o) / 0x1000_0000 == f[o + 3] / 16
  {
    var b0: int, b1: int, b2: int, b3: int := f[o], f[o + 1], f[o + 2], f[o + 3];
    assert LdDword(f, o) == b0 + 256 * b1 + 0x1_0000 * b2 + 0x100_0000 * b3;
  }

  /** An odd entry sits in the high nibble of its first byte and the whole second byte. */
  lemma OddNibbles(low: nat, v: nat)
    requires low < 16
    ensures (low + v % 16 * 16 + 256 * (v / 16 % 256)) / 16 == v % 0x1000
  {
    var q := v / 16;
    assert v == 0x1000 * (q / 256) + (q % 256 * 16 + v % 16);
  }

  /** An even entry sits in the whole first byte and the low nibble of the second. */
  lemma EvenNibbles(high: nat, v: nat)
    requires high < 16
    ensures (v % 256 + 256 * (high * 16 + v / 256 % 16)) % 0x1000 == v % 0x1000
  {
    var q := v / 256;
    assert v == 0x1000 * (q / 16) + (q % 16 * 256 + v % 256);
  }

  lemma TopParts(low: nat, top: nat)
    requires low < 0x1000_0000 && top < 16
    ensures (low + top * 0x1000_0000) % 0x1_0000_0000 == low + top * 0x1000_0000
    ensures (low + top * 0x1000_0000) % 0x1000_0000 == low
    ensures (low + top * 0x1000_0000) / 0x1000_0000 == top
  {
  }

  lemma Merged32(i: nat, d: seq<byte>, v: nat)
    requires |d| == 4
    ensures Decode(FAT32, i, Merged(FAT32, i, d, v)) == v % 0x1000_0000
    ensures Merged(FAT32, i, d, v)[3] / 16 == d[3] / 16
  {
    var r := Merged(FAT32, i, d, v);
    var top := LdDword(d, 0) / 0x1000_0000;
    TopNibble(d, 0);
    StoredDword(r, 0, v % 0x1000_0000 + top * 0x1000_0000);
    TopParts(v % 0x1000_0000, top);
    TopNibble(r, 0);
  }

  /** What was merged in decodes to the value, truncated to the width of an entry. */
  lemma MergedDecodes(t: FatType, i: nat, d: seq<byte>, v: nat)
    requires |d| == Span(t)
    ensures Decode(t, i, Merged(t, i, d, v)) == v % Modulus(t)
  {
    match t
    case FAT12 =>
      if i % 2 == 1 {
        OddNibbles(d[0] % 16, v);
      } else {
        EvenNibbles(d[1] / 16, v);
      }
    case FAT16 => StoredWord(Merged(t, i, d, v), 0, v);
    case FAT32 => Merged32(i, d, v);
  }

  /** The entry stored reads back, and the reserved bits of a FAT32 entry stay. */
  lemma StoredSame(t: FatType, f: seq<byte>, i: nat, v: nat)
    requires Offset(t, i) + Span(t) <= |f|
    ensures Entry(t, Stored(t, f, i, v), i) == v % Modulus(t)
    ensures t.FAT32? ==> Reserved(Stored(t, f, i, v), i) == Reserved(f, i)
  {
    hide Decode, Merged, Modulus, Splice;
    var o := Offset(t, i);
    var d := f[o..o + Span(t)];
    SplicedSlice(f, o, Merged(t, i, d, v));
    MergedDecodes(t, i, d, v);
    if t.FAT32? {
      Merged32(i, d, v);
      assert Stored(t, f, i, v)[o + 3] == Stored(t, f, i, v)[o..o + 4][3];
    }
  }

  lemma HighPart(high: nat, low: nat, low': nat, next: nat)
    requires low < 16 && low' < 16
    ensures (high * 16 + low + 256 * next) / 16 == (high * 16 + low' + 256 * next) / 16
  {
    assert high * 16 + low + 256 * next == 16 * (high + 16 * next) + low;
  }

  lemma LowPart(first: nat, low: nat, high: nat, high': nat)
    ensures (first + 256 * (low + high * 16)) % 0x1000 == (first + 256 * (low + high' * 16)) % 0x1000
  {
    LowTwelve(first + 256 * low, high);
    LowTwelve(first + 256 * low, high');
  }

  lemma LowTwelve(a: nat, h: nat)
    ensures (a + 0x1000 * h) % 0x1000 == a % 0x1000
  {
  }

  /** Entries of 12 bits overlap only with the other one of a pair. */
  lemma Offsets12(i: nat, j: nat)
    requires i != j
    ensures var o, p := Offset(FAT12, i), Offset(FAT12, j);
      if j == i + 1 && i % 2 == 0 then p == o + 1
      else if j + 1 == i && i % 2 == 1 then p + 1 == o
      else o + 2 <= p || p + 2 <= o
  {
  }

  /** Neighbours share a byte, but each keeps its nibble of it. */
  lemma After12(f: seq<byte>, i: nat, v: nat)
    requires i % 2 == 0 && Offset(FAT12, i) + 3 <= |f| && Offset(FAT12, i + 1) == Offset(FAT12, i) + 1
    ensures Entry(FAT12, Stored(FAT12, f, i, v), i + 1) == Entry(FAT12, f, i + 1)
  {
    var o := Offset(FAT12, i);
    var m := Merged(FAT12, i, f[o..o + 2], v);
    var r := Stored(FAT12, f, i, v);
    assert r[o + 1] == m[1] && r[o + 2] == f[o + 2];
    HighPart(f[o + 1] / 16, v / 256 % 16, f[o + 1] % 16, f[o + 2]);
  }

  lemma Before12(f: seq<byte>, i: nat, v: nat)
    requires i % 2 == 1 && Offset(FAT12, i) + 2 <= |f| && Offset(FAT12, i - 1) + 1 == Offset(FAT12, i)
    ensures Entry(FAT12, Stored(FAT12, f, i, v), i - 1) == Entry(FAT12, f, i - 1)
  {
    var o := Offset(FAT12, i);
    var m := Merged(FAT12, i, f[o..o + 2], v);
    var r := Stored(FAT12, f, i, v);
    assert r[o] == m[0] && r[o - 1] == f[o - 1];
    LowPart(f[o - 1], f[o] % 16, v % 16, f[o] / 16);
  }

  lemma Other12(f: seq<byte>, i: nat, v: nat, j: nat)
    requires Offset(FAT12, i) + 2 <= |f| && Offset(FAT12, j) + 2 <= |f|
    requires i != j
    ensures Entry(FAT12, Stored(FAT12, f, i, v), j) == Entry(FAT12, f, j)
  {
    hide Offset, Decode, Merged;
    var p := Offset(FAT12, j);
    Offsets12(i, j);
    if j == i + 1 && i % 2 == 0 {
      After12(f, i, v);
    } else if j + 1 == i && i % 2 == 1 {
      Before12(f, i, v);
    } else {
      assert Stored(FAT12, f, i, v)[p..p + 2] == f[p..p + 2];
    }
  }

  /** Every other entry reads as before, also when it shares a byte with the entry stored. */
  lemma StoredOther(t: FatType, f: seq<byte>, i: nat, v: nat, j: nat)
    requires Offset(t, i) + Span(t) <= |f| && Offset(t, j) + Span(t) <= |f|
    requires i != j
    ensures Entry(t, Stored(t, f, i, v), j) == Entry(t, f, j)
    ensures t.FAT32? ==> Reserved(Stored(t, f, i, v), j) == Reserved(f, j)
  {
    if t.FAT12? {
      Other12(f, i, v, j);
    } else {
      var p := Offset(t, j);
      assert Stored(t, f, i, v)[p..p + Span(t)] == f[p..p + Span(t)];
    }
  }

  /** Storing into the bytes of the table is an update of the array of entries. */
  lemma StoredEntries(t: FatType, f: seq<byte>, n: nat, i: nat, v: nat)
    requires TableBytes(t, n) <= |f| && i < n
    ensures Offset(t, i) + Span(t) <= |f|
    ensures Entries(t, Stored(t, f, i, v), n) == Entries(t, f, n)[i := v % Modulus(t)]
    ensures t.FAT32? ==> forall j :: 0 <= j < n ==> Reserved(Stored(t, f, i, v), j) == Reserved(f, j)
  {
    EntryInside(t, n, i);
    forall j | 0 <= j < n
      ensures Offset(t, j) + Span(t) <= |f|
      ensures Entry(t, Stored(t, f, i, v), j) == if j == i then v % Modulus(t) else Entry(t, f, j)
      ensures t.FAT32? ==> Reserved(Stored(t, f, i, v), j) == Reserved(f, j)
    {
      EntryInside(t, n, j);
      if j == i {
        StoredSame(t, f, i, v);
      } else {
        StoredOther(t, f, i, v, j);
      }
    }
  }

  /** Only the first byte of a FAT12 entry stored: as if another value had been stored. */
  lemma HalfMerged(i: nat, d: seq<byte>, v: nat) returns (w: nat)
    requires |d| == 2
    ensures Merged(FAT12, i, d, w) == [Merged(FAT12, i, d, v)[0], d[1]]
  {
    if i % 2 == 1 {
      w := v % 16 + 16 * d[1] as nat;
      HalfOdd(v % 16, d[1]);
    } else {
      w := v % 256 + 256 * (d[1] as nat % 16);
      HalfEven(v % 256, d[1]);
    }
  }

  lemma HalfOdd(a: nat, b: nat)
    requires a < 16 && b < 256
    ensures (a + 16 * b) % 16 == a && (a + 16 * b) / 16 % 256 == b
  {
  }

  lemma HalfEven(a: nat, b: nat)
    requires a < 256 && b < 256
    ensures (a + 256 * (b % 16)) % 256 == a && (a + 256 * (b % 16)) / 256 % 16 == b % 16
  {
    var c := b % 16;
    assert (a + 256 * c) / 256 == c;
  }

  lemma FirstEntry(t: FatType)
    ensures Offset(t, 0) == 0
  {
  }
}
