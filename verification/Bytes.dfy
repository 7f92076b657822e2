/** Bytes, little-endian words and in-place splices of byte sequences. */
module Bytes {

  type byte = b: int | 0 <= b < 256

  const MAX32: nat := 0xFFFF_FFFF

  /** Unsigned 32-bit subtraction, which wraps around. */
  function Sub32(a: int, b: int): int
  {
    (a - b) % 0x1_0000_0000
  }

  /** `s` with the bytes from `at` on overwritten by `d`. */
  function Splice(s: seq<byte>, at: nat, d: seq<byte>): (r: seq<byte>)
    requires at + |d| <= |s|
    ensures |r| == |s|
  {
    seq(|s|, i requires 0 <= i < |s| => if at <= i < at + |d| then d[i - at] else s[i])
  }

  function Blank(n: nat): (z: seq<byte>)
    ensures |z| == n
  {
    seq(n, _ => 0)
  }

  lemma SubSlice<T>(s: seq<T>, a: nat, b: nat, r: nat, n: nat)
    requires a + r + n <= b <= |s|
    ensures s[a..b][r..r + n] == s[a + r..a + r + n]
  {
    var t := s[a..b];
    var x, y := t[r..r + n], s[a + r..a + r + n];
    assert forall i :: 0 <= i < n ==> x[i] == t[r + i] == y[i];
  }

  lemma SliceAppend(s: seq<byte>, a: nat, b: nat, c: nat)
    requires a <= b <= c <= |s|
    ensures s[a..b] + s[b..c] == s[a..c]
  {
  }

  lemma SplicedSlice(s: seq<byte>, at: nat, d: seq<byte>)
    requires at + |d| <= |s|
    ensures Splice(s, at, d)[at..at + |d|] == d
  {
  }

  /** Overwriting part of what was just spliced in. */
  lemma SpliceTwice(s: seq<byte>, at: nat, d: seq<byte>, o: nat, e: seq<byte>)
    requires at + |d| <= |s| && o + |e| <= |d|
    ensures Splice(Splice(s, at, d), at + o, e) == Splice(s, at, Splice(d, o, e))
  {
  }

  /** A slice of a splice, when the bytes spliced in lie inside or outside it. */
  lemma SliceOfSplice(s: seq<byte>, at: nat, d: seq<byte>, lo: nat, hi: nat)
    requires at + |d| <= |s| && lo <= hi <= |s|
    ensures lo <= at && at + |d| <= hi ==> Splice(s, at, d)[lo..hi] == Splice(s[lo..hi], at - lo, d)
    ensures at + |d| <= lo || hi <= at ==> Splice(s, at, d)[lo..hi] == s[lo..hi]
  {
  }

  lemma WholeBuffer(s: seq<byte>, at: nat, d: seq<byte>)
    requires at == 0 && |d| == |s|
    ensures Splice(s, at, d) == d
  {
  }

  /** Splicing one piece behind the other. */
  lemma SpliceAppend(s: seq<byte>, at: nat, a: seq<byte>, b: seq<byte>)
    requires at + |a| + |b| <= |s|
    ensures Splice(Splice(s, at, a), at + |a|, b) == Splice(s, at, a + b)
  {
  }

  lemma Splice0(s: seq<byte>)
    ensures Splice(s, 0, []) == s
  {
  }

  function LdWord(s: seq<byte>, at: nat): nat
    requires at + 2 <= |s|
  {
    s[at] as int + 256 * (s[at + 1] as int)
  }

  function LdDword(s: seq<byte>, at: nat): nat
    requires at + 4 <= |s|
  {
    LdWord(s, at) + 0x1_0000 * LdWord(s, at + 2)
  }

  function WordBytes(v: nat): (r: seq<byte>)
    ensures |r| == 2
  {
    [v % 256, v / 256 % 256]
  }

  function DwordBytes(v: nat): (r: seq<byte>)
    ensures |r| == 4
  {
    WordBytes(v) + WordBytes(v / 256 / 256)
  }

  /** Loading what was stored gives the value truncated to the width of the word. */
  lemma StoredWord(s: seq<byte>, at: nat, v: nat)
    requires at + 2 <= |s| && s[at..at + 2] == WordBytes(v)
    ensures LdWord(s, at) == v % 0x1_0000
  {
    assert s[at] == s[at..at + 2][0] && s[at + 1] == s[at..at + 2][1];
    LowWord(v);
  }

  lemma LowWord(v: nat)
    ensures v % 256 + 256 * (v / 256 % 256) == v % 0x1_0000
  {
    var q := v / 256;
    assert v == 256 * q + v % 256 && q == 256 * (q / 256) + q % 256;
    assert v == 0x1_0000 * (q / 256) + (256 * (q % 256) + v % 256);
  }

  lemma SplitDword(v: nat)
    ensures v % 0x1_0000_0000 == v % 0x1_0000 + 0x1_0000 * (v / 256 / 256 % 0x1_0000)
  {
    var hi, lo := v / 256 / 256, v % 0x1_0000;
    assert v == 0x1_0000 * hi + lo;
    HighHalf(hi, lo);
  }

  lemma HighHalf(hi: nat, lo: nat)
    requires lo < 0x1_0000
    ensures (0x1_0000 * hi + lo) % 0x1_0000_0000 == 0x1_0000 * (hi % 0x1_0000) + lo
  {
    var q := hi / 0x1_0000;
    assert 0x1_0000 * hi + lo == 0x1_0000_0000 * q + (0x1_0000 * (hi % 0x1_0000) + lo);
  }

  lemma StoredDword(s: seq<byte>, at: nat, v: nat)
    requires at + 4 <= |s| && s[at..at + 4] == DwordBytes(v)
    ensures LdDword(s, at) == v % 0x1_0000_0000
  {
    var hi := v / 256 / 256;
    assert s[at..at + 2] == s[at..at + 4][..2] == WordBytes(v);
    assert s[at + 2..at + 4] == s[at..at + 4][2..] == WordBytes(hi);
    StoredWord(s, at, v);
    StoredWord(s, at + 2, hi);
    SplitDword(v);
  }

  lemma BlankIs(s: seq<byte>)
    requires forall i :: 0 <= i < |s| ==> s[i] == 0
    ensures s == Blank(|s|)
  {
  }

  lemma NoBlank(s: seq<byte>, at: nat)
    requires at <= |s|
    ensures Splice(s, at, Blank(0)) == s
  {
  }

  /** One blank piece behind the other. */
  lemma MoreBlank(s: seq<byte>, at: nat, a: nat, b: nat)
    requires at + a + b <= |s|
    ensures Splice(Splice(s, at, Blank(a)), at + a, Blank(b)) == Splice(s, at, Blank(a + b))
  {
  }

  lemma Multiple(c: nat, i: nat, n: nat)
    requires c * i < c * n
    ensures i < n && c * (i + 1) == c * i + c <= c * n
  {
    if i >= n {
      Monotone(c, n, i);
    } else {
      Monotone(c, i + 1, n);
    }
  }

  lemma Monotone(c: nat, a: nat, b: nat)
    requires a <= b
    ensures c * a <= c * b
  {
  }
}
