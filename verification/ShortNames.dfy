/** Short names that carry a number, generated when a long name does not fit the 8.3 format. */
module ShortNames {
  import opened Bytes
  import opened LongNames

  function HexDigit(n: nat): byte
    requires n < 16
  {
    if n < 10 then 48 + n else 55 + n
  }

  /** A number in hexadecimal digits. */
  function Hex(n: nat): (d: seq<byte>)
    ensures |d| > 0
    ensures forall i :: 0 <= i < |d| ==> 48 <= d[i] <= 70
  {
    if n < 16 then [HexDigit(n)] else Hex(n / 16) + [HexDigit(n % 16)]
  }

  lemma HexLength(n: nat)
    requires n < 0x1_0000
    ensures |Hex(n)| <= 4
  {
    var a := n / 16;
    var b := a / 16;
    var c := b / 16;
    assert |Hex(c)| == 1 && |Hex(b)| <= 2 && |Hex(a)| <= 3;
  }

  /** `s` with the bit of weight `b` inverted. */
  function Flip(s: nat, b: nat): nat
    requires b > 0
  {
    if s / b % 2 == 1 then s - b else s + b
  }

  /** One bit of the checksum over a long name. */
  function CrcBit(sr: nat, b: nat): (r: nat)
    requires sr < 0x1_0000 && b <= 1
    ensures r < 0x1_0000
  {
    var s := 2 * sr + b;
    if s >= 0x1_0000 then Flip(Flip(Flip(Flip(s, 0x1_0000), 0x1000), 0x20), 1) else s
  }

  function CrcBits(sr: nat, wc: nat, n: nat): (r: nat)
    requires sr < 0x1_0000
    ensures r < 0x1_0000
    decreases n
  {
    if n == 0 then sr else CrcBits(CrcBit(sr, wc % 2), wc / 2, n - 1)
  }

  function Crc(sr: nat, name: seq<unit>): (r: nat)
    requires sr < 0x1_0000
    ensures r < 0x1_0000
    decreases name
  {
    if name == [] then sr else Crc(CrcBits(sr, name[0], 16), name[1..])
  }

  /** How much of the body is kept: up to the first space, but no more than leaves room for the number. */
  function Kept(src: seq<byte>, room: nat, j: nat): (k: nat)
    requires j <= room <= |src|
    ensures j <= k <= room
    ensures k < room ==> src[k] == 32
    ensures forall i :: j <= i < k ==> src[i] != 32
    decreases room - j
  {
    if j == room || src[j] == 32 then j else Kept(src, room, j + 1)
  }

  /** The body cut short, a tilde and the number, padded with spaces; the extension stays. */
  function Numbered(src: seq<byte>, digits: seq<byte>): (r: seq<byte>)
    requires |src| == 11 && |digits| <= 7
    ensures |r| == 11
  {
    var k := Kept(src, 7 - |digits|, 0);
    src[..k] + [126] + digits + seq(7 - k - |digits|, _ => 32) + src[8..]
  }

  /** The number used: small ones as they are, larger ones mixed with a checksum of the long name. */
  function Number(name: seq<unit>, n: nat): (v: nat)
    requires n < 0x1_0000
    ensures v < 0x1_0000
  {
    if n > 5 then Crc(n, name) else n
  }

  // The same by characters and bits

  /** The value of a row of digits from "0" to "9" and "A" to "F". */
  function Value(d: seq<byte>): nat
  {
    if d == [] then 0 else 16 * Value(d[..|d| - 1]) + DigitValue(d[|d| - 1])
  }

  function DigitValue(c: byte): nat
  {
    if '0' as int <= c <= '9' as int then c - '0' as int
    else if 'A' as int <= c <= 'F' as int then c - 'A' as int + 10
    else 0
  }

  predicate IsDigit(c: byte)
  {
    '0' as int <= c <= '9' as int || 'A' as int <= c <= 'F' as int
  }

  /** The digits of a number, without leading zeros. */
  predicate Spells(d: seq<byte>, v: nat)
  {
    d != [] && Value(d) == v && (forall i :: 0 <= i < |d| ==> IsDigit(d[i])) && (|d| > 1 ==> d[0] != '0' as int)
  }

  lemma {:induction false} HexSpells(n: nat)
    ensures Spells(Hex(n), n) && (n > 0 ==> Hex(n)[0] != '0' as int)
  {
    if n >= 16 {
      HexSpells(n / 16);
      assert Hex(n)[..|Hex(n)| - 1] == Hex(n / 16) && Hex(n)[0] == Hex(n / 16)[0];
    }
  }

  /** One step of the checksum over a name: the register is shifted by one bit, which comes in from below, and if a bit
      goes out above, bits 12, 5 and 0 are inverted. */
  predicate Shifted(sr: nat, bit: nat, r: nat)
  {
    var s := 2 * sr + bit;
    r == if s < 0x1_0000 then s
         else s - 0x1_0000 + (if s / 0x1000 % 2 == 1 then -0x1000 else 0x1000)
              + (if s / 0x20 % 2 == 1 then -0x20 else 0x20) + (if s % 2 == 1 then -1 else 1)
  }

  lemma CrcShifts(sr: nat, b: nat)
    requires sr < 0x1_0000 && b <= 1
    ensures Shifted(sr, b, CrcBit(sr, b))
  {
    var s := 2 * sr + b;
    if s >= 0x1_0000 {
      assert s / 0x1_0000 == 1;
      var t := s - 0x1_0000;
      Lowered(s);
      var u := Flip(t, 0x1000);
      FlipHigh(t, u - t);
      var w := Flip(u, 0x20);
      assert w % 2 == u % 2;
    }
  }

  lemma Lowered(s: nat)
    requires s >= 0x1_0000
    ensures (s - 0x1_0000) / 0x1000 % 2 == s / 0x1000 % 2
    ensures (s - 0x1_0000) / 0x20 % 2 == s / 0x20 % 2 && (s - 0x1_0000) % 2 == s % 2
  {
    var q, r := s / 0x1000, s % 0x1000;
    assert s - 0x1_0000 == 0x1000 * (q - 16) + r;
    var p, t := s / 0x20, s % 0x20;
    assert s - 0x1_0000 == 0x20 * (p - 0x800) + t;
    SameParity(q, -8);
    SameParity(p, -0x400);
    SameParity(s, -0x8000);
  }

  lemma SameParity(q: int, k: int)
    ensures (q + 2 * k) % 2 == q % 2
  {
  }

  lemma FlipHigh(t: nat, d: int)
    requires d == 0x1000 || d == -0x1000
    ensures (t + d) / 0x20 % 2 == t / 0x20 % 2 && (t + d) % 2 == t % 2
  {
    if d == 0x1000 {
      By32(t, 0x40);
    } else {
      By32(t, -0x40);
    }
  }

  lemma By32(t: int, k: int)
    ensures (t + 64 * k) / 0x20 % 2 == t / 0x20 % 2 && (t + 64 * k) % 2 == t % 2
  {
    var q, r := t / 0x20, t % 0x20;
    assert t + 64 * k == 0x20 * (q + 2 * k) + r;
    assert (t + 64 * k) / 0x20 == q + 2 * k;
    SameParity(q, k);
    SameParity(t, 32 * k);
  }

  /** The weights of the bits of a unit. */
  const POWERS: seq<nat> :=
    [1, 2, 4, 8, 0x10, 0x20, 0x40, 0x80, 0x100, 0x200, 0x400, 0x800, 0x1000, 0x2000, 0x4000, 0x8000]

  lemma Halved(u: nat, i: nat)
    requires i < 16
    ensures i < 15 ==> u / POWERS[i] / 2 == u / POWERS[i + 1]
  {
    if i == 0 {} else if i == 1 {} else if i == 2 {} else if i == 3 {} else if i == 4 {} else if i == 5 {}
    else if i == 6 {} else if i == 7 {} else if i == 8 {} else if i == 9 {} else if i == 10 {} else if i == 11 {}
    else if i == 12 {} else if i == 13 {} else {}
  }

  /** The registers for the 16 bits of a unit, the lowest first. */
  ghost predicate AreRegisters(start: nat, u: nat, regs: seq<nat>)
  {
    && |regs| == 17 && regs[0] == start
    && forall i :: 0 <= i < 16 ==>
      Shifted(regs[i], u / POWERS[i] % 2, regs[i + 1])
  }

  ghost predicate UnitHashed(start: nat, u: nat, sr: nat)
  {
    exists regs :: AreRegisters(start, u, regs) && regs[16] == sr
  }

  /** The registers for the units of a name. */
  ghost predicate AreHashes(n: nat, name: seq<unit>, regs: seq<nat>)
  {
    && |regs| == |name| + 1 && regs[0] == n
    && forall i :: 0 <= i < |name| ==> UnitHashed(regs[i], name[i], regs[i + 1])
  }

  ghost predicate IsHash(n: nat, name: seq<unit>, v: nat)
  {
    exists regs :: AreHashes(n, name, regs) && regs[|name|] == v
  }

  /** The short name `fn` has the number `v`: as much of the body as leaves room, or up to a space, a tilde, the digits,
      and spaces; the extension is the same. */
  ghost predicate HasNumber(src: seq<byte>, v: nat, fn: seq<byte>)
    requires |src| == 11 && |fn| == 11
  {
    exists k: nat, m: nat :: k + 1 + m <= 8 && NumberAt(src, v, fn, k, m)
  }

  ghost predicate NumberAt(src: seq<byte>, v: nat, fn: seq<byte>, k: nat, m: nat)
    requires |src| == 11 && |fn| == 11 && k + 1 + m <= 8
  {
    && fn[..k] == src[..k] && ' ' as int !in src[..k] && (k == 7 - m || src[k] == ' ' as int)
    && fn[k] == '~' as int && Spells(fn[k + 1..k + 1 + m], v)
    && (forall i :: k + 1 + m <= i < 8 ==> fn[i] == ' ' as int) && fn[8..] == src[8..]
  }

  lemma NumberedHas(src: seq<byte>, v: nat)
    requires |src| == 11 && |Hex(v)| <= 7
    ensures HasNumber(src, v, Numbered(src, Hex(v)))
  {
    hide Spells, Hex;
    var d := Hex(v);
    var k := Kept(src, 7 - |d|, 0);
    var fn := Numbered(src, d);
    HexSpells(v);
    assert fn[k + 1..k + 1 + |d|] == d;
    assert NumberAt(src, v, fn, k, |d|);
  }

  /** The checksum over the sixteen bits of one unit. */
  method HashUnit(start: nat, u: unit) returns (sr: nat)
    requires start < 0x1_0000
    ensures sr == CrcBits(start, u, 16) && UnitHashed(start, u, sr)
  {
    hide CrcBit, Shifted;
    ghost var regs := [start];
    sr := start;
    var wc: nat := u;
    var i: nat := 0;
    while i < 16
      invariant i <= 16 && sr < 0x1_0000 && CrcBits(start, u, 16) == CrcBits(sr, wc, 16 - i)
      invariant i < 16 ==> wc == u / POWERS[i]
      invariant |regs| == i + 1 && regs[0] == start && regs[i] == sr
      invariant forall j :: 0 <= j < i ==> Shifted(regs[j], u / POWERS[j] % 2, regs[j + 1])
    {
      CrcShifts(sr, wc % 2);
      sr := CrcBit(sr, wc % 2);
      Halved(u, i);
      wc := wc / 2;
      i := i + 1;
      regs := regs + [sr];
    }
    assert AreRegisters(start, u, regs);
  }

  /** The checksum over the name in the buffer. */
  method HashName(lfn: array<unit>, ghost name: seq<unit>, n: nat) returns (sr: nat)
    requires Holds(lfn[..], name) && n < 0x1_0000
    ensures sr == Crc(n, name) && IsHash(n, name, sr)
  {
    hide Crc, CrcBits, UnitHashed, Holds;
    ghost var regs := [n];
    sr := n;
    var p: nat := 0;
    assert name[0..] == name;
    HeldUnits(lfn[..], name);
    while lfn[p] != 0
      invariant p <= |name| && sr < 0x1_0000 && Crc(n, name) == Crc(sr, name[p..])
      invariant |regs| == p + 1 && regs[0] == n && regs[p] == sr
      invariant forall i :: 0 <= i < p ==> UnitHashed(regs[i], name[i], regs[i + 1])
      decreases |name| - p
    {
      CrcNext(sr, name, p);
      sr := HashUnit(sr, lfn[p]);
      p := p + 1;
      regs := regs + [sr];
    }
    CrcEnds(sr);
    assert name[p..] == [] && AreHashes(n, name, regs);
  }

  lemma HeldUnits(buf: seq<unit>, name: seq<unit>)
    requires Holds(buf, name)
    ensures |name| < |buf| && buf[|name|] == 0 && forall i :: 0 <= i < |name| ==> buf[i] == name[i] && buf[i] != 0
  {
    assert forall i :: 0 <= i < |name| ==> buf[i] == buf[..|name|][i] && name[i] in name;
  }

  lemma CrcNext(sr: nat, name: seq<unit>, p: nat)
    requires sr < 0x1_0000 && p < |name|
    ensures Crc(sr, name[p..]) == Crc(CrcBits(sr, name[p], 16), name[p + 1..])
  {
    hide CrcBits;
    assert name[p..][0] == name[p] && name[p..][1..] == name[p + 1..];
  }

  lemma CrcEnds(sr: nat)
    requires sr < 0x1_0000
    ensures Crc(sr, []) == sr
  {
  }

  lemma HexNext(n: nat)
    ensures Hex(n) == (if n / 16 == 0 then [] else Hex(n / 16)) + [HexDigit(n % 16)]
  {
  }

  /** The digits of a number and the tilde in front of them, at the end of eight places. */
  method Digits(n: nat) returns (ns: array<byte>, i: nat)
    requires n < 0x1_0000
    ensures fresh(ns) && ns.Length == 8 && i == 7 - |Hex(n)| && ns[i..] == [126] + Hex(n)
  {
    hide Hex, HexDigit;
    HexLength(n);
    ns := new byte[8](_ => 0);
    var seq_ := n;
    i := 7;
    ns[i] := HexDigit(seq_ % 16);
    i, seq_ := i - 1, seq_ / 16;
    ghost var done := [ns[7]];
    HexNext(n);
    while seq_ != 0
      invariant i < 7 && ns[i + 1..] == done && |done| == 7 - i
      invariant Hex(n) == if seq_ == 0 then done else Hex(seq_) + done
      invariant |Hex(n)| <= 4
    {
      ghost var rest := ns[i + 1..];
      HexNext(seq_);
      ns[i] := HexDigit(seq_ % 16);
      done := [ns[i]] + done;
      assert ns[i + 1..] == rest;
      i, seq_ := i - 1, seq_ / 16;
    }
    ghost var rest := ns[i + 1..];
    ns[i] := 126;
    assert ns[i + 1..] == rest;
  }

  /** Puts the tilde and the digits behind the first `k` bytes of the body and fills it with spaces. */
  method Append(dst: array<byte>, ns: array<byte>, start: nat, k: nat)
    requires dst.Length == 11 && ns.Length == 8 && k <= start < 8 && dst != ns
    modifies dst
    ensures dst[..] == old(dst[..])[..k] + ns[start..] + seq(start - k, _ => 32) + old(dst[..])[8..]
  {
    var i, j := start, k;
    while j < 8
      invariant k <= j <= 8 && i == (if start + (j - k) < 8 then start + (j - k) else 8)
      invariant forall x :: 0 <= x < 11 && !(k <= x < j) ==> dst[x] == old(dst[x])
      invariant forall x :: k <= x < j ==> dst[x] == if start + (x - k) < 8 then ns[start + (x - k)] else 32
    {
      if i < 8 {
        dst[j] := ns[i];
        i := i + 1;
      } else {
        dst[j] := 32;
      }
      j := j + 1;
    }
  }

  /** gen_numname: the short name with a number in it. */
  method GenNumname(src: seq<byte>, lfn: array<unit>, ghost name: seq<unit>, n: nat) returns (fn: seq<byte>)
    requires |src| == 11 && Holds(lfn[..], name) && n < 0x1_0000
    ensures |Hex(Number(name, n))| <= 4
    ensures fn == Numbered(src, Hex(Number(name, n)))
    ensures |fn| == 11 && HasNumber(src, Number(name, n), fn)
    ensures if n > 5 then IsHash(n, name, Number(name, n)) else Number(name, n) == n
  {
    hide *;
    var v := n;
    if n > 5 {
      v := HashName(lfn, name, n);
    }
    IsNumber(name, n);
    HexLength(v);
    var ns, i := Digits(v);
    var dst := new byte[11](k requires 0 <= k < 11 => src[k]);
    assert dst[..] == src;
    var j := KeepBody(dst, i);
    NumberedPieces(src, Hex(v));
    Append(dst, ns, i, j);
    fn := dst[..];
    NumberedHas(src, v);
  }

  lemma IsNumber(name: seq<unit>, n: nat)
    requires n < 0x1_0000
    ensures Number(name, n) == if n > 5 then Crc(n, name) else n
  {
  }

  method KeepBody(dst: array<byte>, i: nat) returns (j: nat)
    requires i <= dst.Length
    ensures j == Kept(dst[..], i, 0)
  {
    j := 0;
    while j < i && dst[j] != 32
      invariant j <= i && Kept(dst[..], i, j) == Kept(dst[..], i, 0)
    {
      j := j + 1;
    }
  }

  lemma NumberedPieces(src: seq<byte>, digits: seq<byte>)
    requires |src| == 11 && |digits| <= 7
    ensures var k := Kept(src, 7 - |digits|, 0);
      Numbered(src, digits) == src[..k] + ([126] + digits) + seq(7 - |digits| - k, _ => 32) + src[8..]
  {
  }

  /** The first byte of a numbered name is the one it had, or the tilde. */
  lemma NumberedFirst(src: seq<byte>, digits: seq<byte>)
    requires |src| == 11 && |digits| <= 7
    ensures Numbered(src, digits)[0] == src[0] || Numbered(src, digits)[0] == 126
    ensures Numbered(src, digits)[8..] == src[8..]
  {
  }
}
