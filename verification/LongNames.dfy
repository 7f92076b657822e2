/** Long file names: split over 32-byte directory entries of 13 units each, read back, and compared. */
module LongNames {
  import opened Bytes
  import opened Optional

  type unit = u: int | 0 <= u < 0x1_0000

  /** Longest name the working buffer holds; the buffer has one more place for the terminator. */
  const MAX_LFN: nat := 255

  /** Where the units of an entry lie. */
  function UnitOffset(s: nat): nat
    requires s < 13
  {
    if s < 5 then 1 + 2 * s else if s < 11 then 4 + 2 * s else 6 + 2 * s
  }

  /** Unit `s` as it lies on the disk: a little-endian word at one of 13 places. */
  function UnitAt(e: seq<byte>, s: nat): (u: unit)
    requires |e| == 32 && s < 13
  {
    var o := [1, 3, 5, 7, 9, 14, 16, 18, 20, 22, 24, 28, 30][s];
    e[o] as int + 256 * e[o + 1] as int
  }

  function Units(e: seq<byte>): (r: seq<unit>)
    requires |e| == 32
    ensures |r| == 13 && forall s :: 0 <= s < 13 ==> r[s] == UnitAt(e, s)
  {
    seq(13, s requires 0 <= s < 13 => LdWord(e, UnitOffset(s)))
  }

  predicate IsLast(ord: byte)
  {
    ord / 64 % 2 == 1
  }

  /** How many units count: up to the first zero, which is included. */
  function Kept(u: seq<unit>, s: nat): (k: nat)
    requires s <= |u|
    ensures s <= k <= |u|
    ensures forall t :: s <= t < k - 1 ==> u[t] != 0
    ensures k < |u| ==> k > s && u[k - 1] == 0
    decreases |u| - s
  {
    if s == |u| then s else if u[s] == 0 then s + 1 else Kept(u, s + 1)
  }

  predicate Filled(u: seq<unit>, k: nat)
    ensures Filled(u, k) <==> forall t :: k <= t < |u| ==> u[t] == 0xFFFF
  {
    forall t :: k <= t < |u| ==> u[t] == 0xFFFF
  }

  /** The buffer holds this name. */
  ghost predicate Holds(buf: seq<unit>, name: seq<unit>)
  {
    |name| < |buf| && buf[..|name|] == name && buf[|name|] == 0 && 0 !in name
  }

  /** Unit `i` of a name, its terminator and the filling behind. */
  function NameUnit(name: seq<unit>, i: nat): unit
  {
    if i < |name| then name[i] else if i == |name| then 0 else 0xFFFF
  }

  function PartCount(name: seq<unit>): nat
  {
    (|name| + 12) / 13
  }

  /** `e` is part `ord` of `name`: its units, its number and, on the last part only, the flag. */
  ghost predicate IsPart(e: seq<byte>, name: seq<unit>, ord: nat, sum: byte)
    ensures IsPart(e, name, ord, sum) ==> |e| == 32
  {
    && |e| == 32 && 1 <= ord < 64
    && e[0] as int == ord + (if 13 * ord >= |name| then 64 else 0)
    && e[11] == 0x0F && e[12] == 0 && e[13] == sum && e[26] == 0 && e[27] == 0
    && forall s :: 0 <= s < 13 ==> Units(e)[s] == NameUnit(name, 13 * (ord - 1) + s)
  }

  /** The 32 bytes of part `ord` of a name: its number, with bit 6 set on the last part, the attributes 0x0F, the
      checksum, and 13 units of the name, a zero behind its end and 0xFFFF behind that. */
  ghost predicate PartBytes(e: seq<byte>, name: seq<unit>, ord: nat, sum: byte)
  {
    && |e| == 32 && e[0] as int == (if 13 * ord < |name| then ord else ord + 0x40)
    && e[11] == 0x0F && e[12] == 0 && e[13] == sum && e[26] == 0 && e[27] == 0
    && forall s :: 0 <= s < 13 && ord > 0 ==>
      var i := 13 * ord - 13 + s;
      UnitAt(e, s) == if i < |name| then name[i] else if i == |name| then 0 else 0xFFFF
  }

  // Writing a part

  /** The word at `at` holds `v`. */
  ghost predicate WordAt(dir: array<byte>, at: nat, v: unit)
    requires at + 2 <= dir.Length
    reads dir
  {
    dir[at] as int + 256 * dir[at + 1] as int == v
  }

  method StoreWord(dir: array<byte>, at: nat, v: unit)
    requires at + 2 <= dir.Length
    modifies dir
    ensures WordAt(dir, at, v)
    ensures forall i :: 0 <= i < dir.Length && !(at <= i < at + 2) ==> dir[i] == old(dir[i])
  {
    dir[at] := v % 256;
    dir[at + 1] := v / 256 % 256;
  }

  /** Stores the 13 units from unit `start` of the name on; `ended` says whether the terminator was among them. */
  method PutUnits(lfn: array<unit>, ghost name: seq<unit>, dir: array<byte>, at: nat, start: nat)
    returns (i: nat, wc: unit)
    requires Holds(lfn[..], name) && 0xFFFF !in name && start < |name| && at + 32 <= dir.Length
    modifies dir
    ensures forall s :: 0 <= s < 13 ==> WordAt(dir, at + UnitOffset(s), NameUnit(name, start + s))
    ensures forall j :: 0 <= j < dir.Length && (j < at || j >= at + 32 || j - at in {0, 11, 12, 13, 26, 27}) ==>
      dir[j] == old(dir[j])
    ensures wc == 0xFFFF <==> start + 13 > |name|
    ensures wc != 0xFFFF ==> i == start + 13
  {
    i := start;
    var s: nat;
    s, wc := 0, 0;
    while s < 13
      invariant s <= 13
      invariant wc == 0xFFFF <==> start + s > |name|
      invariant wc != 0xFFFF ==> i == start + s
      invariant forall t :: 0 <= t < s ==> WordAt(dir, at + UnitOffset(t), NameUnit(name, start + t))
      invariant forall j :: 0 <= j < dir.Length && (j < at || j >= at + 32 || j - at in {0, 11, 12, 13, 26, 27}) ==>
        dir[j] == old(dir[j])
    {
      if wc != 0xFFFF {
        assert i < |name| ==> lfn[i] == lfn[..][..|name|][i] == name[i] && name[i] in name;
        wc := lfn[i];
        i := i + 1;
      }
      StoreWord(dir, at + UnitOffset(s), wc);
      if wc == 0 {
        wc := 0xFFFF;
      }
      s := s + 1;
    }
  }

  /** put_lfn: the entry becomes part `ord` of the name. */
  method PutLfn(lfn: array<unit>, ghost name: seq<unit>, dir: array<byte>, at: nat, ord: byte, sum: byte)
    requires Holds(lfn[..], name) && 0xFFFF !in name && at + 32 <= dir.Length
    requires 1 <= ord < 64 && 13 * (ord - 1) < |name|
    modifies dir
    ensures IsPart(dir[at..at + 32], name, ord, sum) && PartBytes(dir[at..at + 32], name, ord, sum)
    ensures forall j :: 0 <= j < dir.Length && !(at <= j < at + 32) ==> dir[j] == old(dir[j])
  {
    dir[at + 13] := sum;
    dir[at + 11] := 0x0F;
    dir[at + 12] := 0;
    StoreWord(dir, at + 26, 0);
    var i, wc := PutUnits(lfn, name, dir, at, 13 * (ord - 1));
    var o := ord;
    if wc == 0xFFFF || lfn[i] == 0 {
      o := ord + 64;
    }
    dir[at] := o;
    PartStored(dir, at, name, ord, sum);
    PartLies(dir[at..at + 32], name, ord, sum);
  }

  lemma PartLies(e: seq<byte>, name: seq<unit>, ord: nat, sum: byte)
    requires IsPart(e, name, ord, sum)
    ensures PartBytes(e, name, ord, sum)
  {
    hide UnitAt;
    forall s | 0 <= s < 13
      ensures UnitAt(e, s) == NameUnit(name, 13 * (ord - 1) + s)
    {
      assert Units(e)[s] == NameUnit(name, 13 * (ord - 1) + s);
    }
  }

  lemma PartStored(dir: array<byte>, at: nat, name: seq<unit>, ord: byte, sum: byte)
    requires at + 32 <= dir.Length && 1 <= ord < 64
    requires dir[at] as int == ord + (if 13 * ord >= |name| then 64 else 0)
    requires dir[at + 11] == 0x0F && dir[at + 12] == 0 && dir[at + 13] == sum && dir[at + 26] == 0 && dir[at + 27] == 0
    requires forall s :: 0 <= s < 13 ==> WordAt(dir, at + UnitOffset(s), NameUnit(name, 13 * (ord - 1) + s))
    ensures IsPart(dir[at..at + 32], name, ord, sum)
  {
    var e := dir[at..at + 32];
    forall s | 0 <= s < 13
      ensures Units(e)[s] == NameUnit(name, 13 * (ord - 1) + s)
    {
      assert WordAt(dir, at + UnitOffset(s), NameUnit(name, 13 * (ord - 1) + s));
    }
  }

  // Reading a part back

  /** Index in the buffer of the first unit of a part; number 0 wraps below zero and is out of range. */
  function PartStart(ord: nat): nat
  {
    Sub32(13 * ord, 13)
  }

  /** The number of a part as it is read back: the flag for the last one is taken away. */
  function PartNumber(ord: byte): nat
  {
    if IsLast(ord) then ord - 64 else ord
  }

  /** The buffer after reading a part into it; none when the entry is not one that can be read. */
  function Picked(buf: seq<unit>, e: seq<byte>): (r: Option<seq<unit>>)
    requires |buf| == MAX_LFN + 1 && |e| == 32
    ensures r.Some? ==> |r.value| == |buf|
  {
    var u := Units(e);
    var k := Kept(u, 0);
    var i := PartStart(PartNumber(e[0]));
    if LdWord(e, 26) != 0 || i + k > MAX_LFN || !Filled(u, k) || (IsLast(e[0]) && i + k == MAX_LFN) then None
    else
      var b := buf[..i] + u[..k] + buf[i + k..];
      Some(if IsLast(e[0]) then b[i + k := 0] else b)
  }

  /** Unit `s` of the entry lies behind a zero. */
  ghost predicate Behind(e: seq<byte>, s: nat)
    requires |e| == 32 && s <= 13
  {
    exists t :: 0 <= t < s && UnitAt(e, t) == 0
  }

  /** Every unit of the entry up to the first zero has a place in a buffer of 255 units if the first has place `i`, and
      all behind it are filling. */
  ghost predicate Legible(e: seq<byte>, i: int)
    requires |e| == 32
    ensures Legible(e, i) ==> 0 <= i
  {
    e[26] == 0 && e[27] == 0 && 0 <= i && forall s :: 0 <= s < 13 ==>
      if Behind(e, s) then UnitAt(e, s) == 0xFFFF else i + s < 255
  }

  /** Bit 6 of the first byte is set. */
  predicate LastPart(e: seq<byte>)
    requires |e| == 32
  {
    0x40 <= e[0] < 0x80 || 0xC0 <= e[0]
  }

  /** The place in a name of the first unit of the entry: 13 times its number, from 1 on, which is the first byte
      without bit 6. */
  function FirstUnit(e: seq<byte>): int
    requires |e| == 32
  {
    13 * ((if LastPart(e) then e[0] as int - 0x40 else e[0] as int) - 1)
  }

  /** There is room for a zero behind the units of an entry whose first has place `i`. */
  ghost predicate LastEnds(e: seq<byte>, i: int)
    requires |e| == 32
  {
    forall s :: 0 <= s < 13 && !Behind(e, s) ==> i + s + 1 < 255
  }

  /** What reading a part does to the buffer: its units up to the first zero are put to their places, and behind the
      last part comes a zero. */
  ghost predicate IsRead(buf: seq<unit>, e: seq<byte>, r: seq<unit>)
    requires |buf| == |r| == 256 && |e| == 32
  {
    forall j :: 0 <= j < 256 ==>
      var s := j - FirstUnit(e);
      r[j] == if 0 <= s < 13 && !Behind(e, s) then UnitAt(e, s)
              else if LastPart(e) && 0 < s <= 13 && !Behind(e, s - 1) then 0
              else buf[j]
  }

  lemma BehindIs(e: seq<byte>, s: nat)
    requires |e| == 32 && s < 13
    ensures Behind(e, s) <==> s >= Kept(Units(e), 0)
  {
    hide UnitAt;
    var u := Units(e);
    var k := Kept(u, 0);
    if s >= k {
      assert UnitAt(e, k - 1) == u[k - 1] == 0;
    }
    assert forall t :: 0 <= t < s ==> UnitAt(e, t) == u[t];
  }

  lemma LegibleIs(e: seq<byte>, i: nat)
    requires |e| == 32
    ensures var u := Units(e); var k := Kept(u, 0);
      Legible(e, i) <==> LdWord(e, 26) == 0 && i + k <= MAX_LFN && Filled(u, k)
  {
    hide UnitAt, Behind;
    var u := Units(e);
    var k := Kept(u, 0);
    forall s | 0 <= s < 13
      ensures UnitAt(e, s) == u[s] && (Behind(e, s) <==> s >= k)
    {
      BehindIs(e, s);
    }
    assert k > 0 && !Behind(e, k - 1);
    assert forall s :: 0 <= s < k ==> !Behind(e, s);
  }

  lemma StartIs(e: seq<byte>)
    requires |e| == 32
    ensures IsLast(e[0]) <==> LastPart(e)
    ensures PartStart(PartNumber(e[0])) == if FirstUnit(e) < 0 then FirstUnit(e) + 0x1_0000_0000 else FirstUnit(e)
    ensures FirstUnit(e) < 0 ==> FirstUnit(e) == -13
  {
  }

  lemma LastEndsIs(e: seq<byte>, i: nat)
    requires |e| == 32 && i + Kept(Units(e), 0) <= MAX_LFN
    ensures LastEnds(e, i) <==> i + Kept(Units(e), 0) < MAX_LFN
  {
    hide UnitAt, Behind;
    var k := Kept(Units(e), 0);
    forall s | 0 <= s < 13
      ensures Behind(e, s) <==> s >= k
    {
      BehindIs(e, s);
    }
    assert k > 0 && !Behind(e, k - 1);
  }

  lemma PickedIs(buf: seq<unit>, e: seq<byte>)
    requires |buf| == MAX_LFN + 1 && |e| == 32
    ensures Picked(buf, e).Some? <==> Legible(e, FirstUnit(e)) && (LastPart(e) ==> LastEnds(e, FirstUnit(e)))
    ensures Picked(buf, e).Some? ==> IsRead(buf, e, Picked(buf, e).value)
  {
    hide IsLast, PartNumber, PartStart, LastPart, FirstUnit, Legible, LastEnds, UnitAt, Behind, Kept, Filled, LdWord,
      IsRead;
    StartIs(e);
    var u := Units(e);
    var k, i := Kept(u, 0), FirstUnit(e);
    if i >= 0 {
      LegibleIs(e, i);
      if i + k <= MAX_LFN {
        LastEndsIs(e, i);
      }
      forall s | 0 <= s < 13
        ensures UnitAt(e, s) == u[s] && (Behind(e, s) <==> s >= k)
      {
        BehindIs(e, s);
      }
      KeptStep(u, 0);
      if Picked(buf, e).Some? {
        PlacesRead(buf, e, i, k);
      }
    }
  }

  lemma PlacesRead(buf: seq<unit>, e: seq<byte>, i: nat, k: nat)
    requires |buf| == 256 && |e| == 32 && 0 < k <= 13 && i == FirstUnit(e) && i + k <= 255
    requires forall s :: 0 <= s < 13 ==> (Behind(e, s) <==> s >= k)
    ensures var b := buf[..i] + Units(e)[..k] + buf[i + k..];
      IsRead(buf, e, if LastPart(e) then b[i + k := 0] else b)
  {
    hide UnitAt, Behind, FirstUnit, LastPart;
  }

  /** Copies the units of an entry to the buffer from `start` on. */
  method PickUnits(buf: array<unit>, e: seq<byte>, start: nat) returns (ok: bool, i: nat)
    requires buf.Length == MAX_LFN + 1 && |e| == 32
    modifies buf
    ensures ok <==> start + Kept(Units(e), 0) <= MAX_LFN && Filled(Units(e), Kept(Units(e), 0))
    ensures ok ==> i == start + Kept(Units(e), 0)
    ensures ok ==>
      forall j :: 0 <= j < buf.Length ==> buf[j] == if start <= j < i then Units(e)[j - start] else old(buf[j])
  {
    hide *;
    ghost var u := Units(e);
    ghost var k := Kept(u, 0);
    KeptStep(u, 0);
    i := start;
    var wc: unit := 1;
    var s: nat := 0;
    while s < 13
      invariant s <= 13
      invariant wc != 0 ==> Kept(u, s) == k && i == start + s
      invariant wc == 0 ==> k <= s && i == start + k
      invariant s > 0 ==> i <= MAX_LFN
      invariant forall j :: 0 <= j < buf.Length ==> buf[j] == if start <= j < i then u[j - start] else old(buf[j])
      invariant forall t :: k <= t < s ==> u[t] == 0xFFFF
    {
      KeptStep(u, s);
      UnitHere(e, s);
      var uc := LdWord(e, UnitOffset(s));
      if wc != 0 {
        if i >= MAX_LFN {
          return false, i;
        }
        wc := uc;
        buf[i] := uc;
        i := i + 1;
      } else {
        if uc != 0xFFFF {
          return false, i;
        }
      }
      s := s + 1;
    }
    return true, i;
  }

  lemma UnitHere(e: seq<byte>, s: nat)
    requires |e| == 32 && s < 13
    ensures UnitOffset(s) + 2 <= 32 && LdWord(e, UnitOffset(s)) == Units(e)[s]
  {
  }

  lemma KeptStep(u: seq<unit>, s: nat)
    requires s < |u|
    ensures Kept(u, s) == if u[s] == 0 then s + 1 else Kept(u, s + 1)
    ensures Kept(u, |u|) == |u|
  {
  }

  /** pick_lfn: reads a part into the buffer, or rejects the entry. */
  method PickLfn(buf: array<unit>, e: seq<byte>) returns (ok: bool)
    requires buf.Length == MAX_LFN + 1 && |e| == 32
    modifies buf
    ensures ok == Picked(old(buf[..]), e).Some?
    ensures ok ==> buf[..] == Picked(old(buf[..]), e).value
    ensures ok <==> Legible(e, FirstUnit(e)) && (LastPart(e) ==> LastEnds(e, FirstUnit(e)))
    ensures ok ==> IsRead(old(buf[..]), e, buf[..])
  {
    hide Units, Kept, Filled, IsLast, LdWord, PartStart, PartNumber;
    PickedIs(buf[..], e);
    if LdWord(e, 26) != 0 {
      return false;
    }
    ghost var before, u := buf[..], Units(e);
    var i;
    ok, i := PickUnits(buf, e, PartStart(PartNumber(e[0])));
    assert ok ==> buf[..] == before[..PartStart(PartNumber(e[0]))] + u[..Kept(u, 0)] + before[i..];
    if ok && IsLast(e[0]) {
      if i >= MAX_LFN {
        return false;
      }
      buf[i] := 0;
    }
  }

  /** The part of the name in the buffer that the entry stands for is the same up to case. */
  ghost predicate PartMatches(up: unit -> unit, buf: seq<unit>, e: seq<byte>)
    requires |buf| == MAX_LFN + 1 && |e| == 32
  {
    var u := Units(e);
    var k := Kept(u, 0);
    var i := PartStart(e[0] % 64);
    && LdWord(e, 26) == 0 && i + k <= MAX_LFN && Filled(u, k)
    && (forall s :: 0 <= s < k ==> up(u[s]) == up(buf[i + s]))
    && (IsLast(e[0]) && u[k - 1] != 0 ==> buf[i + k] == 0)
  }

  /** Compares the units of an entry with those in the buffer from `start` on; `wc` is the last one compared. */
  method CmpUnits(up: unit -> unit, buf: array<unit>, e: seq<byte>, start: nat) returns (same: bool, i: nat, wc: unit)
    requires buf.Length == MAX_LFN + 1 && |e| == 32
    ensures same <==>
      && start + Kept(Units(e), 0) <= MAX_LFN && Filled(Units(e), Kept(Units(e), 0))
      && forall t :: 0 <= t < Kept(Units(e), 0) ==> up(Units(e)[t]) == up(buf[start + t])
    ensures same ==> i == start + Kept(Units(e), 0) && 0 < Kept(Units(e), 0) && wc == Units(e)[Kept(Units(e), 0) - 1]
  {
    hide *;
    ghost var u := Units(e);
    ghost var k := Kept(u, 0);
    KeptStep(u, 0);
    i := start;
    wc := 1;
    var s: nat := 0;
    while s < 13
      invariant s <= 13
      invariant wc != 0 ==> Kept(u, s) == k && i == start + s
      invariant wc == 0 ==> k <= s && i == start + k
      invariant s > 0 ==> i <= MAX_LFN && 0 < k && wc == if s <= k then u[s - 1] else u[k - 1]
      invariant forall t :: 0 <= t < i - start ==> up(u[t]) == up(buf[start + t])
      invariant forall t :: k <= t < s ==> u[t] == 0xFFFF
    {
      KeptStep(u, s);
      UnitHere(e, s);
      var uc := LdWord(e, UnitOffset(s));
      if wc != 0 {
        if i >= MAX_LFN || up(uc) != up(buf[i]) {
          return false, i, wc;
        }
        i := i + 1;
        wc := uc;
      } else {
        if uc != 0xFFFF {
          return false, i, wc;
        }
      }
      s := s + 1;
    }
    return true, i, wc;
  }

  /** The units of an entry up to the first zero are those of the buffer, up to case, from the place on that the lowest
      six bits of its number give, and if the last part has no zero, the buffer has one behind it. */
  ghost predicate ReadsAs(up: unit -> unit, buf: seq<unit>, e: seq<byte>)
    requires |buf| == 256 && |e| == 32
  {
    var i := 13 * (e[0] as int % 64) - 13;
    && Legible(e, i)
    && (forall s :: 0 <= s < 13 && !Behind(e, s) ==> up(UnitAt(e, s)) == up(buf[i + s]))
    && (LastPart(e) && !Behind(e, 13) ==> !Behind(e, 12) && buf[i + 13] == 0)
  }

  lemma MatchesIs(up: unit -> unit, buf: seq<unit>, e: seq<byte>)
    requires |buf| == MAX_LFN + 1 && |e| == 32
    ensures PartMatches(up, buf, e) <==> ReadsAs(up, buf, e)
  {
    hide PartStart, Legible, LastPart, UnitAt, Behind, Filled, LdWord;
    var u := Units(e);
    var k, i := Kept(u, 0), 13 * (e[0] as int % 64) - 13;
    StartIs(e);
    PlaceOf(e[0] % 64);
    if i >= 0 {
      LegibleIs(e, i);
      forall s | 0 <= s < 13
        ensures UnitAt(e, s) == u[s] && (Behind(e, s) <==> s >= k)
      {
        BehindIs(e, s);
      }
      AllBehind(e);
    }
  }

  lemma PlaceOf(n: nat)
    requires n < 64
    ensures PartStart(n) == if n == 0 then 0xFFFF_FFF3 else 13 * n - 13
  {
  }

  lemma AllBehind(e: seq<byte>)
    requires |e| == 32
    ensures !Behind(e, 13) <==> Kept(Units(e), 0) == 13 && Units(e)[12] != 0
    ensures !Behind(e, 13) ==> !Behind(e, 12)
  {
    hide UnitAt;
    var u := Units(e);
    var k := Kept(u, 0);
    assert forall t :: 0 <= t < 13 ==> UnitAt(e, t) == u[t];
    assert k < 13 ==> UnitAt(e, k - 1) == 0;
  }

  /** cmp_lfn: compares a part with the name in the buffer. */
  method CmpLfn(up: unit -> unit, buf: array<unit>, e: seq<byte>) returns (same: bool)
    requires buf.Length == MAX_LFN + 1 && |e| == 32
    ensures same == PartMatches(up, buf[..], e) && same == ReadsAs(up, buf[..], e)
  {
    hide ReadsAs, Units, Kept, Filled, IsLast, PartStart;
    MatchesIs(up, buf[..], e);
    if LdWord(e, 26) != 0 {
      return false;
    }
    var i, wc;
    same, i, wc := CmpUnits(up, buf, e, PartStart(e[0] % 64));
    if same && IsLast(e[0]) && wc != 0 && buf[i] != 0 {
      return false;
    }
  }

  // The parts of a name together

  /** The first `|es|` parts of a name, in descending order. */
  ghost predicate AreParts(es: seq<seq<byte>>, name: seq<unit>, sum: byte)
    ensures AreParts(es, name, sum) ==> forall j :: 0 <= j < |es| ==> |es[j]| == 32
  {
    forall j :: 0 <= j < |es| ==> IsPart(es[j], name, |es| - j, sum)
  }

  lemma OtherParts(es: seq<seq<byte>>, name: seq<unit>, sum: byte)
    requires AreParts(es, name, sum) && es != []
    ensures IsPart(es[0], name, |es|, sum) && AreParts(es[1..], name, sum)
  {
    var rest := es[1..];
    forall j | 0 <= j < |rest|
      ensures IsPart(rest[j], name, |rest| - j, sum)
    {
      assert rest[j] == es[j + 1];
    }
  }

  /** The long-name entries of a name as they are stored, the last part first. */
  ghost predicate IsLfnBlock(es: seq<seq<byte>>, name: seq<unit>, sum: byte)
    ensures IsLfnBlock(es, name, sum) ==> forall j :: 0 <= j < |es| ==> |es[j]| == 32
  {
    |es| == PartCount(name) && AreParts(es, name, sum)
  }

  predicate ProperName(name: seq<unit>)
  {
    1 <= |name| <= MAX_LFN && 0 !in name && 0xFFFF !in name
  }

  function PickedAll(buf: seq<unit>, es: seq<seq<byte>>): (r: Option<seq<unit>>)
    requires |buf| == MAX_LFN + 1 && forall j :: 0 <= j < |es| ==> |es[j]| == 32
    ensures r.Some? ==> |r.value| == |buf|
    decreases es
  {
    if es == [] then Some(buf)
    else match Picked(buf, es[0])
      case None => None
      case Some(b) => PickedAll(b, es[1..])
  }

  /** What a part looks like to its readers. */
  lemma PartRead(e: seq<byte>, name: seq<unit>, ord: nat, sum: byte)
    requires ProperName(name) && IsPart(e, name, ord, sum) && 13 * (ord - 1) < |name|
    ensures PartNumber(e[0]) == ord == e[0] % 64 && PartStart(ord) == 13 * (ord - 1)
    ensures IsLast(e[0]) <==> 13 * ord >= |name|
    ensures LdWord(e, 26) == 0
    ensures Kept(Units(e), 0) == if 13 * ord > |name| then |name| - 13 * (ord - 1) + 1 else 13
    ensures Filled(Units(e), Kept(Units(e), 0))
  {
    var u := Units(e);
    var k := Kept(u, 0);
    forall s | 0 <= s < 13 && 13 * (ord - 1) + s < |name|
      ensures u[s] != 0
    {
      assert u[s] == NameUnit(name, 13 * (ord - 1) + s) == name[13 * (ord - 1) + s];
      assert u[s] in name;
    }
    if 13 * ord > |name| {
      var z := |name| - 13 * (ord - 1);
      assert u[z] == NameUnit(name, |name|) == 0;
    }
  }

  /** The units of a part that count are a stretch of the name and, in the last part, its terminator. */
  lemma PartUnits(e: seq<byte>, name: seq<unit>, ord: nat, sum: byte)
    requires ProperName(name) && IsPart(e, name, ord, sum) && 13 * (ord - 1) < |name|
    ensures Units(e)[..Kept(Units(e), 0)] == if 13 * ord > |name| then name[13 * (ord - 1)..] + [0]
      else name[13 * (ord - 1)..13 * ord]
  {
    PartRead(e, name, ord, sum);
    assert forall s :: 0 <= s < 13 ==> Units(e)[s] == NameUnit(name, 13 * (ord - 1) + s);
  }

  /** Reading one part stores its stretch of the name. */
  lemma PickPart(buf: seq<unit>, e: seq<byte>, name: seq<unit>, ord: nat, sum: byte)
    requires |buf| == MAX_LFN + 1
    requires ProperName(name) && IsPart(e, name, ord, sum) && 13 * (ord - 1) < |name|
    ensures 13 * ord < |name| ==>
      Picked(buf, e) == Some(buf[..13 * (ord - 1)] + name[13 * (ord - 1)..13 * ord] + buf[13 * ord..])
    ensures 13 * ord >= |name| ==> (Picked(buf, e).Some? <==> |name| <= 253)
    ensures 13 * ord >= |name| && Picked(buf, e).Some? ==>
      && Picked(buf, e).value[13 * (ord - 1)..|name|] == name[13 * (ord - 1)..]
      && Picked(buf, e).value[|name|] == 0
  {
    hide IsPart, PartNumber, PartStart, IsLast, LdWord, Units, Kept, Filled;
    PartRead(e, name, ord, sum);
    PartUnits(e, name, ord, sum);
  }

  /** Reading the remaining parts completes a buffer that already holds the end of the name. */
  lemma {:induction false} PickRest(buf: seq<unit>, es: seq<seq<byte>>, name: seq<unit>, sum: byte)
    requires |buf| == MAX_LFN + 1 && ProperName(name) && 13 * |es| < |name|
    requires AreParts(es, name, sum)
    requires buf[13 * |es|..|name|] == name[13 * |es|..] && buf[|name|] == 0
    ensures PickedAll(buf, es).Some? && Holds(PickedAll(buf, es).value, name)
    decreases es
  {
    hide Picked, IsPart;
    if es == [] {
      assert buf[..|name|] == name;
    } else {
      var n := |es|;
      OtherParts(es, name, sum);
      PickPart(buf, es[0], name, n, sum);
      var b := Picked(buf, es[0]).value;
      var x, y := b[13 * (n - 1)..|name|], name[13 * (n - 1)..];
      forall i | 0 <= i < |x|
        ensures x[i] == y[i]
      {
        if i >= 13 {
          assert b[13 * (n - 1) + i] == buf[13 * (n - 1) + i] == buf[13 * n..|name|][i - 13];
        }
      }
      PickRest(b, es[1..], name, sum);
    }
  }

  /** Reading back all parts of a name restores it with its terminator, exactly when it has at most 253 units. */
  lemma RoundTrip(buf: seq<unit>, es: seq<seq<byte>>, name: seq<unit>, sum: byte)
    requires |buf| == MAX_LFN + 1 && ProperName(name) && IsLfnBlock(es, name, sum)
    ensures forall j :: 0 <= j < |es| ==> (IsLast(es[j][0]) <==> j == 0)
    ensures PickedAll(buf, es).Some? <==> |name| <= 253
    ensures PickedAll(buf, es).Some? ==> Holds(PickedAll(buf, es).value, name)
  {
    hide Picked, IsPart, IsLast;
    var n := |es|;
    forall j | 0 <= j < |es|
      ensures IsLast(es[j][0]) <==> j == 0
    {
      PartRead(es[j], name, n - j, sum);
    }
    PickPart(buf, es[0], name, n, sum);
    if Picked(buf, es[0]).Some? {
      OtherParts(es, name, sum);
      PickRest(Picked(buf, es[0]).value, es[1..], name, sum);
    }
  }

  // Comparing

  /** The same name up to case. */
  ghost predicate SameName(up: unit -> unit, a: seq<unit>, b: seq<unit>)
  {
    |a| == |b| && forall i :: 0 <= i < |a| ==> up(a[i]) == up(b[i])
  }

  /** No unit but zero is the upper case of zero. */
  ghost predicate KeepsZero(up: unit -> unit)
  {
    forall x: unit :: up(x) == up(0) ==> x == 0
  }

  /** Every part of a name of up to 254 units matches a buffer that holds the same name. */
  lemma PartAccepted(up: unit -> unit, buf: seq<unit>, m: seq<unit>, e: seq<byte>, name: seq<unit>, ord: nat, sum: byte)
    requires |buf| == MAX_LFN + 1 && Holds(buf, m) && SameName(up, m, name)
    requires ProperName(name) && IsPart(e, name, ord, sum) && 13 * (ord - 1) < |name|
    ensures PartMatches(up, buf, e) <==> 13 * ord < |name| || |name| <= 254
  {
    PartRead(e, name, ord, sum);
    var u := Units(e);
    var a := 13 * (ord - 1);
    var k := Kept(u, 0);
    forall s | 0 <= s < k && a + s < MAX_LFN
      ensures up(u[s]) == up(buf[a + s])
    {
      assert u[s] == NameUnit(name, a + s);
      if a + s < |name| {
        assert buf[a + s] == buf[..|m|][a + s] == m[a + s];
      }
    }
  }

  /** A matching part has the same units as the buffer; after the last one the buffer ends. */
  lemma PartAgrees(up: unit -> unit, buf: seq<unit>, e: seq<byte>, name: seq<unit>, ord: nat, sum: byte)
    requires |buf| == MAX_LFN + 1 && KeepsZero(up) && PartMatches.requires(up, buf, e) && PartMatches(up, buf, e)
    requires ProperName(name) && IsPart(e, name, ord, sum) && 13 * (ord - 1) < |name|
    ensures forall i :: 13 * (ord - 1) <= i < |name| && i < 13 * ord ==> up(buf[i]) == up(name[i])
    ensures 13 * ord >= |name| ==> |name| <= 254 && buf[|name|] == 0
  {
    hide IsPart, PartNumber, PartStart, IsLast, LdWord, Units, Kept, Filled;
    PartRead(e, name, ord, sum);
    PartUnits(e, name, ord, sum);
    var a, u := 13 * (ord - 1), Units(e);
    var k := Kept(u, 0);
    forall i | a <= i < |name| && i < a + 13
      ensures up(buf[i]) == up(name[i])
    {
      assert u[i - a] == u[..k][i - a] == name[i];
    }
    if 13 * ord > |name| {
      assert u[|name| - a] == u[..k][|name| - a] == 0;
    } else if 13 * ord == |name| {
      assert u[12] == u[..k][12] == name[|name| - 1] && name[|name| - 1] in name;
    }
  }

  /** A buffer that agrees with the name and ends with it holds the same name. */
  lemma BufferHolds(up: unit -> unit, buf: seq<unit>, m: seq<unit>, name: seq<unit>)
    requires |buf| == MAX_LFN + 1 && Holds(buf, m) && KeepsZero(up)
    requires 0 !in name && |name| < |buf| && buf[|name|] == 0
    requires forall i :: 0 <= i < |name| ==> up(buf[i]) == up(name[i])
    ensures SameName(up, m, name)
  {
    assert forall i :: 0 <= i < |m| ==> buf[i] == buf[..|m|][i] == m[i] && m[i] in m;
    assert forall i :: 0 <= i < |name| ==> name[i] in name;
  }

  /** When all parts match, the buffer holds the same name. */
  lemma AllPartsMatch(up: unit -> unit, buf: seq<unit>, m: seq<unit>, es: seq<seq<byte>>, name: seq<unit>, sum: byte)
    requires |buf| == MAX_LFN + 1 && Holds(buf, m) && KeepsZero(up)
    requires ProperName(name) && IsLfnBlock(es, name, sum)
    requires forall j :: 0 <= j < |es| ==> |es[j]| == 32 && PartMatches(up, buf, es[j])
    ensures SameName(up, m, name) && |name| <= 254
  {
    hide IsPart, PartMatches, Holds, KeepsZero, SameName;
    var n := |es|;
    forall i | 0 <= i < |name|
      ensures up(buf[i]) == up(name[i])
    {
      var ord := i / 13 + 1;
      PartAgrees(up, buf, es[n - ord], name, ord, sum);
    }
    PartAgrees(up, buf, es[0], name, n, sum);
    BufferHolds(up, buf, m, name);
  }

  /** The last parts of a name, as far as they are stored. */
  ghost predicate PartsFrom(es: seq<seq<byte>>, name: seq<unit>, count: nat, sum: byte)
  {
    |es| <= count && forall j :: 0 <= j < |es| ==> IsPart(es[j], name, count - j, sum)
  }

  lemma PartsOf(name: seq<unit>)
    ensures forall count, sum :: PartsFrom([], name, count, sum)
  {
  }

  lemma NextPart(es: seq<seq<byte>>, name: seq<unit>, count: nat, sum: byte, d: seq<byte>)
    requires PartsFrom(es, name, count, sum) && |es| < count && IsPart(d, name, count - |es|, sum)
    ensures PartsFrom(es + [d], name, count, sum)
  {
  }

  lemma AllParts(es: seq<seq<byte>>, name: seq<unit>, count: nat, sum: byte)
    requires PartsFrom(es, name, count, sum) && |es| == count == PartCount(name)
    ensures IsLfnBlock(es, name, sum)
  {
  }
}
