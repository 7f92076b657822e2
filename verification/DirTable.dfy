/** Directory tables: what a lookup finds in a sequence of 32-byte entries, and what registering
    and removing an entry changes about it. */
module DirTable {
  import opened Bytes
  import opened LongNames

  const DELETED: byte := 0xE5
  const NO_BLOCK: nat := 0xFFFF_FFFF

  /** What is looked up: the working buffer with the long name, the short name, and two of its flags. */
  datatype Key = Key(buf: seq<unit>, fn: seq<byte>, loss: bool, noLfn: bool)

  ghost predicate ProperKey(k: Key)
  {
    |k.buf| == MAX_LFN + 1 && |k.fn| == 11
  }

  /** State of a scan: the part expected next, the checksum of the name being read, where its entries start. */
  datatype Scan = Scan(ord: nat, sum: nat, blk: nat)

  const Start := Scan(0xFF, 0xFF, NO_BLOCK)

  datatype Verdict = End | Hit | Next(st: Scan)

  /** What passing over some entries comes to. */
  datatype Outcome = Stopped | HitAt(index: nat, blk: nat) | Passed(st: Scan)

  datatype Lookup = Missing | At(index: nat, blk: nat)

  /** Checksum over the 11 bytes of a short name. */
  function Checksum(fn: seq<byte>): byte
  {
    if fn == [] then 0
    else
      var s := Checksum(fn[..|fn| - 1]);
      (s / 2 + s * 128 + fn[|fn| - 1]) % 256
  }

  /** The checksums of the first bytes, one after the other: for every byte the eight bits are rotated to the right by
      one, and the byte is added. */
  ghost predicate AreSums(fn: seq<byte>, sums: seq<nat>)
  {
    && |sums| == |fn| + 1 && sums[0] == 0
    && forall i :: 0 <= i < |fn| ==> sums[i + 1] == (sums[i] / 2 + (if sums[i] % 2 == 1 then 0x80 else 0) + fn[i]) % 256
  }

  ghost predicate IsChecksum(fn: seq<byte>, sum: nat)
  {
    exists sums :: AreSums(fn, sums) && sums[|fn|] == sum
  }

  lemma {:induction false} ChecksumIs(fn: seq<byte>) returns (sums: seq<nat>)
    ensures AreSums(fn, sums) && sums[|fn|] == Checksum(fn)
  {
    if fn == [] {
      sums := [0];
    } else {
      var n := |fn| - 1;
      var front := ChecksumIs(fn[..n]);
      RotateAdd(Checksum(fn[..n]), fn[n]);
      sums := NextSum(fn, front, Checksum(fn));
    }
  }

  lemma RotateAdd(s: byte, b: byte)
    ensures (s as int / 2 + s as int * 128 + b as int) % 256 ==
      (s as int / 2 + (if s % 2 == 1 then 0x80 else 0) + b as int) % 256
  {
    var q := s as int / 2;
    assert s as int * 128 == 256 * q + (if s % 2 == 1 then 0x80 else 0);
  }

  lemma NextSum(fn: seq<byte>, front: seq<nat>, sum: nat) returns (sums: seq<nat>)
    requires fn != [] && AreSums(fn[..|fn| - 1], front)
    requires var s := front[|fn| - 1]; sum == (s / 2 + (if s % 2 == 1 then 0x80 else 0) + fn[|fn| - 1]) % 256
    ensures AreSums(fn, sums) && sums[|fn|] == sum
  {
    sums := front + [sum];
    var n := |fn| - 1;
    forall i | 0 <= i < |fn|
      ensures sums[i + 1] == (sums[i] / 2 + (if sums[i] % 2 == 1 then 0x80 else 0) + fn[i]) % 256
    {
      if i < n {
        assert fn[..n][i] == fn[i] && sums[i] == front[i] && sums[i + 1] == front[i + 1];
      }
    }
  }

  lemma {:induction false} SumsDetermined(fn: seq<byte>, a: seq<nat>, b: seq<nat>, i: nat)
    requires AreSums(fn, a) && AreSums(fn, b) && i <= |fn|
    ensures a[i] == b[i]
  {
    if i > 0 {
      SumsDetermined(fn, a, b, i - 1);
      assert a[i - 1 + 1] == b[i - 1 + 1];
    }
  }

  lemma ChecksumExactly(fn: seq<byte>, sum: nat)
    ensures IsChecksum(fn, sum) <==> sum == Checksum(fn)
  {
    var sums := ChecksumIs(fn);
    forall b | AreSums(fn, b)
      ensures b[|fn|] == Checksum(fn)
    {
      SumsDetermined(fn, sums, b, |fn|);
    }
  }

  /** sum_sfn: the checksum, one byte after the other. */
  method SumSfn(fn: seq<byte>) returns (sum: byte)
    requires |fn| == 11
    ensures sum == Checksum(fn) && IsChecksum(fn, sum)
  {
    sum := 0;
    var n: nat := 0;
    ChecksumExactly(fn, Checksum(fn));
    while n < 11
      invariant n <= 11 && sum == Checksum(fn[..n])
    {
      assert fn[..n + 1][..n] == fn[..n];
      sum := (sum / 2 + sum * 128 + fn[n]) % 256;
      n := n + 1;
    }
    assert fn[..11] == fn;
  }

  predicate IsFree(e: seq<byte>)
    requires |e| == 32
  {
    e[0] == 0 || e[0] == DELETED
  }

  function Attributes(e: seq<byte>): nat
    requires |e| == 32
  {
    e[11] % 64
  }

  predicate IsLabel(e: seq<byte>)
    requires |e| == 32
  {
    Attributes(e) / 8 % 2 == 1 && Attributes(e) != 0x0F
  }

  /** An entry that holds a part of a long name. */
  predicate IsLong(e: seq<byte>)
    requires |e| == 32
  {
    !IsFree(e) && Attributes(e) == 0x0F
  }

  /** An entry that holds a file or a directory. */
  predicate IsShort(e: seq<byte>)
    requires |e| == 32
  {
    !IsFree(e) && !IsLabel(e) && Attributes(e) != 0x0F
  }

  function Forget(st: Scan): Scan
  {
    Scan(0xFF, st.sum, NO_BLOCK)
  }

  /** The scan after a part of a long name at entry `at`. */
  ghost function AfterPart(up: unit -> unit, k: Key, st: Scan, e: seq<byte>, at: nat): Scan
    requires ProperKey(k) && |e| == 32
  {
    if k.noLfn then st
    else
      var s := if IsLast(e[0]) then Scan(e[0] - 64, e[13], 32 * at) else st;
      if PartNumber(e[0]) == s.ord && s.sum == e[13] && PartMatches(up, k.buf, e) then s.(ord := (s.ord - 1) % 256)
      else s.(ord := 0xFF)
  }

  /** One step of a lookup. */
  ghost function Examine(up: unit -> unit, k: Key, st: Scan, e: seq<byte>, at: nat): Verdict
    requires ProperKey(k) && |e| == 32
  {
    if e[0] == 0 then End
    else if e[0] == DELETED || IsLabel(e) then Next(Forget(st))
    else if IsLong(e) then Next(AfterPart(up, k, st, e, at))
    else if st.ord == 0 && st.sum == Checksum(e[..11]) then Hit
    else if !k.loss && e[..11] == k.fn then Hit
    else Next(Forget(st))
  }

  ghost predicate IsTable(t: seq<seq<byte>>)
    ensures IsTable(t) <==> forall i :: 0 <= i < |t| ==> |t[i]| == 32
  {
    forall i :: 0 <= i < |t| ==> |t[i]| == 32
  }

  /** Passing over the entries `t`, of which the first is entry `at` of the directory. */
  ghost function Pass(up: unit -> unit, k: Key, st: Scan, t: seq<seq<byte>>, at: nat): Outcome
    requires ProperKey(k) && IsTable(t)
    decreases |t|
  {
    if t == [] then Passed(st)
    else match Examine(up, k, st, t[0], at)
      case End => Stopped
      case Hit => HitAt(at, st.blk)
      case Next(s) => Pass(up, k, s, t[1..], at + 1)
  }

  function Result(o: Outcome): Lookup
  {
    match o
    case HitAt(i, b) => At(i, b)
    case Stopped => Missing
    case Passed(_) => Missing
  }

  /** What a lookup finds. */
  ghost function Find(up: unit -> unit, k: Key, t: seq<seq<byte>>): Lookup
    requires ProperKey(k) && IsTable(t)
  {
    Result(Pass(up, k, Start, t, 0))
  }

  // Passing over entries piece by piece

  /** One step of a pass over the rest of a table. */
  lemma PassStep(up: unit -> unit, k: Key, st: Scan, t: seq<seq<byte>>, e: nat)
    requires ProperKey(k) && IsTable(t) && e < |t|
    ensures |t[e]| == 32
    ensures Result(Pass(up, k, st, t[e..], e)) == match Examine(up, k, st, t[e], e)
      case End => Missing
      case Hit => At(e, st.blk)
      case Next(s) => Result(Pass(up, k, s, t[e + 1..], e + 1))
    ensures t[e][0] == 0 <==> Examine(up, k, st, t[e], e).End?
  {
    assert t[e..][0] == t[e] && t[e..][1..] == t[e + 1..];
  }

  lemma PassNothing(up: unit -> unit, k: Key, st: Scan, t: seq<seq<byte>>, e: nat)
    requires ProperKey(k) && IsTable(t) && e <= |t|
    ensures e == |t| ==> Result(Pass(up, k, st, t[e..], e)) == Missing
  {
  }

  /** The rest of a pass, once the first entries have been passed. */
  ghost function Then(up: unit -> unit, k: Key, o: Outcome, t: seq<seq<byte>>, at: nat): Outcome
    requires ProperKey(k) && IsTable(t)
  {
    match o
    case Passed(st) => Pass(up, k, st, t, at)
    case Stopped => o
    case HitAt(_, _) => o
  }

  lemma {:induction false} PassConcat(up: unit -> unit, k: Key, st: Scan, a: seq<seq<byte>>, b: seq<seq<byte>>, at: nat)
    requires ProperKey(k) && IsTable(a) && IsTable(b)
    ensures Pass(up, k, st, a + b, at) == Then(up, k, Pass(up, k, st, a, at), b, at + |a|)
    decreases |a|
  {
    if a == [] {
      assert a + b == b;
    } else {
      assert (a + b)[0] == a[0] && (a + b)[1..] == a[1..] + b;
      match Examine(up, k, st, a[0], at)
      case End =>
      case Hit =>
      case Next(s) => PassConcat(up, k, s, a[1..], b, at + 1);
    }
  }

  /** Once no part is awaited, the last checksum does not matter any more. */
  lemma {:induction false} ChecksumForgotten(up: unit -> unit, k: Key, s: Scan, r: Scan, t: seq<seq<byte>>, at: nat)
    requires ProperKey(k) && IsTable(t) && s.ord == r.ord == 0xFF && s.blk == r.blk
    ensures Pass(up, k, s, t, at) == Pass(up, k, r, t, at) ||
      (Pass(up, k, s, t, at).Passed? && Pass(up, k, r, t, at).Passed?)
    decreases |t|
  {
    if t != [] {
      match Examine(up, k, s, t[0], at)
      case End =>
      case Hit =>
      case Next(s1) =>
        var r1 := Examine(up, k, r, t[0], at).st;
        if s1 != r1 {
          ChecksumForgotten(up, k, s1, r1, t[1..], at + 1);
        }
    }
  }

  predicate Settled(st: Scan)
  {
    st.ord == 0xFF && st.blk == NO_BLOCK
  }

  /** After an entry that is no part of a long name, nothing is awaited. */
  lemma {:induction false} PassSettles(up: unit -> unit, k: Key, st: Scan, t: seq<seq<byte>>, at: nat)
    requires ProperKey(k) && IsTable(t)
    requires if t == [] then Settled(st) else !IsLong(t[|t| - 1])
    ensures Pass(up, k, st, t, at).Passed? ==> Settled(Pass(up, k, st, t, at).st)
    decreases |t|
  {
    if t != [] {
      match Examine(up, k, st, t[0], at)
      case End =>
      case Hit =>
      case Next(s) =>
        var rest := t[1..];
        if rest != [] {
          assert rest[|rest| - 1] == t[|t| - 1];
        }
        PassSettles(up, k, s, rest, at + 1);
    }
  }

  /** A table without an end mark is passed or hit. */
  lemma {:induction false} PassGoesOn(up: unit -> unit, k: Key, st: Scan, t: seq<seq<byte>>, at: nat)
    requires ProperKey(k) && IsTable(t) && forall i :: 0 <= i < |t| ==> t[i][0] != 0
    ensures !Pass(up, k, st, t, at).Stopped?
    decreases |t|
  {
    if t != [] {
      match Examine(up, k, st, t[0], at)
      case End =>
      case Hit =>
      case Next(s) => PassGoesOn(up, k, s, t[1..], at + 1);
    }
  }

  /** Free entries are passed, and nothing is awaited after them, or the first that was never used ends the table. */
  lemma {:induction false} PassFree(up: unit -> unit, k: Key, st: Scan, t: seq<seq<byte>>, at: nat)
    requires ProperKey(k) && IsTable(t) && t != [] && forall i :: 0 <= i < |t| ==> IsFree(t[i])
    ensures (exists i :: 0 <= i < |t| && t[i][0] == 0) ==> Pass(up, k, st, t, at) == Stopped
    ensures (forall i :: 0 <= i < |t| ==> t[i][0] != 0) ==> Pass(up, k, st, t, at) == Passed(Forget(st))
    decreases |t|
  {
    if t[0][0] != 0 {
      var rest := t[1..];
      if rest != [] {
        PassFree(up, k, Forget(st), rest, at + 1);
        if i :| 0 <= i < |t| && t[i][0] == 0 {
          assert rest[i - 1] == t[i];
        }
      }
    }
  }

  // A registered name

  /** The entries of a name: its parts, if it has any, and the entry with its short name. */
  ghost predicate IsNameBlock(es: seq<seq<byte>>, e: seq<byte>, long: bool, name: seq<unit>, fn: seq<byte>)
    ensures IsNameBlock(es, e, long, name, fn) ==> |fn| == 11 && |e| == 32 && IsTable(es) && (!long ==> es == [])
  {
    && |fn| == 11 && |e| == 32 && e[..11] == fn && IsShort(e)
    && if long then ProperName(name) && IsLfnBlock(es, name, Checksum(fn)) else es == []
  }

  /** Names that find this block: the same long name up to case, or the same short name. */
  ghost predicate Hits(up: unit -> unit, k: Key, m: seq<unit>, long: bool, name: seq<unit>, fn: seq<byte>)
  {
    || (long && !k.noLfn && SameName(up, m, name) && |name| <= 254)
    || (!k.loss && k.fn == fn)
  }

  /** A part is a long entry. */
  lemma PartIsLong(e: seq<byte>, name: seq<unit>, ord: nat, sum: byte)
    requires IsPart(e, name, ord, sum)
    ensures IsLong(e) && e[0] != 0 && e[0] != DELETED && !IsLabel(e) && e[13] == sum
  {
  }

  /** All these parts match the key. */
  ghost predicate AllMatch(up: unit -> unit, k: Key, es: seq<seq<byte>>)
    requires ProperKey(k) && IsTable(es)
  {
    forall j :: 0 <= j < |es| ==> PartMatches(up, k.buf, es[j])
  }

  /** Passing over the first parts of a name, of which the last has been seen. */
  lemma {:induction false} PassParts(up: unit -> unit, k: Key, st: Scan, es: seq<seq<byte>>, name: seq<unit>, sum: byte,
                                     at: nat)
    requires ProperKey(k) && !k.noLfn && ProperName(name) && AreParts(es, name, sum) && 13 * |es| < |name|
    requires st.sum == sum as int && (st.ord == |es| || st.ord == 0xFF)
    ensures Pass(up, k, st, es, at) == Passed(st.(ord := if st.ord == |es| && AllMatch(up, k, es) then 0 else 0xFF))
    decreases |es|
  {
    hide PartMatches, IsPart, PartNumber, IsFree, IsLabel, Attributes, AreParts, LdWord;
    if es != [] {
      var n := |es|;
      var e, rest := es[0], es[1..];
      OtherParts(es, name, sum);
      PartIsLong(e, name, n, sum);
      PartRead(e, name, n, sum);
      var s := AfterPart(up, k, st, e, at);
      PassParts(up, k, s, rest, name, sum, at + 1);
      assert AllMatch(up, k, es) <==> PartMatches(up, k.buf, e) && AllMatch(up, k, rest) by {
        assert forall j :: 0 <= j < |rest| ==> rest[j] == es[j + 1];
        assert forall j :: 1 <= j < |es| ==> es[j] == rest[j - 1];
      }
    }
  }

  /** Passing over all parts of a name. */
  lemma PassLong(up: unit -> unit, k: Key, st: Scan, es: seq<seq<byte>>, name: seq<unit>, sum: byte, at: nat)
    requires ProperKey(k) && !k.noLfn && ProperName(name) && IsLfnBlock(es, name, sum)
    ensures Pass(up, k, st, es, at) == Passed(Scan(if AllMatch(up, k, es) then 0 else 0xFF, sum, 32 * at))
  {
    hide PartMatches, IsPart, PartNumber, IsFree, IsLabel, Attributes, AreParts, LdWord;
    var n := |es|;
    var e, rest := es[0], es[1..];
    OtherParts(es, name, sum);
    PartIsLong(e, name, n, sum);
    PartRead(e, name, n, sum);
    PassParts(up, k, AfterPart(up, k, st, e, at), rest, name, sum, at + 1);
    assert AllMatch(up, k, es) <==> PartMatches(up, k.buf, e) && AllMatch(up, k, rest) by {
      assert forall j :: 0 <= j < |rest| ==> rest[j] == es[j + 1];
      assert forall j :: 1 <= j < |es| ==> es[j] == rest[j - 1];
    }
  }

  /** A search for short names only skips the parts. */
  lemma {:induction false} PassSkipped(up: unit -> unit, k: Key, st: Scan, es: seq<seq<byte>>, at: nat)
    requires ProperKey(k) && k.noLfn && IsTable(es) && forall j :: 0 <= j < |es| ==> IsLong(es[j])
    ensures Pass(up, k, st, es, at) == Passed(st)
    decreases |es|
  {
    if es != [] {
      assert IsLong(es[0]);
      PassSkipped(up, k, st, es[1..], at + 1);
    }
  }

  /** The parts of a name all match exactly when the key has the same name, of up to 254 units. */
  lemma MatchIsSameName(up: unit -> unit, k: Key, m: seq<unit>, es: seq<seq<byte>>, name: seq<unit>, sum: byte)
    requires ProperKey(k) && KeepsZero(up) && Holds(k.buf, m) && ProperName(name) && IsLfnBlock(es, name, sum)
    ensures AllMatch(up, k, es) <==> SameName(up, m, name) && |name| <= 254
  {
    if AllMatch(up, k, es) {
      AllPartsMatch(up, k.buf, m, es, name, sum);
    }
    if SameName(up, m, name) && |name| <= 254 {
      forall j | 0 <= j < |es|
        ensures PartMatches(up, k.buf, es[j])
      {
        PartAccepted(up, k.buf, m, es[j], name, |es| - j, sum);
      }
    }
  }

  /** Passing over the entries of a name: a hit on its last entry for the keys that find it, and for no others. */
  lemma PassName(up: unit -> unit, k: Key, m: seq<unit>, st: Scan, es: seq<seq<byte>>, e: seq<byte>, long: bool,
                 name: seq<unit>, fn: seq<byte>, at: nat)
    requires ProperKey(k) && KeepsZero(up) && Holds(k.buf, m) && Settled(st) && IsNameBlock(es, e, long, name, fn)
    ensures Hits(up, k, m, long, name, fn) ==>
      Pass(up, k, st, es + [e], at) == HitAt(at + |es|, if long && !k.noLfn then 32 * at else NO_BLOCK)
    ensures !Hits(up, k, m, long, name, fn) ==>
      Pass(up, k, st, es + [e], at).Passed? && Settled(Pass(up, k, st, es + [e], at).st)
  {
    hide IsLfnBlock, SameName, AllMatch, KeepsZero, Holds, IsLong, PartMatches, IsFree, IsLabel;
    PassConcat(up, k, st, es, [e], at);
    var sum := Checksum(fn);
    if long {
      PartsAreLong(es, name, sum);
      if k.noLfn {
        PassSkipped(up, k, st, es, at);
      } else {
        PassLong(up, k, st, es, name, sum, at);
        MatchIsSameName(up, k, m, es, name, sum);
      }
    }
    var o := Pass(up, k, st, es, at);
    assert o.Passed?;
    PassOne(up, k, o.st, e, at + |es|);
    ShortExamined(up, k, o.st, e, at + |es|);
  }

  lemma PassOne(up: unit -> unit, k: Key, st: Scan, e: seq<byte>, at: nat)
    requires ProperKey(k) && |e| == 32
    ensures Pass(up, k, st, [e], at) == match Examine(up, k, st, e, at)
      case End => Stopped
      case Hit => HitAt(at, st.blk)
      case Next(s) => Passed(s)
  {
    assert [e][1..] == [];
  }

  lemma ShortExamined(up: unit -> unit, k: Key, st: Scan, e: seq<byte>, at: nat)
    requires ProperKey(k) && |e| == 32 && IsShort(e)
    ensures Examine(up, k, st, e, at) ==
      if (st.ord == 0 && st.sum == Checksum(e[..11])) || (!k.loss && e[..11] == k.fn) then Hit else Next(Forget(st))
  {
  }

  lemma PartsAreLong(es: seq<seq<byte>>, name: seq<unit>, sum: byte)
    requires IsLfnBlock(es, name, sum)
    ensures forall j :: 0 <= j < |es| ==> IsLong(es[j])
  {
    forall j | 0 <= j < |es|
      ensures IsLong(es[j])
    {
      PartIsLong(es[j], name, |es| - j, sum);
    }
  }

  // Well-formed tables

  /** Behind an entry that was never used, no entry was. */
  ghost predicate Closed(t: seq<seq<byte>>)
    requires IsTable(t)
  {
    forall i, j :: 0 <= i < j < |t| && t[i][0] == 0 ==> t[j][0] == 0
  }

  /** A long entry is followed by the next part or another entry in use, and preceded by the part before unless it is
      the first stored. */
  ghost predicate InRun(t: seq<seq<byte>>, i: nat)
    requires IsTable(t) && i < |t| && IsLong(t[i])
  {
    && i + 1 < |t| && !IsFree(t[i + 1]) && !(IsLong(t[i + 1]) && IsLast(t[i + 1][0]))
    && (IsLast(t[i][0]) || (i > 0 && IsLong(t[i - 1])))
  }

  ghost predicate WellFormed(t: seq<seq<byte>>)
    requires IsTable(t)
  {
    Closed(t) && forall i :: 0 <= i < |t| && IsLong(t[i]) ==> InRun(t, i)
  }

  ghost predicate AllFree(t: seq<seq<byte>>)
    requires IsTable(t)
  {
    forall i :: 0 <= i < |t| ==> IsFree(t[i])
  }

  ghost predicate AllUnused(t: seq<seq<byte>>)
    requires IsTable(t)
  {
    forall i :: 0 <= i < |t| ==> t[i][0] == 0
  }

  ghost predicate AllUsed(t: seq<seq<byte>>)
    requires IsTable(t)
  {
    forall i :: 0 <= i < |t| ==> t[i][0] != 0
  }

  /** Unused entries are not passed. */
  lemma PassUnused(up: unit -> unit, k: Key, st: Scan, t: seq<seq<byte>>, at: nat)
    requires ProperKey(k) && IsTable(t) && AllUnused(t)
    ensures Pass(up, k, st, t, at) == if t == [] then Passed(st) else Stopped
  {
  }

  /** Two blocks that let the scan pass make no difference to a lookup. */
  lemma SameBehind(up: unit -> unit, k: Key, s: Scan, r: Scan, t: seq<seq<byte>>, at: nat)
    requires ProperKey(k) && IsTable(t) && Settled(s) && Settled(r)
    ensures Result(Pass(up, k, s, t, at)) == Result(Pass(up, k, r, t, at))
  {
    ChecksumForgotten(up, k, s, r, t, at);
  }

  /** A lookup in three pieces. */
  lemma FindPieces(up: unit -> unit, k: Key, pre: seq<seq<byte>>, mid: seq<seq<byte>>, post: seq<seq<byte>>)
    requires ProperKey(k) && IsTable(pre) && IsTable(mid) && IsTable(post)
    ensures Find(up, k, pre + mid + post) ==
      Result(Then(up, k, Then(up, k, Pass(up, k, Start, pre, 0), mid, |pre|), post, |pre| + |mid|))
  {
    hide Pass, Result;
    PassConcat(up, k, Start, pre, mid, 0);
    PassConcat(up, k, Start, pre + mid, post, 0);
  }

  /** Nothing is awaited in front of a free entry. */
  lemma PreSettles(up: unit -> unit, k: Key, pre: seq<seq<byte>>, mid: seq<seq<byte>>, post: seq<seq<byte>>)
    requires ProperKey(k) && IsTable(pre) && IsTable(mid) && IsTable(post)
    requires mid != [] && IsFree(mid[0]) && AllUsed(pre) && WellFormed(pre + mid + post)
    ensures Pass(up, k, Start, pre, 0).HitAt? || (Pass(up, k, Start, pre, 0).Passed? &&
      Settled(Pass(up, k, Start, pre, 0).st))
  {
    PassGoesOn(up, k, Start, pre, 0);
    var t := pre + mid + post;
    if pre != [] {
      assert t[|pre| - 1] == pre[|pre| - 1] && t[|pre|] == mid[0];
      assert !IsLong(t[|pre| - 1]);
    }
    PassSettles(up, k, Start, pre, 0);
  }

  /** A lookup that gets to free entries goes on behind them with nothing awaited, or ends there as it would behind
      them. */
  lemma FreeSkipped(up: unit -> unit, k: Key, st: Scan, r: Scan, pre: seq<seq<byte>>, mid: seq<seq<byte>>,
                    post: seq<seq<byte>>, at: nat)
    requires ProperKey(k) && IsTable(pre) && IsTable(mid) && IsTable(post)
    requires mid != [] && AllFree(mid) && Closed(pre + mid + post) && Settled(st) && Settled(r)
    ensures Result(Then(up, k, Pass(up, k, st, mid, at), post, at + |mid|)) == Result(Pass(up, k, r, post, at + |mid|))
  {
    PassFree(up, k, st, mid, at);
    var t := pre + mid + post;
    if i :| 0 <= i < |mid| && mid[i][0] == 0 {
      assert t[|pre| + i] == mid[i];
      assert forall j :: 0 <= j < |post| ==> t[|pre| + |mid| + j] == post[j];
      PassUnused(up, k, r, post, at + |mid|);
    } else {
      SameBehind(up, k, Forget(st), r, post, at + |mid|);
    }
  }

  /** Registering a name in free entries: the keys that find it and are not found before land on it,
      and every other key finds what it found. */
  lemma LookupRegistered(up: unit -> unit, k: Key, m: seq<unit>, pre: seq<seq<byte>>, mid: seq<seq<byte>>,
                         post: seq<seq<byte>>, es: seq<seq<byte>>, e: seq<byte>, long: bool, name: seq<unit>,
                         fn: seq<byte>)
    requires ProperKey(k) && KeepsZero(up) && Holds(k.buf, m)
    requires IsTable(pre) && IsTable(mid) && IsTable(post) && WellFormed(pre + mid + post)
    requires AllUsed(pre) && AllFree(mid) && |mid| == |es| + 1 && IsNameBlock(es, e, long, name, fn)
    ensures Find(up, k, pre + (es + [e]) + post) ==
      if Pass(up, k, Start, pre, 0).HitAt? then Find(up, k, pre + mid + post)
      else if Hits(up, k, m, long, name, fn) then At(|pre| + |es|, if long && !k.noLfn then 32 * |pre| else NO_BLOCK)
      else Find(up, k, pre + mid + post)
  {
    hide *;
    var new_ := es + [e];
    BlockIsTable(es, e, long, name, fn);
    FindPieces(up, k, pre, mid, post);
    FindPieces(up, k, pre, new_, post);
    FirstFree(mid);
    PreSettles(up, k, pre, mid, post);
    var o := Pass(up, k, Start, pre, 0);
    ThenCases(up, k, o, mid, |pre|);
    ThenCases(up, k, o, new_, |pre|);
    if o.Passed? {
      PassName(up, k, m, o.st, es, e, long, name, fn, |pre|);
      var p := Pass(up, k, o.st, new_, |pre|);
      ThenCases(up, k, p, post, |pre| + |mid|);
      if p.Passed? {
        Unformed(pre, mid, post);
        FreeSkipped(up, k, o.st, p.st, pre, mid, post, |pre|);
      }
      ResultCases(p);
    }
  }

  lemma BlockIsTable(es: seq<seq<byte>>, e: seq<byte>, long: bool, name: seq<unit>, fn: seq<byte>)
    requires IsNameBlock(es, e, long, name, fn)
    ensures IsTable(es + [e])
  {
  }

  lemma FirstFree(mid: seq<seq<byte>>)
    requires IsTable(mid) && AllFree(mid) && mid != []
    ensures |mid[0]| == 32 && IsFree(mid[0])
  {
  }

  lemma Unformed(pre: seq<seq<byte>>, mid: seq<seq<byte>>, post: seq<seq<byte>>)
    requires IsTable(pre) && IsTable(mid) && IsTable(post) && WellFormed(pre + mid + post)
    ensures IsTable(pre + mid + post) && Closed(pre + mid + post)
  {
  }

  lemma ThenCases(up: unit -> unit, k: Key, o: Outcome, t: seq<seq<byte>>, at: nat)
    requires ProperKey(k) && IsTable(t)
    ensures Then(up, k, o, t, at) == if o.Passed? then Pass(up, k, o.st, t, at) else o
  {
  }

  lemma ResultCases(o: Outcome)
    ensures Result(o) == if o.HitAt? then At(o.index, o.blk) else Missing
  {
  }

  /** What is found in the first entries is found in the whole table, and the other way round. */
  lemma FoundInPrefix(up: unit -> unit, k: Key, pre: seq<seq<byte>>, rest: seq<seq<byte>>)
    requires ProperKey(k) && IsTable(pre) && IsTable(rest)
    ensures Pass(up, k, Start, pre, 0).HitAt? <==> Find(up, k, pre + rest).At? && Find(up, k, pre + rest).index < |pre|
  {
    PassConcat(up, k, Start, pre, rest, 0);
    HitIndex(up, k, Start, pre, 0);
    if Pass(up, k, Start, pre, 0).Passed? {
      HitIndex(up, k, Pass(up, k, Start, pre, 0).st, rest, |pre|);
    }
  }

  /** A hit lies inside the entries passed, on an entry with a short name. */
  lemma {:induction false} HitIndex(up: unit -> unit, k: Key, st: Scan, t: seq<seq<byte>>, at: nat)
    requires ProperKey(k) && IsTable(t)
    ensures Pass(up, k, st, t, at).HitAt? ==>
      at <= Pass(up, k, st, t, at).index < at + |t| && IsShort(t[Pass(up, k, st, t, at).index - at])
    decreases |t|
  {
    if t != [] {
      match Examine(up, k, st, t[0], at)
      case End =>
      case Hit =>
      case Next(s) => HitIndex(up, k, s, t[1..], at + 1);
    }
  }

  /** A short name a lookup missed is on no entry that another lookup hits. */
  lemma {:induction false} MissedShortName(up: unit -> unit, k: Key, st: Scan, q: Key, sq: Scan, t: seq<seq<byte>>,
                                           at: nat)
    requires ProperKey(k) && ProperKey(q) && IsTable(t) && !k.loss && !Pass(up, k, st, t, at).HitAt?
    ensures Pass(up, q, sq, t, at).HitAt? ==>
      at <= Pass(up, q, sq, t, at).index < at + |t| && t[Pass(up, q, sq, t, at).index - at][..11] != k.fn
    decreases |t|
  {
    if t != [] {
      match Examine(up, k, st, t[0], at)
      case End =>
      case Hit =>
      case Next(s) =>
        if Examine(up, q, sq, t[0], at).Next? {
          MissedShortName(up, k, s, q, Examine(up, q, sq, t[0], at).st, t[1..], at + 1);
        }
    }
  }

  /** Registering keeps a table well formed. */
  lemma RegisteredWellFormed(pre: seq<seq<byte>>, mid: seq<seq<byte>>, post: seq<seq<byte>>, es: seq<seq<byte>>,
                             e: seq<byte>, long: bool, name: seq<unit>, fn: seq<byte>)
    requires IsTable(pre) && IsTable(mid) && IsTable(post) && WellFormed(pre + mid + post)
    requires AllUsed(pre) && AllFree(mid) && |mid| == |es| + 1 && IsNameBlock(es, e, long, name, fn)
    ensures IsTable(pre + (es + [e]) + post) && WellFormed(pre + (es + [e]) + post)
  {
    var t, n := pre + mid + post, |es|;
    var r := pre + (es + [e]) + post;
    assert forall i :: 0 <= i < |t| && !(|pre| <= i < |pre| + n + 1) ==> t[i] == r[i];
    assert forall j :: 0 <= j < n ==> r[|pre| + j] == es[j];
    assert forall j :: 0 <= j <= n ==> t[|pre| + j] == mid[j];
    assert r[|pre| + n] == e;
    if long {
      PartsAreLong(es, name, Checksum(fn));
      FirstIsLast(es, name, Checksum(fn));
    }
    forall i | 0 <= i < |r| && IsLong(r[i])
      ensures InRun(r, i)
    {
      if i < |pre| {
        assert InRun(t, i);
        assert i + 1 < |pre|;
      } else if i > |pre| + n {
        assert InRun(t, i);
      }
    }
  }

  lemma FirstIsLast(es: seq<seq<byte>>, name: seq<unit>, sum: byte)
    requires ProperName(name) && IsLfnBlock(es, name, sum)
    ensures forall j :: 0 <= j < |es| ==> (IsLast(es[j][0]) <==> j == 0)
  {
    forall j | 0 <= j < |es|
      ensures IsLast(es[j][0]) <==> j == 0
    {
      PartRead(es[j], name, |es| - j, sum);
    }
  }

  /** Unused entries appended to the table change nothing. */
  lemma Stretched(up: unit -> unit, k: Key, t: seq<seq<byte>>, more: seq<seq<byte>>)
    requires ProperKey(k) && IsTable(t) && IsTable(more) && WellFormed(t) && AllUnused(more)
    ensures IsTable(t + more) && WellFormed(t + more) && Find(up, k, t + more) == Find(up, k, t)
  {
    PassConcat(up, k, Start, t, more, 0);
    var o := Pass(up, k, Start, t, 0);
    if o.Passed? {
      PassUnused(up, k, o.st, more, |t|);
    }
    var r := t + more;
    forall i | 0 <= i < |r| && IsLong(r[i])
      ensures InRun(r, i)
    {
      assert i < |t| && InRun(t, i);
    }
  }

  // Removing

  function MarkDeleted(e: seq<byte>): (r: seq<byte>)
    requires |e| == 32
    ensures |r| == 32
  {
    e[0 := DELETED]
  }

  /** The entries from `lo` to `hi` marked as deleted. */
  ghost function Deleted(t: seq<seq<byte>>, lo: nat, hi: nat): (r: seq<seq<byte>>)
    requires IsTable(t) && lo <= hi < |t|
    ensures IsTable(r) && |r| == |t|
  {
    seq(|t|, i requires 0 <= i < |t| => if lo <= i <= hi then MarkDeleted(t[i]) else t[i])
  }

  /** The table with the entries from `lo` below `to` marked as deleted. */
  ghost function Marked(t: seq<seq<byte>>, lo: nat, to: nat): (r: seq<seq<byte>>)
    requires IsTable(t) && lo <= to <= |t|
    ensures IsTable(r) && |r| == |t|
  {
    if lo == to then t else Deleted(t, lo, to - 1)
  }

  lemma MarkedNext(t: seq<seq<byte>>, lo: nat, to: nat)
    requires IsTable(t) && lo <= to < |t|
    ensures Marked(t, lo, to)[to := Splice(Marked(t, lo, to)[to], 0, [DELETED])] == Marked(t, lo, to + 1)
  {
    var m := Marked(t, lo, to);
    assert Splice(m[to], 0, [DELETED]) == MarkDeleted(t[to]);
  }

  /** The entries of one object: parts of a long name, directly in front of the short name, and all of them. */
  ghost predicate IsObject(t: seq<seq<byte>>, lo: nat, hi: nat)
    requires IsTable(t)
  {
    && lo <= hi < |t| && IsShort(t[hi])
    && (forall i :: lo <= i < hi ==> IsLong(t[i]))
    && (lo > 0 ==> !IsLong(t[lo - 1]))
  }

  /** Where the entries of the object found start. */
  function FirstEntry(index: nat, blk: nat): nat
  {
    if blk == NO_BLOCK then index else blk / 32
  }

  /** The offset of an entry, or none. */
  predicate EntryOffset(blk: nat)
  {
    blk == NO_BLOCK || blk % 32 == 0
  }

  /** A scan at entry `at` remembers where the long entries in front of it start. */
  ghost predicate Remembers(t: seq<seq<byte>>, st: Scan, at: nat)
    requires IsTable(t) && at <= |t|
  {
    var lo := FirstEntry(at, st.blk);
    && lo <= at && (st.blk != NO_BLOCK ==> st.blk == 32 * lo)
    && (forall i :: lo <= i < at ==> IsLong(t[i]))
    && (lo > 0 ==> !IsLong(t[lo - 1]))
  }

  lemma RemembersLong(up: unit -> unit, k: Key, st: Scan, t: seq<seq<byte>>, at: nat)
    requires ProperKey(k) && !k.noLfn && IsTable(t) && WellFormed(t) && at < |t| && IsLong(t[at])
    requires Remembers(t, st, at)
    ensures Remembers(t, AfterPart(up, k, st, t[at], at), at + 1)
  {
    hide PartMatches, PartNumber, IsLong, IsFree, IsLast, Closed;
    var s := AfterPart(up, k, st, t[at], at);
    assert s.blk == if IsLast(t[at][0]) then 32 * at else st.blk;
    assert InRun(t, at);
    if at > 0 && IsLong(t[at - 1]) {
      assert InRun(t, at - 1);
    }
  }

  lemma RemembersNext(up: unit -> unit, k: Key, st: Scan, t: seq<seq<byte>>, at: nat)
    requires ProperKey(k) && !k.noLfn && IsTable(t) && WellFormed(t) && at < |t| && Remembers(t, st, at)
    ensures Examine(up, k, st, t[at], at).Next? ==> Remembers(t, Examine(up, k, st, t[at], at).st, at + 1)
    ensures Examine(up, k, st, t[at], at).Hit? ==> IsObject(t, FirstEntry(at, st.blk), at) && EntryOffset(st.blk)
  {
    if IsLong(t[at]) {
      RemembersLong(up, k, st, t, at);
    }
  }

  lemma {:induction false} PassRemembers(up: unit -> unit, k: Key, st: Scan, t: seq<seq<byte>>, at: nat)
    requires ProperKey(k) && !k.noLfn && IsTable(t) && WellFormed(t) && at <= |t| && Remembers(t, st, at)
    ensures IsTable(t[at..])
    ensures Pass(up, k, st, t[at..], at).HitAt? ==>
      IsObject(t, FirstEntry(Pass(up, k, st, t[at..], at).index, Pass(up, k, st, t[at..], at).blk),
        Pass(up, k, st, t[at..], at).index)
    ensures Pass(up, k, st, t[at..], at).HitAt? ==> EntryOffset(Pass(up, k, st, t[at..], at).blk)
    decreases |t| - at
  {
    hide Examine, WellFormed, Remembers, IsObject, FirstEntry;
    if at < |t| {
      assert t[at..][0] == t[at] && t[at..][1..] == t[at + 1..];
      RemembersNext(up, k, st, t, at);
      if Examine(up, k, st, t[at], at).Next? {
        PassRemembers(up, k, Examine(up, k, st, t[at], at).st, t, at + 1);
      }
    }
  }

  /** A lookup tells which entries make up the object it found. */
  lemma FoundObject(up: unit -> unit, k: Key, t: seq<seq<byte>>)
    requires ProperKey(k) && !k.noLfn && IsTable(t) && WellFormed(t) && Find(up, k, t).At?
    ensures IsObject(t, FirstEntry(Find(up, k, t).index, Find(up, k, t).blk), Find(up, k, t).index)
    ensures EntryOffset(Find(up, k, t).blk)
  {
    assert t[0..] == t;
    PassRemembers(up, k, Start, t, 0);
  }

  /** Parts of a long name are never hit themselves. */
  lemma {:induction false} PassLongs(up: unit -> unit, k: Key, st: Scan, es: seq<seq<byte>>, at: nat)
    requires ProperKey(k) && IsTable(es) && forall j :: 0 <= j < |es| ==> IsLong(es[j])
    ensures Pass(up, k, st, es, at).Passed?
    decreases |es|
  {
    if es != [] {
      assert IsLong(es[0]);
      PassLongs(up, k, AfterPart(up, k, st, es[0], at), es[1..], at + 1);
    }
  }

  /** The entries of an object are hit at the short name or passed, and nothing is awaited after them. */
  lemma PassObject(up: unit -> unit, k: Key, st: Scan, t: seq<seq<byte>>, lo: nat, hi: nat)
    requires ProperKey(k) && IsTable(t) && IsObject(t, lo, hi)
    ensures IsTable(t[lo..hi + 1])
    ensures Pass(up, k, st, t[lo..hi + 1], lo).HitAt? ==> Pass(up, k, st, t[lo..hi + 1], lo).index == hi
    ensures !Pass(up, k, st, t[lo..hi + 1], lo).HitAt? ==>
      Pass(up, k, st, t[lo..hi + 1], lo).Passed? && Settled(Pass(up, k, st, t[lo..hi + 1], lo).st)
  {
    var es, e := t[lo..hi], t[hi];
    assert t[lo..hi + 1] == es + [e];
    PassConcat(up, k, st, es, [e], lo);
    PassLongs(up, k, st, es, lo);
    PassOne(up, k, Pass(up, k, st, es, lo).st, e, hi);
    ShortExamined(up, k, Pass(up, k, st, es, lo).st, e, hi);
  }

  /** Removing an object: keys that found something else find it still, and no key finds the object. */
  lemma LookupRemoved(up: unit -> unit, q: Key, t: seq<seq<byte>>, lo: nat, hi: nat)
    requires ProperKey(q) && IsTable(t) && IsObject(t, lo, hi)
    ensures !(Find(up, q, t).At? && Find(up, q, t).index == hi) ==> Find(up, q, Deleted(t, lo, hi)) == Find(up, q, t)
    ensures !(Find(up, q, Deleted(t, lo, hi)).At? && Find(up, q, Deleted(t, lo, hi)).index <= hi &&
      Find(up, q, t).At? && Find(up, q, t).index == hi)
  {
    hide *;
    Pieces(t, lo, hi);
    var r := Deleted(t, lo, hi);
    var pre, mid, post := t[..lo], t[lo..hi + 1], t[hi + 1..];
    var gone := r[lo..hi + 1];
    FindPieces(up, q, pre, mid, post);
    FindPieces(up, q, pre, gone, post);
    var o := Pass(up, q, Start, pre, 0);
    ThenCases(up, q, o, mid, lo);
    ThenCases(up, q, o, gone, lo);
    if o.Passed? {
      ResultCases(Pass(up, q, o.st, mid, lo));
      PassObject(up, q, o.st, t, lo, hi);
      PassGone(up, q, o.st, t, lo, hi);
      var p, d := Pass(up, q, o.st, mid, lo), Pass(up, q, o.st, gone, lo);
      ThenCases(up, q, p, post, hi + 1);
      ThenCases(up, q, d, post, hi + 1);
      HitIndex(up, q, d.st, post, hi + 1);
      ResultCases(Pass(up, q, d.st, post, hi + 1));
      if p.Passed? {
        SameBehind(up, q, p.st, d.st, post, hi + 1);
        ResultCases(Pass(up, q, p.st, post, hi + 1));
        HitIndex(up, q, p.st, post, hi + 1);
      }
    } else {
      ThenCases(up, q, o, post, hi + 1);
      ResultCases(o);
      HitIndex(up, q, Start, pre, 0);
    }
  }

  /** A table and the same with an object removed, in three pieces. */
  lemma Pieces(t: seq<seq<byte>>, lo: nat, hi: nat)
    requires IsTable(t) && IsObject(t, lo, hi)
    ensures lo <= hi < |t|
    ensures t == t[..lo] + t[lo..hi + 1] + t[hi + 1..]
    ensures Deleted(t, lo, hi) == t[..lo] + Deleted(t, lo, hi)[lo..hi + 1] + t[hi + 1..]
    ensures IsTable(t[..lo]) && IsTable(t[lo..hi + 1]) && IsTable(t[hi + 1..])
    ensures IsTable(Deleted(t, lo, hi)[lo..hi + 1])
  {
  }

  /** Removed entries are passed. */
  lemma PassGone(up: unit -> unit, k: Key, st: Scan, t: seq<seq<byte>>, lo: nat, hi: nat)
    requires ProperKey(k) && IsTable(t) && IsObject(t, lo, hi)
    ensures IsTable(Deleted(t, lo, hi)[lo..hi + 1])
    ensures Pass(up, k, st, Deleted(t, lo, hi)[lo..hi + 1], lo).Passed?
    ensures Settled(Pass(up, k, st, Deleted(t, lo, hi)[lo..hi + 1], lo).st)
  {
    var gone := Deleted(t, lo, hi)[lo..hi + 1];
    assert forall i :: 0 <= i < |gone| ==> gone[i] == MarkDeleted(t[lo + i]);
    PassFree(up, k, st, gone, lo);
  }

  /** Removing keeps a table well formed. */
  lemma RemovedWellFormed(t: seq<seq<byte>>, lo: nat, hi: nat)
    requires IsTable(t) && WellFormed(t) && IsObject(t, lo, hi)
    ensures WellFormed(Deleted(t, lo, hi))
  {
    var r := Deleted(t, lo, hi);
    forall i | 0 <= i < |r| && IsLong(r[i])
      ensures InRun(r, i)
    {
      assert t[i] == r[i] && InRun(t, i);
      assert i + 1 != lo;
    }
  }

  /** Registering a name and removing it again leaves every lookup as it was. */
  lemma RemovedAgain(up: unit -> unit, q: Key, pre: seq<seq<byte>>, mid: seq<seq<byte>>, post: seq<seq<byte>>,
                     es: seq<seq<byte>>, e: seq<byte>, long: bool, name: seq<unit>, fn: seq<byte>)
    requires ProperKey(q)
    requires IsTable(pre) && IsTable(mid) && IsTable(post) && WellFormed(pre + mid + post)
    requires AllUsed(pre) && AllFree(mid) && |mid| == |es| + 1 && IsNameBlock(es, e, long, name, fn)
    ensures IsTable(pre + (es + [e]) + post) && IsObject(pre + (es + [e]) + post, |pre|, |pre| + |es|)
    ensures Find(up, q, Deleted(pre + (es + [e]) + post, |pre|, |pre| + |es|)) == Find(up, q, pre + mid + post)
  {
    hide *;
    RegisteredObject(pre, mid, post, es, e, long, name, fn);
    var t, lo, hi := pre + (es + [e]) + post, |pre|, |pre| + |es|;
    Pieces(t, lo, hi);
    assert t[..lo] == pre && t[hi + 1..] == post;
    var gone := Deleted(t, lo, hi)[lo..hi + 1];
    FindPieces(up, q, pre, mid, post);
    FindPieces(up, q, pre, gone, post);
    FirstFree(mid);
    PreSettles(up, q, pre, mid, post);
    var o := Pass(up, q, Start, pre, 0);
    ThenCases(up, q, o, mid, lo);
    ThenCases(up, q, o, gone, lo);
    if o.Passed? {
      PassGone(up, q, o.st, t, lo, hi);
      var d := Pass(up, q, o.st, gone, lo);
      ThenCases(up, q, d, post, hi + 1);
      Unformed(pre, mid, post);
      FreeSkipped(up, q, o.st, d.st, pre, mid, post, lo);
    }
  }

  /** The entries of a registered name are those of one object. */
  lemma RegisteredObject(pre: seq<seq<byte>>, mid: seq<seq<byte>>, post: seq<seq<byte>>, es: seq<seq<byte>>,
                         e: seq<byte>, long: bool, name: seq<unit>, fn: seq<byte>)
    requires IsTable(pre) && IsTable(mid) && IsTable(post) && WellFormed(pre + mid + post)
    requires AllUsed(pre) && AllFree(mid) && |mid| == |es| + 1 && IsNameBlock(es, e, long, name, fn)
    ensures IsTable(pre + (es + [e]) + post) && IsObject(pre + (es + [e]) + post, |pre|, |pre| + |es|)
  {
    var t, n := pre + mid + post, |es|;
    var r := pre + (es + [e]) + post;
    if long {
      PartsAreLong(es, name, Checksum(fn));
    }
    assert forall j :: 0 <= j < n ==> r[|pre| + j] == es[j];
    assert r[|pre| + n] == e;
    if |pre| > 0 {
      assert t[|pre| - 1] == pre[|pre| - 1] == r[|pre| - 1] && t[|pre|] == mid[0];
      assert !IsLong(t[|pre| - 1]);
    }
  }

  // Growing tables, and free entries in them

  /** `r` is `t` with entries appended that were never used. */
  ghost predicate Extends(t: seq<seq<byte>>, r: seq<seq<byte>>)
    requires IsTable(r)
    ensures Extends(t, r) ==> |t| <= |r| && t == r[..|t|]
  {
    |t| <= |r| && t == r[..|t|] && AllUnused(r[|t|..])
  }

  lemma ExtendsSame(t: seq<seq<byte>>)
    requires IsTable(t)
    ensures Extends(t, t)
  {
    assert t[|t|..] == [];
  }

  lemma ExtendsMore(t: seq<seq<byte>>, r: seq<seq<byte>>, s: seq<seq<byte>>)
    requires IsTable(t) && IsTable(r) && IsTable(s) && Extends(t, r) && Extends(r, s)
    ensures Extends(t, s)
  {
    var x := s[|t|..];
    forall i | 0 <= i < |x|
      ensures x[i][0] == 0
    {
      if |t| + i < |r| {
        assert x[i] == s[..|r|][|t| + i] == r[|t|..][i];
      } else {
        assert x[i] == s[|r|..][|t| + i - |r|];
      }
    }
    assert s[..|t|] == s[..|r|][..|t|];
  }

  lemma ExtendsClosed(t: seq<seq<byte>>, r: seq<seq<byte>>)
    requires IsTable(t) && IsTable(r) && Extends(t, r) && Closed(t)
    ensures Closed(r)
  {
    forall i, j | 0 <= i < j < |r| && r[i][0] == 0
      ensures r[j][0] == 0
    {
      if j >= |t| {
        assert r[j] == r[|t|..][j - |t|];
      }
    }
  }

  /** A run of `n` free entries ends in front of entry `e`, and no entry before the run was never used. */
  ghost predicate FreeRun(t: seq<seq<byte>>, e: nat, n: nat)
    requires IsTable(t)
  {
    && n <= e <= |t|
    && (forall i :: e - n <= i < e ==> IsFree(t[i]))
    && (forall i :: 0 <= i < e - n ==> t[i][0] != 0)
  }

  /** One more entry looked at. */
  lemma FreeRunStep(t: seq<seq<byte>>, e: nat, n: nat)
    requires IsTable(t) && Closed(t) && FreeRun(t, e, n) && e < |t|
    ensures if IsFree(t[e]) then FreeRun(t, e + 1, n + 1) else FreeRun(t, e + 1, 0)
  {
    assert forall i :: 0 <= i < e && t[i][0] == 0 ==> t[e][0] == 0;
  }

  /** `n` free entries in a row from entry `b` on. */
  ghost predicate IsBlock(t: seq<seq<byte>>, b: nat, n: nat)
    requires IsTable(t)
  {
    b + n <= |t| && forall i :: b <= i < b + n ==> IsFree(t[i])
  }

  /** There are no `n` free entries in a row in front of entry `e`. */
  ghost predicate NoBlock(t: seq<seq<byte>>, e: nat, n: nat)
    requires IsTable(t)
  {
    forall b: nat :: b + n <= e ==> !IsBlock(t, b, n)
  }

  /** A search for `nent` free entries in a row has come to entry `e`, and the last `n` entries are free. */
  ghost predicate Looked(t: seq<seq<byte>>, e: nat, n: nat, nent: nat)
    requires IsTable(t)
    ensures Looked(t, e, n, nent) ==> n < nent
  {
    n < nent && FreeRun(t, e, n) && (n < e ==> !IsFree(t[e - n - 1])) && NoBlock(t, e, nent)
  }

  lemma LookedStart(t: seq<seq<byte>>, nent: nat)
    requires IsTable(t) && nent > 0
    ensures Looked(t, 0, 0, nent)
  {
  }

  lemma LookedStep(t: seq<seq<byte>>, e: nat, n: nat, nent: nat)
    requires IsTable(t) && Closed(t) && Looked(t, e, n, nent) && e < |t|
    ensures IsFree(t[e]) && n + 1 == nent ==> FreeRun(t, e + 1, nent) && NoBlock(t, e, nent)
    ensures IsFree(t[e]) && n + 1 < nent ==> Looked(t, e + 1, n + 1, nent)
    ensures !IsFree(t[e]) ==> Looked(t, e + 1, 0, nent)
  {
    hide IsFree, Closed;
    FreeRunStep(t, e, n);
    if !IsFree(t[e]) || n + 1 < nent {
      forall b: nat | b + nent <= e + 1
        ensures !IsBlock(t, b, nent)
      {
        var k := if IsFree(t[e]) then e - n - 1 else e;
        if b + nent == e + 1 {
          assert b <= k < b + nent && !IsFree(t[k]);
        }
      }
    }
  }

  lemma LookedExtends(t: seq<seq<byte>>, r: seq<seq<byte>>, e: nat, n: nat, nent: nat)
    requires IsTable(t) && IsTable(r) && Extends(t, r) && Looked(t, e, n, nent)
    ensures Looked(r, e, n, nent)
  {
    hide IsFree;
    assert forall i :: 0 <= i < |t| ==> r[i] == t[i];
    forall b: nat | b + nent <= e
      ensures !IsBlock(r, b, nent)
    {
      assert !IsBlock(t, b, nent);
    }
  }

  lemma LookedAll(t: seq<seq<byte>>, n: nat, nent: nat)
    requires IsTable(t) && Looked(t, |t|, n, nent)
    ensures NoBlock(t, |t|, nent)
  {
  }

  /** Where a block of `n` free entries was found, a name can be registered. */
  lemma FreeRunPieces(t: seq<seq<byte>>, e: nat, n: nat)
    requires IsTable(t) && FreeRun(t, e, n)
    ensures t == t[..e - n] + t[e - n..e] + t[e..]
    ensures IsTable(t[..e - n]) && IsTable(t[e - n..e]) && IsTable(t[e..]) && AllUsed(t[..e - n])
    ensures AllFree(t[e - n..e])
  {
  }

  /** The table with `es` in place of the entries from `b` on. */
  ghost function Replaced(u: seq<seq<byte>>, b: nat, es: seq<seq<byte>>): (r: seq<seq<byte>>)
    requires b + |es| <= |u|
    ensures |r| == |u|
  {
    u[..b] + es + u[b + |es|..]
  }

  lemma ReplacedNone(u: seq<seq<byte>>, b: nat)
    requires b <= |u|
    ensures Replaced(u, b, []) == u
  {
  }

  lemma ReplacedNext(u: seq<seq<byte>>, b: nat, es: seq<seq<byte>>, d: seq<byte>)
    requires b + |es| < |u|
    ensures Replaced(u, b, es)[b + |es| := d] == Replaced(u, b, es + [d])
  {
  }

  /** `r` is the table `t` after a name was registered: `t` may have grown to `u` first, and the entries
      of the name replace the first block of free ones, at `b`. */
  ghost predicate IsRegistered(t: seq<seq<byte>>, u: seq<seq<byte>>, b: nat, es: seq<seq<byte>>, e: seq<byte>,
                               long: bool, name: seq<unit>, fn: seq<byte>, r: seq<seq<byte>>)
  {
    && IsTable(t) && IsTable(u) && Extends(t, u)
    && b + |es| < |u| && FreeRun(u, b + |es| + 1, |es| + 1) && NoBlock(u, b + |es|, |es| + 1)
    && IsNameBlock(es, e, long, name, fn)
    && r == Replaced(u, b, es + [e])
  }

  /** What registering a name does to every lookup: a key found in front of the new entries is found there
      still, a key that matches the name lands on its new entry, and any other key finds what it found.
      The table stays well formed. */
  lemma RegisterTheorem(up: unit -> unit, k: Key, m: seq<unit>, t: seq<seq<byte>>, u: seq<seq<byte>>, b: nat,
                        es: seq<seq<byte>>, e: seq<byte>, long: bool, name: seq<unit>, fn: seq<byte>, r: seq<seq<byte>>)
    requires ProperKey(k) && KeepsZero(up) && Holds(k.buf, m)
    requires IsRegistered(t, u, b, es, e, long, name, fn, r) && WellFormed(t)
    ensures IsTable(r) && WellFormed(r)
    ensures Find(up, k, r) ==
      if Find(up, k, t).At? && Find(up, k, t).index < b then Find(up, k, t)
      else if Hits(up, k, m, long, name, fn) then At(b + |es|, if long && !k.noLfn then 32 * b else NO_BLOCK)
      else Find(up, k, t)
  {
    hide WellFormed, Find, Pass, Hits, IsNameBlock, KeepsZero, Holds, FreeRun, AllUnused, AllUsed, AllFree, IsFree;
    var more := u[|t|..];
    assert u == t + more;
    Stretched(up, k, t, more);
    FreeRunPieces(u, b + |es| + 1, |es| + 1);
    var pre, mid, post := u[..b], u[b..b + |es| + 1], u[b + |es| + 1..];
    assert u == pre + mid + post && r == pre + (es + [e]) + post;
    RegisteredWellFormed(pre, mid, post, es, e, long, name, fn);
    LookupRegistered(up, k, m, pre, mid, post, es, e, long, name, fn);
    assert pre + (mid + post) == u;
    FoundInPrefix(up, k, pre, mid + post);
  }
}
