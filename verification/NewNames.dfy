/** What creating a name does to the lookups of a directory table. */
module NewNames {
  import opened Bytes
  import opened LongNames
  import opened DirTable
  import ShortNames

  /** When the short name is not looked at, it does not matter. */
  lemma {:induction false} LossyPass(up: unit -> unit, k: Key, fn: seq<byte>, st: Scan, t: seq<seq<byte>>, at: nat)
    requires ProperKey(k) && k.loss && |fn| == 11 && IsTable(t)
    ensures Pass(up, k.(fn := fn), st, t, at) == Pass(up, k, st, t, at)
    decreases |t|
  {
    if t != [] {
      var v := Examine(up, k, st, t[0], at);
      assert Examine(up, k.(fn := fn), st, t[0], at) == v;
      if v.Next? {
        LossyPass(up, k, fn, v.st, t[1..], at + 1);
      }
    }
  }

  /** What creating a name in entries `first` to `at` does to all lookups. What was found in front of them is found
      there still, keys that match the name are led to entry `at`, and the others find what they found. */
  ghost predicate Lookups(up: unit -> unit, t: seq<seq<byte>>, r: seq<seq<byte>>, first: nat, at: nat, long: bool,
                          name: seq<unit>, fn: seq<byte>)
    requires IsTable(t) && IsTable(r)
  {
    forall q, m :: ProperKey(q) && LongNames.Holds(q.buf, m) ==>
      Find(up, q, r) ==
        if Find(up, q, t).At? && Find(up, q, t).index < first then Find(up, q, t)
        else if Hits(up, q, m, long, name, fn) then At(at, if long && !q.noLfn then 32 * first else NO_BLOCK)
        else Find(up, q, t)
  }

  /** No lookup leads to an entry with this short name: keys with it that find something do so by their long name. */
  ghost predicate NewShortName(up: unit -> unit, t: seq<seq<byte>>, fn: seq<byte>)
    requires IsTable(t)
  {
    forall q :: ProperKey(q) && Find(up, q, t).At? ==>
      Find(up, q, t).index < |t| && t[Find(up, q, t).index][..11] != fn
  }

  lemma IsNewShortName(up: unit -> unit, k: Key, t: seq<seq<byte>>)
    requires ProperKey(k) && !k.loss && IsTable(t) && Find(up, k, t) == Missing
    ensures NewShortName(up, t, k.fn)
  {
    forall q | ProperKey(q) && Find(up, q, t).At?
      ensures Find(up, q, t).index < |t| && t[Find(up, q, t).index][..11] != k.fn
    {
      MissedShortName(up, k, Start, q, Start, t, 0);
    }
  }

  /** Entries `first` to `at` are free, as far as the table has them, and so are no others in a row in front of them. */
  ghost predicate IsFirstBlock(t: seq<seq<byte>>, first: nat, at: nat)
    requires IsTable(t)
  {
    && (forall i :: first <= i <= at && i < |t| ==> IsFree(t[i]))
    && (first <= at ==> NoBlock(t, at, at - first + 1))
  }

  lemma IsFirst(t: seq<seq<byte>>, u: seq<seq<byte>>, b: nat, es: seq<seq<byte>>, e: seq<byte>, long: bool,
                name: seq<unit>, fn: seq<byte>, r: seq<seq<byte>>)
    requires IsTable(t) && IsRegistered(t, u, b, es, e, long, name, fn, r)
    ensures IsFirstBlock(t, b, b + |es|) && |es| == if long then PartCount(name) else 0
  {
    hide IsFree, NoBlock;
    assert forall i :: 0 <= i < |t| ==> u[i] == t[i];
    NoBlockBefore(t, u, b + |es|, |es| + 1);
  }

  lemma NoBlockBefore(t: seq<seq<byte>>, u: seq<seq<byte>>, e: nat, n: nat)
    requires IsTable(t) && IsTable(u) && Extends(t, u) && NoBlock(u, e, n)
    ensures NoBlock(t, e, n)
  {
    hide IsFree;
    assert forall i :: 0 <= i < |t| ==> u[i] == t[i];
    forall b: nat | IsBlock(t, b, n)
      ensures IsBlock(u, b, n)
    {
    }
  }

  /** `r` is the table `t` with a new name, looked up by `k`, in entries `first` to `at`. A lookup of the name leads
      there, unless it is one of 255 units whose short form is not unique to it. */
  ghost predicate IsCreated(up: unit -> unit, k: Key, t: seq<seq<byte>>, r: seq<seq<byte>>, long: bool, name: seq<unit>,
                            first: nat, at: nat)
    requires IsTable(t) && IsTable(r)
  {
    && ProperKey(k) && WellFormed(r) && Lookups(up, t, r, first, at, long, name, k.fn) && NewShortName(up, t, k.fn)
    && first <= at < |r| && IsShort(r[at]) && r[at][..11] == k.fn && IsFirstBlock(t, first, at)
    && at - first == (if long then PartCount(name) else 0)
    && (if k.loss && |name| == 255 then Find(up, k, r) == Missing else Find(up, k, r).At? && Find(up, k, r).index == at)
  }

  lemma Created(up: unit -> unit, k: Key, fn: seq<byte>, t: seq<seq<byte>>, u: seq<seq<byte>>, b: nat,
                es: seq<seq<byte>>, e: seq<byte>, long: bool, name: seq<unit>, r: seq<seq<byte>>)
    requires ProperKey(k) && !k.noLfn && KeepsZero(up) && LongNames.Holds(k.buf, name) && |fn| == 11
    requires IsTable(t) && IsRegistered(t, u, b, es, e, long, name, fn, r) && WellFormed(t) && Find(up, k, t) == Missing
    requires if k.loss then long && Find(up, Key(k.buf, fn, false, true), t) == Missing else fn == k.fn
    ensures IsTable(r) && IsCreated(up, k.(fn := fn), t, r, long, name, b, b + |es|)
  {
    hide WellFormed, IsRegistered, Find, KeepsZero, LongNames.Holds, Hits, IsShort, NewShortName, IsFirstBlock;
    var k' := k.(fn := fn);
    RegisterTheorem(up, k', name, t, u, b, es, e, long, name, fn, r);
    SameLookup(up, k, fn, t);
    HitsOwn(up, k', name, long, fn, t, u, b, es, e, r);
    NewEntryAt(t, u, b, es, e, long, name, fn, r);
    IsFirst(t, u, b, es, e, long, name, fn, r);
    IsNewShortName(up, if k.loss then Key(k.buf, fn, false, true) else k, t);
    forall q, m | ProperKey(q) && LongNames.Holds(q.buf, m)
      ensures Find(up, q, r) ==
        if Find(up, q, t).At? && Find(up, q, t).index < b then Find(up, q, t)
        else if Hits(up, q, m, long, name, fn) then At(b + |es|, if long && !q.noLfn then 32 * b else NO_BLOCK)
        else Find(up, q, t)
    {
      RegisterTheorem(up, q, m, t, u, b, es, e, long, name, fn, r);
    }
  }

  lemma SameLookup(up: unit -> unit, k: Key, fn: seq<byte>, t: seq<seq<byte>>)
    requires ProperKey(k) && |fn| == 11 && (k.loss || fn == k.fn) && IsTable(t)
    ensures Find(up, k.(fn := fn), t) == Find(up, k, t)
  {
    if k.loss {
      LossyPass(up, k, fn, Start, t, 0);
    } else {
      assert k.(fn := fn) == k;
    }
  }

  lemma HitsOwn(up: unit -> unit, k: Key, name: seq<unit>, long: bool, fn: seq<byte>, t: seq<seq<byte>>,
                u: seq<seq<byte>>, b: nat, es: seq<seq<byte>>, e: seq<byte>, r: seq<seq<byte>>)
    requires !k.noLfn && k.fn == fn && (k.loss ==> long) && IsRegistered(t, u, b, es, e, long, name, fn, r)
    ensures Hits(up, k, name, long, name, fn) <==> !(k.loss && |name| == 255)
  {
  }

  lemma NewEntryAt(t: seq<seq<byte>>, u: seq<seq<byte>>, b: nat, es: seq<seq<byte>>, e: seq<byte>, long: bool,
                   name: seq<unit>, fn: seq<byte>, r: seq<seq<byte>>)
    requires IsRegistered(t, u, b, es, e, long, name, fn, r)
    ensures b + |es| < |r| && r[b + |es|] == e && |e| == 32 && IsShort(e) && e[..11] == fn
  {
  }

  // Names that were there before

  /** A lookup leads to an entry in use. */
  lemma FoundInUse(up: unit -> unit, q: Key, t: seq<seq<byte>>)
    requires ProperKey(q) && IsTable(t) && Find(up, q, t).At?
    ensures Find(up, q, t).index < |t| && !IsFree(t[Find(up, q, t).index])
  {
    HitIndex(up, q, Start, t, 0);
  }

  /** Among the keys that were found before, exactly those are led elsewhere that match the new name and found something
      behind it. */
  lemma MovedExactly(up: unit -> unit, k: Key, t: seq<seq<byte>>, r: seq<seq<byte>>, long: bool, name: seq<unit>,
                     first: nat, at: nat, q: Key, m: seq<unit>)
    requires IsTable(t) && IsTable(r) && IsCreated(up, k, t, r, long, name, first, at)
    requires ProperKey(q) && LongNames.Holds(q.buf, m) && Find(up, q, t).At?
    ensures Find(up, q, r) != Find(up, q, t) <==> at < Find(up, q, t).index && Hits(up, q, m, long, name, k.fn)
    ensures Find(up, q, r) != Find(up, q, t) ==> Find(up, q, r).At? && Find(up, q, r).index == at
  {
    hide Find, Hits, WellFormed, LongNames.Holds, IsFree, NoBlock;
    FoundInUse(up, q, t);
  }

  /** A name found before is found where it was, if its short form, unless that is not looked at, is the short name of
      what was found, and it is not the new name up to case. */
  lemma StillFound(up: unit -> unit, k: Key, t: seq<seq<byte>>, r: seq<seq<byte>>, long: bool, name: seq<unit>,
                   first: nat, at: nat, q: Key, m: seq<unit>)
    requires IsTable(t) && IsTable(r) && IsCreated(up, k, t, r, long, name, first, at)
    requires ProperKey(q) && LongNames.Holds(q.buf, m) && Find(up, q, t).At?
    requires Find(up, q, t).index < |t| && (q.loss || t[Find(up, q, t).index][..11] == q.fn)
    requires !SameName(up, m, name)
    ensures Find(up, q, r) == Find(up, q, t)
  {
    hide Find, WellFormed, LongNames.Holds, IsFree, NoBlock, SameName;
  }

  // A name that is led elsewhere

  const OLD: seq<unit> := [65, 126, 49]
  const OLD_SHORT: seq<byte> := [66, 32, 32, 32, 32, 32, 32, 32, 32, 32, 32]
  const NEW: seq<unit> := [46, 65]
  const NEW_BODY: seq<byte> := [65, 32, 32, 32, 32, 32, 32, 32, 32, 32, 32]
  const NEW_SHORT: seq<byte> := [65, 126, 49, 32, 32, 32, 32, 32, 32, 32, 32]

  function Same(u: unit): unit
  {
    u
  }

  function BufferOf(name: seq<unit>): (buf: seq<unit>)
    requires |name| <= 3 && 0 !in name
    ensures |buf| == MAX_LFN + 1 && LongNames.Holds(buf, name)
  {
    var b := name + seq(MAX_LFN + 1 - |name|, _ => 0);
    assert b[..|name|] == name;
    b
  }

  /** The keys of "A~1", which is a proper short name, and of ".A", of which the short name is numbered. */
  function OldKey(): (k: Key)
    ensures ProperKey(k)
  {
    Key(BufferOf(OLD), NEW_SHORT, false, false)
  }

  function NewKey(): (k: Key)
    ensures ProperKey(k)
  {
    Key(BufferOf(NEW), NEW_BODY, true, false)
  }

  /** The entry of a short name. */
  function ShortEntry(fn: seq<byte>): (e: seq<byte>)
    requires |fn| == 11
    ensures |e| == 32 && e[..11] == fn
  {
    fn + Blank(21)
  }

  /** The one entry of the parts of a short long name. */
  method PartEntry(name: seq<unit>, fn: seq<byte>) returns (es: seq<seq<byte>>)
    requires ProperName(name) && |name| <= 3 && |fn| == 11
    ensures IsLfnBlock(es, name, Checksum(fn)) && |es| == 1
  {
    hide LongNames.Holds, IsPart;
    var lfn := new unit[MAX_LFN + 1](i requires 0 <= i < MAX_LFN + 1 => BufferOf(name)[i]);
    assert lfn[..] == BufferOf(name);
    var dir := new byte[32](_ => 0);
    var sum := SumSfn(fn);
    PutLfn(lfn, name, dir, 0, 1, sum);
    es := [dir[0..32]];
  }

  lemma Blocks(es: seq<seq<byte>>, name: seq<unit>, fn: seq<byte>)
    requires ProperName(name) && |fn| == 11 && fn[0] != 0 && fn[0] != DELETED && IsLfnBlock(es, name, Checksum(fn))
    ensures IsNameBlock(es, ShortEntry(fn), true, name, fn)
  {
    hide IsLfnBlock;
    var e := ShortEntry(fn);
    assert e[0] == fn[0] && e[11] == 0;
  }

  /** The number of ".A" gives the short name "A~1". */
  lemma NumberOne()
    ensures |ShortNames.Hex(ShortNames.Number(NEW, 1))| <= 7
    ensures ShortNames.Numbered(NEW_BODY, ShortNames.Hex(ShortNames.Number(NEW, 1))) == NEW_SHORT
  {
    assert ShortNames.Hex(1) == [49];
    assert ShortNames.Kept(NEW_BODY, 6, 1) == 1;
    assert ShortNames.Kept(NEW_BODY, 6, 0) == 1;
  }

  lemma TwoDeleted(k: Key)
    requires ProperKey(k)
    ensures var d, z := [DELETED] + Blank(31), Blank(32);
      && IsTable([d, d]) && IsTable([z, z]) && AllUsed([d, d]) && AllFree([z, z]) && IsTable([d, d] + [z, z] + [])
      && WellFormed([d, d] + [z, z] + [])
      && !Pass(Same, k, Start, [d, d], 0).HitAt? && Find(Same, k, [d, d] + [z, z] + []) == Missing
  {
    var d, z := [DELETED] + Blank(31), Blank(32);
    var t := [d, d] + [z, z] + [];
    assert t == [d, d, z, z];
    assert d[11] == 0 && z[11] == 0 && z[0] == 0;
    var s := Examine(Same, k, Start, d, 0).st;
    assert [d, d][1..] == [d] && t[1..] == [d, z, z] && t[1..][1..] == [z, z];
    assert Pass(Same, k, s, [d], 1).Passed?;
    assert Examine(Same, k, Examine(Same, k, s, d, 1).st, z, 2) == End;
    assert Pass(Same, k, s, t[1..], 1) == Pass(Same, k, Examine(Same, k, s, d, 1).st, [z, z], 2) == Stopped;
  }

  /** A directory with two deleted entries and a file with the long name "A~1" and the short name "B". Creating ".A"
      there gives it the short name "A~1", and a lookup of "A~1", which led to the file, leads to the new entry. */
  method LookupMoves() returns (t: seq<seq<byte>>, r: seq<seq<byte>>)
    ensures IsTable(t) && IsTable(r) && WellFormed(t) && Find(Same, NewKey(), t) == Missing
    ensures |ShortNames.Hex(ShortNames.Number(NEW, 1))| <= 7
    ensures var fn := ShortNames.Numbered(NEW_BODY, ShortNames.Hex(ShortNames.Number(NEW, 1)));
      IsCreated(Same, NewKey().(fn := fn), t, r, true, NEW, 0, 1)
    ensures Find(Same, OldKey(), t) == At(3, 64) && Find(Same, OldKey(), r) == At(1, 0)
  {
    hide *;
    Constants();
    NumberOne();
    var d, z := [DELETED] + Blank(31), Blank(32);
    var old1 := PartEntry(OLD, OLD_SHORT);
    var new1 := PartEntry(NEW, NEW_SHORT);
    t := [d, d] + (old1 + [ShortEntry(OLD_SHORT)]) + [];
    r := new1 + [ShortEntry(NEW_SHORT)] + (old1 + [ShortEntry(OLD_SHORT)]);
    Blocks(old1, OLD, OLD_SHORT);
    Blocks(new1, NEW, NEW_SHORT);
    Before(old1, t);
    After(old1, new1, t, r);
  }

  lemma Constants()
    ensures ProperName(OLD) && ProperName(NEW) && |OLD| == 3 && |NEW| == 2 && |OLD_SHORT| == |NEW_SHORT| == 11
    ensures OLD_SHORT[0] == 66 && NEW_SHORT[0] == 65 && DELETED == 0xE5
    ensures KeepsZero(Same) && OldKey().fn == NEW_SHORT && !OldKey().loss && LongNames.Holds(OldKey().buf, OLD)
    ensures LongNames.Holds(NewKey().buf, NEW) && !NewKey().noLfn && NewKey().loss && |NewKey().fn| == 11
  {
  }

  lemma Before(es: seq<seq<byte>>, t: seq<seq<byte>>)
    requires IsNameBlock(es, ShortEntry(OLD_SHORT), true, OLD, OLD_SHORT) && |es| == 1
    requires t == [[DELETED] + Blank(31), [DELETED] + Blank(31)] + (es + [ShortEntry(OLD_SHORT)]) + []
    ensures IsTable(t) && WellFormed(t) && Find(Same, OldKey(), t) == At(3, 64) && Find(Same, NewKey(), t) == Missing
    ensures Find(Same, Key(NewKey().buf, NEW_SHORT, false, true), t) == Missing
  {
    hide Find, Pass, WellFormed, KeepsZero, LongNames.Holds, SameName, OldKey, NewKey;
    Constants();
    var d, z := [DELETED] + Blank(31), Blank(32);
    var k := Key(NewKey().buf, NEW_SHORT, false, true);
    TwoDeleted(OldKey());
    TwoDeleted(NewKey());
    TwoDeleted(k);
    RegisteredWellFormed([d, d], [z, z], [], es, ShortEntry(OLD_SHORT), true, OLD, OLD_SHORT);
    Names();
    LookupRegistered(Same, OldKey(), OLD, [d, d], [z, z], [], es, ShortEntry(OLD_SHORT), true, OLD, OLD_SHORT);
    LookupRegistered(Same, NewKey(), NEW, [d, d], [z, z], [], es, ShortEntry(OLD_SHORT), true, OLD, OLD_SHORT);
    LookupRegistered(Same, k, NEW, [d, d], [z, z], [], es, ShortEntry(OLD_SHORT), true, OLD, OLD_SHORT);
  }

  lemma Names()
    ensures SameName(Same, OLD, OLD) && !SameName(Same, NEW, OLD) && NEW_SHORT != OLD_SHORT && !OldKey().noLfn
  {
    assert NEW_SHORT[0] != OLD_SHORT[0];
  }

  lemma After(old1: seq<seq<byte>>, new1: seq<seq<byte>>, t: seq<seq<byte>>, r: seq<seq<byte>>)
    requires IsNameBlock(old1, ShortEntry(OLD_SHORT), true, OLD, OLD_SHORT) && |old1| == 1
    requires IsNameBlock(new1, ShortEntry(NEW_SHORT), true, NEW, NEW_SHORT) && |new1| == 1
    requires t == [[DELETED] + Blank(31), [DELETED] + Blank(31)] + (old1 + [ShortEntry(OLD_SHORT)]) + []
    requires r == new1 + [ShortEntry(NEW_SHORT)] + (old1 + [ShortEntry(OLD_SHORT)])
    ensures IsTable(t) && IsTable(r) && IsCreated(Same, NewKey().(fn := NEW_SHORT), t, r, true, NEW, 0, 1)
    ensures Find(Same, OldKey(), r) == At(1, 0)
  {
    hide Find, Pass, WellFormed, KeepsZero, LongNames.Holds, SameName, OldKey, NewKey, IsCreated;
    Constants();
    Names();
    Before(old1, t);
    assert FreeRun(t, 2, 2) && NoBlock(t, 1, 2);
    ExtendsSame(t);
    assert r == Replaced(t, 0, new1 + [ShortEntry(NEW_SHORT)]);
    Created(Same, NewKey(), NEW_SHORT, t, t, 0, new1, ShortEntry(NEW_SHORT), true, NEW, r);
    RegisterTheorem(Same, OldKey(), OLD, t, t, 0, new1, ShortEntry(NEW_SHORT), true, NEW, NEW_SHORT, r);
  }
}
