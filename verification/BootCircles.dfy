/** When the placing of components comes to an end: exactly when nobody waits twice, for a stranger, or in a circle. */
module BootCircles {
  import opened Lists
  import opened BootLayers

  /** Nobody waits for a component twice, or for one that is not listed. */
  ghost predicate Ordinary<C>(s: Boot<C>)
  {
    forall c :: c in s.components ==>
      c in s.deps && NoDup(s.deps[c]) && forall d :: d in s.deps[c] ==> d in s.components
  }

  /** Components each of which waits for the next, and the last for the first. */
  ghost predicate IsCircle<C>(s: Boot<C>, ch: seq<C>)
  {
    IsWait(s, ch) && ch[0] in s.deps[ch[|ch| - 1]]
  }

  /** The components with these places in the list. */
  ghost function Named<C>(s: Boot<C>, ix: seq<nat>): (r: seq<C>)
    requires forall i :: 0 <= i < |ix| ==> ix[i] < |s.components|
    ensures |r| == |ix| && forall i :: 0 <= i < |ix| ==> r[i] == s.components[ix[i]]
  {
    seq(|ix|, i requires 0 <= i < |ix| => s.components[ix[i]])
  }

  ghost predicate NoCircle<C>(s: Boot<C>)
  {
    forall ix: seq<nat> | (forall i :: 0 <= i < |ix| ==> ix[i] < |s.components|) :: !IsCircle(s, Named(s, ix))
  }

  lemma {:induction false} Places<C>(s: Boot<C>, ch: seq<C>) returns (ix: seq<nat>)
    requires forall i :: 0 <= i < |ch| ==> ch[i] in s.components
    ensures |ix| == |ch| && forall i :: 0 <= i < |ix| ==> ix[i] < |s.components| && s.components[ix[i]] == ch[i]
  {
    if ch == [] {
      ix := [];
    } else {
      var n := |ch| - 1;
      var front := Places(s, ch[..n]);
      var k: nat :| k < |s.components| && s.components[k] == ch[n];
      ix := front + [k];
    }
  }

  /** Where there is no circle, no components are one. */
  lemma NoneIsCircle<C>(s: Boot<C>, ch: seq<C>)
    requires NoCircle(s)
    ensures !IsCircle(s, ch)
  {
    if IsWait(s, ch) {
      var ix := Places(s, ch);
      assert Named(s, ix) == ch;
    }
  }

  /** Layer numbers fall along a chain of dependencies. */
  lemma {:induction false} Descends<C>(s: Boot<C>, depth: map<C, nat>, ch: seq<C>, i: nat)
    requires IsDepth(s, depth) && IsWait(s, ch) && i < |ch|
    ensures ch[0] in depth && ch[i] in depth && depth[ch[i]] + i <= depth[ch[0]]
  {
    if i > 0 {
      Descends(s, depth, ch, i - 1);
      assert ch[i - 1 + 1] in s.deps[ch[i - 1]];
    }
  }

  lemma NumberedIsOrdinary<C>(s: Boot<C>, depth: map<C, nat>)
    requires IsDepth(s, depth)
    ensures Ordinary(s) && NoCircle(s)
  {
    forall ix: seq<nat> | (forall i :: 0 <= i < |ix| ==> ix[i] < |s.components|)
      ensures !IsCircle(s, Named(s, ix))
    {
      var ch := Named(s, ix);
      if IsWait(s, ch) {
        Descends(s, depth, ch, |ch| - 1);
      }
    }
  }

  /** A list without duplicates is no longer than one that has all its members. */
  lemma {:induction false} Fits<C>(ch: seq<C>, cs: seq<C>)
    requires NoDup(ch) && forall x :: x in ch ==> x in cs
    ensures |ch| <= |cs|
    decreases |ch|
  {
    if ch != [] {
      var rest := ch[1..];
      assert forall n :: 0 <= n < |rest| ==> rest[n] == ch[n + 1];
      forall x | x in rest
        ensures x in Without(cs, ch[0])
      {
        WithoutHas(cs, ch[0], x);
      }
      Fits(rest, Without(cs, ch[0]));
    }
  }

  /** When everybody waits, there are chains of dependencies of any length. */
  lemma {:induction false} LongWait<C>(s: Boot<C>, c: C, n: nat) returns (ch: seq<C>)
    requires Ordinary(s) && c in s.components && forall d :: d in s.components ==> s.deps[d] != []
    ensures IsWait(s, ch) && |ch| == n + 1
  {
    if n == 0 {
      ch := [c];
    } else {
      var front := LongWait(s, c, n - 1);
      var last := front[|front| - 1];
      var next := s.deps[last][0];
      assert last in s.components && next in s.deps[last];
      ch := front + [next];
    }
  }

  /** A piece of a chain of dependencies. */
  lemma WaitPiece<C>(s: Boot<C>, ch: seq<C>, i: nat, j: nat)
    requires IsWait(s, ch) && i < j < |ch| && ch[i] == ch[j]
    ensures IsCircle(s, ch[i..j])
  {
    var p := ch[i..j];
    forall n | 0 <= n < |p| - 1
      ensures p[n + 1] in s.deps[p[n]]
    {
      assert ch[i + n + 1] in s.deps[ch[i + n]];
    }
    assert ch[j - 1 + 1] in s.deps[ch[j - 1]];
  }

  /** Without a circle somebody waits for nothing. */
  lemma SomeIdle<C>(s: Boot<C>)
    requires Listed(s) && Ordinary(s) && NoCircle(s) && s.components != []
    ensures Pick(s.components, s.deps, true) != []
  {
    if Pick(s.components, s.deps, true) == [] {
      Everybody(s);
      var ch := LongWait(s, s.components[0], |s.components|);
      var i, j := Repeated(s, ch);
      WaitPiece(s, ch, i, j);
      NoneIsCircle(s, ch[i..j]);
    }
  }

  lemma Everybody<C>(s: Boot<C>)
    requires Listed(s)
    ensures Pick(s.components, s.deps, true) == [] ==> forall d :: d in s.components ==> s.deps[d] != []
  {
  }

  lemma Repeated<C>(s: Boot<C>, ch: seq<C>) returns (i: nat, j: nat)
    requires IsWait(s, ch) && |ch| > |s.components|
    ensures i < j < |ch| && ch[i] == ch[j]
  {
    if NoDup(ch) {
      Fits(ch, s.components);
    }
    i, j :| i < j < |ch| && ch[i] == ch[j];
  }

  lemma RoundDeps<C>(s: Boot<C>, c: C)
    requires Listed(s) && Ordinary(s) && c in s.components
    ensures c in Round(s).deps && NoDup(Round(s).deps[c])
    ensures forall d :: d in Round(s).deps[c] ==> d in s.deps[c] && d in Round(s).components
  {
    var ready := Pick(s.components, s.deps, true);
    WithoutAllNoDup(s.deps[c], ready);
    forall d | d in Round(s).deps[c]
      ensures d in s.deps[c] && d in Round(s).components
    {
      WithoutAllHas(s.deps[c], ready, d);
    }
  }

  /** A round brings no circle about. */
  lemma RoundOrdinary<C>(s: Boot<C>)
    requires Listed(s) && Ordinary(s) && NoCircle(s)
    ensures Ordinary(Round(s)) && NoCircle(Round(s))
  {
    hide NoDup;
    var r := Round(s);
    forall c | c in r.components
      ensures c in s.components && c in r.deps && NoDup(r.deps[c])
      ensures forall d :: d in r.deps[c] ==> d in r.components && d in s.deps[c]
    {
      RoundDeps(s, c);
    }
    forall ix: seq<nat> | (forall i :: 0 <= i < |ix| ==> ix[i] < |r.components|)
      ensures !IsCircle(r, Named(r, ix))
    {
      NoneIsCircle(s, Named(r, ix));
    }
  }

  lemma {:induction false} EndsWithoutCircle<C>(s: Boot<C>) returns (n: nat)
    requires Listed(s) && Ordinary(s) && NoCircle(s)
    ensures After(s, n).components == []
    decreases |s.components|
  {
    hide Ordinary, NoCircle, Listed;
    n := 0;
    if s.components != [] {
      SomeIdle(s);
      Fewer(s);
      RoundListed(s);
      RoundOrdinary(s);
      var m := EndsWithoutCircle(Round(s));
      n := m + 1;
    }
  }

  /** Without a circle there are layer numbers, as the placing of components needs them. */
  lemma NumberedWithoutCircle<C>(s: Boot<C>) returns (depth: map<C, nat>)
    requires Listed(s) && Ordinary(s) && NoCircle(s)
    ensures IsDepth(s, depth)
  {
    hide Ordinary, NoCircle, Listed, After, IsDepth;
    var n := EndsWithoutCircle(s);
    depth := DepthOfRun(s, n);
  }

  lemma Fewer<C>(s: Boot<C>)
    requires Listed(s) && Pick(s.components, s.deps, true) != []
    ensures |Round(s).components| < |s.components|
  {
    PickCount(s.components, s.deps);
  }

  /** The rounds come to an end exactly when nobody waits twice, for a stranger, or in a circle. */
  lemma EndsExactly<C>(s: Boot<C>)
    requires Listed(s)
    ensures (exists n :: After(s, n).components == []) <==> Ordinary(s) && NoCircle(s)
  {
    hide Ordinary, NoCircle, Listed, After;
    if Ordinary(s) && NoCircle(s) {
      var n := EndsWithoutCircle(s);
    }
    forall n: nat | After(s, n).components == []
      ensures Ordinary(s) && NoCircle(s)
    {
      var depth := DepthOfRun(s, n);
      NumberedIsOrdinary(s, depth);
    }
  }
}
