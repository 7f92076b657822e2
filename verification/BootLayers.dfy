/** Boot layers: components are started layer by layer, each behind the ones it depends on. */
module BootLayers {
  import opened Lists

  /** The components still to be placed, and what each of them still waits for. */
  datatype Boot<C(==)> = Boot(components: seq<C>, deps: map<C, seq<C>>)

  /** A list without one occurrence of each of these. */
  function WithoutAll<C(==)>(s: seq<C>, xs: seq<C>): seq<C>
    decreases |xs|
  {
    if xs == [] then s else WithoutAll(Without(s, xs[0]), xs[1..])
  }

  /** The components that wait for nothing, or for something. */
  function Pick<C(==)>(cs: seq<C>, deps: map<C, seq<C>>, idle: bool): (r: seq<C>)
    requires forall c :: c in cs ==> c in deps
    ensures forall c :: c in r ==> c in cs && (deps[c] == []) == idle
    ensures forall c :: c in cs && (deps[c] == []) == idle ==> c in r
    ensures |r| <= |cs|
  {
    if cs == [] then []
    else
      var rest := Pick(cs[1..], deps, idle);
      if (deps[cs[0]] == []) == idle then [cs[0]] + rest else rest
  }

  predicate Listed<C>(s: Boot<C>)
  {
    NoDup(s.components) && forall c :: c in s.components ==> c in s.deps
  }

  /** One round: the components that wait for nothing are taken out, and nobody waits for them any more. */
  function Round<C>(s: Boot<C>): Boot<C>
    requires Listed(s)
  {
    var ready := Pick(s.components, s.deps, true);
    Boot(Pick(s.components, s.deps, false), map c | c in s.deps :: WithoutAll(s.deps[c], ready))
  }

  lemma {:induction false} PickNoDup<C>(cs: seq<C>, deps: map<C, seq<C>>, idle: bool)
    requires NoDup(cs) && forall c :: c in cs ==> c in deps
    ensures NoDup(Pick(cs, deps, idle))
  {
    if cs != [] {
      var rest := cs[1..];
      PickNoDup(rest, deps, idle);
      assert forall n :: 0 <= n < |rest| ==> rest[n] == cs[n + 1];
      assert cs[0] !in rest;
      var p := Pick(rest, deps, idle);
      assert forall c :: c in p ==> c in rest;
      assert forall n :: 0 <= n < |p| ==> p[n] in p;
    }
  }

  lemma {:induction false} PickCount<C>(cs: seq<C>, deps: map<C, seq<C>>)
    requires forall c :: c in cs ==> c in deps
    ensures |Pick(cs, deps, true)| + |Pick(cs, deps, false)| == |cs|
  {
    if cs != [] {
      PickCount(cs[1..], deps);
    }
  }

  lemma {:induction false} WithoutAllHas<C>(s: seq<C>, xs: seq<C>, y: C)
    ensures y in WithoutAll(s, xs) ==> y in s
    ensures y in s && y !in xs ==> y in WithoutAll(s, xs)
    decreases |xs|
  {
    if xs != [] {
      WithoutHas(s, xs[0], y);
      WithoutAllHas(Without(s, xs[0]), xs[1..], y);
      assert xs == [xs[0]] + xs[1..];
    }
  }

  // What it takes to place every component

  /** Layer numbers: above those of all components waited for, and directly above one of them unless it is the first
      layer. */
  ghost predicate IsDepth<C>(s: Boot<C>, depth: map<C, nat>)
  {
    forall c :: c in s.components ==>
      && c in depth && c in s.deps && NoDup(s.deps[c])
      && (forall d :: d in s.deps[c] ==> d in s.components && d in depth && depth[d] < depth[c])
      && (depth[c] > 0 ==> exists d :: d in s.deps[c] && d in depth && depth[d] == depth[c] - 1)
  }

  /** The layer numbers once the first layer is gone. */
  function Lowered<C>(depth: map<C, nat>): map<C, nat>
  {
    map c | c in depth :: if depth[c] > 0 then depth[c] - 1 else 0
  }

  /** Removing each of `xs` once from a list without duplicates removes them all. */
  lemma {:induction false} WithoutAllNoDup<C>(s: seq<C>, xs: seq<C>)
    requires NoDup(s)
    ensures NoDup(WithoutAll(s, xs)) && forall x :: x in xs ==> x !in WithoutAll(s, xs)
    decreases |xs|
  {
    if xs != [] {
      WithoutNoDup(s, xs[0]);
      var w := Without(s, xs[0]);
      WithoutAllNoDup(w, xs[1..]);
      WithoutAllHas(w, xs[1..], xs[0]);
      assert xs == [xs[0]] + xs[1..];
    }
  }

  /** A round takes out the first layer and lowers the others. */
  lemma RoundLowers<C>(s: Boot<C>, depth: map<C, nat>)
    requires Listed(s) && IsDepth(s, depth)
    ensures Listed(Round(s)) && IsDepth(Round(s), Lowered(depth))
    ensures forall c :: c in s.components ==> (c in Round(s).components <==> depth[c] > 0)
    ensures s.components != [] ==> |Round(s).components| < |s.components|
  {
    var ready, r := Pick(s.components, s.deps, true), Round(s);
    PickNoDup(s.components, s.deps, false);
    forall c | c in s.components
      ensures s.deps[c] == [] <==> depth[c] == 0
    {
      if s.deps[c] != [] {
        assert s.deps[c][0] in s.deps[c];
      }
    }
    forall c | c in r.components
      ensures c in Lowered(depth) && c in r.deps && NoDup(r.deps[c])
      ensures forall d :: d in r.deps[c] ==>
        d in r.components && d in Lowered(depth) && Lowered(depth)[d] < Lowered(depth)[c]
      ensures Lowered(depth)[c] > 0 ==>
        exists d :: d in r.deps[c] && d in Lowered(depth) && Lowered(depth)[d] == Lowered(depth)[c] - 1
    {
      RoundOf(s, depth, c);
    }
    if s.components != [] {
      SomeFirst(s, depth, s.components[0]);
      PickCount(s.components, s.deps);
    }
  }

  lemma RoundOf<C>(s: Boot<C>, depth: map<C, nat>, c: C)
    requires Listed(s) && IsDepth(s, depth) && c in s.components && s.deps[c] != []
    requires forall c :: c in s.components ==> (s.deps[c] == [] <==> depth[c] == 0)
    ensures c in Round(s).deps && NoDup(Round(s).deps[c])
    ensures forall d :: d in Round(s).deps[c] ==> d in Round(s).components && depth[d] > 0 && depth[d] < depth[c]
    ensures depth[c] > 1 ==> exists d :: d in Round(s).deps[c] && d in depth && depth[d] == depth[c] - 1
  {
    var ready := Pick(s.components, s.deps, true);
    var ds := s.deps[c];
    WithoutAllNoDup(ds, ready);
    var rs := WithoutAll(ds, ready);
    forall d | d in rs
      ensures d in Round(s).components && depth[d] > 0 && depth[d] < depth[c]
    {
      WithoutAllHas(ds, ready, d);
    }
    if depth[c] > 1 {
      var d :| d in ds && d in depth && depth[d] == depth[c] - 1;
      WithoutAllHas(ds, ready, d);
    }
  }

  lemma NothingBelow<C>(ds: seq<C>, depth: map<C, nat>, n: nat)
    requires forall d :: d in ds ==> d in depth && depth[d] < n
    ensures n == 0 ==> ds == []
  {
    if ds != [] {
      assert ds[0] in ds;
    }
  }

  /** There is a component in the first layer. */
  lemma {:induction false} SomeFirst<C>(s: Boot<C>, depth: map<C, nat>, c: C)
    requires Listed(s) && IsDepth(s, depth) && c in s.components
    ensures Pick(s.components, s.deps, true) != []
    decreases depth[c]
  {
    if depth[c] == 0 {
      NothingBelow(s.deps[c], depth, 0);
    } else {
      var d :| d in s.deps[c] && d in depth && depth[d] == depth[c] - 1;
      SomeFirst(s, depth, d);
    }
  }

  lemma RoundListed<C>(s: Boot<C>)
    requires Listed(s)
    ensures Listed(Round(s))
  {
    PickNoDup(s.components, s.deps, false);
  }

  /** What is left after `n` rounds. */
  ghost function After<C>(s: Boot<C>, n: nat): (r: Boot<C>)
    requires Listed(s)
    ensures Listed(r)
    decreases n
  {
    if n == 0 then s
    else
      RoundListed(s);
      After(Round(s), n - 1)
  }

  lemma HeadOnce<C>(x: C, w: seq<C>)
    ensures NoDup([x] + w) <==> NoDup(w) && x !in w
  {
    var v := [x] + w;
    assert forall n :: 0 <= n < |w| ==> w[n] == v[n + 1];
    if NoDup(w) && x !in w {
      forall i, j | 0 <= i < j < |v|
        ensures v[i] != v[j]
      {
        assert v[j] == w[j - 1] && w[j - 1] in w;
      }
    }
    if NoDup(v) {
      forall n | 0 <= n < |w|
        ensures w[n] != x && forall m :: 0 <= m < n ==> w[m] != w[n]
      {
        assert v[0] != v[n + 1];
        forall m | 0 <= m < n
          ensures w[m] != w[n]
        {
          assert v[m + 1] != v[n + 1];
        }
      }
    }
  }

  lemma {:induction false} InsertNoDup<C>(s: seq<C>, x: C)
    requires NoDup(Without(s, x)) && x !in Without(s, x)
    ensures NoDup(s)
  {
    hide NoDup;
    if s == [] {
      NoneTwice(s);
    } else {
      var rest := s[1..];
      assert s == [s[0]] + rest;
      HeadOnce(s[0], rest);
      if s[0] != x {
        HeadOnce(s[0], Without(rest, x));
        InsertNoDup(rest, x);
        WithoutHas(rest, x, s[0]);
      }
    }
  }

  lemma NoneTwice<C>(s: seq<C>)
    requires s == []
    ensures NoDup(s)
  {
  }

  /** A list from which each of `xs` can be removed once, so that none of them is left, has no duplicates if the rest
      has none. */
  lemma {:induction false} BackNoDup<C>(s: seq<C>, xs: seq<C>)
    requires NoDup(xs) && NoDup(WithoutAll(s, xs)) && forall x :: x in xs ==> x !in WithoutAll(s, xs)
    ensures NoDup(s)
    decreases |xs|
  {
    if xs != [] {
      var w, rest := Without(s, xs[0]), xs[1..];
      assert forall n :: 0 <= n < |rest| ==> rest[n] == xs[n + 1];
      assert xs[0] !in rest;
      BackNoDup(w, rest);
      WithoutAllHas(w, rest, xs[0]);
      InsertNoDup(s, xs[0]);
    }
  }

  /** The layer numbers with a first layer below: 0 for the components that wait for nothing, one more than before for
      the rest. */
  function Raised<C>(s: Boot<C>, depth: map<C, nat>): map<C, nat>
    requires Listed(s) && forall c :: c in Round(s).components ==> c in depth
  {
    map c | c in s.components :: if s.deps[c] == [] then 0 else depth[c] + 1
  }

  /** Layer numbers after a round give layer numbers before it. */
  lemma RoundRaises<C>(s: Boot<C>, depth: map<C, nat>)
    requires Listed(s) && IsDepth(Round(s), depth)
    ensures IsDepth(s, Raised(s, depth))
  {
    var ready, r, up := Pick(s.components, s.deps, true), Round(s), Raised(s, depth);
    PickNoDup(s.components, s.deps, true);
    forall c | c in s.components
      ensures c in up && c in s.deps && NoDup(s.deps[c])
      ensures forall d :: d in s.deps[c] ==> d in s.components && d in up && up[d] < up[c]
      ensures up[c] > 0 ==> exists d :: d in s.deps[c] && d in up && up[d] == up[c] - 1
    {
      if s.deps[c] != [] {
        RaisedOf(s, depth, c);
      }
    }
  }

  lemma RaisedOf<C>(s: Boot<C>, depth: map<C, nat>, c: C)
    requires Listed(s) && IsDepth(Round(s), depth) && c in s.components && s.deps[c] != []
    ensures NoDup(s.deps[c])
    ensures forall d :: d in s.deps[c] ==> d in s.components && Raised(s, depth)[d] < Raised(s, depth)[c]
    ensures exists d :: d in s.deps[c] && d in Raised(s, depth) && Raised(s, depth)[d] == Raised(s, depth)[c] - 1
  {
    var ready, r, up := Pick(s.components, s.deps, true), Round(s), Raised(s, depth);
    PickNoDup(s.components, s.deps, true);
    var ds, rs := s.deps[c], WithoutAll(s.deps[c], ready);
    assert c in r.components && r.deps[c] == rs;
    BackNoDup(ds, ready);
    forall d | d in ds
      ensures d in s.components && up[d] < up[c]
    {
      WithoutAllHas(ds, ready, d);
    }
    if depth[c] > 0 {
      var d :| d in rs && d in depth && depth[d] == depth[c] - 1;
      WithoutAllHas(ds, ready, d);
      assert up[d] == up[c] - 1;
    } else {
      NothingBelow(rs, depth, 0);
      var d := ds[0];
      WithoutAllHas(ds, ready, d);
      assert d in ready && up[d] == 0;
    }
  }

  /** Rounds come to an end only if there are layer numbers: nobody waits for a component twice, for one that is not
      listed, or in a circle. */
  lemma {:induction false} DepthOfRun<C>(s: Boot<C>, n: nat) returns (depth: map<C, nat>)
    requires Listed(s) && After(s, n).components == []
    ensures IsDepth(s, depth)
    decreases n
  {
    if n == 0 {
      depth := map[];
    } else {
      RoundListed(s);
      depth := DepthOfRun(Round(s), n - 1);
      RoundRaises(s, depth);
      depth := Raised(s, depth);
    }
  }

  /** A component that waits for another one twice is never placed: only one of the two is removed. */
  lemma NeverEnds<C>(s: Boot<C>, c: C, n: nat)
    requires Listed(s) && c in s.components && !NoDup(s.deps[c])
    ensures After(s, n).components != []
  {
    if After(s, n).components == [] {
      var depth := DepthOfRun(s, n);
    }
  }

  // The layers

  /** What every round takes out. */
  ghost function Layers<C>(s: Boot<C>, depth: map<C, nat>): (r: seq<seq<C>>)
    requires Listed(s) && IsDepth(s, depth)
    decreases |s.components|
  {
    if s.components == [] then []
    else
      RoundLowers(s, depth);
      [Pick(s.components, s.deps, true)] + Layers(Round(s), Lowered(depth))
  }

  /** Layer `i` has exactly the components with that layer number, each of them once. */
  lemma {:induction false} LayerHas<C>(s: Boot<C>, depth: map<C, nat>, c: C, i: nat)
    requires Listed(s) && IsDepth(s, depth)
    ensures i < |Layers(s, depth)| ==>
      NoDup(Layers(s, depth)[i]) && (c in Layers(s, depth)[i] <==> c in s.components && depth[c] == i)
    ensures c in s.components ==> depth[c] < |Layers(s, depth)|
    decreases |s.components|
  {
    hide Listed, IsDepth, Round, Pick, Lowered, NoDup;
    if s.components != [] {
      RoundLowers(s, depth);
      FirstHas(s, depth, c);
      RestHas(s, depth, c);
      LayerHas(Round(s), Lowered(depth), c, if i == 0 then 0 else i - 1);
    }
  }

  /** The components with this layer number, in the order of the list. */
  function OfDepth<C(==)>(cs: seq<C>, depth: map<C, nat>, i: nat): seq<C>
  {
    if cs == [] then []
    else (if cs[0] in depth && depth[cs[0]] == i then [cs[0]] else []) + OfDepth(cs[1..], depth, i)
  }

  lemma {:induction false} PickFirst<C>(cs: seq<C>, deps: map<C, seq<C>>, depth: map<C, nat>)
    requires forall c :: c in cs ==> c in deps && c in depth && (deps[c] == [] <==> depth[c] == 0)
    ensures Pick(cs, deps, true) == OfDepth(cs, depth, 0)
  {
    if cs != [] {
      assert cs[0] in cs;
      PickFirst(cs[1..], deps, depth);
    }
  }

  lemma OneOfDepth<C>(c: C, cs: seq<C>, depth: map<C, nat>, i: nat)
    requires c in depth
    ensures OfDepth([c] + cs, depth, i) == (if depth[c] == i then [c] else []) + OfDepth(cs, depth, i)
  {
    assert ([c] + cs)[1..] == cs;
  }

  lemma {:induction false} PickRest<C>(cs: seq<C>, deps: map<C, seq<C>>, depth: map<C, nat>, i: nat)
    requires forall c :: c in cs ==> c in deps && c in depth && (deps[c] == [] <==> depth[c] == 0)
    ensures OfDepth(Pick(cs, deps, false), Lowered(depth), i) == OfDepth(cs, depth, i + 1)
  {
    hide OfDepth;
    if cs == [] {
      NoneOfDepth(depth, i);
    } else {
      var c, rest := cs[0], cs[1..];
      assert c in cs && cs == [c] + rest;
      PickRest(rest, deps, depth, i);
      OneOfDepth(c, rest, depth, i + 1);
      OneOfDepth(c, Pick(rest, deps, false), Lowered(depth), i);
    }
  }

  lemma NoneOfDepth<C>(depth: map<C, nat>, i: nat)
    ensures OfDepth([], Lowered(depth), i) == [] == OfDepth([], depth, i + 1)
  {
  }

  /** Layer `i` is that, in the order of the list. */
  lemma {:induction false} LayerIs<C>(s: Boot<C>, depth: map<C, nat>, i: nat)
    requires Listed(s) && IsDepth(s, depth) && i < |Layers(s, depth)|
    ensures Layers(s, depth)[i] == OfDepth(s.components, depth, i)
    decreases i
  {
    hide IsDepth, Pick, OfDepth, Lowered, NoDup;
    RoundLowers(s, depth);
    forall c | c in s.components
      ensures c in depth && (s.deps[c] == [] <==> depth[c] == 0)
    {
      InDepth(s, depth, c);
      FirstLayer(s, depth, c);
    }
    if i == 0 {
      PickFirst(s.components, s.deps, depth);
    } else {
      PickRest(s.components, s.deps, depth, i - 1);
      LayerIs(Round(s), Lowered(depth), i - 1);
    }
  }

  lemma InDepth<C>(s: Boot<C>, depth: map<C, nat>, c: C)
    requires IsDepth(s, depth) && c in s.components
    ensures c in depth
  {
  }

  lemma FirstHas<C>(s: Boot<C>, depth: map<C, nat>, c: C)
    requires Listed(s) && IsDepth(s, depth)
    ensures NoDup(Pick(s.components, s.deps, true))
    ensures c in Pick(s.components, s.deps, true) <==> c in s.components && depth[c] == 0
  {
    hide Pick, NoDup;
    PickNoDup(s.components, s.deps, true);
    if c in s.components {
      FirstLayer(s, depth, c);
    }
  }

  lemma RestHas<C>(s: Boot<C>, depth: map<C, nat>, c: C)
    requires Listed(s) && IsDepth(s, depth)
    ensures c in Round(s).components ==> c in s.components
    ensures c in s.components && depth[c] > 0 ==> c in Lowered(depth) && Lowered(depth)[c] == depth[c] - 1
  {
  }

  lemma FirstLayer<C>(s: Boot<C>, depth: map<C, nat>, c: C)
    requires Listed(s) && IsDepth(s, depth) && c in s.components
    ensures s.deps[c] == [] <==> depth[c] == 0
  {
    NothingBelow(s.deps[c], depth, depth[c]);
  }

  /** Components each of which waits for the next. */
  ghost predicate IsWait<C>(s: Boot<C>, ch: seq<C>)
  {
    && |ch| > 0 && (forall i :: 0 <= i < |ch| ==> ch[i] in s.components && ch[i] in s.deps)
    && (forall i :: 0 <= i < |ch| - 1 ==> ch[i + 1] in s.deps[ch[i]])
  }

  /** The layer number of a component is the length of its longest chain of dependencies: none is longer, ... */
  lemma {:induction false} NoLongerWait<C>(s: Boot<C>, depth: map<C, nat>, ch: seq<C>)
    requires IsDepth(s, depth) && IsWait(s, ch)
    ensures |ch| - 1 <= depth[ch[0]]
    decreases |ch|
  {
    if |ch| > 1 {
      var rest := ch[1..];
      forall i | 0 <= i < |rest| - 1
        ensures rest[i + 1] in s.deps[rest[i]]
      {
        assert ch[i + 1 + 1] in s.deps[ch[i + 1]];
      }
      assert ch[0 + 1] in s.deps[ch[0]];
      NoLongerWait(s, depth, rest);
    }
  }

  /** ... and one has this length. */
  lemma {:induction false} LongestWait<C>(s: Boot<C>, depth: map<C, nat>, c: C) returns (ch: seq<C>)
    requires IsDepth(s, depth) && c in s.components
    ensures IsWait(s, ch) && ch[0] == c && |ch| - 1 == depth[c]
    decreases depth[c]
  {
    ch := [c];
    if depth[c] > 0 {
      var d :| d in s.deps[c] && d in depth && depth[d] == depth[c] - 1;
      var rest := LongestWait(s, depth, d);
      ch := [c] + rest;
      forall i | 0 <= i < |ch| - 1
        ensures ch[i + 1] in s.deps[ch[i]]
      {
        if i > 0 {
          assert rest[i - 1 + 1] in s.deps[rest[i - 1]];
        }
      }
    }
  }

  // Going through the components one by one

  function One<C>(c: C, take: bool): seq<C>
  {
    if take then [c] else []
  }

  lemma PickStep<C>(cs: seq<C>, deps: map<C, seq<C>>, idle: bool)
    requires cs != [] && forall c :: c in cs ==> c in deps
    ensures Pick(cs, deps, idle) == One(cs[0], (deps[cs[0]] == []) == idle) + Pick(cs[1..], deps, idle)
  {
  }

  lemma {:induction false} PickMore<C>(cs: seq<C>, c: C, deps: map<C, seq<C>>, idle: bool)
    requires c in deps && forall x :: x in cs ==> x in deps
    ensures Pick(cs + [c], deps, idle) == Pick(cs, deps, idle) + One(c, (deps[c] == []) == idle)
    decreases |cs|
  {
    hide Pick;
    var t := cs + [c];
    PickStep(t, deps, idle);
    if cs == [] {
      NonePicked(cs, deps, idle);
      NonePicked(t[1..], deps, idle);
    } else {
      var rest := cs[1..];
      assert t[1..] == rest + [c] && t[0] == cs[0];
      PickMore(rest, c, deps, idle);
      PickStep(cs, deps, idle);
      Assoc(One(cs[0], (deps[cs[0]] == []) == idle), Pick(rest, deps, idle), One(c, (deps[c] == []) == idle));
    }
  }

  lemma NonePicked<C>(cs: seq<C>, deps: map<C, seq<C>>, idle: bool)
    requires cs == []
    ensures Pick(cs, deps, idle) == []
  {
  }

  lemma Assoc<C>(a: seq<C>, b: seq<C>, c: seq<C>)
    ensures a + (b + c) == (a + b) + c
  {
  }

  lemma {:induction false} WithoutHere<C>(a: seq<C>, c: C, b: seq<C>)
    requires c !in a
    ensures Without(a + ([c] + b), c) == a + b
  {
    hide Without;
    var s := a + ([c] + b);
    WithoutStep(s, c);
    if a != [] {
      WithoutHere(a[1..], c, b);
      assert s[0] == a[0] && s[1..] == a[1..] + ([c] + b);
      assert a + b == [a[0]] + (a[1..] + b);
    } else {
      assert s == [c] + b && a + b == b;
    }
  }

  lemma WithoutStep<C>(s: seq<C>, x: C)
    requires s != []
    ensures Without(s, x) == if s[0] == x then s[1..] else [s[0]] + Without(s[1..], x)
  {
  }

  lemma {:induction false} WithoutAllMore<C>(s: seq<C>, xs: seq<C>, x: C)
    ensures WithoutAll(s, xs + [x]) == Without(WithoutAll(s, xs), x)
    decreases |xs|
  {
    if xs == [] {
      assert xs + [x] == [x];
      assert WithoutAll(Without(s, x), []) == Without(s, x);
    } else {
      assert (xs + [x])[0] == xs[0] && (xs + [x])[1..] == xs[1..] + [x];
      WithoutAllMore(Without(s, xs[0]), xs[1..], x);
    }
  }

  lemma {:induction false} WithoutAllNothing<C>(xs: seq<C>)
    ensures WithoutAll([], xs) == []
    decreases |xs|
  {
    if xs != [] {
      WithoutAllNothing(xs[1..]);
    }
  }

  /** All components of all layers, in order. */
  function Flat<C>(layers: seq<seq<C>>): seq<C>
  {
    if layers == [] then [] else Flat(layers[..|layers| - 1]) + layers[|layers| - 1]
  }
}
