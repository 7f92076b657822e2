/** Cluster chains in an allocation table, given as a plain array of entries. The clusters of a table
    `f` are the numbers from 2 below `|f|`: an entry 0 is free, an entry that is a cluster number is a
    link, and an entry of `|f|` or more ends a chain. */
module Chains {

  /** A chain: every cluster links to the next and the last one links nowhere. */
  ghost predicate IsChain(f: seq<nat>, ch: seq<nat>)
  {
    && 0 < |ch|
    && (forall i :: 0 <= i < |ch| ==> 2 <= ch[i] < |f|)
    && (forall i :: 0 <= i < |ch| - 1 ==> f[ch[i]] == ch[i + 1])
    && f[ch[|ch| - 1]] >= |f|
  }

  ghost predicate Disjoint(a: seq<nat>, b: seq<nat>)
  {
    forall c :: c in a ==> c !in b
  }

  ghost predicate OnSome(cs: set<seq<nat>>, c: nat)
  {
    exists ch :: ch in cs && c in ch
  }

  /** The table is this set of disjoint chains: every cluster in use is on one of them. */
  ghost predicate IsPartition(f: seq<nat>, cs: set<seq<nat>>)
  {
    && (forall ch :: ch in cs ==> IsChain(f, ch))
    && (forall a, b :: a in cs && b in cs && a != b ==> Disjoint(a, b))
    && (forall c: nat {:trigger OnSome(cs, c)} :: 2 <= c < |f| && f[c] != 0 ==> OnSome(cs, c))
  }

  /** No cluster is free, or none is according to the cached count. */
  ghost predicate NoneLeft(f: seq<nat>, free: nat)
  {
    free == 0 || forall c :: 2 <= c < |f| ==> f[c] != 0
  }

  /** Going on from cluster `start`, and around the end of the table, no free cluster comes in front of `c`. */
  ghost predicate NoneBetween(f: seq<nat>, start: nat, c: nat)
  {
    if start < c then forall d :: start < d < c && d < |f| ==> f[d] != 0
    else forall d :: (start < d || 2 <= d < c) && d < |f| ==> f[d] != 0
  }

  /** Next fit: a chain goes on with the cluster behind its last one, if that is free. Otherwise the first free one
      behind the cluster allocated last is taken, or behind the last one of the chain if that is not known, or the first
      of all for a new chain. */
  ghost predicate NextFit(f: seq<nat>, clst: nat, last: nat, r: nat)
    requires 2 < |f| && clst < |f|
  {
    && 2 <= r < |f| && f[r] == 0
    && var behind := if clst + 1 < |f| then clst + 1 else 2;
      if clst != 0 && f[behind] == 0 then r == behind
      else NoneBetween(f, if 2 <= last < |f| then last else if clst != 0 then clst else 1, r)
  }

  /** No cluster has the entry 1, which no operation ever stores. */
  ghost predicate Sane(f: seq<nat>)
  {
    forall c :: 2 <= c < |f| ==> f[c] != 1
  }

  /** The chains after `was` has become `now`; an empty sequence stands for no chain. */
  function Replaced(cs: set<seq<nat>>, was: seq<nat>, now: seq<nat>): set<seq<nat>>
  {
    if now == [] then cs - {was} else cs - {was} + {now}
  }

  /** No cluster appears twice on a chain: chains are acyclic. */
  lemma ChainDistinct(f: seq<nat>, ch: seq<nat>, i: nat, j: nat)
    requires IsChain(f, ch) && i < j < |ch|
    ensures ch[i] != ch[j]
    decreases |ch| - j
  {
    if ch[i] == ch[j] {
      assert f[ch[i]] == ch[i + 1];
      if j + 1 < |ch| {
        assert f[ch[j]] == ch[j + 1];
        ChainDistinct(f, ch, i + 1, j + 1);
      }
    }
  }

  /** A chain does not see changes of the table outside it. */
  lemma ChainFrame(f: seq<nat>, f': seq<nat>, ch: seq<nat>)
    requires IsChain(f, ch) && |f'| == |f|
    requires forall c :: c in ch ==> f'[c] == f[c]
    ensures IsChain(f', ch)
  {
  }

  lemma LinkUsed(f: seq<nat>, ch: seq<nat>, i: nat)
    requires IsChain(f, ch) && i < |ch|
    ensures f[ch[i]] >= 2
  {
    if i + 1 < |ch| {
      assert f[ch[i]] == ch[i + 1];
    }
  }

  /** The chain a cluster in use lies on, and where. */
  lemma Locate(f: seq<nat>, cs: set<seq<nat>>, a: nat) returns (p: seq<nat>, i: nat)
    requires IsPartition(f, cs) && 2 <= a < |f| && f[a] != 0
    ensures p in cs && i < |p| && p[i] == a
    ensures f[a] < |f| ==> i + 1 < |p| && p[i + 1] == f[a]
  {
    assert OnSome(cs, a);
    p :| p in cs && a in p;
    i :| 0 <= i < |p| && p[i] == a;
    if i + 1 < |p| {
      assert f[p[i]] == p[i + 1];
    }
  }

  /** In a table of disjoint chains no link points to a free cluster, and no entry is 1. */
  lemma LinkSound(f: seq<nat>, cs: set<seq<nat>>, a: nat)
    requires IsPartition(f, cs) && 2 <= a < |f| && f[a] != 0
    ensures f[a] >= 2
    ensures f[a] < |f| ==> f[f[a]] != 0
  {
    var p, i := Locate(f, cs, a);
    LinkUsed(f, p, i);
    if f[a] < |f| {
      LinkUsed(f, p, i + 1);
    }
  }

  lemma SameChain(f: seq<nat>, cs: set<seq<nat>>, p: seq<nat>, q: seq<nat>, c: nat)
    requires IsPartition(f, cs) && p in cs && q in cs && c in p && c in q
    ensures p == q
  {
    assert p != q ==> Disjoint(p, q);
  }

  /** In a table of disjoint chains no cluster has two predecessors. */
  lemma OnePredecessor(f: seq<nat>, cs: set<seq<nat>>, a: nat, b: nat)
    requires IsPartition(f, cs)
    requires 2 <= a < |f| && 2 <= b < |f| && 0 < f[a] == f[b] < |f|
    ensures a == b
  {
    var p, i := Locate(f, cs, a);
    var q, j := Locate(f, cs, b);
    SameChain(f, cs, p, q, f[a]);
    if i < j {
      ChainDistinct(f, p, i + 1, j + 1);
    } else if j < i {
      ChainDistinct(f, p, j + 1, i + 1);
    }
  }

  /** A free cluster is on no chain. */
  lemma FreeOffChains(f: seq<nat>, cs: set<seq<nat>>, c: nat, ch: seq<nat>)
    requires IsPartition(f, cs) && 2 <= c < |f| && f[c] == 0 && ch in cs
    ensures c !in ch
  {
    if c in ch {
      var i :| 0 <= i < |ch| && ch[i] == c;
      LinkUsed(f, ch, i);
    }
  }

  /** Replacing one chain of a partition: enough that the others do not see the change, that the new
      chain is disjoint from them, and that it has the clusters newly or still in use. */
  lemma ReplaceChain(f: seq<nat>, cs: set<seq<nat>>, f': seq<nat>, was: seq<nat>, now: seq<nat>)
    requires IsPartition(f, cs) && |f'| == |f|
    requires forall o :: o in cs && o != was ==> IsChain(f', o) && Disjoint(o, now)
    requires now == [] || IsChain(f', now)
    requires forall c: nat :: 2 <= c < |f| && f'[c] != 0 && (c in was || f[c] == 0) ==> c in now
    ensures IsPartition(f', Replaced(cs, was, now))
  {
    var cs' := Replaced(cs, was, now);
    forall a, b | a in cs' && b in cs' && a != b
      ensures Disjoint(a, b)
    {
      if a == now {
        assert Disjoint(b, now);
      }
    }
    forall c: nat | 2 <= c < |f'| && f'[c] != 0
      ensures OnSome(cs', c)
    {
      if c in now {
        assert now in cs';
      } else {
        var o, i := Locate(f, cs, c);
        assert o in cs';
      }
    }
  }

  /** Taking a free cluster as a chain of its own. */
  lemma NewChain(f: seq<nat>, cs: set<seq<nat>>, n: nat, eoc: nat)
    requires IsPartition(f, cs) && 2 <= n < |f| <= eoc && f[n] == 0
    ensures IsPartition(f[n := eoc], Replaced(cs, [], [n]))
  {
    var f' := f[n := eoc];
    forall o | o in cs
      ensures IsChain(f', o) && Disjoint(o, [n])
    {
      FreeOffChains(f, cs, n, o);
      ChainFrame(f, f', o);
    }
    ReplaceChain(f, cs, f', [], [n]);
  }

  lemma Stretched(f: seq<nat>, ch: seq<nat>, n: nat, eoc: nat, f': seq<nat>)
    requires IsChain(f, ch) && 2 <= n < |f| <= eoc && n !in ch
    requires f' == f[n := eoc][ch[|ch| - 1] := n]
    ensures IsChain(f', ch + [n])
  {
    var ch' := ch + [n];
    forall i | 0 <= i < |ch'| - 1
      ensures f'[ch'[i]] == ch'[i + 1]
    {
      if i < |ch| - 1 {
        ChainDistinct(f, ch, i, |ch| - 1);
        assert f[ch[i]] == ch[i + 1];
      }
    }
  }

  /** Linking a free cluster behind the tail of a chain. The other chains stay as they are. */
  lemma StretchChain(f: seq<nat>, cs: set<seq<nat>>, ch: seq<nat>, n: nat, eoc: nat)
    requires IsPartition(f, cs) && ch in cs && 2 <= n < |f| <= eoc && f[n] == 0
    ensures IsPartition(f[n := eoc][ch[|ch| - 1] := n], Replaced(cs, ch, ch + [n]))
  {
    var f' := f[n := eoc][ch[|ch| - 1] := n];
    FreeOffChains(f, cs, n, ch);
    Stretched(f, ch, n, eoc, f');
    forall o | o in cs && o != ch
      ensures IsChain(f', o) && Disjoint(o, ch + [n])
    {
      FreeOffChains(f, cs, n, o);
      assert Disjoint(o, ch);
      ChainFrame(f, f', o);
    }
    ReplaceChain(f, cs, f', ch, ch + [n]);
  }

  /** The table with these clusters freed. */
  function Freed(f: seq<nat>, cl: seq<nat>): (r: seq<nat>)
    ensures |r| == |f|
    ensures forall c: nat :: c < |f| ==> r[c] == if c in cl then 0 else f[c]
  {
    seq(|f|, c requires 0 <= c < |f| => if c in cl then 0 else f[c])
  }

  lemma CutPrefix(f: seq<nat>, ch: seq<nat>, k: nat, eoc: nat, f': seq<nat>)
    requires IsChain(f, ch) && 0 < k < |ch| && |f| <= eoc
    requires f' == Freed(f[ch[k - 1] := eoc], ch[k..])
    ensures IsChain(f', ch[..k])
  {
    var p := ch[..k];
    forall i | 0 <= i < k
      ensures f'[p[i]] == if i == k - 1 then eoc else ch[i + 1]
    {
      forall j | k <= j < |ch|
        ensures ch[j] != ch[i]
      {
        ChainDistinct(f, ch, i, j);
      }
      if i < k - 1 {
        ChainDistinct(f, ch, i, k - 1);
        assert f[ch[i]] == ch[i + 1];
      }
    }
  }

  /** Freeing the clusters of a chain from link `k` on and ending what is left of it. */
  lemma CutChain(f: seq<nat>, cs: set<seq<nat>>, ch: seq<nat>, k: nat, eoc: nat, f': seq<nat>)
    requires IsPartition(f, cs) && ch in cs && k < |ch| && |f| <= eoc
    requires f' == Freed(if k == 0 then f else f[ch[k - 1] := eoc], ch[k..])
    ensures IsPartition(f', Replaced(cs, ch, ch[..k]))
  {
    forall o | o in cs && o != ch
      ensures IsChain(f', o) && Disjoint(o, ch[..k])
    {
      assert Disjoint(o, ch);
      ChainFrame(f, f', o);
    }
    if k > 0 {
      CutPrefix(f, ch, k, eoc, f');
    }
    assert forall c :: c in ch ==> c in ch[..k] || c in ch[k..];
    ReplaceChain(f, cs, f', ch, ch[..k]);
  }

  /** Number of free entries from `from` below `to`. */
  function Zeros(f: seq<nat>, from: nat, to: nat): (z: nat)
    requires from <= to <= |f|
    ensures z <= to - from
  {
    if from == to then 0 else Zeros(f, from, to - 1) + if f[to - 1] == 0 then 1 else 0
  }

  /** Number of free clusters. */
  function FreeCount(f: seq<nat>): nat
    requires 2 <= |f|
  {
    Zeros(f, 2, |f|)
  }

  lemma {:induction false} ZerosUpdate(f: seq<nat>, i: nat, v: nat, from: nat, to: nat)
    requires from <= to <= |f| && i < |f|
    ensures Zeros(f[i := v], from, to) == Zeros(f, from, to)
      + (if from <= i < to && v == 0 then 1 else 0) - (if from <= i < to && f[i] == 0 then 1 else 0)
  {
    if from < to {
      ZerosUpdate(f, i, v, from, to - 1);
    }
  }

  lemma {:induction false} NoZeros(f: seq<nat>, from: nat, to: nat, c: nat)
    requires from <= c < to <= |f| && f[c] == 0
    ensures Zeros(f, from, to) > 0
  {
    if c < to - 1 {
      NoZeros(f, from, to - 1, c);
    }
  }

  lemma {:induction false} AllZeros(f: seq<nat>, from: nat, to: nat, c: nat)
    requires from <= c < to <= |f| && f[c] != 0
    ensures Zeros(f, from, to) < to - from
  {
    if c < to - 1 {
      AllZeros(f, from, to - 1, c);
    }
  }

  /** The table after the clusters from `c` on have been freed one by one, following the links. This
      ends on every table, also on a cyclic one, for each step leaves one more entry free. */
  function Unlinked(f: seq<nat>, c: nat): (r: seq<nat>)
    requires 2 <= c < |f|
    ensures |r| == |f|
    decreases |f| - Zeros(f, 0, |f|)
  {
    if f[c] <= 1 then
      f
    else
      ZerosUpdate(f, c, 0, 0, |f|);
      if f[c] < |f| then Unlinked(f[c := 0], f[c]) else f[c := 0]
  }

  /** Following the links from `c` on, and freeing them, meets an entry 1. */
  predicate MeetsOne(f: seq<nat>, c: nat)
    requires 2 <= c < |f|
    decreases |f| - Zeros(f, 0, |f|)
  {
    if f[c] <= 1 then
      f[c] == 1
    else
      ZerosUpdate(f, c, 0, 0, |f|);
      f[c] < |f| && MeetsOne(f[c := 0], f[c])
  }

  lemma ChainSuffix(f: seq<nat>, ch: seq<nat>, k: nat)
    requires IsChain(f, ch) && k < |ch|
    ensures IsChain(f, ch[k..])
  {
    var s := ch[k..];
    forall i | 0 <= i < |s| - 1
      ensures f[s[i]] == s[i + 1]
    {
      assert f[ch[k + i]] == ch[k + i + 1];
    }
  }

  /** On a chain, following the links frees the chain and nothing else. */
  lemma {:induction false} UnlinkedChain(f: seq<nat>, ch: seq<nat>)
    requires IsChain(f, ch)
    ensures Unlinked(f, ch[0]) == Freed(f, ch)
    ensures !MeetsOne(f, ch[0])
    decreases |ch|
  {
    var c := ch[0];
    if |ch| == 1 {
      assert Freed(f, ch) == f[c := 0];
    } else {
      var rest := ch[1..];
      var f' := f[c := 0];
      assert f[ch[0]] == ch[1];
      ChainSuffix(f, ch, 1);
      forall d | d in rest
        ensures f'[d] == f[d]
      {
        var j :| 0 <= j < |rest| && rest[j] == d;
        ChainDistinct(f, ch, 0, j + 1);
      }
      ChainFrame(f, f', rest);
      UnlinkedChain(f', rest);
      assert ch == [c] + rest;
      assert Freed(f', rest) == Freed(f, ch);
    }
  }

  /** Only free clusters and cluster `c` have another entry. */
  ghost predicate OnlyFree(f: seq<nat>, c: nat, f': seq<nat>)
  {
    |f'| == |f| && forall d :: 0 <= d < |f| && d != c && f[d] != 0 ==> f'[d] == f[d]
  }

  /** What taking cluster `r` for a new chain (`clst` 0) or behind `clst` does to the table. */
  function Taken(f: seq<nat>, clst: nat, r: nat, eoc: nat): seq<nat>
    requires clst < |f| && r < |f|
  {
    if clst == 0 then f[r := eoc] else f[r := eoc][clst := r]
  }

  /** The table just before the chain from `clst` on is freed: its predecessor, if given, ends. */
  function Ended(f: seq<nat>, pclst: nat, eoc: nat): (r: seq<nat>)
    requires pclst < |f|
    ensures |r| == |f|
  {
    if pclst == 0 then f else f[pclst := eoc]
  }

  /** Taking a free cluster leaves one free cluster less. */
  lemma TakenCount(f: seq<nat>, clst: nat, r: nat, eoc: nat)
    requires 2 <= |f| <= eoc && clst < |f| && 2 <= r < |f| && f[r] == 0 && (clst == 0 || f[clst] != 0)
    ensures FreeCount(f) > 0
    ensures FreeCount(Taken(f, clst, r, eoc)) == FreeCount(f) - 1
  {
    NoZeros(f, 2, |f|, r);
    ZerosUpdate(f, r, eoc, 2, |f|);
    if clst != 0 {
      ZerosUpdate(f[r := eoc], clst, r, 2, |f|);
    }
  }

  lemma TakenSane(f: seq<nat>, clst: nat, r: nat, eoc: nat)
    requires clst < |f| && 2 <= r < |f| <= eoc && Sane(f)
    ensures Sane(Taken(f, clst, r, eoc))
  {
  }
}
