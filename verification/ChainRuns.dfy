/** Runs of allocations and releases of clusters. */
module ChainRuns {
  import opened Bytes
  import opened FatTable
  import opened FatGeometry
  import opened FatWindow
  import opened Chains
  import opened FreeCounts
  import opened FatVolumes

  /** What one allocation or release does to the chains of a table. */
  datatype ChainOp =
    | Create(was: seq<nat>, r: nat)
    | Remove(was: seq<nat>, k: nat)

  /** An allocation behind the end of a chain, or for a new one, and a release from a link of a chain on. */
  ghost predicate Allowed(f: seq<nat>, cs: set<seq<nat>>, op: ChainOp)
  {
    match op
    case Create(was, r) => (was == [] || was in cs) && 2 <= r < |f| && f[r] == 0
    case Remove(was, k) => was in cs && k < |was|
  }

  function Tail(ch: seq<nat>): nat
  {
    if ch == [] then 0 else ch[|ch| - 1]
  }

  /** The table afterwards, as the allocator leaves it. */
  ghost function After(f: seq<nat>, cs: set<seq<nat>>, op: ChainOp, eoc: nat): seq<nat>
    requires IsPartition(f, cs) && Allowed(f, cs, op)
  {
    match op
    case Create(was, r) => Taken(f, Tail(was), r, eoc)
    case Remove(was, k) => Unlinked(Ended(f, if k == 0 then 0 else was[k - 1], eoc), was[k])
  }

  /** The chains afterwards: one chain has grown, is new, was cut or is gone, and the others are the same. */
  ghost function ChainsAfter(cs: set<seq<nat>>, op: ChainOp): set<seq<nat>>
    requires op.Remove? ==> op.k <= |op.was|
  {
    match op
    case Create(was, r) => Replaced(cs, was, was + [r])
    case Remove(was, k) => Replaced(cs, was, was[..k])
  }

  /** Releasing a chain from link `k` on frees exactly these links. */
  lemma RemoveFrees(f: seq<nat>, ch: seq<nat>, k: nat, eoc: nat)
    requires IsChain(f, ch) && k < |ch| && |f| <= eoc
    ensures var e := Ended(f, if k == 0 then 0 else ch[k - 1], eoc);
      Unlinked(e, ch[k]) == Freed(e, ch[k..]) && !MeetsOne(e, ch[k])
  {
    var e := Ended(f, if k == 0 then 0 else ch[k - 1], eoc);
    ChainSuffix(f, ch, k);
    var s := ch[k..];
    forall c | c in s
      ensures e[c] == f[c]
    {
      var j :| 0 <= j < |s| && s[j] == c;
      if k > 0 {
        ChainDistinct(f, ch, k - 1, k + j);
      }
    }
    ChainFrame(f, e, s);
    UnlinkedChain(e, s);
  }

  lemma InPartition(f: seq<nat>, cs: set<seq<nat>>, ch: seq<nat>)
    requires IsPartition(f, cs)
    ensures [] !in cs
    ensures ch in cs ==> IsChain(f, ch) && ch != [] && forall c :: c in ch ==> 2 <= c < |f|
  {
  }

  /** One operation keeps the table a set of disjoint chains. */
  lemma StepKeepsChains(f: seq<nat>, cs: set<seq<nat>>, op: ChainOp, eoc: nat)
    requires IsPartition(f, cs) && Allowed(f, cs, op) && |f| <= eoc
    ensures |After(f, cs, op, eoc)| == |f| && IsPartition(After(f, cs, op, eoc), ChainsAfter(cs, op))
  {
    hide IsPartition, Unlinked, MeetsOne, IsChain, Freed;
    InPartition(f, cs, op.was);
    match op
    case Create(was, r) =>
      if was == [] {
        NewChain(f, cs, r, eoc);
        assert was + [r] == [r];
      } else {
        StretchChain(f, cs, was, r, eoc);
      }
    case Remove(was, k) =>
      RemoveFrees(f, was, k, eoc);
      CutChain(f, cs, was, k, eoc, After(f, cs, op, eoc));
  }

  /** A run: every operation is allowed when it happens. */
  ghost predicate IsRun(f: seq<nat>, cs: set<seq<nat>>, ops: seq<ChainOp>, eoc: nat)
    decreases |ops|
  {
    ops == [] || (IsPartition(f, cs) && Allowed(f, cs, ops[0]) &&
      IsRun(After(f, cs, ops[0], eoc), ChainsAfter(cs, ops[0]), ops[1..], eoc))
  }

  ghost function Final(f: seq<nat>, cs: set<seq<nat>>, ops: seq<ChainOp>, eoc: nat): (seq<nat>, set<seq<nat>>)
    requires IsRun(f, cs, ops, eoc)
    decreases |ops|
  {
    if ops == [] then (f, cs) else Final(After(f, cs, ops[0], eoc), ChainsAfter(cs, ops[0]), ops[1..], eoc)
  }

  /** Is this chain the one some operation of the run works on? */
  ghost predicate Concerned(ch: seq<nat>, ops: seq<ChainOp>)
  {
    exists i :: 0 <= i < |ops| && ops[i].was == ch
  }

  /** Every run keeps the table a set of disjoint chains, and every chain no operation works on. */
  lemma {:induction false} RunKeepsChains(f: seq<nat>, cs: set<seq<nat>>, ops: seq<ChainOp>, eoc: nat)
    requires IsPartition(f, cs) && IsRun(f, cs, ops, eoc) && |f| <= eoc
    ensures var (f', cs') := Final(f, cs, ops, eoc);
      && |f'| == |f| && IsPartition(f', cs')
      && forall ch :: ch in cs && !Concerned(ch, ops) ==> ch in cs'
    decreases |ops|
  {
    if ops != [] {
      StepKeepsChains(f, cs, ops[0], eoc);
      RunKeepsChains(After(f, cs, ops[0], eoc), ChainsAfter(cs, ops[0]), ops[1..], eoc);
      var cs' := Final(f, cs, ops, eoc).1;
      forall ch | ch in cs && !Concerned(ch, ops)
        ensures ch in cs'
      {
        assert ch != ops[0].was;
        assert ch in ChainsAfter(cs, ops[0]);
        assert !Concerned(ch, ops[1..]);
      }
    }
  }

  // The operations of a volume, seen on its chains

  /** Allocates a cluster behind the end of a chain, or for a new one when `was` is empty. */
  method CreateOnChains(fs: FatVolume, clst: nat, ghost cs: set<seq<nat>>, ghost was: seq<nat>) returns (r: nat)
    requires fs.Valid() && fs.g.Valid(fs.size) && IsPartition(fs.Fat(), cs) && (was == [] || was in cs)
    requires clst == Tail(was)
    modifies fs, fs.win, fs.disk
    ensures fs.Valid() && r != 1
    ensures 1 < r != MAX32 ==>
      Allowed(old(fs.Fat()), cs, Create(was, r)) && IsPartition(fs.Fat(), ChainsAfter(cs, Create(was, r)))
    ensures r == 0 ==> fs.Fat() == old(fs.Fat())
    ensures r != MAX32 && old(fs.CacheOk()) ==>
      fs.CacheOk() && (r == 0 <==> forall c :: 2 <= c < fs.g.nFatent ==> old(fs.Fat())[c] != 0)
    ensures fs.disk.Healthy() ==> r != MAX32
  {
    hide FatVolume.Valid, FatVolume.Fat, Geometry.Valid, IsPartition, Zeros;
    ghost var f := fs.Fat();
    fs.Limits();
    TailOf(f, cs, was);
    SomeFree(f, 2, |f|);
    r := fs.CreateChain(clst);
    if 1 < r != MAX32 {
      StepKeepsChains(f, cs, Create(was, r), fs.Eoc());
    }
  }

  lemma TailOf(f: seq<nat>, cs: set<seq<nat>>, was: seq<nat>)
    requires IsPartition(f, cs) && (was == [] || was in cs)
    ensures Sane(f) && [] !in cs
    ensures was != [] ==> 2 <= Tail(was) < |f| && f[Tail(was)] >= |f|
  {
    forall c | 2 <= c < |f|
      ensures f[c] != 1
    {
      if f[c] != 0 {
        LinkSound(f, cs, c);
      }
    }
  }

  /** Releases a chain from link `k` on. */
  method RemoveFromChain(fs: FatVolume, clst: nat, pclst: nat, ghost cs: set<seq<nat>>, ghost was: seq<nat>,
                         ghost k: nat)
    returns (res: FResult)
    requires fs.Valid() && fs.g.Valid(fs.size) && IsPartition(fs.Fat(), cs) && was in cs && k < |was|
    requires clst == was[k] && pclst == (if k == 0 then 0 else was[k - 1])
    modifies fs, fs.win, fs.disk
    ensures fs.Valid() && (res == Ok || res == DiskErr)
    ensures res == Ok ==> IsPartition(fs.Fat(), ChainsAfter(cs, Remove(was, k)))
    ensures res == Ok && old(fs.CacheOk()) ==> fs.CacheOk()
    ensures fs.disk.Healthy() ==> res == Ok
  {
    hide FatVolume.Valid, FatVolume.Fat, Geometry.Valid, Zeros;
    ghost var f := fs.Fat();
    fs.Limits();
    RemoveFrees(f, was, k, fs.Eoc());
    if k > 0 {
      LinkUsed(f, was, k - 1);
    }
    StepKeepsChains(f, cs, Remove(was, k), fs.Eoc());
    res := fs.RemoveChain(clst, pclst);
  }
}
