/** Counting free clusters: one entry at a time from cluster 2 on, or over a whole table, and what a scan that stops
    counts. */
module FreeCounts {
  import opened Chains

  /** A free cluster exists exactly when the count of free ones is not 0. */
  lemma {:induction false} SomeFree(f: seq<nat>, from: nat, to: nat)
    requires from <= to <= |f|
    ensures Zeros(f, from, to) == 0 <==> forall c :: from <= c < to ==> f[c] != 0
  {
    if from < to {
      SomeFree(f, from, to - 1);
    }
  }

  /** A cached count after `n` more clusters were freed: it goes no further than their number, and is left alone beyond
      that. */
  function MoreFree(free: nat, n: nat, most: nat): nat
  {
    if free >= most then free else if free + n <= most then free + n else most
  }

  /** How many clusters can be had: the free ones, but no more than a cached count in the range of counts allows. */
  function RoomIn(f: seq<nat>, free: nat): (n: nat)
    requires 2 <= |f|
  {
    if free <= |f| - 2 && free < FreeCount(f) then free else FreeCount(f)
  }

  /** None can be had exactly when none is free or the cached count is 0. */
  lemma RoomNone(f: seq<nat>, free: nat)
    requires 2 <= |f|
    ensures RoomIn(f, free) == 0 <==> NoneLeft(f, free)
  {
    SomeFree(f, 2, |f|);
  }

  /** Taking a cluster leaves room for one less, also when the cached count is wrong. */
  lemma RoomTaken(f: seq<nat>, free: nat, clst: nat, r: nat, eoc: nat)
    requires 2 <= |f| <= eoc && clst < |f| && 2 <= r < |f| && f[r] == 0 && (clst == 0 || f[clst] != 0) && free != 0
    ensures |Taken(f, clst, r, eoc)| == |f|
    ensures RoomIn(f, free) == RoomIn(Taken(f, clst, r, eoc), if free <= |f| - 2 then free - 1 else free) + 1
  {
    TakenCount(f, clst, r, eoc);
  }

  /** The scan of a whole table counts the free clusters, and the reserved entries if they are 0. */
  lemma {:induction false} ScanCounts(f: seq<nat>, n: nat)
    requires 2 <= n <= |f|
    ensures Zeros(f, 0, n) == Zeros(f, 2, n) + (if f[0] == 0 then 1 else 0) + (if f[1] == 0 then 1 else 0)
  {
    if n == 2 {
      assert Zeros(f, 0, 1) == if f[0] == 0 then 1 else 0;
    } else {
      ScanCounts(f, n - 1);
    }
  }

  /** The two ways of counting agree exactly when neither reserved entry is 0. */
  lemma CountsAgree(f: seq<nat>)
    requires 2 <= |f|
    ensures Zeros(f, 0, |f|) == FreeCount(f) <==> f[0] != 0 && f[1] != 0
  {
    ScanCounts(f, |f|);
  }

  lemma {:induction false} ZerosSplit(f: seq<nat>, from: nat, mid: nat, hi: nat)
    requires from <= mid <= hi <= |f|
    ensures Zeros(f, from, hi) == Zeros(f, from, mid) + Zeros(f, mid, hi)
    decreases hi
  {
    if mid < hi {
      ZerosSplit(f, from, mid, hi - 1);
    }
  }

  /** A count from cluster 2 on that stopped in front of entry `scanned` is right exactly when no cluster from there on
      is free. */
  lemma PartialCount(f: seq<nat>, scanned: nat)
    requires 2 <= scanned <= |f|
    ensures Zeros(f, 2, scanned) == FreeCount(f) <==> forall c :: scanned <= c < |f| ==> f[c] != 0
  {
    ZerosSplit(f, 2, scanned, |f|);
    SomeFree(f, scanned, |f|);
  }

  /** A count from entry 0 on that stopped in front of entry `scanned` is right exactly when the reserved entries it
      counted are as many as the free clusters it did not get to. */
  lemma PartialScan(f: seq<nat>, scanned: nat)
    requires 2 <= |f| && scanned <= |f|
    ensures Zeros(f, 0, scanned) == FreeCount(f)
      <==> if scanned <= 2 then Zeros(f, 0, scanned) == Zeros(f, 2, |f|) else Zeros(f, 0, 2) == Zeros(f, scanned, |f|)
  {
    if scanned > 2 {
      ZerosSplit(f, 2, scanned, |f|);
      ZerosSplit(f, 0, 2, scanned);
    }
  }

  /** The tables on which a scan for free clusters, on a device that works, counts them: with entries of 12 bits no free
      cluster lies behind an entry 1, where the scan stops, and otherwise neither reserved entry, which is counted, is
      0. */
  predicate Countable(f: seq<nat>, stops: bool)
    requires 2 <= |f|
  {
    if stops then forall c, d :: 2 <= c < d < |f| && f[c] == 1 ==> f[d] != 0 else f[0] != 0 && f[1] != 0
  }

  lemma WholeCount(f: seq<nat>)
    requires 2 <= |f|
    ensures Zeros(f, 0, |f|) == FreeCount(f) <==> Countable(f, false)
  {
    CountsAgree(f);
  }

  /** A scan that stops at the first entry 1. */
  lemma StoppedCount(f: seq<nat>, scanned: nat)
    requires 2 <= scanned <= |f| && (forall c :: 2 <= c < scanned ==> f[c] != 1) && (scanned < |f| ==> f[scanned] == 1)
    ensures Zeros(f, 2, scanned) == FreeCount(f) <==> Countable(f, true)
  {
    PartialCount(f, scanned);
    if scanned < |f| && Countable(f, true) {
      assert forall d :: scanned < d < |f| ==> f[d] != 0;
    }
  }
}
