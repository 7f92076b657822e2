/** The spinlock under any interleaving of its threads. Taking it reads the lock variable first and exchanges it in a
    second step. */
module Spinlock {

  /** Where a thread is: outside, before its read, between its read and its exchange, or holding the lock. A thread that
      only tries to take the lock gives up when it does not get it. */
  datatype Pc = Outside | Reading(trying: bool) | Exchanging(seen: bool, trying: bool) | Holding

  /** `locked` is the lock variable. */
  datatype State = State(locked: bool, pc: seq<Pc>)

  datatype Step = Begin(t: nat, trying: bool) | Read(t: nat) | Exchange(t: nat) | Release(t: nat)

  predicate Enabled(s: State, e: Step)
  {
    e.t < |s.pc| && match e
    case Begin(t, _) => s.pc[t] == Outside
    case Read(t) => s.pc[t].Reading?
    case Exchange(t) => s.pc[t].Exchanging?
    case Release(t) => s.pc[t] == Holding
  }

  /** The exchange stores the new value only if the variable still has the value read before, but always tells the value
      it found. */
  function Next(s: State, e: Step): State
    requires Enabled(s, e)
  {
    match e
    case Begin(t, trying) => s.(pc := s.pc[t := Reading(trying)])
    case Read(t) => s.(pc := s.pc[t := Exchanging(s.locked, s.pc[t].trying)])
    case Exchange(t) =>
      var found := s.locked;
      var locked := if found == s.pc[t].seen then true else found;
      State(locked, s.pc[t := if !found then Holding else if s.pc[t].trying then Outside else Reading(false)])
    case Release(t) => State(false, s.pc[t := Outside])
  }

  predicate AnyHolds(s: State)
  {
    exists t :: 0 <= t < |s.pc| && s.pc[t] == Holding
  }

  /** At most one thread holds the lock, and the variable says whether one does. */
  ghost predicate Exclusive(s: State)
  {
    && (forall t, u :: 0 <= t < |s.pc| && 0 <= u < |s.pc| && s.pc[t] == Holding && s.pc[u] == Holding ==> t == u)
    && (s.locked <==> AnyHolds(s))
  }

  /** The thread read the lock as taken, and it was released since. */
  predicate Stale(s: State, t: nat)
  {
    t < |s.pc| && s.pc[t].Exchanging? && s.pc[t].seen && !s.locked
  }

  lemma HolderIs(s: State, t: nat)
    requires t < |s.pc| && s.pc[t] == Holding
    ensures AnyHolds(s)
  {
  }

  /** A step keeps the lock exclusive, exactly when it is not the exchange of a thread that read the lock before it was
      released. */
  lemma StepExclusive(s: State, e: Step)
    requires Exclusive(s) && Enabled(s, e)
    ensures Exclusive(Next(s, e)) <==> !(e.Exchange? && Stale(s, e.t))
  {
    var n, t := Next(s, e), e.t;
    if e.Exchange? && !s.locked {
      assert n.pc[t] == Holding;
      HolderIs(n, t);
    } else if !e.Release? {
      assert AnyHolds(n) <==> AnyHolds(s) by {
        if AnyHolds(s) {
          var u :| 0 <= u < |s.pc| && s.pc[u] == Holding;
          HolderIs(n, u);
        }
        if AnyHolds(n) {
          var u :| 0 <= u < |n.pc| && n.pc[u] == Holding;
          HolderIs(s, u);
        }
      }
    }
  }

  // Runs

  predicate IsRun(s: State, es: seq<Step>)
    decreases |es|
  {
    es == [] || (Enabled(s, es[0]) && IsRun(Next(s, es[0]), es[1..]))
  }

  function After(s: State, es: seq<Step>): (r: State)
    requires IsRun(s, es)
    ensures |r.pc| == |s.pc|
    decreases |es|
  {
    if es == [] then s else After(Next(s, es[0]), es[1..])
  }

  /** A thread on its way to take the lock, and not only trying to. */
  predicate IsWaiting(p: Pc)
  {
    (p.Reading? || p.Exchanging?) && !p.trying
  }

  /** A thread that waits for the lock goes on until it holds it: in every run it waits still, or did hold the lock at
      some point. */
  lemma {:induction false} WaitsForLock(s: State, es: seq<Step>, t: nat) returns (k: nat)
    requires IsRun(s, es) && t < |s.pc| && IsWaiting(s.pc[t])
    ensures IsWaiting(After(s, es).pc[t]) || (k <= |es| && IsRun(s, es[..k]) && After(s, es[..k]).pc[t] == Holding)
    decreases |es|
  {
    hide Next, Enabled;
    k := 0;
    if es != [] {
      var n := Next(s, es[0]);
      WaitsOn(s, es[0], t);
      if n.pc[t] == Holding {
        k := 1;
        FirstSteps(s, es, 1);
      } else {
        k := WaitsForLock(n, es[1..], t);
        k := k + 1;
        if k <= |es| {
          FirstSteps(s, es, k);
        }
      }
    }
  }

  /** A step leaves a waiting thread waiting, or the thread holds the lock. */
  lemma WaitsOn(s: State, e: Step, t: nat)
    requires Enabled(s, e) && t < |s.pc| && IsWaiting(s.pc[t])
    ensures |Next(s, e).pc| == |s.pc| && (IsWaiting(Next(s, e).pc[t]) || Next(s, e).pc[t] == Holding)
  {
  }

  lemma FirstSteps(s: State, es: seq<Step>, k: nat)
    requires IsRun(s, es) && 0 < k <= |es|
    ensures IsRun(Next(s, es[0]), es[1..][..k - 1]) ==>
      IsRun(s, es[..k]) && After(s, es[..k]) == After(Next(s, es[0]), es[1..][..k - 1])
    ensures k == 1 ==> IsRun(s, es[..1]) && After(s, es[..1]) == Next(s, es[0])
  {
    hide Next, Enabled;
    assert es[..k][0] == es[0] && es[..k][1..] == es[1..][..k - 1];
    assert es[..1][0] == es[0] && es[..1][1..] == [];
  }

  /** A thread that only tries is done with its exchange: it holds the lock if that was free, and is outside if not. */
  lemma TryEnds(s: State, t: nat)
    requires Enabled(s, Exchange(t)) && s.pc[t].trying
    ensures Next(s, Exchange(t)).pc[t] == if s.locked then Outside else Holding
    ensures forall u :: 0 <= u < |s.pc| && u != t ==> Next(s, Exchange(t)).pc[u] == s.pc[u]
  {
  }

  /** All threads outside, and the lock free. */
  function Initial(n: nat): State
  {
    State(false, seq(n, _ => Outside))
  }

  /** No thread is between a read that found the lock taken and its exchange. */
  predicate NoneBetween(s: State)
  {
    forall t :: 0 <= t < |s.pc| && s.pc[t].Exchanging? ==> !s.pc[t].seen
  }

  /** No release of the run falls between the read of a waiting thread and its exchange. */
  predicate Undisturbed(s: State, es: seq<Step>)
    requires IsRun(s, es)
    decreases |es|
  {
    es == [] || ((es[0].Release? ==> NoneBetween(s)) && Undisturbed(Next(s, es[0]), es[1..]))
  }

  /** No thread has an outdated view of the lock. */
  predicate Current(s: State)
  {
    s.locked || NoneBetween(s)
  }

  lemma StepCurrent(s: State, e: Step)
    requires Current(s) && Enabled(s, e) && (e.Release? ==> NoneBetween(s))
    ensures Current(Next(s, e))
  {
    var n := Next(s, e);
    if !n.locked {
      forall t | 0 <= t < |n.pc| && n.pc[t].Exchanging?
        ensures !n.pc[t].seen
      {
      }
    }
  }

  /** The lock is exclusive all along the run. */
  ghost predicate StaysExclusive(s: State, es: seq<Step>)
    requires IsRun(s, es)
    decreases |es|
  {
    Exclusive(s) && (es == [] || StaysExclusive(Next(s, es[0]), es[1..]))
  }

  /** No exchange of the run is one of a thread that read the lock before it was released. */
  predicate NoneStale(s: State, es: seq<Step>)
    requires IsRun(s, es)
    decreases |es|
  {
    es == [] || (!(es[0].Exchange? && Stale(s, es[0].t)) && NoneStale(Next(s, es[0]), es[1..]))
  }

  /** In every interleaving from an exclusive state, the lock stays exclusive exactly when no exchange is stale. */
  lemma {:induction false} ExclusiveExactly(s: State, es: seq<Step>)
    requires Exclusive(s) && IsRun(s, es)
    ensures StaysExclusive(s, es) <==> NoneStale(s, es)
    decreases |es|
  {
    if es != [] {
      StepExclusive(s, es[0]);
      var n := Next(s, es[0]);
      if Exclusive(n) {
        ExclusiveExactly(n, es[1..]);
      }
    }
  }

  /** Mutual exclusion: in every interleaving, as long as no release falls between a waiting thread's read and its
      exchange. */
  lemma {:induction false} MutualExclusion(s: State, es: seq<Step>)
    requires Exclusive(s) && Current(s) && IsRun(s, es) && Undisturbed(s, es)
    ensures StaysExclusive(s, es) && Exclusive(After(s, es))
    decreases |es|
  {
    if es != [] {
      StepExclusive(s, es[0]);
      StepCurrent(s, es[0]);
      MutualExclusion(Next(s, es[0]), es[1..]);
    }
  }

  lemma StartsExclusive(n: nat)
    ensures Exclusive(Initial(n)) && Current(Initial(n))
  {
  }

  /** Any thread with an outdated view takes itself for the holder, and any thread outside can then take the lock,
      too. */
  lemma StaleBreaks(s: State, t: nat, u: nat)
    requires Stale(s, t) && u < |s.pc| && u != t && s.pc[u] == Outside
    ensures var es := [Exchange(t), Begin(u, false), Read(u), Exchange(u)];
      IsRun(s, es) && After(s, es).pc[t] == Holding && After(s, es).pc[u] == Holding
  {
    hide IsRun, After;
    var s1 := Next(s, Exchange(t));
    var s2 := Next(s1, Begin(u, false));
    var s3 := Next(s2, Read(u));
    var s4 := Next(s3, Exchange(u));
    NoSteps(s4);
    OneStep(s3, Exchange(u), [], [Exchange(u)]);
    OneStep(s2, Read(u), [Exchange(u)], [Read(u), Exchange(u)]);
    OneStep(s1, Begin(u, false), [Read(u), Exchange(u)], [Begin(u, false), Read(u), Exchange(u)]);
    OneStep(s, Exchange(t), [Begin(u, false), Read(u), Exchange(u)],
      [Exchange(t), Begin(u, false), Read(u), Exchange(u)]);
  }

  /** A release between a read and its exchange gives such a view: the second of two threads reads the lock while the
      first holds it. */
  lemma StaleReached()
    ensures var es := [Begin(0, false), Read(0), Exchange(0), Begin(1, false), Read(1), Release(0)];
      IsRun(Initial(2), es) && Stale(After(Initial(2), es), 1) && After(Initial(2), es).pc[0] == Outside
  {
    hide IsRun, After;
    var s0 := Initial(2);
    var s1 := Next(s0, Begin(0, false));
    var s2 := Next(s1, Read(0));
    var s3 := Next(s2, Exchange(0));
    var s4 := Next(s3, Begin(1, false));
    var s5 := Next(s4, Read(1));
    var s6 := Next(s5, Release(0));
    NoSteps(s6);
    OneStep(s5, Release(0), [], [Release(0)]);
    OneStep(s4, Read(1), [Release(0)], [Read(1), Release(0)]);
    OneStep(s3, Begin(1, false), [Read(1), Release(0)], [Begin(1, false), Read(1), Release(0)]);
    OneStep(s2, Exchange(0), [Begin(1, false), Read(1), Release(0)],
      [Exchange(0), Begin(1, false), Read(1), Release(0)]);
    OneStep(s1, Read(0), [Exchange(0), Begin(1, false), Read(1), Release(0)],
      [Read(0), Exchange(0), Begin(1, false), Read(1), Release(0)]);
    OneStep(s0, Begin(0, false), [Read(0), Exchange(0), Begin(1, false), Read(1), Release(0)],
      [Begin(0, false), Read(0), Exchange(0), Begin(1, false), Read(1), Release(0)]);
  }

  lemma NoSteps(s: State)
    ensures IsRun(s, []) && After(s, []) == s
  {
  }

  /** A run with one more step in front. */
  lemma OneStep(s: State, e: Step, es: seq<Step>, all: seq<Step>)
    requires Enabled(s, e) && IsRun(Next(s, e), es) && all == [e] + es
    ensures IsRun(s, all) && After(s, all) == After(Next(s, e), es)
  {
    assert all[1..] == es;
  }
}
