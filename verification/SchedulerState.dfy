/** The scheduler as a state machine over values: where every thread is, and how long one waits. */
module SchedulerState {
  import opened Optional
  import opened Lists

  /** One ready queue for each priority, the running thread, what is known of the threads, and the number of times the
      priority pattern was asked. */
  datatype State<T(==)> = State(queues: seq<seq<T>>, current: Option<T>, prio: map<T, nat>, started: set<T>,
    finished: set<T>, asked: nat)

  /** `pat` has the priority to look at for every value of the 8-bit counter of the pattern. */
  predicate IsPattern(pat: seq<nat>, levels: nat)
  {
    |pat| == 256 && forall i :: 0 <= i < 256 ==> pat[i] < levels
  }

  /** The answer of the pattern when it is asked for the time `i`. */
  function LevelAt(pat: seq<nat>, i: nat): nat
    requires |pat| == 256
  {
    pat[i % 256]
  }

  /** The first time from `i` on the pattern comes to level `l`, if that happens within `n` steps. */
  function Visit(pat: seq<nat>, i: nat, l: nat, n: nat): (m: nat)
    requires |pat| == 256
    ensures i <= m <= i + n
    ensures forall j :: i <= j < m ==> LevelAt(pat, j) != l
    ensures m < i + n ==> LevelAt(pat, m) == l
    decreases n
  {
    if n == 0 || LevelAt(pat, i) == l then i else Visit(pat, i + 1, l, n - 1)
  }

  /** From every position the pattern comes to every level within `k` steps. */
  ghost predicate Visits(pat: seq<nat>, levels: nat, k: nat)
  {
    && IsPattern(pat, levels)
    && forall i: nat, l: nat {:trigger Visit(pat, i, l, k)} :: l < levels ==> Visit(pat, i, l, k) < i + k
  }

  /** Is a thread waiting? */
  predicate Waiting<T>(queues: seq<seq<T>>)
  {
    exists l :: 0 <= l < |queues| && |queues[l]| > 0
  }

  /** The first time from `i` on the pattern comes to a queue that is not empty, within `n` steps. */
  function Stop<T>(pat: seq<nat>, queues: seq<seq<T>>, i: nat, n: nat): (m: nat)
    requires IsPattern(pat, |queues|)
    ensures i <= m <= i + n
    ensures forall j :: i <= j < m ==> |queues[LevelAt(pat, j)]| == 0
    ensures m < i + n ==> |queues[LevelAt(pat, m)]| > 0
    decreases n
  {
    if n == 0 || |queues[LevelAt(pat, i)]| > 0 then i else Stop(pat, queues, i + 1, n - 1)
  }

  /** The search stops at the latest where the pattern comes to a queue that is not empty. */
  lemma StopsInTime<T>(pat: seq<nat>, queues: seq<seq<T>>, i: nat, l: nat, k: nat)
    requires Visits(pat, |queues|, k) && l < |queues| && |queues[l]| > 0
    ensures Stop(pat, queues, i, k) <= Visit(pat, i, l, k) < i + k
  {
    var m := Visit(pat, i, l, k);
    assert LevelAt(pat, m) == l;
  }

  /** Steps of the pattern that do not come to the level do not change when it will. */
  lemma SameVisit(pat: seq<nat>, levels: nat, i: nat, l: nat, j: nat, k: nat)
    requires Visits(pat, levels, k) && l < levels && i <= j <= Visit(pat, i, l, k)
    ensures Visit(pat, j, l, k) == Visit(pat, i, l, k)
  {
    var m, r := Visit(pat, i, l, k), Visit(pat, j, l, k);
    assert LevelAt(pat, m) == l && LevelAt(pat, r) == l;
  }

  // Steps

  function Push<T>(queues: seq<seq<T>>, l: nat, t: T): (r: seq<seq<T>>)
    requires l < |queues|
    ensures |r| == |queues|
  {
    queues[l := queues[l] + [t]]
  }

  function Drop<T(==)>(queues: seq<seq<T>>, l: nat, t: T): (r: seq<seq<T>>)
    requires l < |queues|
    ensures |r| == |queues|
  {
    queues[l := Without(queues[l], t)]
  }

  /** Everything the scheduler is told. */
  datatype Event<T> = Start(t: T) | Exit | Kill(t: T) | Yield | Block | Deblock(t: T) | SetPriority(t: T, p: nat)

  function Clamp(p: nat, levels: nat): nat
    requires levels > 0
  {
    if p > levels - 1 then levels - 1 else p
  }

  /** Every thread the scheduler has heard of has a priority. */
  predicate Known<T>(s: State<T>)
  {
    && |s.queues| > 0
    && (forall t :: t in s.prio ==> s.prio[t] < |s.queues|)
    && s.started <= s.prio.Keys
  }

  /** Is the thread in one of the queues? */
  predicate Queued<T>(s: State<T>, t: T)
    requires t in s.prio && s.prio[t] < |s.queues|
  {
    t in s.queues[s.prio[t]]
  }

  predicate Running<T(==)>(s: State<T>, t: T)
  {
    s.current == Some(t)
  }

  /** A thread that was started, has not finished, and neither runs nor is in its queue. */
  predicate Blocked<T>(s: State<T>, t: T)
    requires t in s.prio && s.prio[t] < |s.queues|
  {
    t in s.started && t !in s.finished && !Running(s, t) && !Queued(s, t)
  }

  /** What the scheduler does not refuse: a thread is started once, one that leaves needs another one waiting, and none
      kills itself. */
  predicate Accepted<T>(s: State<T>, e: Event<T>)
    requires Known(s)
  {
    match e
    case Start(t) => t in s.prio && t !in s.started
    case Exit => s.current.Some? && Waiting(s.queues)
    case Kill(t) => s.current.Some? && t in s.prio && !Running(s, t)
    case Yield => s.current.Some?
    case Block => s.current.Some? && Waiting(s.queues)
    case Deblock(t) => s.current.Some? && t in s.prio
    case SetPriority(t, p) => t in s.prio
  }

  /** What callers keep to besides: no thread is started that was killed before, only blocked ones are deblocked, and
      the priority is only changed of those that were started and have not finished. */
  predicate Permitted<T>(s: State<T>, e: Event<T>)
    requires Known(s)
    ensures Permitted(s, e) ==> Accepted(s, e)
  {
    Accepted(s, e) && match e
    case Start(t) => t !in s.finished
    case Deblock(t) => Blocked(s, t)
    case SetPriority(t, p) => t in s.started && t !in s.finished
    case _ => true
  }

  /** The thread the search comes to, and the queues without it. */
  function Chosen<T>(pat: seq<nat>, s: State<T>, k: nat): nat
    requires IsPattern(pat, |s.queues|)
  {
    Stop(pat, s.queues, s.asked, k)
  }

  /** Takes the next thread out of its queue and runs it. */
  function Dispatch<T>(pat: seq<nat>, s: State<T>, k: nat): (r: State<T>)
    requires IsPattern(pat, |s.queues|) && Chosen(pat, s, k) < s.asked + k
  {
    var m := Chosen(pat, s, k);
    var q := s.queues[LevelAt(pat, m)];
    s.(current := Some(q[0]), queues := s.queues[LevelAt(pat, m) := q[1..]], asked := m + 1)
  }

  /** Does this step dispatch a thread? */
  predicate Dispatches<T>(s: State<T>, e: Event<T>)
  {
    e.Exit? || e.Block? || (e.Yield? && Waiting(s.queues))
  }

  function Step<T>(pat: seq<nat>, s: State<T>, e: Event<T>, k: nat): State<T>
    requires Known(s) && IsPattern(pat, |s.queues|) && Accepted(s, e)
    requires Dispatches(s, e) ==> Chosen(pat, s, k) < s.asked + k
    requires s.current.Some? ==> s.current.value in s.prio
  {
    match e
    case Start(t) => s.(queues := Push(s.queues, s.prio[t], t), started := s.started + {t})
    case Exit => Dispatch(pat, s, k).(finished := s.finished + {s.current.value})
    case Kill(t) => s.(queues := Drop(s.queues, s.prio[t], t), finished := s.finished + {t})
    case Yield =>
      if !Waiting(s.queues) then s
      else
        var r := Dispatch(pat, s, k);
        r.(queues := Push(r.queues, s.prio[s.current.value], s.current.value))
    case Block => Dispatch(pat, s, k)
    case Deblock(t) => s.(queues := Push(s.queues, s.prio[t], t))
    case SetPriority(t, p) =>
      var c := Clamp(p, |s.queues|);
      if Running(s, t) then s.(prio := s.prio[t := c])
      else s.(queues := Push(Drop(s.queues, s.prio[t], t), c, t), prio := s.prio[t := c])
  }

  // Where every thread is

  /** Every thread in a queue was started, has not finished, does not run, is in the queue of its priority and is there
      once; the running thread was started and has not finished. */
  ghost predicate Located<T>(s: State<T>)
  {
    && Known(s)
    && (s.current.Some? ==> s.current.value in s.started && s.current.value !in s.finished)
    && (forall l :: 0 <= l < |s.queues| ==> NoDup(s.queues[l]))
    && (forall l, t :: 0 <= l < |s.queues| && t in s.queues[l] ==>
          t in s.started && t !in s.finished && !Running(s, t) && s.prio[t] == l)
  }

  predicate OnlyAt<T(==)>(q: seq<T>, i: int, t: T)
  {
    0 <= i < |q| && forall j :: 0 <= j < |q| ==> (q[j] == t <==> j == i)
  }

  /** A started, unfinished thread runs, or is blocked, or is exactly once in the queue of its own priority and in no
      other. */
  lemma OnePlace<T>(s: State<T>, t: T)
    requires Located(s) && t in s.started && t !in s.finished
    ensures Running(s, t) || Blocked(s, t) || Queued(s, t)
    ensures !(Running(s, t) && Queued(s, t))
    ensures forall l :: 0 <= l < |s.queues| && l != s.prio[t] ==> t !in s.queues[l]
    ensures Queued(s, t) ==> exists i :: OnlyAt(s.queues[s.prio[t]], i, t)
  {
    if Queued(s, t) {
      var q := s.queues[s.prio[t]];
      var i :| 0 <= i < |q| && q[i] == t;
      forall j | 0 <= j < |q| && j != i
        ensures q[j] != t
      {
        assert i < j || j < i;
      }
      assert OnlyAt(q, i, t);
    }
  }

  lemma OnceMore<T>(x: T, w: seq<T>)
    requires NoDup(w) && x !in w
    ensures NoDup([x] + w) && NoDup(w + [x])
  {
    var r, e := [x] + w, w + [x];
    forall i, j | 0 <= i < j < |r|
      ensures r[i] != r[j] && e[i] != e[j]
    {
      assert r[j] == w[j - 1] && w[j - 1] in w;
      assert e[i] == w[i] && w[i] in w;
    }
  }

  lemma WithoutFirst<T>(q: seq<T>)
    requires NoDup(q) && q != []
    ensures NoDup(q[1..]) && q[0] !in q[1..] && forall x :: x != q[0] ==> (x in q[1..] <==> x in q)
  {
    var rest := q[1..];
    assert forall n :: 0 <= n < |rest| ==> rest[n] == q[n + 1];
    assert q == [q[0]] + rest;
  }

  /** The search ends whenever a thread is waiting. */
  lemma SearchEnds<T>(pat: seq<nat>, s: State<T>, k: nat)
    requires Visits(pat, |s.queues|, k) && Waiting(s.queues)
    ensures Chosen(pat, s, k) < s.asked + k
  {
    var l :| 0 <= l < |s.queues| && |s.queues[l]| > 0;
    StopsInTime(pat, s.queues, s.asked, l, k);
  }

  /** A dispatch takes a waiting thread out of its queue, never one that has finished. */
  lemma DispatchLocated<T>(pat: seq<nat>, s: State<T>, k: nat)
    requires Located(s) && s.current.Some? && Visits(pat, |s.queues|, k) && Waiting(s.queues)
    ensures Chosen(pat, s, k) < s.asked + k
    ensures var r := Dispatch(pat, s, k); var c := s.current.value;
      && r.current.Some? && r.current.value != c && r.current.value in s.started && r.current.value !in s.finished
      && Located(r) && (forall l :: 0 <= l < |r.queues| ==> c !in r.queues[l])
  {
    SearchEnds(pat, s, k);
    var l := LevelAt(pat, Chosen(pat, s, k));
    var q := s.queues[l];
    assert NoDup(q) && q[0] in q;
    WithoutFirst(q);
    var r := Dispatch(pat, s, k);
    forall m, t | 0 <= m < |r.queues| && t in r.queues[m]
      ensures t in r.started && t !in r.finished && !Running(r, t) && r.prio[t] == m && t != s.current.value
    {
      assert t in s.queues[m];
    }
  }

  /** Pushing a thread keeps every thread in its place exactly when that one was blocked. */
  lemma PushExactly<T>(s: State<T>, t: T)
    requires Located(s) && t in s.prio
    ensures Located(s.(queues := Push(s.queues, s.prio[t], t))) <==> Blocked(s, t)
  {
    hide NoDup;
    var l := s.prio[t];
    var q, r := s.queues[l], s.(queues := Push(s.queues, l, t));
    assert r.queues[l][|q|] == t && t in r.queues[l];
    if t in q {
      Twice(q, t);
    } else if Blocked(s, t) {
      PushLocated(s, t);
    }
  }

  lemma Twice<T>(q: seq<T>, t: T)
    requires t in q
    ensures !NoDup(q + [t])
  {
    var i :| 0 <= i < |q| && q[i] == t;
    assert (q + [t])[i] == (q + [t])[|q|];
  }

  /** Pushing a blocked thread. */
  lemma PushLocated<T>(s: State<T>, t: T)
    requires Located(s) && t in s.prio && Blocked(s, t)
    ensures Located(s.(queues := Push(s.queues, s.prio[t], t)))
  {
    var l := s.prio[t];
    OnceMore(t, s.queues[l]);
    var r := s.(queues := Push(s.queues, l, t));
    forall m, x | 0 <= m < |r.queues| && x in r.queues[m]
      ensures x in r.started && x !in r.finished && !Running(r, x) && r.prio[x] == m
    {
      if x != t {
        assert x in s.queues[m];
      }
    }
  }

  /** Removing a thread from the queue it may be in. */
  lemma DropLocated<T>(s: State<T>, t: T)
    requires Located(s) && t in s.prio
    ensures var r := s.(queues := Drop(s.queues, s.prio[t], t));
      Located(r) && forall l :: 0 <= l < |r.queues| ==> t !in r.queues[l]
  {
    var l := s.prio[t];
    WithoutNoDup(s.queues[l], t);
    var r := s.(queues := Drop(s.queues, l, t));
    forall m, x | 0 <= m < |r.queues| && x in r.queues[m]
      ensures x in r.started && x !in r.finished && !Running(r, x) && r.prio[x] == m && x != t
    {
      if m == l {
        WithoutHas(s.queues[l], t, x);
      }
      assert x in s.queues[m];
    }
  }

  lemma StartLocated<T>(s: State<T>, t: T)
    requires Located(s) && Accepted(s, Start(t))
    ensures Located(s.(queues := Push(s.queues, s.prio[t], t), started := s.started + {t})) <==> t !in s.finished
  {
    var r := s.(started := s.started + {t});
    assert Located(r);
    PushExactly(r, t);
  }

  /** The running thread leaves for good. */
  lemma ExitLocated<T>(pat: seq<nat>, s: State<T>, k: nat)
    requires Located(s) && Accepted(s, Exit) && Visits(pat, |s.queues|, k)
    ensures Chosen(pat, s, k) < s.asked + k && Located(Dispatch(pat, s, k).(finished := s.finished + {s.current.value}))
  {
    DispatchLocated(pat, s, k);
  }

  lemma KillLocated<T>(s: State<T>, t: T)
    requires Located(s) && Accepted(s, Kill(t))
    ensures Located(s.(queues := Drop(s.queues, s.prio[t], t), finished := s.finished + {t}))
  {
    DropLocated(s, t);
  }

  lemma YieldLocated<T>(pat: seq<nat>, s: State<T>, k: nat)
    requires Located(s) && Accepted(s, Yield) && Waiting(s.queues) && Visits(pat, |s.queues|, k)
    ensures Chosen(pat, s, k) < s.asked + k
    ensures var r := Dispatch(pat, s, k); Located(r.(queues := Push(r.queues, s.prio[s.current.value],
      s.current.value)))
  {
    DispatchLocated(pat, s, k);
    PushLocated(Dispatch(pat, s, k), s.current.value);
  }

  lemma PriorityLocated<T>(s: State<T>, t: T, c: nat)
    requires Located(s) && t in s.prio && c < |s.queues|
    ensures Running(s, t) ==> Located(s.(prio := s.prio[t := c])) && t in s.started && t !in s.finished
    ensures !Running(s, t) ==>
      var r := s.(queues := Push(Drop(s.queues, s.prio[t], t), c, t), prio := s.prio[t := c]);
      Located(r) <==> t in s.started && t !in s.finished
  {
    if !Running(s, t) {
      DropLocated(s, t);
      var r := s.(queues := Drop(s.queues, s.prio[t], t));
      var u := r.(prio := s.prio[t := c]);
      assert Located(u);
      PushExactly(u, t);
    }
  }

  /** A step keeps every thread in its place exactly when callers keep to what they should. */
  lemma StepLocated<T>(pat: seq<nat>, s: State<T>, e: Event<T>, k: nat)
    requires Located(s) && Visits(pat, |s.queues|, k) && Accepted(s, e)
    ensures Dispatches(s, e) ==> Chosen(pat, s, k) < s.asked + k
    ensures Located(Step(pat, s, e, k)) <==> Permitted(s, e)
    ensures |Step(pat, s, e, k).queues| == |s.queues|
  {
    hide Push, Drop, Chosen, NoDup, Queued, Waiting, Visits;
    assert IsPattern(pat, |s.queues|) by {
      Patterned(pat, |s.queues|, k);
    }
    match e
    case Start(t) => StartLocated(s, t);
    case Exit => ExitLocated(pat, s, k);
    case Kill(t) => KillLocated(s, t);
    case Yield =>
      if Waiting(s.queues) {
        YieldLocated(pat, s, k);
      }
    case Block => DispatchLocated(pat, s, k);
    case Deblock(t) => PushExactly(s, t);
    case SetPriority(t, p) => PriorityLocated(s, t, Clamp(p, |s.queues|));
  }

  lemma Patterned(pat: seq<nat>, levels: nat, k: nat)
    requires Visits(pat, levels, k)
    ensures IsPattern(pat, levels)
  {
  }

  // Runs

  /** Every event of the run is permitted when it happens. */
  ghost predicate IsRun<T>(pat: seq<nat>, s: State<T>, es: seq<Event<T>>, k: nat)
    requires Located(s) && Visits(pat, |s.queues|, k)
    decreases |es|
  {
    es == [] || (
      && Permitted(s, es[0])
      && (StepLocated(pat, s, es[0], k);
          IsRun(pat, Step(pat, s, es[0], k), es[1..], k)))
  }

  ghost function After<T>(pat: seq<nat>, s: State<T>, es: seq<Event<T>>, k: nat): (r: State<T>)
    requires Located(s) && Visits(pat, |s.queues|, k) && IsRun(pat, s, es, k)
    ensures Located(r) && |r.queues| == |s.queues|
    decreases |es|
  {
    if es == [] then s
    else
      StepLocated(pat, s, es[0], k);
      After(pat, Step(pat, s, es[0], k), es[1..], k)
  }

  /** A thread that has exited or was killed is never dispatched again. */
  lemma {:induction false} FinishedForGood<T>(pat: seq<nat>, s: State<T>, es: seq<Event<T>>, t: T, k: nat)
    requires Located(s) && Visits(pat, |s.queues|, k) && IsRun(pat, s, es, k) && t in s.finished
    ensures t in After(pat, s, es, k).finished && !Running(After(pat, s, es, k), t)
    ensures forall l :: 0 <= l < |s.queues| ==> t !in After(pat, s, es, k).queues[l]
    decreases |es|
  {
    if es != [] {
      StepLocated(pat, s, es[0], k);
      FinishedForGood(pat, Step(pat, s, es[0], k), es[1..], t, k);
    }
  }

  // Waiting

  /** The place of a thread in a queue. */
  function Position<T(==)>(q: seq<T>, t: T): (p: nat)
    requires t in q
    ensures p < |q| && q[p] == t && t !in q[..p]
  {
    if q[0] == t then 0
    else
      assert q == [q[0]] + q[1..];
      var p := 1 + Position(q[1..], t);
      assert q[..p] == [q[0]] + q[1..][..p - 1];
      p
  }

  lemma PositionPushed<T>(q: seq<T>, t: T, x: T)
    requires t in q
    ensures t in q + [x] && Position(q + [x], t) == Position(q, t)
  {
    var p, r := Position(q, t), Position(q + [x], t);
    assert (q + [x])[p] == t;
    assert forall i :: 0 <= i < p ==> q[i] == q[..p][i] == (q + [x])[i];
  }

  lemma PositionPopped<T>(q: seq<T>, t: T)
    requires t in q && q[0] != t
    ensures t in q[1..] && Position(q[1..], t) == Position(q, t) - 1
  {
    assert q == [q[0]] + q[1..];
  }

  lemma {:induction false} PositionWithout<T>(q: seq<T>, t: T, x: T)
    requires t in q && x != t
    ensures t in Without(q, x) && Position(Without(q, x), t) <= Position(q, t)
  {
    WithoutHas(q, x, t);
    if q[0] == x {
      PositionPopped(q, t);
    } else if q[0] != t {
      PositionPopped(q, t);
      PositionWithout(q[1..], t, x);
      assert Without(q, x)[1..] == Without(q[1..], x);
    }
  }

  /** How many dispatches a thread in queue `q` of level `l` can still have to wait: a round of the pattern for every
      thread in front of it, and the rest of the present round. */
  ghost function WaitIn<T>(pat: seq<nat>, q: seq<T>, asked: nat, l: nat, t: T, k: nat): nat
    requires |pat| == 256 && t in q
  {
    Position(q, t) * k + (Visit(pat, asked, l, k) - asked) + 1
  }

  ghost function Wait<T>(pat: seq<nat>, s: State<T>, t: T, k: nat): nat
    requires |pat| == 256 && t in s.prio && s.prio[t] < |s.queues| && Queued(s, t)
  {
    WaitIn(pat, s.queues[s.prio[t]], s.asked, s.prio[t], t, k)
  }

  /** A dispatch runs the thread or brings it nearer. */
  lemma DispatchNearer<T>(pat: seq<nat>, s: State<T>, t: T, k: nat)
    requires Located(s) && Visits(pat, |s.queues|, k) && t in s.prio && Queued(s, t)
    ensures Chosen(pat, s, k) < s.asked + k
    ensures var r, l := Dispatch(pat, s, k), s.prio[t];
      Running(r, t) || (t in r.queues[l] && WaitIn(pat, r.queues[l], r.asked, l, t, k) < Wait(pat, s, t, k))
  {
    hide Position, Visit, Stop;
    var l := s.prio[t];
    var q := s.queues[l];
    StopsInTime(pat, s.queues, s.asked, l, k);
    var m, v := Chosen(pat, s, k), Visit(pat, s.asked, l, k);
    var r := Dispatch(pat, s, k);
    if LevelAt(pat, m) == l {
      if q[0] != t {
        PositionPopped(q, t);
        var p := Position(q, t);
        assert Visit(pat, r.asked, l, k) < r.asked + k;
        assert (p - 1) * k + k == p * k;
      }
    } else {
      assert m != v;
      SameVisit(pat, |s.queues|, s.asked, l, m + 1, k);
    }
  }

  /** Events that concern this thread itself. */
  predicate Concerns<T(==)>(e: Event<T>, t: T)
  {
    (e.Kill? && e.t == t) || (e.SetPriority? && e.t == t)
  }

  /** Events that dispatch when a thread is waiting. */
  predicate Switches<T>(e: Event<T>)
  {
    e.Exit? || e.Block? || e.Yield?
  }

  /** A step that does not concern a queued thread runs it, or leaves it queued with less to wait for: strictly less
      when the step dispatches. */
  lemma StepNearer<T>(pat: seq<nat>, s: State<T>, e: Event<T>, t: T, k: nat)
    requires Located(s) && Visits(pat, |s.queues|, k) && Permitted(s, e) && t in s.prio && Queued(s, t)
    requires !Concerns(e, t)
    ensures Dispatches(s, e) ==> Chosen(pat, s, k) < s.asked + k
    ensures var r := Step(pat, s, e, k);
      || (Running(r, t) && Switches(e))
      || (t in r.prio && r.prio[t] == s.prio[t] && s.prio[t] < |r.queues| && Queued(r, t)
          && (if Switches(e) then Wait(pat, r, t, k) < Wait(pat, s, t, k)
            else Wait(pat, r, t, k) <= Wait(pat, s, t, k)))
  {
    hide Position, Visit, Stop, Without, Located;
    Places(s, t);
    var l := s.prio[t];
    var q := s.queues[l];
    match e
    case Start(x) => PositionPushed(q, t, x);
    case Deblock(x) => PositionPushed(q, t, x);
    case Exit => DispatchNearer(pat, s, t, k);
    case Block => DispatchNearer(pat, s, t, k);
    case Yield =>
      DispatchNearer(pat, s, t, k);
      var r := Dispatch(pat, s, k);
      if t in r.queues[l] {
        PositionPushed(r.queues[l], t, s.current.value);
      }
    case Kill(x) =>
      PositionWithout(q, t, x);
      Fewer(Position(Without(q, x), t), Position(q, t), k);
    case SetPriority(x, p) =>
      PositionWithout(q, t, x);
      Fewer(Position(Without(q, x), t), Position(q, t), k);
      PositionPushed(q, t, x);
      PositionPushed(Without(q, x), t, x);
  }

  lemma Fewer(a: nat, b: nat, k: nat)
    requires a <= b
    ensures a * k <= b * k
  {
  }

  lemma Places<T>(s: State<T>, t: T)
    requires Located(s) && t in s.prio && Queued(s, t)
    ensures Waiting(s.queues) && Known(s) && t in s.started && t !in s.finished && !Running(s, t)
    ensures s.current.Some? ==> s.current.value in s.prio
  {
    assert |s.queues[s.prio[t]]| > 0;
  }

  /** Number of events that dispatch when a thread is waiting. */
  function SwitchCount<T>(es: seq<Event<T>>): nat
  {
    if es == [] then 0 else (if Switches(es[0]) then 1 else 0) + SwitchCount(es[1..])
  }

  /** The thread runs at some point of the run. */
  ghost predicate GetsToRun<T>(pat: seq<nat>, s: State<T>, es: seq<Event<T>>, t: T, k: nat)
    requires Located(s) && Visits(pat, |s.queues|, k) && IsRun(pat, s, es, k)
    decreases |es|
  {
    Running(s, t) || (es != [] && (
      StepLocated(pat, s, es[0], k);
      GetsToRun(pat, Step(pat, s, es[0], k), es[1..], t, k)))
  }

  lemma {:induction false} RunsInTime<T>(pat: seq<nat>, s: State<T>, es: seq<Event<T>>, t: T, k: nat)
    requires Located(s) && Visits(pat, |s.queues|, k) && IsRun(pat, s, es, k) && t in s.prio && Queued(s, t)
    requires forall i :: 0 <= i < |es| ==> !Concerns(es[i], t)
    requires SwitchCount(es) >= Wait(pat, s, t, k)
    ensures GetsToRun(pat, s, es, t, k)
    decreases |es|
  {
    hide WaitIn, Located, Visits, Step, Permitted;
    Positive(pat, s, t, k);
    Places(s, t);
    var e, rest := es[0], es[1..];
    StepLocated(pat, s, e, k);
    Patterned(pat, |s.queues|, k);
    StepNearer(pat, s, e, t, k);
    var r := Step(pat, s, e, k);
    assert forall i :: 0 <= i < |rest| ==> rest[i] == es[i + 1];
    if !Running(r, t) {
      RunsInTime(pat, r, rest, t, k);
    }
  }

  lemma Positive<T>(pat: seq<nat>, s: State<T>, t: T, k: nat)
    requires Located(s) && Visits(pat, |s.queues|, k) && t in s.prio && Queued(s, t)
    ensures 0 < Wait(pat, s, t, k) <= (Position(s.queues[s.prio[t]], t) + 1) * k
  {
    var p, l := Position(s.queues[s.prio[t]], t), s.prio[t];
    assert Visit(pat, s.asked, l, k) < s.asked + k;
    assert (p + 1) * k == p * k + k;
  }

  /** Bounded waiting: when the pattern comes to every level within `k` steps, a thread at place `p` of its queue runs
      within `(p + 1) * k` dispatches, whatever happens to the other threads, unless it is killed or its priority
      changed. */
  lemma BoundedWaiting<T>(pat: seq<nat>, s: State<T>, es: seq<Event<T>>, t: T, k: nat)
    requires Located(s) && Visits(pat, |s.queues|, k) && IsRun(pat, s, es, k) && t in s.prio && Queued(s, t)
    requires forall i :: 0 <= i < |es| ==> !Concerns(es[i], t)
    requires SwitchCount(es) >= (Position(s.queues[s.prio[t]], t) + 1) * k
    ensures GetsToRun(pat, s, es, t, k)
  {
    Positive(pat, s, t, k);
    RunsInTime(pat, s, es, t, k);
  }
}
