/** The priority scheduler and its threads. */
module Scheduling {
  import opened Optional
  import opened Lists
  import opened SchedulerState
  import opened PriorityPattern

  const LEVELS: nat := 5

  /** Steps within which the pattern comes to every level. */
  const ROUND: nat := 14

  /** The first dispatch of a scheduler with five levels. */
  ghost function First(s: State<Thread>): (r: State<Thread>)
    requires Located(s) && |s.queues| == LEVELS && Waiting(s.queues)
    ensures Located(r) && |r.queues| == LEVELS
  {
    FirstDispatch(s);
    Dispatch(Answers(FIVE), s, ROUND)
  }

  lemma FirstDispatch(s: State<Thread>)
    requires Located(s) && |s.queues| == LEVELS && Waiting(s.queues)
    ensures IsPattern(Answers(FIVE), LEVELS) && SchedulerState.Chosen(Answers(FIVE), s, ROUND) < s.asked + ROUND
    ensures Located(Dispatch(Answers(FIVE), s, ROUND))
  {
    hide Answers, FIVE, Stop, LevelAt;
    EveryLevelWithin14();
    SearchEnds(Answers(FIVE), s, ROUND);
    var l := LevelAt(Answers(FIVE), SchedulerState.Chosen(Answers(FIVE), s, ROUND));
    Scheduler.LevelOk(Answers(FIVE), SchedulerState.Chosen(Answers(FIVE), s, ROUND));
    WithoutFirst(s.queues[l]);
    var r := Dispatch(Answers(FIVE), s, ROUND);
    forall m, t | 0 <= m < |r.queues| && t in r.queues[m]
      ensures t in r.started && t !in r.finished && !Running(r, t) && r.prio[t] == m
    {
      assert t in s.queues[m];
    }
  }

  /** Before the first dispatch: the next thread, if there is one, is taken out of its queue. */
  ghost function Popped(s: State<Thread>): (r: State<Thread>)
    requires Located(s) && |s.queues| == LEVELS && s.current == None
    ensures Located(r) && |r.queues| == LEVELS
  {
    if Waiting(s.queues) then
      NoneRuns(s);
      First(s).(current := None)
    else s
  }

  lemma NoneRuns(s: State<Thread>)
    requires Located(s) && |s.queues| == LEVELS && Waiting(s.queues)
    ensures Located(First(s).(current := None))
  {
    hide Dispatch;
  }

  class Thread {
    const id: nat
    var priority: nat
    var started: bool
    var finished: bool

    /** A new thread; a priority above the highest is lowered to it. */
    constructor (id: nat, priority: nat)
      ensures this.id == id && this.priority == Clamp(priority, LEVELS) && !started && !finished
      ensures this.priority == if priority < LEVELS then priority else LEVELS - 1
    {
      this.id, this.priority := id, if priority > LEVELS - 1 then LEVELS - 1 else priority;
      started, finished := false, false;
    }
  }

  /** The queue the scheduler looks at when it does so for the time `i`: the same eleven in a row, cut off after 256. */
  function Level(i: nat): (l: nat)
    ensures l < LEVELS
  {
    [4, 1, 2, 3, 4, 2, 3, 4, 3, 4, 0][i % 256 % 11]
  }

  /** The thread is the first one of the first queue, from the time `asked` on, that is not empty, and it is taken
      out. */
  ghost predicate IsPopped(q: seq<seq<Thread>>, asked: nat, t: Thread?, r: seq<seq<Thread>>)
    requires |q| == LEVELS
  {
    exists m :: asked <= m && (forall j :: asked <= j < m ==> q[Level(j)] == []) && IsHead(q, Level(m), t, r)
  }

  ghost predicate IsHead(q: seq<seq<Thread>>, l: nat, t: Thread?, r: seq<seq<Thread>>)
    requires l < |q|
  {
    q[l] != [] && t == q[l][0] && r == q[l := q[l][1..]]
  }

  lemma LevelIs(i: nat)
    ensures LevelAt(Answers(FIVE), i) == Level(i)
  {
  }

  lemma PoppedIs(q: seq<seq<Thread>>, asked: nat, t: Thread, r: seq<seq<Thread>>, m: nat)
    requires |q| == LEVELS && IsPattern(Answers(FIVE), LEVELS) && m == Stop(Answers(FIVE), q, asked, ROUND)
    requires m < asked + ROUND && IsHead(q, LevelAt(Answers(FIVE), m), t, r)
    ensures IsPopped(q, asked, t, r)
  {
    hide Answers, FIVE, LevelAt, Level, IsHead;
    LevelIs(m);
    forall j | asked <= j < m
      ensures q[Level(j)] == []
    {
      LevelIs(j);
    }
  }

  /** The thread goes to the end of the queue of its priority. */
  ghost predicate IsPushed(q: seq<seq<Thread>>, t: Thread?, r: seq<seq<Thread>>)
    reads t
  {
    t != null && t.priority < |q| == |r| && r[t.priority] == q[t.priority] + [t] &&
    forall l :: 0 <= l < |q| && l != t.priority ==> r[l] == q[l]
  }

  /** The thread is the last one of the queue. */
  predicate IsBehind(q: seq<Thread>, t: Thread)
  {
    |q| > 0 && q[|q| - 1] == t
  }

  function AsOption(t: Thread?): Option<Thread>
  {
    if t == null then None else (var u: Thread := t; Some(u))
  }

  /** The step a scheduler with five levels makes. */
  ghost function Next(s: State<Thread>, e: Event<Thread>): (r: State<Thread>)
    requires Located(s) && |s.queues| == LEVELS && Accepted(s, e)
    ensures (Located(r) <==> Permitted(s, e)) && |r.queues| == LEVELS
  {
    EveryLevelWithin14();
    StepLocated(Answers(FIVE), s, e, ROUND);
    Step(Answers(FIVE), s, e, ROUND)
  }

  class Scheduler {
    const pattern: AccessPattern
    var readyQueues: seq<seq<Thread>>
    var currentThread: Thread?
    var initialized: bool
    /** All threads there are. */
    ghost var threads: set<Thread>

    /** The scheduler as a value. */
    ghost function View(): State<Thread>
      reads this`readyQueues, this`currentThread, this`threads, threads, pattern`asked
    {
      State(readyQueues,
            AsOption(currentThread),
            map t | t in threads :: t.priority,
            (set t | t in threads && t.started),
            (set t | t in threads && t.finished),
            pattern.asked)
    }

    ghost predicate Shape()
      reads this`readyQueues, this`threads, pattern, pattern.accessArray
    {
      && pattern.Valid() && pattern.levels == LEVELS && |readyQueues| == LEVELS
      && pattern.Pattern() == Answers(FIVE)
      && (forall a, b :: a in threads && b in threads && a.id == b.id ==> a == b)
    }

    ghost predicate Valid()
      reads this, threads, pattern, pattern.accessArray
    {
      && Shape() && Located(View())
      && (initialized <==> currentThread != null) && (currentThread != null ==> currentThread in threads)
      && (forall l, t :: 0 <= l < LEVELS && t in readyQueues[l] ==> t in threads)
    }

    constructor ()
      ensures Valid() && fresh(pattern) && !initialized && threads == {}
      ensures readyQueues == seq(LEVELS, _ => [])
    {
      hide Turns, Turn, Sum, Shares, Answers, FIVE;
      pattern := new AccessPattern(LEVELS);
      readyQueues, currentThread, initialized, threads := seq(LEVELS, _ => []), null, false, {};
      new;
      FiveLevels();
    }

    /** Is a thread waiting in one of the queues? */
    method IsThreadWaiting() returns (b: bool)
      ensures b == Waiting(readyQueues)
    {
      var i := 0;
      while i < |readyQueues|
        invariant 0 <= i <= |readyQueues| && forall l :: 0 <= l < i ==> |readyQueues[l]| == 0
      {
        if readyQueues[i] != [] {
          return true;
        }
        i := i + 1;
      }
      return false;
    }

    static lemma LevelOk(pat: seq<nat>, i: nat)
      requires IsPattern(pat, LEVELS)
      ensures LevelAt(pat, i) < LEVELS
    {
    }

    /** Takes the next thread out of its queue. The search goes through the pattern until it comes to a queue that is
        not empty. */
    method GetNextThread() returns (next: Thread)
      requires Shape() && Waiting(readyQueues)
      modifies this`readyQueues, pattern`currentIndex, pattern`asked
      ensures Shape() && IsPattern(Answers(FIVE), LEVELS)
      ensures var m := Stop(Answers(FIVE), old(readyQueues), old(pattern.asked), ROUND);
        var l := LevelAt(Answers(FIVE), m);
        && m < old(pattern.asked) + ROUND && pattern.asked == m + 1
        && |old(readyQueues)[l]| > 0 && next == old(readyQueues)[l][0]
        && readyQueues == old(readyQueues)[l := old(readyQueues)[l][1..]]
      ensures IsPopped(old(readyQueues), old(pattern.asked), next, readyQueues)
    {
      hide Stop, Visit, Answers, LevelAt, FIVE, AccessPattern.Valid, AccessPattern.Pattern;
      ghost var pat, start := Answers(FIVE), pattern.asked;
      EveryLevelWithin14();
      ghost var w :| 0 <= w < |readyQueues| && |readyQueues[w]| > 0;
      StopsInTime(pat, readyQueues, start, w, ROUND);
      ghost var m := Stop(pat, readyQueues, start, ROUND);
      LevelOk(pat, start);
      var l := pattern.GetNextPriority();
      while readyQueues[l] == []
        invariant Shape() && readyQueues == old(readyQueues) && l == LevelAt(pat, pattern.asked - 1) < LEVELS
        invariant start < pattern.asked <= m + 1
        decreases m - pattern.asked
      {
        LevelOk(pat, pattern.asked);
        l := pattern.GetNextPriority();
      }
      next := readyQueues[l][0];
      readyQueues := readyQueues[l := readyQueues[l][1..]];
      PoppedIs(old(readyQueues), start, next, readyQueues, m);
    }

    /** A thread is known to the scheduler once it exists. */
    ghost method Register(that: Thread)
      requires Valid() && that !in threads && !that.started && !that.finished && that.priority < LEVELS
      requires forall t :: t in threads ==> t.id != that.id
      modifies this`threads
      ensures Valid() && threads == old(threads) + {that}
    {
      hide Answers, FIVE, AccessPattern.Valid;
      ghost var s := View();
      threads := threads + {that};
      assert View() == s.(prio := s.prio[that := that.priority]);
    }

    /** Starts a thread that was not started before. Every thread is in its place exactly when that one was not killed
        before. */
    method Ready(that: Thread) returns (ok: bool)
      requires Valid() && that in threads
      modifies this`readyQueues, that`started
      ensures threads == old(threads) && ok == old(!that.started)
      ensures ok ==> View() == Next(old(View()), Start(that)) && (Valid() <==> Permitted(old(View()), Start(that)))
      ensures ok ==> that.started && IsPushed(old(readyQueues), that, readyQueues)
      ensures !ok ==> Valid() && View() == old(View())
    {
      hide Answers, FIVE, AccessPattern.Valid, Located;
      if that.started {
        return false;
      }
      ghost var s := View();
      Parts();
      readyQueues := readyQueues[that.priority := readyQueues[that.priority] + [that]];
      that.started := true;
      ok := true;
      assert View() == Next(s, Start(that));
    }

    /** What validity says about the values. */
    lemma Parts()
      requires Valid()
      ensures Located(View()) && Known(View()) && View().prio.Keys == threads && |readyQueues| == LEVELS
      ensures forall t :: t in threads ==> t.priority < LEVELS
      ensures currentThread != null ==> currentThread.started && !currentThread.finished
    {
      hide Answers, FIVE, AccessPattern.Valid;
      forall t | t in threads
        ensures t.priority < LEVELS
      {
        assert t in View().prio;
      }
      if currentThread != null {
        assert View().current.Some? && View().current.value == currentThread;
      }
    }

    /** Runs another thread: what is popped is what the step on values chooses. */
    lemma Chosen(s: State<Thread>, next: Thread)
      requires Located(s) && |s.queues| == LEVELS && Waiting(s.queues) && IsPattern(Answers(FIVE), LEVELS)
      requires var m := Stop(Answers(FIVE), s.queues, s.asked, ROUND); var l := LevelAt(Answers(FIVE), m);
        |s.queues[l]| > 0 && next == s.queues[l][0]
      ensures SchedulerState.Chosen(Answers(FIVE), s, ROUND) < s.asked + ROUND
      ensures Dispatch(Answers(FIVE), s, ROUND).current == Some(next)
      ensures next in s.started && next !in s.finished && !Running(s, next)
    {
      hide Answers, FIVE, Stop;
      EveryLevelWithin14();
      SearchEnds(Answers(FIVE), s, ROUND);
      var l := LevelAt(Answers(FIVE), Stop(Answers(FIVE), s.queues, s.asked, ROUND));
      assert s.queues[l][0] in s.queues[l];
    }

    /** The running thread ends and another one runs. */
    method Exit() returns (ok: bool)
      requires Valid()
      modifies this`readyQueues, this`currentThread, pattern`currentIndex, pattern`asked, threads`finished
      ensures Valid() && threads == old(threads) && ok == (old(initialized) && Waiting(old(readyQueues)))
      ensures ok ==> View() == Next(old(View()), SchedulerState.Exit)
      ensures !ok ==> View() == old(View())
      ensures ok ==> old(currentThread) != null && old(currentThread).finished && currentThread != old(currentThread)
      ensures |old(readyQueues)| == LEVELS
      ensures ok ==> IsPopped(old(readyQueues), old(pattern.asked), currentThread, readyQueues)
    {
      hide Answers, FIVE, AccessPattern.Valid, AccessPattern.Pattern, Located, Stop, LevelAt, IsPopped;
      var waiting := IsThreadWaiting();
      if !initialized || !waiting {
        return false;
      }
      ghost var s := View();
      Parts();
      var next := GetNextThread();
      Chosen(s, next);
      currentThread.finished := true;
      currentThread := next;
      ok := true;
      assert View() == Next(s, SchedulerState.Exit);
    }

    /** Ends another thread, which is taken out of its queue if it is in it. */
    method Kill(that: Thread) returns (ok: bool)
      requires Valid() && that in threads
      modifies this`readyQueues, that`finished
      ensures Valid() && threads == old(threads) && ok == (initialized && that != currentThread)
      ensures ok ==> View() == Next(old(View()), SchedulerState.Kill(that))
      ensures |readyQueues| == LEVELS
      ensures ok ==> that.finished && forall l :: 0 <= l < LEVELS ==> that !in readyQueues[l]
      ensures ok ==> forall l :: 0 <= l < LEVELS && l != that.priority ==> readyQueues[l] == old(readyQueues)[l]
      ensures !ok ==> View() == old(View())
    {
      hide Answers, FIVE, AccessPattern.Valid, AccessPattern.Pattern, Located, Without;
      if !initialized || that.id == currentThread.id {
        return false;
      }
      ghost var s := View();
      Parts();
      readyQueues := readyQueues[that.priority := Without(readyQueues[that.priority], that)];
      that.finished := true;
      ok := true;
      assert View() == Next(s, SchedulerState.Kill(that));
      StillKnown(s, that.priority, that);
      InNoQueue(that);
    }

    lemma InNoQueue(that: Thread)
      requires Valid() && that in threads && that.finished
      ensures forall l :: 0 <= l < LEVELS ==> that !in readyQueues[l]
    {
      hide Answers, FIVE, AccessPattern.Valid, AccessPattern.Pattern;
      assert that in View().finished;
    }

    lemma StillKnown(s: State<Thread>, p: nat, that: Thread)
      requires p < |s.queues|
      ensures forall l, t :: 0 <= l < |s.queues| && t in Drop(s.queues, p, that)[l] ==> t in s.queues[l]
    {
      forall l, t | 0 <= l < |s.queues| && t in Drop(s.queues, p, that)[l]
        ensures t in s.queues[l]
      {
        if l == p {
          WithoutHas(s.queues[p], that, t);
        }
      }
    }

    /** Lets another thread run, if one is waiting; the running one goes to the end of its queue. */
    method Yield()
      requires Valid() && initialized
      modifies this`readyQueues, this`currentThread, pattern`currentIndex, pattern`asked
      ensures Valid() && threads == old(threads)
      ensures View() == Next(old(View()), SchedulerState.Yield)
      ensures |old(readyQueues)| == LEVELS && (!Waiting(old(readyQueues)) ==>
        readyQueues == old(readyQueues) && currentThread == old(currentThread))
      ensures Waiting(old(readyQueues)) ==> exists q ::
        |q| == LEVELS && IsPopped(old(readyQueues), old(pattern.asked), currentThread, q) &&
        IsPushed(q, old(currentThread), readyQueues)
    {
      hide Answers, FIVE, AccessPattern.Valid, AccessPattern.Pattern, Located, Stop, LevelAt, IsPopped;
      ghost var s := View();
      Parts();
      var waiting := IsThreadWaiting();
      if waiting {
        var next := GetNextThread();
        Chosen(s, next);
        ghost var q := readyQueues;
        readyQueues := readyQueues[currentThread.priority := readyQueues[currentThread.priority] + [currentThread]];
        assert IsPushed(q, currentThread, readyQueues);
        currentThread := next;
      }
      assert View() == Next(s, SchedulerState.Yield);
    }

    /** The running thread blocks: another one runs and it is in no queue. Before start-up this is refused, but not
        before the next thread was taken out of its queue, which leaves that one as if it were blocked. */
    method Block() returns (ok: bool)
      requires Valid()
      modifies this`readyQueues, this`currentThread, pattern`currentIndex, pattern`asked
      ensures Valid() && threads == old(threads) && initialized == old(initialized)
      ensures ok == (initialized && Waiting(old(readyQueues)))
      ensures ok ==> View() == Next(old(View()), SchedulerState.Block)
      ensures !ok && initialized ==> View() == old(View())
      ensures !ok && !initialized ==> View() == Popped(old(View()))
      ensures |old(readyQueues)| == LEVELS
      ensures ok ==> IsPopped(old(readyQueues), old(pattern.asked), currentThread, readyQueues)
    {
      hide Answers, FIVE, AccessPattern.Valid, AccessPattern.Pattern, Located, Stop, LevelAt, IsPopped;
      ghost var s := View();
      Parts();
      ok := IsThreadWaiting();
      if ok {
        var next := GetNextThread();
        Chosen(s, next);
        if !initialized {
          assert View() == Popped(s);
          return false;
        }
        currentThread := next;
        assert View() == Next(s, SchedulerState.Block);
      }
    }

    /** Puts a thread back into its queue. Every thread is in its place exactly when that one was blocked. */
    method Deblock(that: Thread) returns (ok: bool)
      requires Valid() && that in threads
      modifies this`readyQueues
      ensures threads == old(threads) && ok == initialized
      ensures ok ==>
        && View() == Next(old(View()), SchedulerState.Deblock(that))
        && (Valid() <==> Permitted(old(View()), SchedulerState.Deblock(that)))
        && IsPushed(old(readyQueues), that, readyQueues) && currentThread == old(currentThread)
      ensures !ok ==> Valid() && View() == old(View())
    {
      hide Answers, FIVE, AccessPattern.Valid, AccessPattern.Pattern, Located;
      if !initialized {
        return false;
      }
      ghost var s := View();
      Parts();
      readyQueues := readyQueues[that.priority := readyQueues[that.priority] + [that]];
      ok := true;
      assert View() == Next(s, SchedulerState.Deblock(that));
    }

    /** Changes the priority of a thread and, with it, its queue; the new priority takes effect in the same step. A
        blocked thread becomes ready by this. Every thread is in its place exactly when that one was started and has not
        finished. */
    method SetPriority(that: Thread, priority: nat)
      requires Valid() && that in threads
      modifies this`readyQueues, that`priority
      ensures threads == old(threads)
      ensures View() == Next(old(View()), SchedulerState.SetPriority(that, priority))
      ensures Valid() <==> Permitted(old(View()), SchedulerState.SetPriority(that, priority))
      ensures that.priority == if priority < LEVELS then priority else LEVELS - 1
      ensures |readyQueues| == LEVELS
      ensures that != currentThread ==> IsBehind(readyQueues[that.priority], that)
      ensures that == currentThread ==> readyQueues == old(readyQueues)
    {
      hide Answers, FIVE, AccessPattern.Valid, AccessPattern.Pattern, Located, Without;
      ghost var s := View();
      Parts();
      var p := if priority > LEVELS - 1 then LEVELS - 1 else priority;
      if that != currentThread {
        readyQueues := readyQueues[that.priority := Without(readyQueues[that.priority], that)];
        readyQueues := readyQueues[p := readyQueues[p] + [that]];
      }
      StillKnown(s, that.priority, that);
      that.priority := p;
      assert View() == Next(s, SchedulerState.SetPriority(that, priority));
    }

    /** Runs the first thread. */
    method StartUp() returns (ok: bool)
      requires Valid() && !initialized
      modifies this`readyQueues, this`currentThread, this`initialized, pattern`currentIndex, pattern`asked
      ensures Valid() && threads == old(threads) && ok == initialized == Waiting(old(readyQueues))
      ensures ok ==> Waiting(old(View()).queues) && View() == First(old(View())) && |old(readyQueues)| == LEVELS
      ensures ok ==> IsPopped(old(readyQueues), old(pattern.asked), currentThread, readyQueues)
      ensures !ok ==> View() == old(View())
    {
      hide Answers, FIVE, AccessPattern.Valid, AccessPattern.Pattern, Stop, LevelAt;
      ghost var s := View();
      Parts();
      ok := IsThreadWaiting();
      if ok {
        var next := GetNextThread();
        Chosen(s, next);
        currentThread := next;
        initialized := true;
        assert View() == First(s);
      }
    }
  }

  /** Starts a thread that is new, which goes to the end of its queue. */
  method StartNew(s: Scheduler, t: Thread)
    requires s.Valid() && t in s.threads && !t.started && !t.finished && t.priority == 0
    modifies s`readyQueues, t`started
    ensures s.Valid() && |s.readyQueues| == LEVELS
    ensures s.readyQueues == old(s.readyQueues)[0 := old(s.readyQueues)[0] + [t]]
  {
    hide Answers, FIVE, AccessPattern.Valid, AccessPattern.Pattern, Located, Dispatch, Scheduler.Shape;
    s.Parts();
    ghost var q := s.View().queues;
    var ok := s.Ready(t);
    assert s.View().queues == Push(q, 0, t);
  }

  /** A scheduler with two threads of the lowest level, both started. */
  method TwoStarted() returns (s: Scheduler, a: Thread, b: Thread)
    ensures fresh(s) && fresh(s.pattern) && fresh(a) && fresh(b) && a != b && a in s.threads && b in s.threads
    ensures s.Valid() && !s.initialized && s.readyQueues == [[a, b], [], [], [], []] && b.priority == 0
  {
    hide Scheduler.Valid, Scheduler.View, Scheduler.Shape;
    s := new Scheduler();
    assert s.readyQueues == [[], [], [], [], []];
    a := new Thread(0, 0);
    b := new Thread(1, 0);
    s.Register(a);
    s.Register(b);
    StartNew(s, a);
    assert [] + [a] == [a] && s.readyQueues == [[a], [], [], [], []];
    StartNew(s, b);
    assert s.readyQueues[0] == [a, b];
  }

  lemma FirstOfTwo(s: State<Thread>, a: Thread, b: Thread)
    requires Located(s) && s.queues == [[a, b], [], [], [], []]
    ensures Waiting(s.queues) && First(s).current == Some(a) && First(s).queues == [[b], [], [], [], []]
    ensures First(s).prio == s.prio
  {
    hide Answers, FIVE, Stop, LevelAt, Located, Visits;
    assert |s.queues[0]| > 0;
    FirstDispatch(s);
    EveryLevelWithin14();
    SearchEnds(Answers(FIVE), s, ROUND);
    Scheduler.LevelOk(Answers(FIVE), SchedulerState.Chosen(Answers(FIVE), s, ROUND));
    assert [a, b][1..] == [b];
  }

  /** A run from start-up on after which a thread is queued twice: it was put back although it was not blocked. */
  method QueuedTwice() returns (s: Scheduler, a: Thread, b: Thread)
    ensures fresh(s) && fresh(a) && fresh(b) && a != b && s.initialized && s.currentThread == a
    ensures s.readyQueues == [[b, b], [], [], [], []] && !s.Valid()
  {
    hide Answers, FIVE, AccessPattern.Valid, AccessPattern.Pattern, Stop, Located, Dispatch, First, Scheduler.Shape;
    s, a, b := TwoStarted();
    s.Parts();
    FirstOfTwo(s.View(), a, b);
    var ok := s.StartUp();
    ghost var v := s.View();
    assert v.queues == [[b], [], [], [], []] && Queued(v, b);
    ok := s.Deblock(b);
    assert s.View().queues == Push(v.queues, 0, b) && [b] + [b] == [b, b];
  }
}
