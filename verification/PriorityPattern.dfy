/** The order in which the scheduler looks at its queues. */
module PriorityPattern {
  import opened SchedulerState

  /** The level behind `i`, going around. */
  function Following(i: nat, n: nat): (r: nat)
    requires i < n
    ensures r == if i + 1 == n then 0 else i + 1
  {
    (i + 1) % n
  }

  /** The first level from `index` on, going around, that still has turns, looking at no more than `tries` levels. */
  function Turn(left: seq<nat>, index: nat, tries: nat): (r: nat)
    requires index < |left|
    ensures r < |left|
    decreases tries
  {
    if tries == 0 || left[index] != 0 then index else Turn(left, Following(index, |left|), tries - 1)
  }

  /** `n` turns in a row: every level in turn that has any left. */
  function Turns(left: seq<nat>, index: nat, n: nat): (r: seq<nat>)
    requires index < |left|
    ensures |r| == n
    ensures forall i :: 0 <= i < n ==> r[i] < |left|
    decreases n
  {
    if n == 0 then []
    else
      var i := Turn(left, index, |left|);
      [i] + Turns(left[i := if left[i] > 0 then left[i] - 1 else 0], Following(i, |left|), n - 1)
  }

  /** Number of turns left. */
  function Sum(left: seq<nat>): nat
  {
    if left == [] then 0 else left[|left| - 1] + Sum(left[..|left| - 1])
  }

  lemma {:induction false} SumUpdate(left: seq<nat>, i: nat, v: nat)
    requires i < |left|
    ensures Sum(left[i := v]) == Sum(left) - left[i] + v
  {
    var n := |left| - 1;
    var w := left[i := v];
    if i < n {
      SumUpdate(left[..n], i, v);
      assert w[..n] == left[..n][i := v];
    } else {
      assert w[..n] == left[..n];
    }
  }

  lemma {:induction false} SumZero(left: seq<nat>)
    ensures Sum(left) == 0 <==> forall i :: 0 <= i < |left| ==> left[i] == 0
  {
    if left != [] {
      var n := |left| - 1;
      SumZero(left[..n]);
      assert forall i :: 0 <= i < n ==> left[i] == left[..n][i];
    }
  }

  /** Level `l` has `l` turns. */
  function Shares(n: nat): (r: seq<nat>)
    ensures |r| == n
  {
    seq(n, i requires 0 <= i => i)
  }

  lemma {:induction false} SumShares(n: nat)
    ensures 2 * Sum(Shares(n)) == n * (n - 1)
  {
    if n > 0 {
      assert Shares(n)[..n - 1] == Shares(n - 1);
      SumShares(n - 1);
      assert (n - 1) * (n - 2) + 2 * (n - 1) == n * (n - 1);
    }
  }

  /** The answers for every value of the 8-bit counter: the turns in order, and level 0 behind them. */
  function Answers(access: seq<nat>): (pat: seq<nat>)
    ensures |pat| == 256
  {
    seq(256, i requires 0 <= i => if i % (|access| + 1) == |access| then 0 else access[i % (|access| + 1)])
  }

  /** The turns of the five levels of the scheduler. */
  const FIVE: seq<nat> := [4, 1, 2, 3, 4, 2, 3, 4, 3, 4]

  lemma OneTurn(left: seq<nat>, index: nat, i: nat, left': seq<nat>, n: nat)
    requires |left| == 5 && index < 5 && i < 5 && left[i] > 0 && left' == left[i := left[i] - 1]
    requires if index <= i then forall j :: index <= j < i ==>
      left[j] == 0 else i + 5 - index <= 4 && forall j :: (index <= j < 5 || 0 <= j < i) ==> left[j] == 0
    ensures Turns(left, index, n + 1) == [i] + Turns(left', Following(i, 5), n)
  {
    Skips(left, index, i, 5);
  }

  /** Levels without turns are passed over. */
  lemma {:induction false} Skips(left: seq<nat>, index: nat, i: nat, tries: nat)
    requires |left| == 5 && index < 5 && i < 5 && left[i] > 0
    requires if index <= i then i - index < tries && forall j :: index <= j < i ==>
      left[j] == 0 else i + 5 - index < tries && forall j :: (index <= j < 5 || 0 <= j < i) ==> left[j] == 0
    ensures Turn(left, index, tries) == i
    decreases tries
  {
    if index != i {
      Skips(left, Following(index, 5), i, tries - 1);
    }
  }

  lemma FiveLevels()
    ensures Sum(Shares(5)) == 10 && Turns(Shares(5), 4, 10) == FIVE
  {
    hide Turns, Turn, Sum;
    SumShares(5);
    assert Shares(5) == [0, 1, 2, 3, 4];
    OneTurn([0, 1, 2, 3, 4], 4, 4, [0, 1, 2, 3, 3], 9);
    OneTurn([0, 1, 2, 3, 3], 0, 1, [0, 0, 2, 3, 3], 8);
    OneTurn([0, 0, 2, 3, 3], 2, 2, [0, 0, 1, 3, 3], 7);
    OneTurn([0, 0, 1, 3, 3], 3, 3, [0, 0, 1, 2, 3], 6);
    OneTurn([0, 0, 1, 2, 3], 4, 4, [0, 0, 1, 2, 2], 5);
    OneTurn([0, 0, 1, 2, 2], 0, 2, [0, 0, 0, 2, 2], 4);
    OneTurn([0, 0, 0, 2, 2], 3, 3, [0, 0, 0, 1, 2], 3);
    OneTurn([0, 0, 0, 1, 2], 4, 4, [0, 0, 0, 1, 1], 2);
    OneTurn([0, 0, 0, 1, 1], 0, 3, [0, 0, 0, 0, 1], 1);
    OneTurn([0, 0, 0, 0, 1], 4, 4, [0, 0, 0, 0, 0], 0);
  }

  /** A place of every level among the turns; level 0 comes behind them. */
  function PlaceOf(l: nat): nat
    requires l < 5
  {
    if l == 0 then 10 else if l == 4 then 0 else l
  }

  lemma AnswerAt(i: nat, l: nat)
    requires l < 5 && i % 256 % 11 == PlaceOf(l)
    ensures LevelAt(Answers(FIVE), i) == l
  {
  }

  /** With five levels every level is looked at within 14 steps, also when the 8-bit counter starts again. */
  lemma EveryLevelWithin14()
    ensures Visits(Answers(FIVE), 5, 14)
  {
    var pat := Answers(FIVE);
    assert IsPattern(pat, 5);
    forall i: nat, l: nat | l < 5
      ensures Visit(pat, i, l, 14) < i + 14
    {
      var j := NextPlace(i, PlaceOf(l));
      AnswerAt(j, l);
    }
  }

  /** The next time the counter is at this place among the turns. */
  lemma NextPlace(i: nat, place: nat) returns (j: nat)
    requires place <= 10
    ensures i <= j < i + 14 && j % 256 % 11 == place
  {
    var d := Steps(i % 256, place);
    j := i + d;
    Counted(i, d);
  }

  lemma Counted(i: nat, d: nat)
    ensures (i + d) % 256 == (i % 256 + d) % 256
  {
  }

  lemma Steps(r: nat, place: nat) returns (d: nat)
    requires r < 256 && place <= 10
    ensures d < 14 && (r + d) % 256 % 11 == place
  {
    var q, c := r / 11, r % 11;
    d := if place >= c then place - c else place - c + 11;
    if r + d < 256 {
      Residue(if place >= c then q else q + 1, place);
    } else {
      d := 256 - r + place;
    }
  }

  lemma Residue(q: nat, place: nat)
    requires place <= 10
    ensures (11 * q + place) % 11 == place
  {
  }

  /** No fewer steps are enough. */
  lemma NotWithin13()
    ensures !Visits(Answers(FIVE), 5, 13)
  {
    var pat := Answers(FIVE);
    assert IsPattern(pat, 5);
    forall j | 253 <= j < 266
      ensures LevelAt(pat, j) != 0
    {
    }
    assert Visit(pat, 253, 0, 13) == 266;
  }

  class AccessPattern {
    const levels: nat
    const accessArray: array<nat>
    var currentIndex: nat
    /** How often the pattern was asked. */
    ghost var asked: nat

    ghost predicate Valid()
      reads this, accessArray
    {
      && levels > 1 && currentIndex == asked % 256
      && accessArray.Length == Sum(Shares(levels))
      && accessArray[..] == Turns(Shares(levels), levels - 1, accessArray.Length)
    }

    ghost function Pattern(): (pat: seq<nat>)
      reads accessArray
      ensures |pat| == 256
    {
      Answers(accessArray[..])
    }

    /** The level that has the next turn; one that has none left is passed over. */
    static method NextTurn(tmp: array<nat>, start: nat) returns (index: nat)
      requires start < tmp.Length && Sum(tmp[..]) > 0
      ensures index == Turn(tmp[..], start, tmp.Length) && index < tmp.Length && tmp[index] > 0
    {
      hide Sum;
      var n := tmp.Length;
      ghost var left := tmp[..];
      SumZero(left);
      index := start;
      ghost var wrapped := false;
      while tmp[index] == 0
        invariant if wrapped then index <= start else start <= index < n
        invariant forall i :: 0 <= i < n && (if wrapped then i < index || start <= i else start <= i < index) ==>
          left[i] == 0
        invariant Turn(left, start, n) == Turn(left, index, if wrapped then start - index else n - (index - start))
        invariant index < n
        decreases !wrapped, n - index
      {
        assert !wrapped || index < start;
        if index + 1 == n {
          wrapped := true;
        }
        index := Following(index, n);
      }
    }

    /** Gives every level its turns, going around until none is left. */
    static method Fill(access: array<nat>, count: nat)
      requires count > 1 && access.Length == Sum(Shares(count))
      modifies access
      ensures access[..] == Turns(Shares(count), count - 1, access.Length)
    {
      hide *;
      var tmp := FirstShares(count);
      var index: nat := count - 1;
      var i: nat := 0;
      ghost var all := Turns(Shares(count), count - 1, access.Length);
      assert access[..0] == [];
      while i < access.Length
        invariant i <= access.Length && index < count == tmp.Length && Sum(tmp[..]) == access.Length - i
        invariant all == access[..i] + Turns(tmp[..], index, access.Length - i)
      {
        ghost var left, done := tmp[..], access[..i];
        TurnsStep(left, index, access.Length - i);
        index := NextTurn(tmp, index);
        SumUpdate(left, index, tmp[index] - 1);
        access[i] := index;
        assert access[..i + 1] == done + [index];
        ghost var rest := Turns(left[index := left[index] - 1], Following(index, count), access.Length - i - 1);
        Behind(done, index, rest);
        tmp[index] := tmp[index] - 1;
        assert tmp[..] == left[index := left[index] - 1];
        assert access[..i + 1] == done + [index];
        index := Following(index, count);
        i := i + 1;
      }
      NoTurns(tmp[..], index);
      assert access[..i] == access[..];
    }

    static lemma Behind(a: seq<nat>, x: nat, b: seq<nat>)
      ensures a + ([x] + b) == (a + [x]) + b
    {
    }

    static method FirstShares(count: nat) returns (tmp: array<nat>)
      ensures fresh(tmp) && tmp.Length == count && tmp[..] == Shares(count)
    {
      tmp := new nat[count](i requires i >= 0 => i);
    }

    static lemma TurnsStep(left: seq<nat>, index: nat, n: nat)
      requires index < |left| && n > 0
      ensures var i := Turn(left, index, |left|);
        left[i] > 0 ==> Turns(left, index, n) == [i] + Turns(left[i := left[i] - 1], Following(i, |left|), n - 1)
    {
    }

    static lemma NoTurns(left: seq<nat>, index: nat)
      requires index < |left|
      ensures Turns(left, index, 0) == []
    {
    }

    constructor (priorityCount: nat)
      requires 1 < priorityCount < 256
      ensures Valid() && levels == priorityCount && fresh(accessArray)
    {
      hide Turns, Shares, Sum;
      Halves(priorityCount);
      var access := new nat[priorityCount * (priorityCount - 1) / 2](_ => 0);
      Fill(access, priorityCount);
      levels, currentIndex, asked, accessArray := priorityCount, 0, 0, access;
    }

    static lemma Halves(n: nat)
      requires n > 0
      ensures n * (n - 1) >= 0 && n * (n - 1) / 2 == Sum(Shares(n))
    {
      SumShares(n);
    }

    /** The next level to look at. */
    method GetNextPriority() returns (l: nat)
      requires Valid()
      modifies this`currentIndex, this`asked
      ensures Valid() && asked == old(asked) + 1 && Pattern() == old(Pattern()) && l == LevelAt(Pattern(), old(asked))
    {
      hide Turns;
      var index := currentIndex % (accessArray.Length + 1);
      currentIndex := (currentIndex + 1) % 256;
      asked := asked + 1;
      l := if index == accessArray.Length then 0 else accessArray[index];
    }
  }
}
