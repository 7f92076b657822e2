/** Lists of values. */
module Lists {

  predicate NoDup<T(==)>(s: seq<T>)
  {
    forall i, j :: 0 <= i < j < |s| ==> s[i] != s[j]
  }

  /** A list without the first occurrence of `x`. */
  function Without<T(==)>(s: seq<T>, x: T): (r: seq<T>)
    ensures |r| == if x in s then |s| - 1 else |s|
  {
    if s == [] then [] else if s[0] == x then s[1..] else [s[0]] + Without(s[1..], x)
  }

  /** It is the pieces in front of and behind it. */
  lemma {:induction false} WithoutAt<T>(s: seq<T>, x: T, i: nat)
    requires i <= |s| && x !in s[..i]
    ensures i < |s| && s[i] == x ==> Without(s, x) == s[..i] + s[i + 1..]
    ensures i == |s| ==> Without(s, x) == s
  {
    if i > 0 {
      var rest := s[1..];
      assert s[0] in s[..i] && rest[..i - 1] == s[..i][1..];
      WithoutAt(rest, x, i - 1);
      assert s == [s[0]] + rest;
    }
  }

  lemma {:induction false} WithoutHas<T>(s: seq<T>, x: T, y: T)
    ensures y in Without(s, x) ==> y in s
    ensures y in s && y != x ==> y in Without(s, x)
  {
    if s != [] {
      WithoutHas(s[1..], x, y);
      assert s == [s[0]] + s[1..];
    }
  }

  lemma {:induction false} WithoutNoDup<T>(s: seq<T>, x: T)
    requires NoDup(s)
    ensures NoDup(Without(s, x)) && x !in Without(s, x)
  {
    if s != [] {
      var rest := s[1..];
      assert forall n :: 0 <= n < |rest| ==> rest[n] == s[n + 1];
      assert s[0] !in rest;
      WithoutNoDup(rest, x);
      var w := Without(rest, x);
      WithoutHas(rest, x, s[0]);
      assert forall n :: 0 <= n < |w| ==> w[n] in w;
    }
  }
}
