/** Sums over the threads of a protocol, and how one thread's step changes them. */
module Sums {

  function Sum<T>(s: seq<T>, f: T -> nat): nat {
    if s == [] then 0 else Sum(s[..|s| - 1], f) + f(s[|s| - 1])
  }

  lemma {:induction false} SumUpdate<T>(s: seq<T>, f: T -> nat, i: nat, x: T)
    requires i < |s|
    ensures Sum(s[i := x], f) == Sum(s, f) - f(s[i]) + f(x)
    ensures f(s[i]) <= Sum(s, f)
  {
    var n := |s| - 1;
    if i < n {
      SumUpdate(s[..n], f, i, x);
      assert s[i := x][..n] == s[..n][i := x];
    } else {
      assert s[i := x][..n] == s[..n];
    }
  }

  lemma {:induction false} SumZero<T>(s: seq<T>, f: T -> nat)
    requires forall i :: 0 <= i < |s| ==> f(s[i]) == 0
    ensures Sum(s, f) == 0
  {
    if s == [] {
    } else {
      SumZero(s[..|s| - 1], f);
    }
  }

  lemma {:induction false} SumPositive<T>(s: seq<T>, f: T -> nat)
    requires Sum(s, f) > 0
    ensures exists i :: 0 <= i < |s| && f(s[i]) > 0
  {
    var n := |s| - 1;
    if f(s[n]) > 0 {
    } else {
      SumPositive(s[..n], f);
      var i :| 0 <= i < n && f(s[..n][i]) > 0;
      assert f(s[i]) > 0;
    }
  }

  /** A thread that contributes leaves at most the rest to any other thread. */
  lemma {:induction false} SumOfTwo<T>(s: seq<T>, f: T -> nat, i: nat, j: nat)
    requires i < j < |s|
    ensures f(s[i]) + f(s[j]) <= Sum(s, f)
  {
    var n := |s| - 1;
    if j < n {
      SumOfTwo(s[..n], f, i, j);
    } else {
      SumUpdate(s[..n], f, i, s[i]);
    }
  }
}
