/** Sums over the threads of a program. */
module Sums {
  function Sum<T>(f: T -> nat, ts: seq<T>): nat {
    if ts == [] then 0 else f(ts[0]) + Sum(f, ts[1..])
  }

  lemma {:induction false} SumUpdate<T>(f: T -> nat, ts: seq<T>, k: nat, th: T)
    requires k < |ts|
    ensures Sum(f, ts[k := th]) == Sum(f, ts) - f(ts[k]) + f(th)
    ensures Sum(f, ts) >= f(ts[k])
  {
    if k == 0 {
      assert ts[k := th][1..] == ts[1..];
    } else {
      assert ts[k := th][1..] == ts[1..][k - 1 := th];
      SumUpdate(f, ts[1..], k - 1, th);
    }
  }

  lemma {:induction false} SumBound<T>(f: T -> nat, ts: seq<T>, bound: nat)
    requires forall k :: 0 <= k < |ts| ==> f(ts[k]) <= bound
    ensures Sum(f, ts) <= bound * |ts|
  {
    if ts != [] {
      SumBound(f, ts[1..], bound);
      assert bound * |ts| == bound + bound * |ts[1..]|;
    }
  }

  lemma {:induction false} SumExact<T>(f: T -> nat, ts: seq<T>, value: nat)
    requires forall k :: 0 <= k < |ts| ==> f(ts[k]) == value
    ensures Sum(f, ts) == value * |ts|
  {
    if ts != [] {
      SumExact(f, ts[1..], value);
      assert value * |ts| == value + value * |ts[1..]|;
    }
  }

  lemma {:induction false} SumSame<T>(f: T -> nat, th: T, n: nat)
    ensures Sum(f, seq(n, _ => th)) == n * f(th)
  {
    if n > 0 {
      SumSame(f, th, n - 1);
      assert seq(n, _ => th)[1..] == seq(n - 1, _ => th);
    }
  }

  lemma {:induction false} SumPositive<T>(f: T -> nat, ts: seq<T>) returns (k: nat)
    requires Sum(f, ts) > 0
    ensures k < |ts| && f(ts[k]) > 0
  {
    if f(ts[0]) > 0 {
      k := 0;
    } else {
      k := SumPositive(f, ts[1..]);
      k := k + 1;
    }
  }

  lemma {:induction false} SumShort<T>(f: T -> nat, ts: seq<T>, bound: nat) returns (k: nat)
    requires Sum(f, ts) < bound * |ts|
    ensures k < |ts| && f(ts[k]) < bound
  {
    if f(ts[0]) < bound {
      k := 0;
    } else {
      assert bound * |ts| == bound + bound * |ts[1..]|;
      k := SumShort(f, ts[1..], bound);
      k := k + 1;
    }
  }
}
