/** Totals over finite maps, which do not depend on the order they are added up in, and over sequences. */
module Sums {

  ghost function AnyOf<K>(costs: map<K, nat>): (k: K)
    requires |costs| > 0
    ensures k in costs
  {
    var k :| k in costs;
    k
  }

  ghost function Total<K>(costs: map<K, nat>): nat
    decreases |costs|
  {
    if |costs| == 0 then 0
    else
      var k := AnyOf(costs);
      costs[k] + Total(costs - {k})
  }

  lemma {:induction false} TotalWithout<K>(costs: map<K, nat>, key: K)
    requires key in costs
    ensures Total(costs) == costs[key] + Total(costs - {key})
    decreases |costs|
  {
    var k := AnyOf(costs);
    if k != key {
      TotalWithout(costs - {k}, key);
      TotalWithout(costs - {key}, k);
      assert costs - {k} - {key} == costs - {key} - {k};
    }
  }

  /** What the elements of a sequence come to together. */
  function SumOf<T>(s: seq<T>, f: T -> nat): nat {
    if s == [] then 0 else f(s[0]) + SumOf(s[1..], f)
  }

  lemma {:induction false} SumOfUpdate<T>(s: seq<T>, f: T -> nat, at: nat, x: T)
    requires at < |s|
    ensures SumOf(s[at := x], f) + f(s[at]) == SumOf(s, f) + f(x)
  {
    if at == 0 {
      assert s[at := x][1..] == s[1..];
    } else {
      assert s[at := x][1..] == s[1..][at - 1 := x];
      SumOfUpdate(s[1..], f, at - 1, x);
    }
  }

  lemma {:induction false} SumOfEach<T>(s: seq<T>, f: T -> nat, each: nat)
    requires forall i :: 0 <= i < |s| ==> f(s[i]) == each
    ensures SumOf(s, f) == each * |s|
  {
    if s != [] {
      SumOfEach(s[1..], f, each);
    }
  }

  lemma {:induction false} SumOfAgrees<T>(s: seq<T>, f: T -> nat, g: T -> nat)
    requires forall i :: 0 <= i < |s| ==> f(s[i]) == g(s[i])
    ensures SumOf(s, f) == SumOf(s, g)
  {
    if s != [] {
      SumOfAgrees(s[1..], f, g);
    }
  }

  lemma {:induction false} SumOfBounds<T>(s: seq<T>, f: T -> nat, at: nat)
    requires at < |s|
    ensures f(s[at]) <= SumOf(s, f)
  {
    if at > 0 {
      SumOfBounds(s[1..], f, at - 1);
    }
  }

  lemma {:induction false} SumOfOneMore<T>(s: seq<T>, f: T -> nat, x: T)
    ensures SumOf(s + [x], f) == SumOf(s, f) + f(x)
  {
    if s == [] {
      assert s + [x] == [x];
    } else {
      assert (s + [x])[1..] == s[1..] + [x];
      SumOfOneMore(s[1..], f, x);
    }
  }

  /** Where an element counts for at most one, and for nothing outside a stretch, the stretch bounds the sum. */
  lemma {:induction false} SumOfStretch<T>(s: seq<T>, f: T -> nat, lo: nat, hi: nat)
    requires lo <= hi && forall i :: 0 <= i < |s| ==> f(s[i]) <= if lo <= i < hi then 1 else 0
    ensures SumOf(s, f) <= hi - lo
    decreases |s|
  {
    if s != [] {
      SumOfStretch(s[1..], f, if lo > 0 then lo - 1 else 0, if hi > 0 then hi - 1 else 0);
    }
  }

  /** And where every element from one on counts for something, they are no more than the sum. */
  lemma {:induction false} SumOfTail<T>(s: seq<T>, f: T -> nat, from: nat)
    requires from <= |s| && forall i :: from <= i < |s| ==> f(s[i]) >= 1
    ensures SumOf(s, f) >= |s| - from
    decreases |s|
  {
    if s != [] {
      SumOfTail(s[1..], f, if from > 0 then from - 1 else 0);
    }
  }

  lemma {:induction false} SumOfDominates<S, T>(s: seq<S>, f: S -> nat, t: seq<T>, g: T -> nat)
    requires |s| == |t| && forall i :: 0 <= i < |s| ==> f(s[i]) <= g(t[i])
    ensures SumOf(s, f) <= SumOf(t, g)
  {
    if s != [] {
      SumOfDominates(s[1..], f, t[1..], g);
    }
  }

  lemma {:induction false} SumOfBoth<T>(s: seq<T>, f: T -> nat, g: T -> nat, h: T -> nat)
    requires forall i :: 0 <= i < |s| ==> h(s[i]) == f(s[i]) + g(s[i])
    ensures SumOf(s, h) == SumOf(s, f) + SumOf(s, g)
  {
    if s != [] {
      SumOfBoth(s[1..], f, g, h);
    }
  }

  lemma {:induction false} SumOfFewer<T>(s: seq<T>, f: T -> nat, k: nat)
    requires k < |s| && f(s[k]) == 0 && forall i :: 0 <= i < |s| ==> f(s[i]) <= 1
    ensures SumOf(s, f) < |s|
  {
    if k == 0 {
      SumOfStretch(s[1..], f, 0, |s| - 1);
    } else {
      SumOfFewer(s[1..], f, k - 1);
    }
  }
}
