/** Sums of a real quantity over a list. */
module Totals {

  function Total<T>(xs: seq<T>, f: T -> real): real {
    if |xs| == 0 then 0.0 else Total(xs[..|xs| - 1], f) + f(xs[|xs| - 1])
  }

  lemma TotalAfter<T>(p: seq<T>, x: T, f: T -> real)
    ensures Total([], f) == 0.0 && Total(p + [x], f) == Total(p, f) + f(x)
  {
    assert (p + [x])[..|p|] == p;
  }

  lemma RemoveOne<T>(xs: seq<T>, i: nat)
    requires i < |xs|
    ensures multiset(xs[..i] + xs[i + 1..]) == multiset(xs) - multiset{xs[i]}
  {
    assert xs == xs[..i] + [xs[i]] + xs[i + 1..];
  }

  lemma RemoveBeforeLast<T>(xs: seq<T>, i: nat)
    requires i < |xs| - 1
    ensures xs[..i] + xs[i + 1..] == (xs[..|xs| - 1][..i] + xs[..|xs| - 1][i + 1..]) + [xs[|xs| - 1]]
  {
    var n := |xs| - 1;
    assert xs[..n][..i] == xs[..i];
    assert xs[i + 1..] == xs[..n][i + 1..] + [xs[n]];
  }

  lemma {:induction false} TotalRemove<T>(xs: seq<T>, i: nat, f: T -> real)
    requires i < |xs|
    ensures Total(xs, f) == Total(xs[..i] + xs[i + 1..], f) + f(xs[i])
  {
    var n := |xs| - 1;
    if i == n {
      assert xs[..i] + xs[i + 1..] == xs[..n];
    } else {
      TotalRemove(xs[..n], i, f);
      TotalAfter(xs[..n][..i] + xs[..n][i + 1..], xs[n], f);
      RemoveBeforeLast(xs, i);
    }
  }

  /** A total does not depend on the order. */
  lemma {:induction false} TotalIgnoresOrder<T>(xs: seq<T>, ys: seq<T>, f: T -> real)
    requires multiset(xs) == multiset(ys)
    ensures Total(xs, f) == Total(ys, f)
  {
    if |xs| == 0 {
      assert |ys| == |multiset(ys)| == 0;
    } else {
      var n := |xs| - 1;
      assert xs[n] in multiset(ys);
      var i :| 0 <= i < |ys| && ys[i] == xs[n];
      TotalRemove(ys, i, f);
      RemoveOne(ys, i);
      RemoveOne(xs, n);
      assert xs[..n] + xs[n + 1..] == xs[..n];
      TotalIgnoresOrder(xs[..n], ys[..i] + ys[i + 1..], f);
    }
  }
}
