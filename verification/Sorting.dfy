/** The standard library's stable sorts, for keys in any total order.

    `SortBy` is one stable sort; `UniqueSort` shows that there is no other: any sequence
    that is sorted and keeps equal-keyed elements in their old order is the same
    sequence. What is proved about `SortBy` therefore holds of the library's sorts,
    whatever algorithm they use. */
module Sorting {

  ghost predicate TotalOrder<K(!new)>(le: (K, K) -> bool) {
    && (forall a, b :: le(a, b) || le(b, a))
    && (forall a, b :: le(a, b) && le(b, a) ==> a == b)
    && (forall a, b, c :: le(a, b) && le(b, c) ==> le(a, c))
  }

  function InsertBy<T, K>(x: T, ys: seq<T>, key: T -> K, le: (K, K) -> bool): seq<T> {
    if |ys| == 0 || le(key(x), key(ys[0])) then [x] + ys
    else [ys[0]] + InsertBy(x, ys[1..], key, le)
  }

  function SortBy<T, K>(xs: seq<T>, key: T -> K, le: (K, K) -> bool): seq<T> {
    if |xs| == 0 then [] else InsertBy(xs[0], SortBy(xs[1..], key, le), key, le)
  }

  ghost predicate SortedBy<T, K>(xs: seq<T>, key: T -> K, le: (K, K) -> bool) {
    forall i, j | 0 <= i < j < |xs| :: le(key(xs[i]), key(xs[j]))
  }

  /** The elements with key k, in order. */
  function WithKey<T, K(==)>(xs: seq<T>, k: K, key: T -> K): seq<T> {
    if |xs| == 0 then []
    else (if key(xs[0]) == k then [xs[0]] else []) + WithKey(xs[1..], k, key)
  }

  /** Equal-keyed elements keep their relative order (and none is lost or added). */
  ghost predicate SameGroups<T, K(!new)>(xs: seq<T>, ys: seq<T>, key: T -> K) {
    forall k :: WithKey(xs, k, key) == WithKey(ys, k, key)
  }

  ghost predicate DistinctKeys<T, K>(xs: seq<T>, key: T -> K) {
    forall i, j | 0 <= i < j < |xs| :: key(xs[i]) != key(xs[j])
  }

  // ---------------------------------------------------- Sort is a stable sort

  lemma {:induction false} InsertKeeps<T, K>(x: T, ys: seq<T>, key: T -> K, le: (K, K) -> bool)
    ensures multiset(InsertBy(x, ys, key, le)) == multiset{x} + multiset(ys)
  {
    if |ys| > 0 {
      assert ys == [ys[0]] + ys[1..];
      if !le(key(x), key(ys[0])) { InsertKeeps(x, ys[1..], key, le); }
    }
  }

  lemma {:induction false} SortKeeps<T, K>(xs: seq<T>, key: T -> K, le: (K, K) -> bool)
    ensures multiset(SortBy(xs, key, le)) == multiset(xs)
    ensures |SortBy(xs, key, le)| == |xs|
  {
    if |xs| > 0 {
      SortKeeps(xs[1..], key, le);
      InsertKeeps(xs[0], SortBy(xs[1..], key, le), key, le);
      assert xs == [xs[0]] + xs[1..];
    }
    assert |SortBy(xs, key, le)| == |multiset(SortBy(xs, key, le))|;
  }

  lemma {:induction false} InsertOrders<T, K(!new)>(x: T, ys: seq<T>, key: T -> K, le: (K, K) -> bool)
    requires TotalOrder(le)
    requires SortedBy(ys, key, le)
    ensures SortedBy(InsertBy(x, ys, key, le), key, le)
  {
    if |ys| == 0 {
    } else if le(key(x), key(ys[0])) {
      forall j | 0 <= j < |ys| ensures le(key(x), key(ys[j])) {
        if j > 0 { assert le(key(ys[0]), key(ys[j])); }
      }
    } else {
      var r := InsertBy(x, ys[1..], key, le);
      InsertOrders(x, ys[1..], key, le);
      InsertKeeps(x, ys[1..], key, le);
      forall j | 0 <= j < |r| ensures le(key(ys[0]), key(r[j])) {
        assert r[j] in multiset(r);
        if r[j] != x {
          assert r[j] in multiset(ys[1..]);
          assert r[j] in ys[1..];
        }
      }
    }
  }

  lemma {:induction false} SortOrders<T, K(!new)>(xs: seq<T>, key: T -> K, le: (K, K) -> bool)
    requires TotalOrder(le)
    ensures SortedBy(SortBy(xs, key, le), key, le)
  {
    if |xs| > 0 {
      SortOrders(xs[1..], key, le);
      InsertOrders(xs[0], SortBy(xs[1..], key, le), key, le);
    }
  }

  lemma GroupAfter<T, K>(y: T, zs: seq<T>, k: K, key: T -> K)
    ensures WithKey([y] + zs, k, key) == (if key(y) == k then [y] else []) + WithKey(zs, k, key)
  {
    assert ([y] + zs)[1..] == zs;
  }

  lemma NotBelowIsOther<K(!new)>(a: K, b: K, le: (K, K) -> bool)
    requires TotalOrder(le) && !le(a, b)
    ensures a != b
  {}

  lemma {:induction false} InsertKeepsGroups<T, K(!new)>(x: T, ys: seq<T>, k: K, key: T -> K, le: (K, K) -> bool)
    requires TotalOrder(le)
    ensures WithKey(InsertBy(x, ys, key, le), k, key)
         == (if key(x) == k then [x] else []) + WithKey(ys, k, key)
  {
    if |ys| == 0 || le(key(x), key(ys[0])) {
      GroupAfter(x, ys, k, key);
    } else {
      var y, zs := ys[0], ys[1..];
      NotBelowIsOther(key(x), key(y), le);
      InsertKeepsGroups(x, zs, k, key, le);
      GroupAfter(y, InsertBy(x, zs, key, le), k, key);
      GroupAfter(y, zs, k, key);
      assert ys == [y] + zs;
    }
  }

  lemma {:induction false} SortKeepsGroups<T, K(!new)>(xs: seq<T>, key: T -> K, le: (K, K) -> bool)
    requires TotalOrder(le)
    ensures SameGroups(SortBy(xs, key, le), xs, key)
  {
    if |xs| > 0 {
      SortKeepsGroups(xs[1..], key, le);
      forall k ensures WithKey(SortBy(xs, key, le), k, key) == WithKey(xs, k, key) {
        InsertKeepsGroups(xs[0], SortBy(xs[1..], key, le), k, key, le);
      }
    }
  }

  // ------------------------------------------------------- and the only one

  /** A group that is not empty has a member. */
  lemma {:induction false} GroupMember<T, K>(xs: seq<T>, k: K, key: T -> K) returns (i: nat)
    requires WithKey(xs, k, key) != []
    ensures i < |xs| && key(xs[i]) == k
  {
    if key(xs[0]) == k {
      i := 0;
    } else {
      i := GroupMember(xs[1..], k, key);
      i := i + 1;
    }
  }

  /** No element of xs has a smaller key than the first of a sorted ys with the same groups. */
  lemma HeadIsLeast<T, K(!new)>(xs: seq<T>, ys: seq<T>, key: T -> K, le: (K, K) -> bool)
    requires TotalOrder(le)
    requires SortedBy(ys, key, le) && SameGroups(xs, ys, key) && |xs| > 0
    ensures |ys| > 0 && le(key(ys[0]), key(xs[0]))
  {
    var k := key(xs[0]);
    assert WithKey(xs, k, key)[0] == xs[0];
    assert WithKey(ys, k, key) == WithKey(xs, k, key);
    var i := GroupMember(ys, k, key);
  }

  lemma {:induction false} SortedGroupsAgree<T, K(!new)>(xs: seq<T>, ys: seq<T>, key: T -> K, le: (K, K) -> bool)
    requires TotalOrder(le)
    requires SortedBy(xs, key, le) && SortedBy(ys, key, le) && SameGroups(xs, ys, key)
    ensures xs == ys
  {
    if |xs| == 0 {
      if |ys| > 0 { HeadIsLeast(ys, xs, key, le); }
    } else {
      HeadIsLeast(xs, ys, key, le);
      HeadIsLeast(ys, xs, key, le);
      var k := key(xs[0]);
      assert WithKey(xs, k, key)[0] == xs[0] && WithKey(ys, k, key)[0] == ys[0];
      forall j ensures WithKey(xs[1..], j, key) == WithKey(ys[1..], j, key) {
        var a, b := WithKey(xs, j, key), WithKey(ys, j, key);
        if j == k {
          assert a[1..] == WithKey(xs[1..], j, key) && b[1..] == WithKey(ys[1..], j, key);
        } else {
          assert a == WithKey(xs[1..], j, key) && b == WithKey(ys[1..], j, key);
        }
      }
      SortedGroupsAgree(xs[1..], ys[1..], key, le);
      assert xs == [xs[0]] + xs[1..] && ys == [ys[0]] + ys[1..];
    }
  }

  /** Whatever stable sorting algorithm is used, its result is `SortBy(xs, key, le)`. */
  lemma UniqueSort<T, K(!new)>(xs: seq<T>, ys: seq<T>, key: T -> K, le: (K, K) -> bool)
    requires TotalOrder(le)
    ensures ys == SortBy(xs, key, le) <==> SortedBy(ys, key, le) && SameGroups(ys, xs, key)
  {
    SortOrders(xs, key, le);
    SortKeepsGroups(xs, key, le);
    if SortedBy(ys, key, le) && SameGroups(ys, xs, key) {
      SortedGroupsAgree(ys, SortBy(xs, key, le), key, le);
    }
  }

  // ------------------------------------- the permutation depends on keys only

  /** xs and ys are related position by position, and related elements have equal keys. */
  ghost predicate Aligned<A(!new), B(!new)>(xs: seq<A>, ys: seq<B>, r: (A, B) -> bool) {
    |xs| == |ys| && forall i | 0 <= i < |xs| :: r(xs[i], ys[i])
  }

  ghost predicate RelatesKeys<A(!new), B(!new), K>(r: (A, B) -> bool, ka: A -> K, kb: B -> K) {
    forall a, b :: r(a, b) ==> ka(a) == kb(b)
  }

  lemma {:induction false} InsertAligns<A(!new), B(!new), K>(
    x: A, xs: seq<A>, ka: A -> K, y: B, ys: seq<B>, kb: B -> K, le: (K, K) -> bool, r: (A, B) -> bool)
    requires RelatesKeys(r, ka, kb) && r(x, y) && Aligned(xs, ys, r)
    ensures Aligned(InsertBy(x, xs, ka, le), InsertBy(y, ys, kb, le), r)
  {
    if |xs| > 0 {
      assert r(xs[0], ys[0]);
      if !le(ka(x), ka(xs[0])) { InsertAligns(x, xs[1..], ka, y, ys[1..], kb, le, r); }
    }
  }

  /** Two collections sorted separately stay aligned, even when keys repeat. */
  lemma {:induction false} SortAligns<A(!new), B(!new), K>(
    xs: seq<A>, ka: A -> K, ys: seq<B>, kb: B -> K, le: (K, K) -> bool, r: (A, B) -> bool)
    requires RelatesKeys(r, ka, kb) && Aligned(xs, ys, r)
    ensures Aligned(SortBy(xs, ka, le), SortBy(ys, kb, le), r)
  {
    if |xs| > 0 {
      SortAligns(xs[1..], ka, ys[1..], kb, le, r);
      InsertAligns(xs[0], SortBy(xs[1..], ka, le), ka, ys[0], SortBy(ys[1..], kb, le), kb, le, r);
    }
  }

  // ------------------------------------------- with distinct keys, order is irrelevant

  lemma {:induction false} GroupIsSingleton<T, K>(xs: seq<T>, i: nat, key: T -> K)
    requires i < |xs| && DistinctKeys(xs, key)
    ensures WithKey(xs, key(xs[i]), key) == [xs[i]]
  {
    if i > 0 {
      GroupIsSingleton(xs[1..], i - 1, key);
    } else if WithKey(xs[1..], key(xs[0]), key) != [] {
      var j := GroupMember(xs[1..], key(xs[0]), key);
      assert false;
    }
  }

  lemma DistinctSortBy<T, K(!new)>(xs: seq<T>, ys: seq<T>, key: T -> K, le: (K, K) -> bool)
    requires TotalOrder(le)
    requires multiset(xs) == multiset(ys) && DistinctKeys(xs, key) && DistinctKeys(ys, key)
    ensures SortBy(xs, key, le) == SortBy(ys, key, le)
  {
    forall k ensures WithKey(xs, k, key) == WithKey(ys, k, key) {
      if WithKey(xs, k, key) != [] {
        var i := GroupMember(xs, k, key);
        assert xs[i] in multiset(ys);
        var j :| 0 <= j < |ys| && ys[j] == xs[i];
        GroupIsSingleton(xs, i, key);
        GroupIsSingleton(ys, j, key);
      } else if WithKey(ys, k, key) != [] {
        var j := GroupMember(ys, k, key);
        assert ys[j] in multiset(xs);
        var i :| 0 <= i < |xs| && xs[i] == ys[j];
        GroupIsSingleton(xs, i, key);
        assert false;
      }
    }
    SortKeepsGroups(xs, key, le);
    UniqueSort(ys, SortBy(xs, key, le), key, le);
    SortOrders(xs, key, le);
  }
}
