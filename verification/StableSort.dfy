/** The standard library's stable sort by a string key. */
module StableSort {
  import opened Strings
  import opened Sorting

  function Sort<T>(xs: seq<T>, key: T -> string): seq<T> { SortBy(xs, key, LexLe) }

  ghost predicate Sorted<T>(xs: seq<T>, key: T -> string) { SortedBy(xs, key, LexLe) }

  lemma LexOrder()
    ensures TotalOrder(LexLe)
  {
    forall a, b ensures (LexLe(a, b) || LexLe(b, a)) && (LexLe(a, b) && LexLe(b, a) ==> a == b) { LexTotal(a, b); }
    forall a, b, c | LexLe(a, b) && LexLe(b, c) ensures LexLe(a, c) { LexTransitive(a, b, c); }
  }

  lemma SortMultiset<T>(xs: seq<T>, key: T -> string)
    ensures multiset(Sort(xs, key)) == multiset(xs)
    ensures |Sort(xs, key)| == |xs|
  {
    SortKeeps(xs, key, LexLe);
  }

  lemma SortSorted<T>(xs: seq<T>, key: T -> string)
    ensures Sorted(Sort(xs, key), key)
  {
    LexOrder();
    SortOrders(xs, key, LexLe);
  }

  lemma SortStable<T>(xs: seq<T>, key: T -> string)
    ensures SameGroups(Sort(xs, key), xs, key)
  {
    LexOrder();
    SortKeepsGroups(xs, key, LexLe);
  }

  /** Whatever stable sorting algorithm is used, its result is `Sort(xs, key)`. */
  lemma Unique<T>(xs: seq<T>, ys: seq<T>, key: T -> string)
    ensures ys == Sort(xs, key) <==> Sorted(ys, key) && SameGroups(ys, xs, key)
  {
    LexOrder();
    UniqueSort(xs, ys, key, LexLe);
  }

  lemma SortedIsKept<T>(xs: seq<T>, key: T -> string)
    requires Sorted(xs, key)
    ensures Sort(xs, key) == xs
  {
    Unique(xs, xs, key);
  }

  /** Two collections sorted separately stay aligned, even when keys repeat. */
  lemma SortAligned<A(!new), B(!new)>(xs: seq<A>, ka: A -> string, ys: seq<B>, kb: B -> string, r: (A, B) -> bool)
    requires RelatesKeys(r, ka, kb) && Aligned(xs, ys, r)
    ensures Aligned(Sort(xs, ka), Sort(ys, kb), r)
  {
    SortAligns(xs, ka, ys, kb, LexLe, r);
  }

  lemma SortIgnoresOrder<T>(xs: seq<T>, ys: seq<T>, key: T -> string)
    requires multiset(xs) == multiset(ys) && DistinctKeys(xs, key) && DistinctKeys(ys, key)
    ensures Sort(xs, key) == Sort(ys, key)
  {
    LexOrder();
    DistinctSortBy(xs, ys, key, LexLe);
  }
}
