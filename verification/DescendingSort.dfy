/** The standard library's stable sort by a number, largest first. */
module DescendingSort {
  import opened Sorting

  predicate AtLeast(x: real, y: real) { x >= y }

  function Sort<T>(xs: seq<T>, key: T -> real): seq<T> { SortBy(xs, key, AtLeast) }

  ghost predicate Descending<T>(xs: seq<T>, key: T -> real) {
    forall i, j | 0 <= i < j < |xs| :: key(xs[i]) >= key(xs[j])
  }

  lemma SortMultiset<T>(xs: seq<T>, key: T -> real)
    ensures multiset(Sort(xs, key)) == multiset(xs)
    ensures |Sort(xs, key)| == |xs|
  {
    SortKeeps(xs, key, AtLeast);
  }

  lemma SortDescending<T>(xs: seq<T>, key: T -> real)
    ensures Descending(Sort(xs, key), key)
  {
    SortOrders(xs, key, AtLeast);
  }

  /** Whatever stable sorting algorithm is used, its result is `Sort(xs, key)`; so ties stay
      in the order of the input. */
  lemma Unique<T>(xs: seq<T>, ys: seq<T>, key: T -> real)
    ensures ys == Sort(xs, key) <==> Descending(ys, key) && SameGroups(ys, xs, key)
  {
    UniqueSort(xs, ys, key, AtLeast);
  }
}
