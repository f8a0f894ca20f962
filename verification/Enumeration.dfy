/** Iterating hash maps: some enumeration of the keys, each exactly once. */
module Enumeration {
  import opened PostingLists
  import opened StableSorting

  predicate Distinct<T(==)>(xs: seq<T>) {
    forall i, j :: 0 <= i < j < |xs| ==> xs[i] != xs[j]
  }

  method SomeOrder<T(==)>(s: set<T>) returns (xs: seq<T>)
    ensures forall x :: x in xs <==> x in s
    ensures Distinct(xs)
  {
    xs := [];
    var todo := s;
    while todo != {}
      invariant todo <= s
      invariant forall x :: x in xs <==> x in s && x !in todo
      invariant Distinct(xs)
      decreases todo
    {
      var x :| x in todo;
      xs := xs + [x];
      todo := todo - {x};
    }
  }

  lemma {:induction false} DistinctCount<T>(xs: seq<T>, x: T)
    requires Distinct(xs)
    ensures multiset(xs)[x] <= 1
  {
    if |xs| > 0 {
      assert xs == [xs[0]] + xs[1..];
      DistinctCount(xs[1..], x);
      if x == xs[0] { assert x !in xs[1..]; }
    }
  }

  /** A rearrangement of distinct elements is distinct. */
  lemma DistinctByMultiset<T>(xs: seq<T>, ys: seq<T>)
    requires Distinct(xs) && multiset(xs) == multiset(ys)
    ensures Distinct(ys)
  {
    forall i, j | 0 <= i < j < |ys| ensures ys[i] != ys[j] {
      DistinctCount(xs, ys[i]);
      var a, b := ys[..j], ys[j..];
      assert ys == a + b && a[i] == ys[i] && b[0] == ys[j];
      assert multiset(ys) == multiset(a) + multiset(b);
      assert ys[i] in multiset(a) && ys[j] in multiset(b);
    }
  }

  /** The keys of a map in ascending order of a measure. */
  method OrderedBy<T(==)>(s: set<T>, key: T -> int) returns (xs: seq<T>)
    ensures forall x :: x in xs <==> x in s
    ensures Distinct(xs) && SortedBy(xs, key)
  {
    var keys := SomeOrder(s);
    xs := StableSort(keys, key);
    StableSortSorts(keys, key);
    StableSortElements(keys, key);
    DistinctByMultiset(keys, xs);
  }

  /** The elements of a set of ids in ascending order. */
  method AscendingIds(s: set<nat>) returns (ids: seq<nat>)
    ensures Ascending(ids) && Distinct(ids)
    ensures forall id :: id in ids <==> id in s
  {
    ids := OrderedBy<nat>(s, Id);
    assert forall i, j :: 0 <= i < j < |ids| ==> Id(ids[i]) <= Id(ids[j]) && ids[i] != ids[j];
  }
}
