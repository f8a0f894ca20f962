/**
  Stable sorting by an integer key, as `slice::sort_by_key` does it.

  A stable sort is pinned down by two facts: its result is ascending in the
  key, and for every key `k` the elements carrying `k` appear in their input
  order.  `SortedUnique` shows that these two facts leave one possible result,
  and the remaining laws are short consequences of it.
 */
module StableSorting {
  import opened Positions

  predicate SortedBy<T>(xs: seq<T>, key: T -> int) {
    forall i, j :: 0 <= i < j < |xs| ==> key(xs[i]) <= key(xs[j])
  }

  /** The elements whose key is `k`, in order. */
  function KeyFilter<T>(xs: seq<T>, key: T -> int, k: int): seq<T> {
    if |xs| == 0 then []
    else (if key(xs[0]) == k then [xs[0]] else []) + KeyFilter(xs[1..], key, k)
  }

  /** `xs` and `ys` agree key by key. */
  ghost predicate SameByKey<T>(xs: seq<T>, ys: seq<T>, key: T -> int) {
    forall k :: KeyFilter(xs, key, k) == KeyFilter(ys, key, k)
  }

  /** The elements whose key is at least `c`, in order. */
  function AtLeast<T>(xs: seq<T>, key: T -> int, c: int): seq<T> {
    if |xs| == 0 then []
    else (if key(xs[0]) >= c then [xs[0]] else []) + AtLeast(xs[1..], key, c)
  }

  function InsertStable<T>(x: T, ys: seq<T>, key: T -> int): seq<T> {
    if |ys| == 0 || key(x) <= key(ys[0]) then [x] + ys
    else [ys[0]] + InsertStable(x, ys[1..], key)
  }

  function StableSort<T>(xs: seq<T>, key: T -> int): seq<T> {
    if |xs| == 0 then [] else InsertStable(xs[0], StableSort(xs[1..], key), key)
  }

  /** Number of leading elements whose key is below `c` (`partition_point`). */
  function CountBelow<T>(xs: seq<T>, key: T -> int, c: int): (n: nat)
    ensures n <= |xs|
    ensures forall i :: 0 <= i < n ==> key(xs[i]) < c
    ensures n < |xs| ==> key(xs[n]) >= c
  {
    if |xs| == 0 || key(xs[0]) >= c then 0 else 1 + CountBelow(xs[1..], key, c)
  }

  lemma KeyFilterCons<T>(x: T, ys: seq<T>, key: T -> int, k: int)
    ensures KeyFilter([x] + ys, key, k) == (if key(x) == k then [x] else []) + KeyFilter(ys, key, k)
  {
    assert ([x] + ys)[1..] == ys;
  }

  lemma {:induction false} KeyFilterElements<T>(xs: seq<T>, key: T -> int, k: int)
    ensures forall x :: x in KeyFilter(xs, key, k) <==> x in xs && key(x) == k
    ensures |xs| > 0 && key(xs[0]) == k ==> |KeyFilter(xs, key, k)| > 0 && KeyFilter(xs, key, k)[0] == xs[0]
  {
    if |xs| > 0 {
      KeyFilterElements(xs[1..], key, k);
      assert xs == [xs[0]] + xs[1..];
    }
  }

  lemma {:induction false} KeyFilterAppend<T>(xs: seq<T>, ys: seq<T>, key: T -> int, k: int)
    ensures KeyFilter(xs + ys, key, k) == KeyFilter(xs, key, k) + KeyFilter(ys, key, k)
  {
    if |xs| == 0 {
      assert xs + ys == ys;
    } else {
      KeyFilterAppend(xs[1..], ys, key, k);
      assert xs == [xs[0]] + xs[1..] && xs + ys == [xs[0]] + (xs[1..] + ys);
      KeyFilterCons(xs[0], xs[1..], key, k);
      KeyFilterCons(xs[0], xs[1..] + ys, key, k);
    }
  }

  lemma KeyFilterNone<T>(xs: seq<T>, key: T -> int)
    requires forall k :: KeyFilter(xs, key, k) == []
    ensures xs == []
  {
    if |xs| > 0 {
      KeyFilterElements(xs, key, key(xs[0]));
      assert false;
    }
  }

  /** Two ascending sequences that agree key by key are the same sequence. */
  lemma {:induction false} SortedUnique<T>(xs: seq<T>, ys: seq<T>, key: T -> int)
    requires SortedBy(xs, key) && SortedBy(ys, key)
    requires SameByKey(xs, ys, key)
    ensures xs == ys
  {
    if |xs| == 0 {
      forall k ensures KeyFilter(ys, key, k) == [] {
        assert KeyFilter(xs, key, k) == KeyFilter(ys, key, k);
      }
      KeyFilterNone(ys, key);
    } else {
      KeyFilterElements(xs, key, key(xs[0]));
      KeyFilterElements(ys, key, key(xs[0]));
      assert xs[0] in ys;
      KeyFilterElements(ys, key, key(ys[0]));
      KeyFilterElements(xs, key, key(ys[0]));
      assert ys[0] in xs;
      assert key(xs[0]) == key(ys[0]) && xs[0] == ys[0];
      forall k: int ensures KeyFilter(xs[1..], key, k) == KeyFilter(ys[1..], key, k) {
        assert KeyFilter(xs, key, k) == KeyFilter(ys, key, k);
        var head := if key(xs[0]) == k then [xs[0]] else [];
        assert KeyFilter(xs, key, k) == head + KeyFilter(xs[1..], key, k);
        assert KeyFilter(ys, key, k) == head + KeyFilter(ys[1..], key, k);
        assert KeyFilter(xs[1..], key, k) == KeyFilter(xs, key, k)[|head|..];
      }
      SortedUnique(xs[1..], ys[1..], key);
    }
  }

  lemma {:induction false} InsertStableElements<T>(x: T, ys: seq<T>, key: T -> int)
    ensures multiset(InsertStable(x, ys, key)) == multiset{x} + multiset(ys)
  {
    if |ys| == 0 || key(x) <= key(ys[0]) {
    } else {
      InsertStableElements(x, ys[1..], key);
      assert ys == [ys[0]] + ys[1..];
    }
  }

  lemma {:induction false} InsertStableSorted<T>(x: T, ys: seq<T>, key: T -> int)
    requires SortedBy(ys, key)
    ensures SortedBy(InsertStable(x, ys, key), key)
  {
    if |ys| == 0 || key(x) <= key(ys[0]) {
    } else {
      InsertStableSorted(x, ys[1..], key);
      InsertStableElements(x, ys[1..], key);
      var r := InsertStable(x, ys[1..], key);
      forall i | 0 <= i < |r| ensures key(ys[0]) <= key(r[i]) {
        assert r[i] in multiset(r);
      }
    }
  }

  lemma {:induction false} InsertStableKeys<T>(x: T, ys: seq<T>, key: T -> int, k: int)
    ensures KeyFilter(InsertStable(x, ys, key), key, k) == KeyFilter([x] + ys, key, k)
  {
    KeyFilterCons(x, ys, key, k);
    if |ys| == 0 || key(x) <= key(ys[0]) {
    } else {
      InsertStableKeys(x, ys[1..], key, k);
      KeyFilterCons(x, ys[1..], key, k);
      KeyFilterCons(ys[0], InsertStable(x, ys[1..], key), key, k);
    }
  }

  lemma {:induction false} StableSortSorts<T>(xs: seq<T>, key: T -> int)
    ensures SortedBy(StableSort(xs, key), key)
    ensures multiset(StableSort(xs, key)) == multiset(xs)
    ensures |StableSort(xs, key)| == |xs|
    ensures SameByKey(StableSort(xs, key), xs, key)
  {
    if |xs| > 0 {
      StableSortSorts(xs[1..], key);
      var r := StableSort(xs[1..], key);
      InsertStableSorted(xs[0], r, key);
      InsertStableElements(xs[0], r, key);
      assert xs == [xs[0]] + xs[1..];
      forall k ensures KeyFilter(StableSort(xs, key), key, k) == KeyFilter(xs, key, k) {
        InsertStableKeys(xs[0], r, key, k);
        KeyFilterCons(xs[0], r, key, k);
      }
    }
    assert |multiset(StableSort(xs, key))| == |multiset(xs)|;
  }

  lemma StableSortElements<T>(xs: seq<T>, key: T -> int)
    ensures forall x :: x in StableSort(xs, key) <==> x in xs
    ensures |StableSort(xs, key)| == |xs|
    ensures forall i :: 0 <= i < |xs| ==> StableSort(xs, key)[i] in xs
  {
    StableSortSorts(xs, key);
    var ys := StableSort(xs, key);
    forall x ensures x in ys <==> x in xs {
      assert x in ys <==> x in multiset(ys);
      assert x in xs <==> x in multiset(xs);
    }
    forall i | 0 <= i < |xs| ensures ys[i] in xs {
      assert ys[i] in multiset(ys);
    }
  }

  /** Sorting changes nothing exactly when the input is already ascending. */
  lemma SortIsIdentityIffSorted<T>(xs: seq<T>, key: T -> int)
    ensures StableSort(xs, key) == xs <==> SortedBy(xs, key)
  {
    StableSortSorts(xs, key);
    if SortedBy(xs, key) { SortedUnique(StableSort(xs, key), xs, key); }
  }

  /** Two inputs sort alike exactly when they agree key by key. */
  lemma SortsAlikeIff<T>(xs: seq<T>, ys: seq<T>, key: T -> int)
    ensures StableSort(xs, key) == StableSort(ys, key)
       <==> SameByKey(xs, ys, key)
  {
    StableSortSorts(xs, key);
    StableSortSorts(ys, key);
    if SameByKey(xs, ys, key) {
      SortedUnique(StableSort(xs, key), StableSort(ys, key), key);
    }
    var s, t := StableSort(xs, key), StableSort(ys, key);
    if s == t {
      forall k ensures KeyFilter(xs, key, k) == KeyFilter(ys, key, k) {
        assert KeyFilter(s, key, k) == KeyFilter(xs, key, k);
        assert KeyFilter(t, key, k) == KeyFilter(ys, key, k);
      }
    }
  }

  /** Sorting a sorted part again together with new elements loses nothing. */
  lemma SortAppendSorted<T>(xs: seq<T>, ys: seq<T>, key: T -> int)
    ensures StableSort(StableSort(xs, key) + ys, key) == StableSort(xs + ys, key)
  {
    StableSortSorts(xs, key);
    forall k ensures KeyFilter(StableSort(xs, key) + ys, key, k) == KeyFilter(xs + ys, key, k) {
      KeyFilterAppend(StableSort(xs, key), ys, key, k);
      KeyFilterAppend(xs, ys, key, k);
    }
    SortsAlikeIff(StableSort(xs, key) + ys, xs + ys, key);
  }

  lemma {:induction false} AtLeastElements<T>(xs: seq<T>, key: T -> int, c: int)
    ensures forall x :: x in AtLeast(xs, key, c) <==> x in xs && key(x) >= c
    ensures forall k :: KeyFilter(AtLeast(xs, key, c), key, k) == if k >= c then KeyFilter(xs, key, k) else []
  {
    if |xs| > 0 {
      var r := AtLeast(xs[1..], key, c);
      AtLeastElements(xs[1..], key, c);
      assert xs == [xs[0]] + xs[1..];
      forall k ensures KeyFilter(AtLeast(xs, key, c), key, k) == if k >= c then KeyFilter(xs, key, k) else [] {
        KeyFilterCons(xs[0], r, key, k);
        KeyFilterCons(xs[0], xs[1..], key, k);
        assert KeyFilter(r, key, k) == if k >= c then KeyFilter(xs[1..], key, k) else [];
        assert AtLeast(xs, key, c) == if key(xs[0]) >= c then [xs[0]] + r else r;
      }
    }
  }

  /** Cutting keeps exactly the elements whose key passes, in order. */
  lemma {:induction false} AtLeastIs<T>(xs: seq<T>, key: T -> int, c: int, test: T -> bool)
    requires forall x :: test(x) <==> key(x) >= c
    ensures Selects(xs, test, AtLeast(xs, key, c))
  {
    hide Selects;
    if xs == [] {
      SelectsNothing(test);
    } else {
      AtLeastIs(xs[1..], key, c, test);
      SelectsCons(xs[0], xs[1..], test, AtLeast(xs[1..], key, c));
      assert xs == [xs[0]] + xs[1..];
    }
  }

  lemma {:induction false} AtLeastAppend<T>(xs: seq<T>, ys: seq<T>, key: T -> int, c: int)
    ensures AtLeast(xs + ys, key, c) == AtLeast(xs, key, c) + AtLeast(ys, key, c)
  {
    if |xs| == 0 {
      assert xs + ys == ys;
    } else {
      AtLeastAppend(xs[1..], ys, key, c);
      var head := if key(xs[0]) >= c then [xs[0]] else [];
      assert (xs + ys)[0] == xs[0] && (xs + ys)[1..] == xs[1..] + ys;
      assert head + (AtLeast(xs[1..], key, c) + AtLeast(ys, key, c)) == (head + AtLeast(xs[1..], key, c)) + AtLeast(ys, key, c);
    }
  }

  /** On ascending input, `partition_point` cuts exactly where `AtLeast` starts. */
  lemma {:induction false} AtLeastOfSorted<T>(xs: seq<T>, key: T -> int, c: int)
    requires SortedBy(xs, key)
    ensures AtLeast(xs, key, c) == xs[CountBelow(xs, key, c)..]
    ensures SortedBy(AtLeast(xs, key, c), key)
  {
    if |xs| > 0 {
      AtLeastOfSorted(xs[1..], key, c);
      if key(xs[0]) >= c {
        assert CountBelow(xs[1..], key, c) == 0;
      }
    }
  }

  /** Cutting off old elements commutes with sorting. */
  lemma SortAtLeast<T>(xs: seq<T>, key: T -> int, c: int)
    ensures AtLeast(StableSort(xs, key), key, c) == StableSort(AtLeast(xs, key, c), key)
  {
    StableSortSorts(xs, key);
    AtLeastOfSorted(StableSort(xs, key), key, c);
    AtLeastElements(StableSort(xs, key), key, c);
    AtLeastElements(xs, key, c);
    StableSortSorts(AtLeast(xs, key, c), key);
    SortedUnique(AtLeast(StableSort(xs, key), key, c), StableSort(AtLeast(xs, key, c), key), key);
  }

  /** The elements passing a test, in order. */
  ghost function Filter<T>(xs: seq<T>, p: T -> bool): seq<T> {
    if |xs| == 0 then [] else (if p(xs[0]) then [xs[0]] else []) + Filter(xs[1..], p)
  }

  lemma FilterCons<T>(x: T, ys: seq<T>, p: T -> bool)
    ensures Filter([x] + ys, p) == (if p(x) then [x] else []) + Filter(ys, p)
  {
    assert ([x] + ys)[1..] == ys;
  }

  lemma {:induction false} FilterAppend<T>(xs: seq<T>, ys: seq<T>, p: T -> bool)
    ensures Filter(xs + ys, p) == Filter(xs, p) + Filter(ys, p)
  {
    if |xs| == 0 {
      assert xs + ys == ys;
    } else {
      FilterAppend(xs[1..], ys, p);
      assert xs == [xs[0]] + xs[1..] && xs + ys == [xs[0]] + (xs[1..] + ys);
      FilterCons(xs[0], xs[1..], p);
      FilterCons(xs[0], xs[1..] + ys, p);
    }
  }

  lemma {:induction false} FilterElement<T>(xs: seq<T>, p: T -> bool, x: T)
    ensures x in Filter(xs, p) <==> x in xs && p(x)
  {
    if |xs| > 0 {
      FilterElement(xs[1..], p, x);
      assert xs == [xs[0]] + xs[1..];
    }
  }

  lemma {:induction false} FilterByKey<T>(xs: seq<T>, p: T -> bool, key: T -> int, k: int)
    ensures KeyFilter(Filter(xs, p), key, k) == Filter(KeyFilter(xs, key, k), p)
  {
    if |xs| > 0 {
      var rest := xs[1..];
      FilterByKey(rest, p, key, k);
      KeyFilterCons(xs[0], Filter(rest, p), key, k);
      FilterCons(xs[0], KeyFilter(rest, key, k), p);
      assert Filter(xs, p) == if p(xs[0]) then [xs[0]] + Filter(rest, p) else Filter(rest, p);
      assert KeyFilter(xs, key, k) == if key(xs[0]) == k then [xs[0]] + KeyFilter(rest, key, k) else KeyFilter(rest, key, k);
      assert forall ys: seq<T> :: [] + ys == ys;
    }
  }

  lemma {:induction false} FilterSorted<T>(xs: seq<T>, p: T -> bool, key: T -> int)
    requires SortedBy(xs, key)
    ensures SortedBy(Filter(xs, p), key)
  {
    if |xs| > 0 {
      FilterSorted(xs[1..], p, key);
      var rest := Filter(xs[1..], p);
      forall i | 0 <= i < |rest| ensures key(xs[0]) <= key(rest[i]) {
        FilterElement(xs[1..], p, rest[i]);
        var j :| 0 <= j < |xs| - 1 && xs[1..][j] == rest[i];
        assert key(xs[0]) <= key(xs[j + 1]);
      }
      assert Filter(xs, p) == if p(xs[0]) then [xs[0]] + rest else rest;
    }
  }

  /** The positions passing a test are ascending in the key. */
  ghost predicate AscendsWhere<T>(xs: seq<T>, p: T -> bool, key: T -> int) {
    forall i, j :: 0 <= i < j < |xs| && p(xs[i]) && p(xs[j]) ==> key(xs[i]) <= key(xs[j])
  }

  /** The selected elements ascend iff every two selected positions do. */
  lemma {:induction false} FilterSortedIff<T>(xs: seq<T>, p: T -> bool, key: T -> int)
    ensures SortedBy(Filter(xs, p), key) <==> AscendsWhere(xs, p, key)
  {
    if |xs| > 0 {
      var rest := xs[1..];
      FilterSortedIff(rest, p, key);
      var f := Filter(rest, p);
      assert Filter(xs, p) == if p(xs[0]) then [xs[0]] + f else f;
      assert SortedBy([xs[0]] + f, key) <==> SortedBy(f, key) && forall i :: 0 <= i < |f| ==> key(xs[0]) <= key(f[i]) by {
        SortedCons(xs[0], f, key);
      }
      forall j | 0 < j < |xs| && p(xs[j]) ensures exists i :: 0 <= i < |f| && f[i] == xs[j] {
        FilterElement(rest, p, xs[j]);
        assert rest[j - 1] == xs[j];
      }
      forall i | 0 <= i < |f| ensures exists j :: 0 < j < |xs| && p(xs[j]) && xs[j] == f[i] {
        FilterElement(rest, p, f[i]);
        var j :| 0 <= j < |rest| && rest[j] == f[i];
        assert xs[j + 1] == f[i];
      }
      PairsInTail(xs, p, key);
    }
  }

  lemma SortedCons<T>(x: T, ys: seq<T>, key: T -> int)
    ensures SortedBy([x] + ys, key) <==> SortedBy(ys, key) && forall i :: 0 <= i < |ys| ==> key(x) <= key(ys[i])
  {
    var all := [x] + ys;
    assert forall i :: 0 <= i < |ys| ==> all[i + 1] == ys[i];
    if SortedBy(all, key) {
      forall i | 0 <= i < |ys| ensures key(x) <= key(ys[i]) { assert key(all[0]) <= key(all[i + 1]); }
      forall i, j | 0 <= i < j < |ys| ensures key(ys[i]) <= key(ys[j]) { assert key(all[i + 1]) <= key(all[j + 1]); }
    }
  }

  lemma PairsInTail<T>(xs: seq<T>, p: T -> bool, key: T -> int)
    requires |xs| > 0
    ensures AscendsWhere(xs, p, key) <==>
      && AscendsWhere(xs[1..], p, key)
      && (p(xs[0]) ==> forall j :: 0 < j < |xs| && p(xs[j]) ==> key(xs[0]) <= key(xs[j]))
  {
    var rest := xs[1..];
    assert forall i :: 0 <= i < |rest| ==> rest[i] == xs[i + 1];
    if AscendsWhere(rest, p, key) {
      forall i, j | 0 < i < j < |xs| && p(xs[i]) && p(xs[j]) ensures key(xs[i]) <= key(xs[j]) {
        assert rest[i - 1] == xs[i] && rest[j - 1] == xs[j];
      }
    }
  }

  /** Selecting commutes with stable sorting. */
  lemma SortFilter<T>(xs: seq<T>, p: T -> bool, key: T -> int)
    ensures Filter(StableSort(xs, key), p) == StableSort(Filter(xs, p), key)
  {
    var s := StableSort(xs, key);
    StableSortSorts(xs, key);
    FilterSorted(s, p, key);
    StableSortSorts(Filter(xs, p), key);
    forall k ensures KeyFilter(Filter(s, p), key, k) == KeyFilter(StableSort(Filter(xs, p), key), key, k) {
      FilterByKey(s, p, key, k);
      FilterByKey(xs, p, key, k);
      assert KeyFilter(s, key, k) == KeyFilter(xs, key, k);
      assert KeyFilter(StableSort(Filter(xs, p), key), key, k) == KeyFilter(Filter(xs, p), key, k);
    }
    SortedUnique(Filter(s, p), StableSort(Filter(xs, p), key), key);
  }
}
