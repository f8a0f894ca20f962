/**
  Posting lists: the ascending, duplicate-free id lists of the inverted
  indexes, with the merge loops that intersect, unite and subtract them.

  An ascending list is determined by its elements (`AscendingUnique`), so every
  contract below states the elements of the result and that it is ascending.
 */
module PostingLists {
  import opened StableSorting

  predicate Ascending(ids: seq<nat>) {
    forall i, j :: 0 <= i < j < |ids| ==> ids[i] < ids[j]
  }

  lemma {:induction false} AscendingUnique(xs: seq<nat>, ys: seq<nat>)
    requires Ascending(xs) && Ascending(ys)
    requires forall x :: x in xs <==> x in ys
    ensures xs == ys
  {
    assert |xs| > 0 ==> xs[0] in ys;
    assert |ys| > 0 ==> ys[0] in xs;
    if |xs| > 0 && |ys| > 0 {
      assert xs[0] == ys[0];
      forall x ensures x in xs[1..] <==> x in ys[1..] {
        assert x in xs[1..] <==> x in xs && x != xs[0];
        assert x in ys[1..] <==> x in ys && x != ys[0];
      }
      AscendingUnique(xs[1..], ys[1..]);
    }
  }

  class PostingList {
    var ids: seq<nat>

    ghost predicate Valid()
      reads this
    {
      Ascending(ids)
    }

    constructor New()
      ensures Valid() && ids == []
    {
      ids := [];
    }

    /** A list taken over from its owner, as when an index entry is borrowed. */
    constructor Of(sorted: seq<nat>)
      requires Ascending(sorted)
      ensures Valid() && ids == sorted
    {
      ids := sorted;
    }

    constructor FromIds(raw: seq<nat>)
      ensures Valid()
      ensures forall x :: x in ids <==> x in raw
    {
      var sorted := StableSort(raw, Id);
      StableSortSorts(raw, Id);
      StableSortElements(raw, Id);
      assert forall i, j :: 0 <= i < j < |sorted| ==> Id(sorted[i]) <= Id(sorted[j]);
      var deduped := Dedup(sorted);
      ids := deduped;
    }

    /** Position of `id`, or the position where it would have to be inserted. */
    method BinarySearch(id: nat) returns (found: bool, pos: nat)
      requires Valid()
      ensures pos <= |ids|
      ensures forall i :: 0 <= i < pos ==> ids[i] < id
      ensures forall i :: pos <= i < |ids| ==> id <= ids[i]
      ensures found <==> pos < |ids| && ids[pos] == id
      ensures found <==> id in ids
    {
      var lo, hi := 0, |ids|;
      while lo < hi
        invariant 0 <= lo <= hi <= |ids|
        invariant forall i :: 0 <= i < lo ==> ids[i] < id
        invariant forall i :: hi <= i < |ids| ==> id <= ids[i]
      {
        var mid := lo + (hi - lo) / 2;
        if ids[mid] < id {
          lo := mid + 1;
        } else {
          hi := mid;
        }
      }
      pos := lo;
      found := pos < |ids| && ids[pos] == id;
    }

    method Insert(id: nat)
      requires Valid()
      modifies this
      ensures Valid()
      ensures forall x :: x in ids <==> x in old(ids) || x == id
      ensures id in old(ids) ==> ids == old(ids)
    {
      var found, pos := BinarySearch(id);
      if !found {
        ids := ids[..pos] + [id] + ids[pos..];
      }
    }

    method Remove(id: nat) returns (present: bool)
      requires Valid()
      modifies this
      ensures Valid()
      ensures present <==> id in old(ids)
      ensures forall x :: x in ids <==> x in old(ids) && x != id
      ensures !present ==> ids == old(ids)
    {
      var found, pos := BinarySearch(id);
      present := found;
      if found {
        ghost var was := ids;
        ids := ids[..pos] + ids[pos + 1..];
        assert was == was[..pos] + [id] + was[pos + 1..];
      }
    }

    method Contains(id: nat) returns (present: bool)
      requires Valid()
      ensures present <==> id in ids
    {
      var pos;
      present, pos := BinarySearch(id);
    }
  }

  function Id(id: nat): int { id }

  /** Drops consecutive repetitions (`Vec::dedup`). */
  method Dedup(sorted: seq<nat>) returns (ids: seq<nat>)
    requires forall i, j :: 0 <= i < j < |sorted| ==> sorted[i] <= sorted[j]
    ensures Ascending(ids)
    ensures forall x :: x in ids <==> x in sorted
  {
    ids := [];
    for i := 0 to |sorted|
      invariant Ascending(ids)
      invariant i == 0 ==> ids == []
      invariant i > 0 ==> forall k :: 0 <= k < |ids| ==> ids[k] <= sorted[i - 1]
      invariant forall k :: 0 <= k < i ==> sorted[k] in ids
      invariant forall x :: x in ids ==> x in sorted
    {
      if i == 0 || sorted[i - 1] != sorted[i] {
        ids := ids + [sorted[i]];
      }
    }
  }

  /** All of `ids` lie below the next unread element of `a`. */
  ghost predicate Under(ids: seq<nat>, a: seq<nat>, i: nat) {
    i < |a| ==> forall k :: 0 <= k < |ids| ==> ids[k] < a[i]
  }

  lemma TakePrefix(a: seq<nat>, i: nat)
    requires Ascending(a) && i < |a|
    ensures a[..i + 1] == a[..i] + [a[i]]
    ensures i + 1 < |a| ==> a[i] < a[i + 1]
  {
  }

  /** `ids` is `a[..i]` without `b`, and `b[..j]` has been passed. */
  ghost predicate DifferenceSoFar(ids: seq<nat>, a: seq<nat>, b: seq<nat>, i: nat, j: nat) {
    && i <= |a| && j <= |b|
    && Ascending(ids) && Under(ids, a, i) && Under(b[..j], a, i)
    && forall x :: x in ids <==> x in a[..i] && x !in b
  }

  lemma KeepUnmatched(ids: seq<nat>, a: seq<nat>, b: seq<nat>, i: nat, j: nat)
    requires Ascending(a) && Ascending(b) && DifferenceSoFar(ids, a, b, i, j)
    requires i < |a| && (j < |b| ==> a[i] < b[j])
    ensures a[i] !in b
    ensures DifferenceSoFar(ids + [a[i]], a, b, i + 1, j)
  {
    TakePrefix(a, i);
    assert forall k :: 0 <= k < j ==> b[..j][k] == b[k];
    assert a[i] !in b;
    assert Under(b[..j], a, i + 1);
  }

  lemma {:induction false} KeepRest(ids: seq<nat>, a: seq<nat>, b: seq<nat>, i: nat)
    requires Ascending(a) && Ascending(b) && DifferenceSoFar(ids, a, b, i, |b|)
    ensures DifferenceSoFar(ids + a[i..], a, b, |a|, |b|)
    decreases |a| - i
  {
    if i < |a| {
      KeepUnmatched(ids, a, b, i, |b|);
      KeepRest(ids + [a[i]], a, b, i + 1);
      assert ids + a[i..] == ids + [a[i]] + a[i + 1..];
    } else {
      assert ids + a[i..] == ids;
    }
  }

  /** Ids of `a` that are absent from `b`. */
  method Difference(a: seq<nat>, b: seq<nat>) returns (ids: seq<nat>)
    requires Ascending(a) && Ascending(b)
    ensures Ascending(ids)
    ensures forall x :: x in ids <==> x in a && x !in b
  {
    ids := [];
    var i, j := 0, 0;
    while i < |a| && j < |b|
      invariant 0 <= i <= |a| && 0 <= j <= |b|
      invariant DifferenceSoFar(ids, a, b, i, j)
    {
      TakePrefix(a, i);
      TakePrefix(b, j);
      if a[i] < b[j] {
        KeepUnmatched(ids, a, b, i, j);
        ids := ids + [a[i]];
        i := i + 1;
      } else if a[i] > b[j] {
        j := j + 1;
      } else {
        assert a[i] in b;
        i := i + 1;
        j := j + 1;
      }
    }
    if j == |b| {
      KeepRest(ids, a, b, i);
    } else {
      assert ids + a[i..] == ids;
    }
    ids := ids + a[i..];
    assert a[..|a|] == a;
  }

  /** Ids present in both lists. */
  method IntersectTwo(a: seq<nat>, b: seq<nat>) returns (ids: seq<nat>)
    requires Ascending(a) && Ascending(b)
    ensures Ascending(ids)
    ensures forall x :: x in ids <==> x in a && x in b
  {
    ids := [];
    var i, j := 0, 0;
    while i < |a| && j < |b|
      invariant 0 <= i <= |a| && 0 <= j <= |b|
      invariant Ascending(ids) && Under(ids, a, i) && Under(b[..j], a, i)
      invariant forall x :: x in ids <==> x in a[..i] && x in b
    {
      TakePrefix(a, i);
      TakePrefix(b, j);
      if a[i] < b[j] {
        assert a[i] !in b by { assert b == b[..j] + b[j..]; }
        i := i + 1;
      } else if a[i] > b[j] {
        j := j + 1;
      } else {
        assert a[i] in b;
        ids := ids + [a[i]];
        i := i + 1;
        j := j + 1;
      }
    }
    assert a == a[..i] + a[i..] && b == b[..j] + b[j..];
    assert i < |a| ==> forall x :: x in a[i..] ==> x !in b;
  }

  /** `ids` is the union of `a[..i]` and `b[..j]`, all below what is still unread. */
  ghost predicate UnionSoFar(ids: seq<nat>, a: seq<nat>, b: seq<nat>, i: nat, j: nat) {
    && i <= |a| && j <= |b|
    && Ascending(ids) && Under(ids, a, i) && Under(ids, b, j)
    && forall x :: x in ids <==> x in a[..i] || x in b[..j]
  }

  lemma UnionSwap(ids: seq<nat>, a: seq<nat>, b: seq<nat>, i: nat, j: nat)
    requires UnionSoFar(ids, a, b, i, j)
    ensures UnionSoFar(ids, b, a, j, i)
  {
  }

  lemma UnionTake(ids: seq<nat>, a: seq<nat>, b: seq<nat>, i: nat, j: nat)
    requires Ascending(a) && UnionSoFar(ids, a, b, i, j)
    requires i < |a| && (j < |b| ==> a[i] < b[j])
    ensures UnionSoFar(ids + [a[i]], a, b, i + 1, j)
  {
    TakePrefix(a, i);
  }

  lemma UnionTakeBoth(ids: seq<nat>, a: seq<nat>, b: seq<nat>, i: nat, j: nat)
    requires Ascending(a) && Ascending(b) && UnionSoFar(ids, a, b, i, j)
    requires i < |a| && j < |b| && a[i] == b[j]
    ensures UnionSoFar(ids + [a[i]], a, b, i + 1, j + 1)
  {
    TakePrefix(a, i);
    TakePrefix(b, j);
  }

  lemma {:induction false} UnionRest(ids: seq<nat>, a: seq<nat>, b: seq<nat>, i: nat)
    requires Ascending(a) && UnionSoFar(ids, a, b, i, |b|)
    ensures UnionSoFar(ids + a[i..], a, b, |a|, |b|)
    decreases |a| - i
  {
    if i < |a| {
      UnionTake(ids, a, b, i, |b|);
      UnionRest(ids + [a[i]], a, b, i + 1);
      assert ids + a[i..] == ids + [a[i]] + a[i + 1..];
    } else {
      assert ids + a[i..] == ids;
    }
  }

  /** Ids present in either list. */
  method Union(a: seq<nat>, b: seq<nat>) returns (ids: seq<nat>)
    requires Ascending(a) && Ascending(b)
    ensures Ascending(ids)
    ensures forall x :: x in ids <==> x in a || x in b
  {
    ids := [];
    var i, j := 0, 0;
    while i < |a| && j < |b|
      invariant 0 <= i <= |a| && 0 <= j <= |b|
      invariant UnionSoFar(ids, a, b, i, j)
    {
      if a[i] < b[j] {
        UnionTake(ids, a, b, i, j);
        ids := ids + [a[i]];
        i := i + 1;
      } else if a[i] > b[j] {
        UnionSwap(ids, a, b, i, j);
        UnionTake(ids, b, a, j, i);
        ids := ids + [b[j]];
        j := j + 1;
        UnionSwap(ids, b, a, j, i);
      } else {
        UnionTakeBoth(ids, a, b, i, j);
        ids := ids + [a[i]];
        i := i + 1;
        j := j + 1;
      }
    }
    if i == |a| {
      assert ids + a[i..] == ids;
      UnionSwap(ids, a, b, i, j);
      UnionRest(ids, b, a, j);
    } else {
      UnionRest(ids, a, b, i);
      assert ids + a[i..] + b[j..] == ids + a[i..];
    }
    ids := ids + a[i..];
    ids := ids + b[j..];
    assert a[..|a|] == a && b[..|b|] == b;
  }

  function Length(list: seq<nat>): int { |list| }

  predicate InAll(x: nat, lists: seq<seq<nat>>) {
    forall i :: 0 <= i < |lists| ==> x in lists[i]
  }

  lemma InAllReordered(lists: seq<seq<nat>>, x: nat)
    ensures InAll(x, StableSort(lists, Length)) <==> InAll(x, lists)
  {
    var sorted := StableSort(lists, Length);
    StableSortElements(lists, Length);
    if InAll(x, sorted) {
      forall i | 0 <= i < |lists| ensures x in lists[i] { assert lists[i] in sorted; }
    }
    if InAll(x, lists) {
      forall i | 0 <= i < |sorted| ensures x in sorted[i] { assert sorted[i] in lists; }
    }
  }

  /** Intersection of a non-empty run of lists, stopping once nothing is left. */
  method IntersectInOrder(lists: seq<seq<nat>>) returns (ids: seq<nat>)
    requires lists != []
    requires forall i :: 0 <= i < |lists| ==> Ascending(lists[i])
    ensures Ascending(ids)
    ensures forall x :: x in ids <==> InAll(x, lists)
  {
    ids := lists[0];
    for n := 1 to |lists|
      invariant Ascending(ids)
      invariant forall x :: x in ids <==> InAll(x, lists[..n])
    {
      ghost var before := ids;
      ids := IntersectTwo(ids, lists[n]);
      forall x ensures x in ids <==> InAll(x, lists[..n + 1]) {
        InAllStep(x, lists, n);
      }
      if |ids| == 0 {
        forall x ensures !InAll(x, lists) { InAllPrefix(x, lists, n + 1); }
        return;
      }
    }
    assert lists[..|lists|] == lists;
  }

  lemma InAllStep(x: nat, lists: seq<seq<nat>>, n: nat)
    requires n < |lists|
    ensures InAll(x, lists[..n + 1]) <==> InAll(x, lists[..n]) && x in lists[n]
  {
    if InAll(x, lists[..n + 1]) {
      assert lists[..n + 1][n] == lists[n];
      forall i | 0 <= i < n ensures x in lists[..n][i] { assert x in lists[..n + 1][i]; }
    }
  }

  lemma InAllPrefix(x: nat, lists: seq<seq<nat>>, n: nat)
    requires n <= |lists|
    ensures InAll(x, lists) ==> InAll(x, lists[..n])
  {
  }

  /**
    Intersection of all lists, smallest first.  No list at all yields no id.
   */
  method Intersect(lists: seq<seq<nat>>) returns (ids: seq<nat>)
    requires forall i :: 0 <= i < |lists| ==> Ascending(lists[i])
    ensures Ascending(ids)
    ensures forall x :: x in ids <==> lists != [] && InAll(x, lists)
  {
    if |lists| == 0 { return []; }
    if |lists| == 1 { return lists[0]; }
    var sorted := StableSort(lists, Length);
    StableSortSorts(lists, Length);
    StableSortElements(lists, Length);
    forall i | 0 <= i < |sorted| ensures Ascending(sorted[i]) { assert sorted[i] in lists; }
    ids := IntersectInOrder(sorted);
    forall x ensures InAll(x, sorted) <==> InAll(x, lists) { InAllReordered(lists, x); }
  }
}
