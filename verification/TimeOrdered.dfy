/** Appending to a sorted vector: the O(batch) test for whether a re-sort is due. */
module TimeOrdered {
  import opened Options
  import opened Positions
  import opened StableSorting

  /**
    Looks only at the appended batch and its boundary with the old tail.
    `prevLen` is the length before the batch was appended.
   */
  predicate BatchNeedsSort<T>(items: seq<T>, prevLen: nat, key: T -> int) {
    && prevLen < |items|
    && (|| (prevLen > 0 && key(items[prevLen - 1]) > key(items[prevLen]))
        || (exists i :: prevLen <= i < |items| - 1 && key(items[i]) > key(items[i + 1])))
  }

  lemma {:induction false} AdjacentSorted<T>(xs: seq<T>, key: T -> int, i: nat, j: nat)
    requires i < j < |xs|
    requires forall k :: 0 <= k < |xs| - 1 ==> key(xs[k]) <= key(xs[k + 1])
    ensures key(xs[i]) <= key(xs[j])
    decreases j - i
  {
    assert key(xs[i]) <= key(xs[i + 1]);
    if i + 1 < j { AdjacentSorted(xs, key, i + 1, j); }
  }

  /** Given a sorted prefix, the test fires exactly when the whole vector is unsorted. */
  lemma BatchNeedsSortIffUnsorted<T>(items: seq<T>, prevLen: nat, key: T -> int)
    requires prevLen <= |items| && SortedBy(items[..prevLen], key)
    ensures BatchNeedsSort(items, prevLen, key) <==> !SortedBy(items, key)
  {
    if !BatchNeedsSort(items, prevLen, key) {
      forall k | 0 <= k < |items| - 1 ensures key(items[k]) <= key(items[k + 1]) {
        if k + 1 < prevLen {
          assert items[..prevLen][k] == items[k] && items[..prevLen][k + 1] == items[k + 1];
        } else if k + 1 == prevLen {
        } else {
          assert prevLen <= k < |items| - 1;
        }
      }
      forall i, j | 0 <= i < j < |items| ensures key(items[i]) <= key(items[j]) {
        AdjacentSorted(items, key, i, j);
      }
    }
  }

  /** Appends a batch to a sorted vector and restores the order if it was broken. */
  method AppendBatch<T>(items: seq<T>, batch: seq<T>, key: T -> int) returns (r: seq<T>)
    requires SortedBy(items, key)
    ensures r == StableSort(items + batch, key)
    ensures SortedBy(r, key) && |r| == |items| + |batch|
  {
    var all := items + batch;
    StableSortSorts(all, key);
    assert all[..|items|] == items;
    BatchNeedsSortIffUnsorted(all, |items|, key);
    SortIsIdentityIffSorted(all, key);
    if |batch| > 0 && BatchNeedsSort(all, |items|, key) {
      r := StableSort(all, key);
    } else {
      assert |batch| == 0 ==> all == items;
      r := all;
    }
  }

  /** Drops everything before the cutoff from a sorted vector. */
  method DrainBefore<T>(items: seq<T>, cutoff: int, key: T -> int) returns (r: seq<T>)
    requires SortedBy(items, key)
    ensures r == AtLeast(items, key, cutoff) && SortedBy(r, key)
    ensures |r| <= |items|
  {
    var drainCount := CountBelow(items, key, cutoff);
    AtLeastOfSorted(items, key, cutoff);
    r := if drainCount > 0 then items[drainCount..] else items;
  }

  /**
    The entries of a sorted vector within `[start, end]`.  The two partition
    points delimit a slice only while the lower one does not pass the upper one.
   */
  function Range<T>(items: seq<T>, key: T -> int, start: int, end: int): (r: seq<T>)
    requires CountBelow(items, key, start) <= CountBelow(items, key, end + 1)
  {
    items[CountBelow(items, key, start)..CountBelow(items, key, end + 1)]
  }

  /** Some element lies strictly between `end` and `start`; never so unless they are reversed. */
  ghost predicate SomeBetween<T>(items: seq<T>, key: T -> int, end: int, start: int) {
    exists i :: 0 <= i < |items| && end < key(items[i]) < start
  }

  /** The slice exists exactly when no element lies strictly between `end` and `start`. */
  lemma RangeDefinedIff<T>(items: seq<T>, key: T -> int, start: int, end: int)
    requires SortedBy(items, key)
    ensures CountBelow(items, key, start) <= CountBelow(items, key, end + 1) <==> !SomeBetween(items, key, end, start)
  {
    var lo, hi := CountBelow(items, key, start), CountBelow(items, key, end + 1);
    if lo > hi {
      assert end < key(items[hi]) < start;
    }
  }

  /** The elements within `[start, end]`, in order. */
  function Window<T>(items: seq<T>, key: T -> int, start: int, end: int): seq<T> {
    if |items| == 0 then []
    else (if start <= key(items[0]) <= end then [items[0]] else []) + Window(items[1..], key, start, end)
  }

  lemma CountBelowCons<T>(items: seq<T>, key: T -> int, c: int)
    requires |items| > 0 && SortedBy(items, key)
    ensures SortedBy(items[1..], key)
    ensures key(items[0]) < c ==> CountBelow(items, key, c) == 1 + CountBelow(items[1..], key, c)
    ensures key(items[0]) >= c ==> CountBelow(items, key, c) == 0 && CountBelow(items[1..], key, c) == 0
  {
    var n := CountBelow(items[1..], key, c);
    if n > 0 { assert key(items[0]) <= key(items[1]) && items[1] == items[1..][0]; }
  }

  lemma SliceTail<T>(items: seq<T>, lo: nat, hi: nat)
    requires |items| > 0 && lo <= hi < |items|
    ensures items[1 + lo..1 + hi] == items[1..][lo..hi]
  {
    assert items == [items[0]] + items[1..];
  }

  lemma SliceFront<T>(items: seq<T>, hi: nat)
    requires |items| > 0 && hi < |items|
    ensures items[0..1 + hi] == [items[0]] + items[1..][0..hi]
  {
  }

  /** The slice of a sorted vector starts with its first element or not at all with it. */
  lemma RangeCons<T>(items: seq<T>, key: T -> int, start: int, end: int)
    requires |items| > 0 && SortedBy(items, key) && start <= end
    requires CountBelow(items[1..], key, start) <= CountBelow(items[1..], key, end + 1)
    ensures CountBelow(items, key, start) <= CountBelow(items, key, end + 1)
    ensures Range(items, key, start, end)
         == (if start <= key(items[0]) <= end then [items[0]] else []) + Range(items[1..], key, start, end)
  {
    CountBelowCons(items, key, start);
    CountBelowCons(items, key, end + 1);
    hide SortedBy, CountBelow;
    var lo, hi := CountBelow(items[1..], key, start), CountBelow(items[1..], key, end + 1);
    if key(items[0]) < start {
      SliceTail(items, lo, hi);
    } else if key(items[0]) <= end {
      SliceFront(items, hi);
    }
  }

  /** On a sorted vector and a proper interval the slice is the plain filter. */
  lemma {:induction false} RangeIsWindow<T>(items: seq<T>, key: T -> int, start: int, end: int)
    requires SortedBy(items, key) && start <= end
    ensures CountBelow(items, key, start) <= CountBelow(items, key, end + 1)
    ensures Range(items, key, start, end) == Window(items, key, start, end)
  {
    if |items| > 0 {
      assert SortedBy(items[1..], key);
      hide SortedBy, CountBelow, Range;
      RangeIsWindow(items[1..], key, start, end);
      RangeCons(items, key, start, end);
    }
  }

  /** `items[lo..hi]`, or `None` where taking that slice panics. */
  function Slice<T>(items: seq<T>, key: T -> int, start: int, end: int): Option<seq<T>> {
    if CountBelow(items, key, start) <= CountBelow(items, key, end + 1) then Some(Range(items, key, start, end)) else None
  }

  lemma {:induction false} EmptyWindow<T>(items: seq<T>, key: T -> int, start: int, end: int)
    requires start > end
    ensures Window(items, key, start, end) == []
  {
    if |items| > 0 { EmptyWindow(items[1..], key, start, end); }
  }

  /** On a sorted vector taking the slice panics iff an element lies between the reversed bounds; otherwise it is the window. */
  lemma SliceMeaning<T>(items: seq<T>, key: T -> int, start: int, end: int)
    requires SortedBy(items, key)
    ensures Slice(items, key, start, end).None? <==> SomeBetween(items, key, end, start)
    ensures Slice(items, key, start, end).Some? ==> Slice(items, key, start, end).value == Window(items, key, start, end)
  {
    RangeDefinedIff(items, key, start, end);
    if start <= end {
      RangeIsWindow(items, key, start, end);
    } else {
      EmptyWindow(items, key, start, end);
    }
  }

  /** The window holds exactly the elements whose key passes, in order. */
  lemma {:induction false} WindowIs<T>(items: seq<T>, key: T -> int, start: int, end: int, test: T -> bool)
    requires forall x :: test(x) <==> start <= key(x) <= end
    ensures Selects(items, test, Window(items, key, start, end))
  {
    hide Selects;
    if items == [] {
      SelectsNothing(test);
    } else {
      WindowIs(items[1..], key, start, end, test);
      SelectsCons(items[0], items[1..], test, Window(items[1..], key, start, end));
      assert items == [items[0]] + items[1..];
    }
  }
}
