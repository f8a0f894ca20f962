/**
  LogQL stream queries: all matching entries, or only the newest `limit` of them
  kept in a bounded heap.
 */
module LogQueries {
  import opened Options
  import opened Enumeration
  import opened Interning
  import opened LabelIndexing
  import opened LogMatching
  import opened LogStore
  import opened PostingLists
  import opened StableSorting
  import opened StreamMaps
  import opened TimeOrdered

  // ------------------------------------------------------------------ unlimited

  method FilterEntries(entries: seq<LogEntry>, labels: seq<Label>, p: Pipeline) returns (passing: seq<ResolvedEntry>)
    ensures passing == Passing(entries, labels, p)
  {
    passing := [];
    for n := 0 to |entries|
      invariant passing == Passing(entries[..n], labels, p)
    {
      assert entries[..n + 1][..n] == entries[..n] && entries[..n + 1][n] == entries[n];
      if p.passes(entries[n].line, labels) { passing := passing + [Resolve(entries[n], p.show)]; }
    }
    assert entries[..|entries|] == entries;
  }

  /** The slice of some listed stream panics: an entry lies strictly between the reversed bounds. */
  ghost predicate Panics(streams: LogStreams, ids: seq<nat>, start: I64, end: I64) {
    exists i :: 0 <= i < |ids| && ids[i] in streams && SomeBetween(streams[ids[i]].entries, Ts, end, start)
  }

  lemma PanicsSnoc(streams: LogStreams, ids: seq<nat>, n: nat, start: I64, end: I64)
    requires n < |ids|
    ensures Panics(streams, ids[..n + 1], start, end) <==>
      Panics(streams, ids[..n], start, end) || (ids[n] in streams && SomeBetween(streams[ids[n]].entries, Ts, end, start))
    ensures Panics(streams, ids[..n + 1], start, end) ==> Panics(streams, ids, start, end)
  {
    assert forall i :: 0 <= i <= n ==> ids[..n + 1][i] == ids[i];
    assert forall i :: 0 <= i < n ==> ids[..n][i] == ids[..n + 1][i];
    assert ids[..n + 1][n] == ids[n];
  }

  /** Bounds in order never panic. */
  lemma OrderedNeverPanics(streams: LogStreams, ids: seq<nat>, start: I64, end: I64)
    requires start <= end
    ensures !Panics(streams, ids, start, end)
  {
  }

  /** The matching entries of one stream, fetched through the time index; `None` where the slice panics. */
  method StreamMatches(store: LogStore, id: nat, p: Pipeline, start: I64, end: I64) returns (matches: Option<seq<ResolvedEntry>>)
    requires store.Valid()
    ensures matches.None? <==> id in store.streams && SomeBetween(store.streams[id].entries, Ts, end, start)
    ensures matches.Some? ==> matches.value == Matches(store.interner, store.streams, id, p, start, end)
  {
    var entries := store.GetEntries(id, start, end);
    if entries.None? { return None; }
    var passing := FilterEntries(entries.value, LabelsFor(store.interner, store.streams, id), p);
    matches := Some(passing);
  }

  /** One result for each listed stream that has a match, holding all its matches. */
  ghost predicate Contributions(results: seq<StreamResult>, sids: seq<nat>, r: Interner, streams: LogStreams, ids: seq<nat>, p: Pipeline, start: I64, end: I64)
    requires AllKnown(r, LabelsOf(streams))
  {
    && |sids| == |results| && (Distinct(ids) ==> Distinct(sids))
    && (forall i :: 0 <= i < |sids| ==> sids[i] in ids && results[i].labels == LabelsFor(r, streams, sids[i]))
    && (forall i :: 0 <= i < |sids| ==> results[i].entries == Matches(r, streams, sids[i], p, start, end) && results[i].entries != [])
    && forall id :: id in ids && Matches(r, streams, id, p, start, end) != [] ==> id in sids
  }

  lemma NoContributions(r: Interner, streams: LogStreams, p: Pipeline, start: I64, end: I64)
    requires AllKnown(r, LabelsOf(streams))
    ensures Contributions([], [], r, streams, [], p, start, end)
  {
  }

  /** One more stream. */
  lemma ContributionsSnoc(results: seq<StreamResult>, sids: seq<nat>, r: Interner, streams: LogStreams, ids: seq<nat>, id: nat, p: Pipeline, start: I64, end: I64)
    requires AllKnown(r, LabelsOf(streams)) && Contributions(results, sids, r, streams, ids, p, start, end)
    ensures var x := StreamResult(LabelsFor(r, streams, id), Matches(r, streams, id, p, start, end));
            if x.entries == [] then Contributions(results, sids, r, streams, ids + [id], p, start, end)
            else Contributions(results + [x], sids + [id], r, streams, ids + [id], p, start, end)
  {
    hide Matches, LabelsFor, AllKnown, LabelsOf;
    var more := ids + [id];
    if Distinct(more) {
      assert forall i :: 0 <= i < |ids| ==> more[i] == ids[i] && more[i] != more[|ids|];
    }
  }

  method EvaluateUnlimited(store: LogStore, ids: seq<nat>, p: Pipeline, start: I64, end: I64)
    returns (outcome: Option<seq<StreamResult>>, ghost sids: seq<nat>)
    requires store.Valid()
    ensures outcome.None? <==> Panics(store.streams, ids, start, end)
    ensures outcome.Some? ==> var results := outcome.value;
            && |sids| == |results| && Flatten(sids, results) == AllMatches(store.interner, store.streams, ids, p, start, end)
            && Contributions(results, sids, store.interner, store.streams, ids, p, start, end)
            && CountEntries(results) == |AllMatches(store.interner, store.streams, ids, p, start, end)|
    ensures outcome.Some? && Distinct(ids) ==> AnswersAll(outcome.value, sids, store.interner, store.streams, ids, p, start, end)
  {
    hide Panics, Matches, SomeBetween, AnswersAll, Contributions, Distinct;
    var results: seq<StreamResult>;
    results, sids := [], [];
    NoStreamPanics(store.streams, start, end);
    NoContributions(store.interner, store.streams, p, start, end);
    for n := 0 to |ids|
      invariant !Panics(store.streams, ids[..n], start, end)
      invariant |sids| == |results| && Flatten(sids, results) == AllMatches(store.interner, store.streams, ids[..n], p, start, end)
      invariant Contributions(results, sids, store.interner, store.streams, ids[..n], p, start, end)
    {
      assert ids[..n + 1] == ids[..n] + [ids[n]];
      PanicsSnoc(store.streams, ids, n, start, end);
      ContributionsSnoc(results, sids, store.interner, store.streams, ids[..n], ids[n], p, start, end);
      var matches := StreamMatches(store, ids[n], p, start, end);
      if matches.None? { return None, []; }
      if matches.value != [] {
        FlattenSnoc(sids, results, ids[n], StreamResult(LabelsFor(store.interner, store.streams, ids[n]), matches.value));
        results := results + [StreamResult(LabelsFor(store.interner, store.streams, ids[n]), matches.value)];
        sids := sids + [ids[n]];
      }
    }
    assert ids[..|ids|] == ids;
    FlattenLength(sids, results);
    ContributionsAnswer(results, sids, store.interner, store.streams, ids, p, start, end);
    outcome := Some(results);
  }

  lemma ContributionsAnswer(results: seq<StreamResult>, sids: seq<nat>, r: Interner, streams: LogStreams, ids: seq<nat>, p: Pipeline, start: I64, end: I64)
    requires AllKnown(r, LabelsOf(streams)) && Contributions(results, sids, r, streams, ids, p, start, end)
    ensures Distinct(ids) ==> AnswersAll(results, sids, r, streams, ids, p, start, end)
  {
    hide AnswersAll, Matches, LabelsFor;
    if Distinct(ids) { MatchesAnswer(results, sids, r, streams, ids, p, start, end); }
  }

  lemma NoStreamPanics(streams: LogStreams, start: I64, end: I64)
    ensures !Panics(streams, [], start, end)
  {
  }

  lemma FlattenSnoc(ids: seq<nat>, results: seq<StreamResult>, id: nat, x: StreamResult)
    requires |ids| == |results|
    ensures Flatten(ids + [id], results + [x]) == Flatten(ids, results) + Tag(id, x.entries)
  {
    assert (ids + [id])[..|ids|] == ids && (results + [x])[..|results|] == results;
  }

  // -------------------------------------------------------------------- the heap

  /** Heap items are ordered by time, then by order of arrival. */
  datatype HeapItem = HeapItem(sequence: nat, tagged: Tagged)

  predicate Before(a: HeapItem, b: HeapItem) {
    When(a.tagged.1) < When(b.tagged.1) || (When(a.tagged.1) == When(b.tagged.1) && a.sequence <= b.sequence)
  }

  function Contents(heap: seq<HeapItem>): (ts: seq<Tagged>)
    ensures |ts| == |heap|
    ensures forall i :: 0 <= i < |heap| ==> ts[i] == heap[i].tagged
  {
    seq(|heap|, i requires 0 <= i < |heap| => heap[i].tagged)
  }

  /** Position of the oldest item (the top of the reversed heap). */
  method Oldest(heap: seq<HeapItem>) returns (k: nat)
    requires heap != []
    ensures k < |heap| && forall i :: 0 <= i < |heap| ==> Before(heap[k], heap[i])
  {
    k := 0;
    for n := 1 to |heap|
      invariant k < |heap| && forall i :: 0 <= i < n ==> Before(heap[k], heap[i])
    {
      if Before(heap[n], heap[k]) && !Before(heap[k], heap[n]) { k := n; }
    }
  }

  lemma ContentsWithout(heap: seq<HeapItem>, k: nat)
    requires k < |heap|
    ensures multiset(Contents(heap)) == multiset(Contents(heap[..k] + heap[k + 1..])) + multiset{heap[k].tagged}
  {
    var all, rest := Contents(heap), Contents(heap[..k] + heap[k + 1..]);
    assert all == all[..k] + [all[k]] + all[k + 1..];
    assert rest == all[..k] + all[k + 1..];
  }

  lemma ContentsSnoc(heap: seq<HeapItem>, x: HeapItem)
    ensures multiset(Contents(heap + [x])) == multiset(Contents(heap)) + multiset{x.tagged}
  {
    assert Contents(heap + [x]) == Contents(heap) + [x.tagged];
  }

  lemma NewestRoom(all: multiset<Tagged>, kept: multiset<Tagged>, x: Tagged, limit: nat)
    requires NewestOf(all, kept, limit) && |kept| < limit
    ensures NewestOf(all + multiset{x}, kept + multiset{x}, limit)
  {
    assert |all - kept| == |all| - |kept|;
    assert (all + multiset{x}) - (kept + multiset{x}) == all - kept;
    assert kept == all by {
      assert |all - kept| == 0;
      assert all == kept + (all - kept);
    }
  }

  lemma NewestSkip(all: multiset<Tagged>, kept: multiset<Tagged>, x: Tagged, limit: nat)
    requires NewestOf(all, kept, limit) && |kept| == limit
    requires forall y :: y in kept ==> When(x.1) <= When(y.1)
    ensures NewestOf(all + multiset{x}, kept, limit)
  {
    assert (all + multiset{x}) - kept == (all - kept) + multiset{x};
  }

  lemma NewestReplace(all: multiset<Tagged>, kept: multiset<Tagged>, rest: multiset<Tagged>, oldest: Tagged, x: Tagged, limit: nat)
    requires NewestOf(all, kept, limit) && |kept| == limit
    requires kept == rest + multiset{oldest}
    requires forall y :: y in kept ==> When(oldest.1) <= When(y.1)
    requires When(oldest.1) < When(x.1)
    ensures NewestOf(all + multiset{x}, rest + multiset{x}, limit)
  {
    assert (all + multiset{x}) - (rest + multiset{x}) == (all - kept) + multiset{oldest};
    forall u, v | u in (all - kept) + multiset{oldest} && v in rest + multiset{x} ensures When(u.1) <= When(v.1) {
      assert oldest in kept;
      if u in all - kept {
        assert When(u.1) <= When(oldest.1);
        if v in rest { assert v in kept; }
      } else {
        assert u == oldest;
        if v in rest { assert v in kept; }
      }
    }
  }

  /** Offers one entry to the heap: it enters while there is room or if it is newer than the oldest kept. */
  method Offer(heap: seq<HeapItem>, x: HeapItem, limit: nat, ghost all: multiset<Tagged>) returns (heap': seq<HeapItem>)
    requires limit > 0 && NewestOf(all, multiset(Contents(heap)), limit)
    ensures NewestOf(all + multiset{x.tagged}, multiset(Contents(heap')), limit)
  {
    hide NewestOf, Contents, Before;
    HeapSize(heap, all, limit);
    if |heap| < limit {
      ContentsSnoc(heap, x);
      NewestRoom(all, multiset(Contents(heap)), x.tagged, limit);
      return heap + [x];
    }
    var k := Oldest(heap);
    OldestOfAll(heap, k);
    if When(x.tagged.1) > When(heap[k].tagged.1) {
      var rest := heap[..k] + heap[k + 1..];
      ContentsWithout(heap, k);
      ContentsSnoc(rest, x);
      NewestReplace(all, multiset(Contents(heap)), multiset(Contents(rest)), heap[k].tagged, x.tagged, limit);
      heap' := rest + [x];
    } else {
      NewestSkip(all, multiset(Contents(heap)), x.tagged, limit);
      heap' := heap;
    }
  }

  lemma HeapSize(heap: seq<HeapItem>, all: multiset<Tagged>, limit: nat)
    requires NewestOf(all, multiset(Contents(heap)), limit)
    ensures |heap| <= limit && |multiset(Contents(heap))| == |heap|
  {
  }

  lemma OldestOfAll(heap: seq<HeapItem>, k: nat)
    requires k < |heap| && forall i :: 0 <= i < |heap| ==> Before(heap[k], heap[i])
    ensures forall y :: y in multiset(Contents(heap)) ==> When(heap[k].tagged.1) <= When(y.1)
  {
    forall y | y in multiset(Contents(heap)) ensures When(heap[k].tagged.1) <= When(y.1) {
      var i :| 0 <= i < |heap| && Contents(heap)[i] == y;
    }
  }

  // -------------------------------------------------------------------- limited

  /** Offers the matches of one stream. */
  method OfferAll(heap: seq<HeapItem>, sequence: nat, id: nat, matches: seq<ResolvedEntry>, limit: nat, ghost all: seq<Tagged>)
    returns (heap': seq<HeapItem>, sequence': nat)
    requires limit > 0 && NewestOf(multiset(all), multiset(Contents(heap)), limit)
    ensures NewestOf(multiset(all + Tag(id, matches)), multiset(Contents(heap')), limit)
  {
    hide NewestOf, Contents;
    heap', sequence' := heap, sequence;
    assert all + Tag(id, matches[..0]) == all;
    for m := 0 to |matches|
      invariant NewestOf(multiset(all + Tag(id, matches[..m])), multiset(Contents(heap')), limit)
    {
      TagSnoc(all, id, matches, m);
      heap' := Offer(heap', HeapItem(sequence', (id, matches[m])), limit, multiset(all + Tag(id, matches[..m])));
      sequence' := sequence' + 1;
    }
    assert matches[..|matches|] == matches;
  }

  /** Fills the heap from all streams in turn. */
  method FillHeap(store: LogStore, ids: seq<nat>, p: Pipeline, start: I64, end: I64, limit: nat) returns (outcome: Option<seq<HeapItem>>)
    requires store.Valid() && limit > 0
    ensures outcome.None? <==> Panics(store.streams, ids, start, end)
    ensures outcome.Some? ==>
      NewestOf(multiset(AllMatches(store.interner, store.streams, ids, p, start, end)), multiset(Contents(outcome.value)), limit)
  {
    hide NewestOf, Contents, Matches, Panics, SomeBetween, Tag;
    var heap, sequence := [], 0;
    NewestOfNothing(limit);
    NoStreamPanics(store.streams, start, end);
    for n := 0 to |ids|
      invariant !Panics(store.streams, ids[..n], start, end)
      invariant NewestOf(multiset(AllMatches(store.interner, store.streams, ids[..n], p, start, end)), multiset(Contents(heap)), limit)
    {
      assert ids[..n + 1][..n] == ids[..n] && ids[..n + 1][n] == ids[n];
      PanicsSnoc(store.streams, ids, n, start, end);
      var matches := StreamMatches(store, ids[n], p, start, end);
      if matches.None? { return None; }
      heap, sequence := OfferAll(heap, sequence, ids[n], matches.value, limit, AllMatches(store.interner, store.streams, ids[..n], p, start, end));
    }
    assert ids[..|ids|] == ids;
    outcome := Some(heap);
  }

  lemma NewestOfNothing(limit: nat)
    ensures NewestOf(multiset([]), multiset(Contents([])), limit)
  {
    assert Contents([]) == [];
  }

  lemma TagSnoc(all: seq<Tagged>, id: nat, matches: seq<ResolvedEntry>, m: nat)
    requires m < |matches|
    ensures multiset(all + Tag(id, matches[..m + 1])) == multiset(all + Tag(id, matches[..m])) + multiset{(id, matches[m])}
  {
    assert matches[..m + 1][..m] == matches[..m] && matches[..m + 1][m] == matches[m];
    assert all + Tag(id, matches[..m + 1]) == all + Tag(id, matches[..m]) + [(id, matches[m])];
  }

  /** The kept entries of one stream, in heap order. */
  function OfStream(ts: seq<Tagged>, id: nat): seq<ResolvedEntry> {
    if ts == [] then []
    else OfStream(ts[..|ts| - 1], id) + (if ts[|ts| - 1].0 == id then [ts[|ts| - 1].1] else [])
  }

  lemma {:induction false} OfStreamCount(ts: seq<Tagged>, id: nat, e: ResolvedEntry)
    ensures multiset(OfStream(ts, id))[e] == multiset(ts)[(id, e)]
  {
    if ts != [] {
      var front, last := ts[..|ts| - 1], ts[|ts| - 1];
      assert ts == front + [last];
      OfStreamCount(front, id, e);
    }
  }

  /** Grouping by stream and sorting within each stream loses and adds nothing. */
  lemma {:induction false} FlattenCount(ts: seq<Tagged>, ids: seq<nat>, results: seq<StreamResult>, t: Tagged)
    requires |ids| == |results| && Distinct(ids)
    requires forall i :: 0 <= i < |ids| ==> multiset(results[i].entries) == multiset(OfStream(ts, ids[i]))
    ensures multiset(Flatten(ids, results))[t] == if t.0 in ids then multiset(ts)[t] else 0
  {
    if ids != [] {
      var front, last := ids[..|ids| - 1], ids[|ids| - 1];
      assert ids == front + [last];
      FlattenCount(ts, front, results[..|ids| - 1], t);
      TagCount(last, results[|ids| - 1].entries, t);
      OfStreamCount(ts, last, t.1);
    }
  }

  method GroupByStream(ts: seq<Tagged>) returns (grouped: map<nat, seq<ResolvedEntry>>)
    ensures forall id :: id in grouped ==> grouped[id] == OfStream(ts, id)
    ensures forall id :: id in grouped <==> OfStream(ts, id) != []
  {
    grouped := map[];
    for n := 0 to |ts|
      invariant forall id :: (if id in grouped then grouped[id] else []) == OfStream(ts[..n], id)
      invariant forall id :: id in grouped ==> grouped[id] != []
    {
      assert ts[..n + 1][..n] == ts[..n] && ts[..n + 1][n] == ts[n];
      var (id, e) := ts[n];
      grouped := grouped[id := (if id in grouped then grouped[id] else []) + [e]];
    }
    assert ts[..|ts|] == ts;
  }

  /** The newest `limit` matching entries, grouped by stream. */
  method EvaluateLimited(store: LogStore, ids: seq<nat>, p: Pipeline, start: I64, end: I64, limit: nat)
    returns (outcome: Option<seq<StreamResult>>, ghost sids: seq<nat>)
    requires store.Valid() && limit > 0
    ensures outcome.None? <==> Panics(store.streams, ids, start, end)
    ensures outcome.Some? ==> var results := outcome.value;
            && |sids| == |results| && Ascending(sids)
            && NewestOf(multiset(AllMatches(store.interner, store.streams, ids, p, start, end)), multiset(Flatten(sids, results)), limit)
            && (forall i :: 0 <= i < |results| ==>
                  && results[i].entries != [] && SortedBy(results[i].entries, When)
                  && results[i].labels == LabelsFor(store.interner, store.streams, sids[i]))
            && CountEntries(results) == AtMost(limit, |AllMatches(store.interner, store.streams, ids, p, start, end)|)
    ensures outcome.Some? && Distinct(ids) ==>
      exists kept :: AnswersNewest(outcome.value, sids, kept, store.interner, store.streams, ids, p, start, end, limit)
  {
    hide NewestOf, AllMatches, Flatten, CountEntries, OfStream, Distinct, Ascending, SortedBy, LabelsFor, IsGroup, Panics, AnswersNewest;
    var heap := FillHeap(store, ids, p, start, end, limit);
    if heap.None? { return None, []; }
    var kept := Contents(heap.value);
    var results, order := SortGroups(store.interner, store.streams, kept);
    sids := order;
    GroupFacts(store.interner, store.streams, kept, sids, results);
    RegroupedSame(kept, sids, results);
    FlattenLength(sids, results);
    NewestCount(AllMatches(store.interner, store.streams, ids, p, start, end), Flatten(sids, results), limit);
    if Distinct(ids) { NewestAnswers(results, sids, store.interner, store.streams, ids, p, start, end, limit); }
    outcome := Some(results);
  }

  lemma NewestCount(all: seq<Tagged>, kept: seq<Tagged>, limit: nat)
    requires NewestOf(multiset(all), multiset(kept), limit)
    ensures |kept| == AtMost(limit, |all|)
  {
    assert |multiset(kept)| == |kept| && |multiset(all)| == |all|;
  }

  lemma GroupFacts(r: Interner, streams: LogStreams, kept: seq<Tagged>, sids: seq<nat>, results: seq<StreamResult>)
    requires AllKnown(r, LabelsOf(streams)) && |sids| == |results|
    requires forall i :: 0 <= i < |results| ==> IsGroup(r, streams, kept, sids[i], results[i])
    ensures forall i :: 0 <= i < |results| ==>
      && multiset(results[i].entries) == multiset(OfStream(kept, sids[i]))
      && results[i].entries != [] && SortedBy(results[i].entries, When)
      && results[i].labels == LabelsFor(r, streams, sids[i])
  {
  }

  lemma RegroupedSame(kept: seq<Tagged>, sids: seq<nat>, results: seq<StreamResult>)
    requires |sids| == |results| && Distinct(sids)
    requires forall id :: id in sids <==> OfStream(kept, id) != []
    requires forall i :: 0 <= i < |results| ==> multiset(results[i].entries) == multiset(OfStream(kept, sids[i]))
    ensures multiset(Flatten(sids, results)) == multiset(kept)
  {
    forall t ensures multiset(Flatten(sids, results))[t] == multiset(kept)[t] {
      FlattenCount(kept, sids, results, t);
      OfStreamCount(kept, t.0, t.1);
    }
  }

  /** `x` holds exactly the kept entries of stream `id`, in time order. */
  ghost predicate IsGroup(r: Interner, streams: LogStreams, kept: seq<Tagged>, id: nat, x: StreamResult)
    requires AllKnown(r, LabelsOf(streams))
  {
    && multiset(x.entries) == multiset(OfStream(kept, id))
    && x.entries != [] && SortedBy(x.entries, When)
    && x.labels == LabelsFor(r, streams, id)
  }

  /** Groups the kept entries by stream, ascending ids, each stream in time order. */
  method SortGroups(r: Interner, streams: LogStreams, kept: seq<Tagged>) returns (results: seq<StreamResult>, sids: seq<nat>)
    requires AllKnown(r, LabelsOf(streams))
    ensures |sids| == |results| && Ascending(sids) && Distinct(sids)
    ensures forall id :: id in sids <==> OfStream(kept, id) != []
    ensures forall i :: 0 <= i < |results| ==> IsGroup(r, streams, kept, sids[i], results[i])
  {
    var grouped := GroupByStream(kept);
    sids := AscendingIds(grouped.Keys);
    hide OfStream, Distinct, Ascending, LabelsFor, IsGroup, AllKnown;
    results := [];
    for n := 0 to |sids|
      invariant |results| == n
      invariant forall i :: 0 <= i < n ==> IsGroup(r, streams, kept, sids[i], results[i])
    {
      assert sids[n] in sids;
      var x := SortGroup(r, streams, grouped[sids[n]], kept, sids[n]);
      results := results + [x];
    }
  }

  method SortGroup(r: Interner, streams: LogStreams, group: seq<ResolvedEntry>, ghost kept: seq<Tagged>, id: nat) returns (x: StreamResult)
    requires AllKnown(r, LabelsOf(streams)) && group == OfStream(kept, id) && group != []
    ensures IsGroup(r, streams, kept, id, x)
  {
    StableSortSorts(group, When);
    x := StreamResult(LabelsFor(r, streams, id), StableSort(group, When));
  }

  // ------------------------------------------------------------------- dispatch

  /** Reversed bounds match nothing. */
  lemma {:induction false} NothingBetweenReversed(r: Interner, streams: LogStreams, ids: seq<nat>, p: Pipeline, start: I64, end: I64)
    requires AllKnown(r, LabelsOf(streams)) && start > end
    ensures AllMatches(r, streams, ids, p, start, end) == []
  {
    if ids != [] {
      NothingBetweenReversed(r, streams, ids[..|ids| - 1], p, start, end);
      var id := ids[|ids| - 1];
      if id in streams { EmptyWindow(streams[id].entries, Ts, start, end); }
    }
  }

  lemma {:induction false} NoEntriesNoResults(results: seq<StreamResult>)
    requires CountEntries(results) == 0 && forall i :: 0 <= i < |results| ==> results[i].entries != []
    ensures results == []
  {
  }

  /** A limit of zero looks at no stream. */
  predicate LooksAtStreams(limit: Option<nat>) {
    limit != Some(0)
  }

  /** `evaluate_stream_query`: select the streams, then evaluate with or without a limit. */
  method EvaluateStreamQuery(store: LogStore, ms: seq<LabelMatcher>, rx: RegexEngine, p: Pipeline, start: I64, end: I64, limit: Option<nat>)
    returns (outcome: Option<seq<StreamResult>>, ghost ids: seq<nat>, ghost sids: seq<nat>)
    requires store.Valid()
    ensures Distinct(ids) && forall id :: id in ids <==>
      id in store.streams && KnownSet(store.interner, store.streams[id].labels) && SatisfiesAll(store.interner, store.streams[id].labels, ms, rx)
    ensures outcome.None? <==> LooksAtStreams(limit) && Panics(store.streams, ids, start, end)
    ensures outcome.Some? && start > end ==> outcome.value == []
    ensures outcome.Some? ==> |sids| == |outcome.value|
    ensures outcome.Some? && limit.None? ==>
      Flatten(sids, outcome.value) == AllMatches(store.interner, store.streams, ids, p, start, end)
    ensures outcome.Some? && limit.Some? ==>
      NewestOf(multiset(AllMatches(store.interner, store.streams, ids, p, start, end)), multiset(Flatten(sids, outcome.value)), limit.value)
    ensures outcome.Some? && limit.None? ==> AnswersAll(outcome.value, sids, store.interner, store.streams, ids, p, start, end)
    ensures outcome.Some? && limit.Some? && limit.value > 0 ==>
      exists kept :: AnswersNewest(outcome.value, sids, kept, store.interner, store.streams, ids, p, start, end, limit.value)
    ensures limit == Some(0) ==> outcome == Some([])
  {
    hide KnownSet, SatisfiesAll, Panics, Distinct, AnswersAll, AnswersNewest;
    var selected := store.QueryStreams(ms, rx);
    ids := selected;
    match limit {
      case None => outcome, sids := EvaluateUnlimited(store, selected, p, start, end);
      case Some(n) =>
        if n == 0 {
          outcome, sids := Some([]), [];
        } else {
          outcome, sids := EvaluateLimited(store, selected, p, start, end, n);
        }
    }
    if start > end && outcome.Some? {
      NothingBetweenReversed(store.interner, store.streams, ids, p, start, end);
      if outcome.value != [] { NoEntriesNoResults(outcome.value); }
    }
  }

  const AtFive := LogEntry(5, "", 0, None, None, 0, None, [])

  /** A store with one unlabelled stream of one entry. */
  method OneEntryStore() returns (store: LogStore)
    ensures fresh(store) && store.Valid() && 0 in store.streams && store.streams[0].entries == [AtFive]
  {
    hide Indexed, AllKnown, AllSorted, TraceCovered, TraceExact, Total, ContentsOf, ContentsAfterIngest, LabelSetOf, InternAll, Interned;
    store := new LogStore.New();
    store.IngestStream([], [AtFive]);
    assert [] + [AtFive] == [AtFive] && [AtFive][1..] == [];
    assert store.streams[0].entries == StableSort([AtFive], Ts);
  }

  /** A matcherless query selects every stream. */
  lemma EmptyQuerySelects(store: LogStore, id: nat, rx: RegexEngine)
    requires store.Valid() && id in store.streams
    ensures KnownSet(store.interner, store.streams[id].labels) && SatisfiesAll(store.interner, store.streams[id].labels, [], rx)
  {
    assert LabelsOf(store.streams)[id] == store.streams[id].labels;
  }

  lemma BetweenPanics(streams: LogStreams, ids: seq<nat>, id: nat)
    requires id in ids && id in streams && streams[id].entries == [AtFive]
    ensures Panics(streams, ids, 10, 0)
  {
    var i :| 0 <= i < |ids| && ids[i] == id;
    assert Ts(streams[id].entries[0]) == 5;
    assert SomeBetween(streams[ids[i]].entries, Ts, 0, 10);
  }

  /** A query over reversed bounds panics on that store, its entry lying between them. */
  method ReversedQueryPanics(rx: RegexEngine, p: Pipeline) returns (outcome: Option<seq<StreamResult>>)
    ensures outcome.None?
  {
    hide LogStore.Valid, Panics, KnownSet, SatisfiesAll, Distinct, AllMatches, Flatten;
    var store := OneEntryStore();
    ghost var ids, sids;
    outcome, ids, sids := EvaluateStreamQuery(store, [], rx, p, 10, 0, None);
    EmptyQuerySelects(store, 0, rx);
    BetweenPanics(store.streams, ids, 0);
  }

  function EffectiveLimit(requested: Option<nat>): nat {
    var wanted := match requested case Some(n) => n case None => 50;
    if wanted < 100 then wanted else 100
  }

  /** The counts `query_logs` reports, found by probing one entry past the limit. */
  method CountMatches(store: LogStore, ms: seq<LabelMatcher>, rx: RegexEngine, p: Pipeline, requested: Option<nat>)
    returns (shown: nat, totalCount: nat, truncated: bool, ghost ids: seq<nat>)
    requires store.Valid()
    ensures Distinct(ids) && forall id :: id in ids <==>
      id in store.streams && KnownSet(store.interner, store.streams[id].labels) && SatisfiesAll(store.interner, store.streams[id].labels, ms, rx)
    ensures totalCount == |AllMatches(store.interner, store.streams, ids, p, I64_MIN, I64_MAX)|
    ensures truncated <==> shown < totalCount
    ensures requested.None? ==> shown == AtMost(50, totalCount)
    ensures requested.Some? && requested.value <= 100 ==> shown == AtMost(requested.value, totalCount)
    ensures requested.Some? && requested.value > 100 ==> shown == AtMost(100, totalCount)
  {
    hide Flatten, AllMatches, CountEntries, SatisfiesAll, KnownSet, Panics;
    var limit := EffectiveLimit(requested);
    ghost var sids;
    var probe;
    probe, ids, sids := EvaluateStreamQuery(store, ms, rx, p, I64_MIN, I64_MAX, Some(limit + 1));
    OrderedNeverPanics(store.streams, ids, I64_MIN, I64_MAX);
    var results := probe.value;
    FlattenLength(sids, results);
    var out := CountEntries(results);
    truncated := out > limit;
    if truncated {
      ghost var all, allSids;
      var everything;
      everything, all, allSids := EvaluateStreamQuery(store, ms, rx, p, I64_MIN, I64_MAX, None);
      OrderedNeverPanics(store.streams, all, I64_MIN, I64_MAX);
      FlattenLength(allSids, everything.value);
      SameSelection(store.interner, store.streams, ids, all, p, I64_MIN, I64_MAX);
      totalCount := CountEntries(everything.value);
    } else {
      totalCount := out;
    }
    shown := if out > limit then limit else out;
    assert |multiset(Flatten(sids, results))| == |Flatten(sids, results)|;
    assert |multiset(AllMatches(store.interner, store.streams, ids, p, I64_MIN, I64_MAX))|
        == |AllMatches(store.interner, store.streams, ids, p, I64_MIN, I64_MAX)|;
  }
}
