/** Log storage: streams identified by their label set, with an inverted index. */
module LogStore {
  import opened Options
  import opened Enumeration
  import opened Interning
  import opened LabelIndexing
  import opened Positions
  import opened PostingLists
  import opened StableSorting
  import opened StreamMaps
  import opened TimeOrdered
  import opened TraceIds

  datatype LogAttribute = StringAttr(s: string) | IntAttr(i: int) | FloatAttr(f: real) | BoolAttr(b: bool)

  datatype LogEntry = LogEntry(
    timestampNs: I64, line: string, ingestSeq: nat, traceId: Option<TraceId>, spanId: Option<SpanId>,
    severityNumber: int, severityText: Option<string>, attributes: seq<(string, LogAttribute)>)

  type LogStream = Stream<LogEntry>

  type LogStreams = Streams<LogEntry>
  type TraceIndex = map<TraceId, set<nat>>

  function Ts(e: LogEntry): int { e.timestampNs }

  // ------------------------------------------------------------ specification

  ghost predicate HasTrace(entries: seq<LogEntry>, t: TraceId) {
    exists i :: 0 <= i < |entries| && entries[i].traceId == Some(t)
  }

  ghost predicate Mentions(streams: LogStreams, t: TraceId, id: nat) {
    id in streams && HasTrace(streams[id].entries, t)
  }

  ghost predicate Listed(index: TraceIndex, t: TraceId, id: nat) {
    t in index && id in index[t]
  }

  /** Every stream holding an entry of a trace is listed under that trace. */
  ghost predicate TraceCovered(streams: LogStreams, index: TraceIndex) {
    forall t, id :: Mentions(streams, t, id) ==> Listed(index, t, id)
  }

  ghost predicate TraceExact(streams: LogStreams, index: TraceIndex) {
    && (forall t, id :: Mentions(streams, t, id) <==> Listed(index, t, id))
    && (forall t :: t in index ==> index[t] != {})
  }

  /** Each stream of `after` is a suffix of the same stream of `before`. */
  ghost predicate SuffixesOf(before: LogStreams, after: LogStreams) {
    forall id :: id in after ==>
      && id in before
      && after[id].labels == before[id].labels
      && |after[id].entries| <= |before[id].entries|
      && after[id].entries == before[id].entries[|before[id].entries| - |after[id].entries|..]
  }

  ghost predicate PartlyDrained(before: LogStreams, after: LogStreams, id: nat) {
    0 < Left(after, id) < Left(before, id)
  }

  /** LogStreams lose entries oldest-first-entry first, one stream after the other. */
  ghost predicate DrainedInOrder(before: LogStreams, after: LogStreams) {
    && SuffixesOf(before, after)
    && (forall i, j :: PartlyDrained(before, after, i) && PartlyDrained(before, after, j) ==> i == j)
    && (forall i, j :: Left(after, i) < Left(before, i) && 0 < Left(before, j) == Left(after, j)
          ==> FirstTs(before, i, Ts) <= FirstTs(before, j, Ts))
  }

  /** A stream lost entries only if its first one was no younger than that of any nonempty stream that lost none. */
  ghost predicate OldestFirst(before: LogStreams, after: LogStreams) {
    forall i, j ::
      && i in before && before[i].entries != [] && !(i in after && after[i].entries == before[i].entries)
      && j in before && before[j].entries != [] && j in after && after[j].entries == before[j].entries
      ==> before[i].entries[0].timestampNs <= before[j].entries[0].timestampNs
  }

  lemma DrainedOldestFirst(before: LogStreams, after: LogStreams)
    requires DrainedInOrder(before, after)
    ensures OldestFirst(before, after)
  {
    forall i, j |
      && i in before && before[i].entries != [] && !(i in after && after[i].entries == before[i].entries)
      && j in before && before[j].entries != [] && j in after && after[j].entries == before[j].entries
      ensures before[i].entries[0].timestampNs <= before[j].entries[0].timestampNs
    {
      assert Left(after, i) < Left(before, i) && 0 < Left(before, j) == Left(after, j);
    }
  }

  // -------------------------------------------------------------------- store

  class LogStore {
    var streams: LogStreams
    var labelIndex: Postings
    var labelValues: Values
    var interner: Interner
    var totalEntries: nat
    var streamIds: map<LabelSet, nat>
    var nextStreamId: nat
    var traceIndex: TraceIndex

    ghost predicate Valid()
      reads this
    {
      && interner.Valid()
      && AllKnown(interner, LabelsOf(streams))
      && Indexed(LabelsOf(streams), labelIndex, labelValues, streamIds, nextStreamId)
      && AllSorted(streams, Ts)
      && totalEntries == Total(streams)
      && TraceCovered(streams, traceIndex)
    }

    ghost function Contents(): Contents<LogEntry>
      reads this
      requires Valid()
    {
      ContentsOf(streams, streamIds)
    }

    constructor New()
      ensures Valid()
      ensures streams == map[] && streamIds == map[] && interner == EmptyInterner && nextStreamId == 0
      ensures TraceExact(streams, traceIndex)
      ensures Contents() == map[]
    {
      streams := map[];
      labelIndex := map[];
      labelValues := map[];
      interner := EmptyInterner;
      totalEntries := 0;
      streamIds := map[];
      nextStreamId := 0;
      traceIndex := map[];
      TotalEmpty<LogEntry>(map[]);
    }

    method IngestStream(labels: seq<Label>, entries: seq<LogEntry>)
      requires Valid()
      modifies this
      ensures Valid()
      ensures interner == InternAll(old(interner), labels) && Interned(interner, labels)
      ensures var ls := LabelSetOf(interner, labels);
              var id := if ls in old(streamIds) then old(streamIds)[ls] else old(nextStreamId);
              && streams == Appended(old(streams), id, ls, entries, Ts)
              && streamIds == old(streamIds)[ls := id]
              && nextStreamId == (if ls in old(streamIds) then old(nextStreamId) else old(nextStreamId) + 1)
      ensures Contents() == ContentsAfterIngest(old(Contents()), LabelSetOf(interner, labels), entries, Ts)
      ensures totalEntries == old(totalEntries) + |entries|
      ensures old(TraceExact(streams, traceIndex)) ==> TraceExact(streams, traceIndex)
    {
      hide Indexed, IdsInverse, AllKnown, AllSorted, TraceCovered, TraceExact, Total, ContentsOf, ContentsAfterIngest;
      hide Interned, InternAll, LabelSetOf, KnownSet, LabelsOf, Appended, Listed, HasTrace, Interner.Valid, Interner.GrownFrom;
      ghost var was, wasIndex := streams, traceIndex;
      IndexedParts(LabelsOf(streams), labelIndex, labelValues, streamIds, nextStreamId);
      var r, ls := InternLabelPairs(interner, labels);
      LabelSetKnown(r, labels);
      var id;
      id, streams, labelIndex, labelValues, streamIds, nextStreamId :=
        IngestInto(interner, r, streams, labelIndex, labelValues, streamIds, nextStreamId, ls, entries, Ts);
      interner := r;
      traceIndex := IndexTraces(traceIndex, id, entries);
      totalEntries := totalEntries + |entries|;
      AppendedTraces(was, wasIndex, id, ls, entries, traceIndex);
    }

    /** Every stream holding an entry of the trace, and only those while the trace index is exact. */
    function StreamsForTrace(t: TraceId): (ids: set<nat>)
      requires Valid()
      reads this
      ensures forall id :: Mentions(streams, t, id) ==> id in ids
      ensures TraceExact(streams, traceIndex) ==> forall id :: id in ids <==> Mentions(streams, t, id)
    {
      assert forall id: nat :: Mentions(streams, t, id) ==> Listed(traceIndex, t, id);
      if t in traceIndex then traceIndex[t] else {}
    }

    method QueryStreams(ms: seq<LabelMatcher>, rx: RegexEngine) returns (ids: seq<nat>)
      requires Valid()
      ensures forall id :: id in ids <==>
        id in streams && KnownSet(interner, streams[id].labels) && SatisfiesAll(interner, streams[id].labels, ms, rx)
      ensures ms != [] ==> Ascending(ids)
      ensures Distinct(ids)
    {
      var keys := SomeOrder(streams.Keys);
      ids := SelectIndexedIds(interner, LabelsOf(streams), labelIndex, labelValues, keys, ms, rx);
      forall id | id in streams ensures KnownSet(interner, streams[id].labels) {
        assert LabelsOf(streams)[id] == streams[id].labels;
      }
    }

    /** The entries of a stream within `[start, end]`; `None` where the slice panics. */
    function GetEntries(id: nat, start: I64, end: I64): (r: Option<seq<LogEntry>>)
      requires Valid()
      reads this
      ensures r.None? <==> id in streams && SomeBetween(streams[id].entries, Ts, end, start)
      ensures r.Some? ==> r.value == if id in streams then Window(streams[id].entries, Ts, start, end) else []
      ensures r.Some? && id in streams ==> Selects(streams[id].entries, (e: LogEntry) => start <= e.timestampNs <= end, r.value)
    {
      if id in streams then
        WindowIs(streams[id].entries, Ts, start, end, (e: LogEntry) => start <= e.timestampNs <= end);
        SliceMeaning(streams[id].entries, Ts, start, end);
        Slice(streams[id].entries, Ts, start, end)
      else Some([])
    }

    method EvictBefore(cutoff: int)
      requires Valid()
      modifies this
      ensures Valid() && TraceExact(streams, traceIndex)
      ensures streams == Retained(old(streams), cutoff, Ts)
      ensures interner == old(interner) && nextStreamId == old(nextStreamId)
      ensures Contents() == ContentsAfterEvictBefore(old(Contents()), cutoff, Ts)
    {
      hide Indexed, IdsInverse, Below, AllKnown, AllSorted, TraceCovered, TraceExact, Total;
      hide ContentsOf, ContentsAfterEvictBefore, Retained, LabelsOf;
      ghost var was, wasIds := streams, streamIds;
      IndexedParts(LabelsOf(streams), labelIndex, labelValues, streamIds, nextStreamId);
      var cut, removed := TrimAll(streams, cutoff, Ts);
      var empty := EmptyStreams(cut);
      CutFacts(streams, cut, cutoff, empty, Ts);
      labelIndex, labelValues, streamIds, streams :=
        RemoveStreams(interner, cut, labelIndex, labelValues, streamIds, nextStreamId, empty);
      totalEntries := totalEntries - removed;
      RebuildTraceIndex();
      ExactCovers(streams, traceIndex);
      IndexedParts(LabelsOf(streams), labelIndex, labelValues, streamIds, nextStreamId);
      RetainedContents(was, wasIds, streamIds, cutoff, Ts);
    }

    method EvictToMax(maxEntries: nat)
      requires Valid()
      modifies this
      ensures Valid()
      ensures totalEntries == if old(totalEntries) <= maxEntries then old(totalEntries) else maxEntries
      ensures old(totalEntries) <= maxEntries ==> streams == old(streams) && traceIndex == old(traceIndex)
      ensures DrainedInOrder(old(streams), streams) && OldestFirst(old(streams), streams)
      ensures interner == old(interner) && nextStreamId == old(nextStreamId)
      ensures old(totalEntries) > maxEntries ==> TraceExact(streams, traceIndex)
    {
      hide Indexed, AllKnown, AllSorted, TraceCovered, TraceExact, Total, DrainedInOrder, OldestFirst;
      if totalEntries <= maxEntries {
        NothingDrained(streams);
        DrainedOldestFirst(streams, streams);
        return;
      }
      var drained, dropped := DrainOldest(streams, totalEntries - maxEntries);
      DrainedOldestFirst(streams, drained);
      labelIndex, labelValues, streamIds :=
        UnlinkAll(LabelsOf(streams), labelIndex, labelValues, streamIds, nextStreamId, dropped);
      KnownOmit(interner, LabelsOf(streams), dropped);
      streams := drained;
      totalEntries := maxEntries;
      RebuildTraceIndex();
      ExactCovers(streams, traceIndex);
    }

    method Clear()
      modifies this
      ensures Valid() && TraceExact(streams, traceIndex)
      ensures streams == map[] && interner == EmptyInterner && nextStreamId == 0
      ensures totalEntries == 0 && streamIds == map[] && traceIndex == map[]
    {
      streams := map[];
      labelIndex := map[];
      labelValues := map[];
      interner := EmptyInterner;
      streamIds := map[];
      nextStreamId := 0;
      totalEntries := 0;
      traceIndex := map[];
      TotalEmpty<LogEntry>(map[]);
    }

    method ClearService(service: string)
      requires Valid()
      modifies this
      ensures Valid()
      ensures streams == WithoutLabel(old(interner), old(streams), "service", service)
      ensures interner == old(interner) && nextStreamId == old(nextStreamId) && traceIndex == old(traceIndex)
      ensures old(TraceExact(streams, traceIndex)) ==>
        (TraceExact(streams, traceIndex) <==> !ServiceTraced(old(interner), old(streams), service))
    {
      hide Indexed, AllKnown, AllSorted, TraceCovered, TraceExact, TracedStreamLost, ServiceTraced, Total, LabelsOf, IndexExact, ValuesExact;
      IndexedParts(LabelsOf(streams), labelIndex, labelValues, streamIds, nextStreamId);
      LabelledStreams(interner, streams, labelIndex, "service", service);
      StaleIffTracedStreamLost(streams, WithoutLabel(interner, streams, "service", service), traceIndex);
      LostIffServiceTraced(interner, streams, service);
      var value := interner.Get(service);
      var key := interner.Get("service");
      if value.None? || key.None? || (key.value, value.value) !in labelIndex { return; }
      var ids := labelIndex[(key.value, value.value)];
      PostedStreams(streams, labelIndex, (key.value, value.value));
      WithoutKeeps(streams, ids, traceIndex);
      TotalWithout(streams, ids);
      totalEntries := totalEntries - EntriesIn(streams, ids);
      labelIndex, labelValues, streamIds, streams :=
        RemoveStreams(interner, streams, labelIndex, labelValues, streamIds, nextStreamId, ids);
    }

    /** Rebuilds the trace index from the surviving entries. */
    method RebuildTraceIndex()
      modifies this`traceIndex
      ensures TraceExact(streams, traceIndex)
    {
      traceIndex := map[];
      var todo := streams.Keys;
      while todo != {}
        invariant todo <= streams.Keys
        invariant forall t: TraceId, id: nat :: Listed(traceIndex, t, id) <==> id !in todo && Mentions(streams, t, id)
        invariant forall t :: t in traceIndex ==> traceIndex[t] != {}
        decreases todo
      {
        var id :| id in todo;
        traceIndex := IndexTraces(traceIndex, id, streams[id].entries);
        todo := todo - {id};
      }
    }

    /** Restores the identity map after loading a snapshot. */
    method RebuildStreamIds()
      requires forall i, j :: i in streams && j in streams && streams[i].labels == streams[j].labels ==> i == j
      modifies this`streamIds, this`nextStreamId
      ensures IdsInverse(LabelsOf(streams), streamIds) && Below(LabelsOf(streams), nextStreamId)
      ensures nextStreamId > 0 ==> nextStreamId - 1 in streams
      ensures old(Valid()) ==> Valid() && streamIds == old(streamIds) && nextStreamId <= old(nextStreamId)
    {
      ghost var ids, next := streamIds, nextStreamId;
      streamIds, nextStreamId := IdentityMap(LabelsOf(streams));
      if old(Valid()) {
        IdsInverseUnique(LabelsOf(streams), ids, streamIds);
        assert nextStreamId > 0 ==> nextStreamId - 1 in LabelsOf(streams);
      }
    }
  }

  // ------------------------------------------------------------ ingest helpers

  method IndexTraces(index: TraceIndex, id: nat, entries: seq<LogEntry>) returns (index': TraceIndex)
    ensures forall t: TraceId, i: nat :: Listed(index', t, i) <==> Listed(index, t, i) || (i == id && HasTrace(entries, t))
    ensures (forall t :: t in index ==> index[t] != {}) ==> forall t :: t in index' ==> index'[t] != {}
  {
    index' := index;
    for n := 0 to |entries|
      invariant forall t: TraceId, i: nat :: Listed(index', t, i) <==> Listed(index, t, i) || (i == id && HasTrace(entries[..n], t))
      invariant (forall t :: t in index ==> index[t] != {}) ==> forall t :: t in index' ==> index'[t] != {}
    {
      forall t: TraceId { HasTraceSnoc(entries, n, t); }
      if entries[n].traceId.Some? {
        var t := entries[n].traceId.value;
        var listed := (if t in index' then index'[t] else {}) + {id};
        assert id in listed;
        ghost var before := index';
        index' := index'[t := listed];
        forall u: TraceId, i: nat ensures Listed(index', u, i) <==> Listed(before, u, i) || (u == t && i == id) {}
      }
    }
    assert entries[..|entries|] == entries;
  }

  lemma HasTraceSnoc(entries: seq<LogEntry>, n: nat, t: TraceId)
    requires n < |entries|
    ensures HasTrace(entries[..n + 1], t) <==> HasTrace(entries[..n], t) || entries[n].traceId == Some(t)
  {
    assert entries[..n + 1][n] == entries[n];
    if HasTrace(entries[..n], t) {
      var i :| 0 <= i < n && entries[..n][i].traceId == Some(t);
      assert entries[..n + 1][i].traceId == Some(t);
    }
    if HasTrace(entries[..n + 1], t) && entries[n].traceId != Some(t) {
      var i :| 0 <= i < n + 1 && entries[..n + 1][i].traceId == Some(t);
      assert entries[..n][i].traceId == Some(t);
    }
  }

  lemma HasTraceAppended(before: seq<LogEntry>, batch: seq<LogEntry>, t: TraceId)
    ensures HasTrace(StableSort(before + batch, Ts), t) <==> HasTrace(before, t) || HasTrace(batch, t)
  {
    var all := before + batch;
    var sorted := StableSort(all, Ts);
    StableSortElements(all, Ts);
    if HasTrace(sorted, t) {
      var i :| 0 <= i < |sorted| && sorted[i].traceId == Some(t);
      assert sorted[i] in all;
    }
    if HasTrace(before, t) {
      var i :| 0 <= i < |before| && before[i].traceId == Some(t);
      assert all[i] == before[i] && all[i] in sorted;
    }
    if HasTrace(batch, t) {
      var i :| 0 <= i < |batch| && batch[i].traceId == Some(t);
      assert all[|before| + i] == batch[i] && all[|before| + i] in sorted;
    }
  }

  lemma AppendedTraces(streams: LogStreams, index: TraceIndex, id: nat, ls: LabelSet, entries: seq<LogEntry>, index': TraceIndex)
    requires forall t: TraceId, i: nat :: Listed(index', t, i) <==> Listed(index, t, i) || (i == id && HasTrace(entries, t))
    requires (forall t :: t in index ==> index[t] != {}) ==> forall t :: t in index' ==> index'[t] != {}
    ensures TraceCovered(streams, index) ==> TraceCovered(Appended(streams, id, ls, entries, Ts), index')
    ensures TraceExact(streams, index) ==> TraceExact(Appended(streams, id, ls, entries, Ts), index')
  {
    forall t: TraceId, i: nat
      ensures Mentions(Appended(streams, id, ls, entries, Ts), t, i) <==> Mentions(streams, t, i) || (i == id && HasTrace(entries, t))
    {
      HasTraceAppended(if id in streams then streams[id].entries else [], entries, t);
    }
  }

  lemma ExactCovers(streams: LogStreams, index: TraceIndex)
    requires TraceExact(streams, index)
    ensures TraceCovered(streams, index)
  {
  }

  lemma NothingDrained(streams: LogStreams)
    ensures DrainedInOrder(streams, streams)
  {
  }

  /** LogStreams `ids[..k]` gone, and the `d` oldest entries of `ids[k]` with them. */
  function DrainedTo(streams: LogStreams, ids: seq<nat>, k: nat, d: nat): LogStreams
    requires k <= |ids|
    requires d > 0 ==> k < |ids| && d < Left(streams, ids[k])
  {
    map id | id in streams && id !in ids[..k]
      :: if d > 0 && id == ids[k] then Stream(streams[id].labels, streams[id].entries[d..]) else streams[id]
  }

  lemma DrainedToSuffixes(streams: LogStreams, ids: seq<nat>, k: nat, d: nat)
    requires k <= |ids| && (d > 0 ==> k < |ids| && d < Left(streams, ids[k]))
    ensures SuffixesOf(streams, DrainedTo(streams, ids, k, d))
  {
  }

  /** Position of a stream in the draining order, relative to where draining stopped. */
  lemma DrainedPosition(streams: LogStreams, ids: seq<nat>, k: nat, d: nat, m: nat)
    requires k <= |ids| && (d > 0 ==> k < |ids| && d < Left(streams, ids[k]))
    requires Distinct(ids) && m < |ids| && ids[m] in streams
    ensures var after := DrainedTo(streams, ids, k, d);
            Left(after, ids[m]) == if m < k then 0 else if d > 0 && m == k then Left(streams, ids[m]) - d else Left(streams, ids[m])
  {
    if m < k { assert ids[..k][m] == ids[m]; }
    if ids[m] in ids[..k] {
      var x :| 0 <= x < k && ids[..k][x] == ids[m];
      assert x == m;
    }
  }

  lemma DrainedToInOrder(streams: LogStreams, ids: seq<nat>, k: nat, d: nat)
    requires k <= |ids| && (d > 0 ==> k < |ids| && d < Left(streams, ids[k]))
    requires forall id :: id in ids <==> id in streams
    requires Distinct(ids) && SortedBy(ids, FirstKey(streams, Ts))
    ensures DrainedInOrder(streams, DrainedTo(streams, ids, k, d))
  {
    var after := DrainedTo(streams, ids, k, d);
    DrainedToSuffixes(streams, ids, k, d);
    forall i: nat | PartlyDrained(streams, after, i) ensures k < |ids| && i == ids[k] {
      var m :| 0 <= m < |ids| && ids[m] == i;
      DrainedPosition(streams, ids, k, d, m);
    }
    forall i: nat, j: nat | Left(after, i) < Left(streams, i) && 0 < Left(streams, j) == Left(after, j)
      ensures FirstTs(streams, i, Ts) <= FirstTs(streams, j, Ts)
    {
      var m :| 0 <= m < |ids| && ids[m] == i;
      var n :| 0 <= n < |ids| && ids[n] == j;
      DrainedPosition(streams, ids, k, d, m);
      DrainedPosition(streams, ids, k, d, n);
      assert FirstKey(streams, Ts)(ids[m]) <= FirstKey(streams, Ts)(ids[n]);
    }
  }

  /** Drains up to `left` of the oldest entries of one stream, dropping it if that is all of them. */
  method DrainStream(streams: LogStreams, id: nat, left: nat) returns (drained: LogStreams, left': nat)
    requires id in streams
    ensures left' == if left < |streams[id].entries| then 0 else left - |streams[id].entries|
    ensures drained == if left < |streams[id].entries|
                       then streams[id := Stream(streams[id].labels, streams[id].entries[left..])]
                       else streams - {id}
    ensures Total(drained) + left == Total(streams) + left'
  {
    var stream := streams[id];
    var drain := if left < |stream.entries| then left else |stream.entries|;
    left' := left - drain;
    TotalPut(streams, id, Stream(stream.labels, stream.entries[drain..]));
    TotalDrop(streams, id);
    drained := streams[id := stream.(entries := stream.entries[drain..])];
    if drain == |stream.entries| { drained := streams - {id}; }
  }

  lemma DrainedToStep(streams: LogStreams, ids: seq<nat>, k: nat, left: nat)
    requires Distinct(ids) && k < |ids| && ids[k] in streams && 0 < left
    ensures ids[k] in DrainedTo(streams, ids, k, 0) && DrainedTo(streams, ids, k, 0)[ids[k]] == streams[ids[k]]
    ensures left >= Left(streams, ids[k]) ==>
      DrainedTo(streams, ids, k, 0) - {ids[k]} == DrainedTo(streams, ids, k + 1, 0)
    ensures left < Left(streams, ids[k]) ==>
      DrainedTo(streams, ids, k, 0)[ids[k] := Stream(streams[ids[k]].labels, streams[ids[k]].entries[left..])]
        == DrainedTo(streams, ids, k, left)
  {
    assert ids[..k + 1] == ids[..k] + [ids[k]];
    assert ids[k] !in ids[..k];
  }

  /** Drains whole streams in order of their first entry, the last one partly. */
  method DrainOldest(streams: LogStreams, remaining: nat) returns (drained: LogStreams, dropped: seq<nat>)
    requires AllSorted(streams, Ts) && 0 < remaining <= Total(streams)
    ensures Total(drained) == Total(streams) - remaining
    ensures DrainedInOrder(streams, drained) && AllSorted(drained, Ts)
    ensures Distinct(dropped) && forall i :: 0 <= i < |dropped| ==> dropped[i] in streams
    ensures LabelsOf(drained) == Omit(LabelsOf(streams), dropped)
  {
    hide Total, AllSorted, DrainedInOrder, FirstKey, SortedBy, Omit, LabelsOf;
    var ids := OrderedBy(streams.Keys, FirstKey(streams, Ts));
    ghost var k: nat, d: nat := 0, 0;
    var left: nat, n := remaining, 0;
    drained, dropped := streams, [];
    assert DrainedTo(streams, ids, 0, 0) == streams;
    while n < |ids| && left != 0
      invariant 0 <= k <= n <= |ids| && (d == 0 ==> k == n)
      invariant d > 0 ==> k < n && d < Left(streams, ids[k]) && left == 0
      invariant drained == DrainedTo(streams, ids, k, d) && dropped == ids[..k]
      invariant Total(drained) + remaining == Total(streams) + left
    {
      assert ids[n] in ids && ids[n] in streams;
      DrainedToStep(streams, ids, k, left);
      if left < |streams[ids[n]].entries| {
        d := left;
      } else {
        k := n + 1;
        dropped := dropped + [ids[n]];
        assert ids[..k] == ids[..n] + [ids[n]];
      }
      drained, left := DrainStream(drained, ids[n], left);
      n := n + 1;
    }
    if left != 0 { NothingLeft(streams, ids); }
    DrainedToInOrder(streams, ids, k, d);
    DrainedToLabels(streams, ids, k, d);
    forall i | 0 <= i < |dropped| ensures dropped[i] in streams { assert ids[i] in ids; }
  }

  lemma NothingLeft(streams: LogStreams, ids: seq<nat>)
    requires forall id :: id in ids <==> id in streams
    ensures Total(DrainedTo(streams, ids, |ids|, 0)) == 0
  {
    assert ids[..|ids|] == ids;
    assert DrainedTo(streams, ids, |ids|, 0) == map[];
    TotalEmpty(DrainedTo(streams, ids, |ids|, 0));
  }

  lemma DrainedToLabels(streams: LogStreams, ids: seq<nat>, k: nat, d: nat)
    requires k <= |ids| && (d > 0 ==> k < |ids| && d < Left(streams, ids[k]))
    requires AllSorted(streams, Ts)
    ensures LabelsOf(DrainedTo(streams, ids, k, d)) == Omit(LabelsOf(streams), ids[..k])
    ensures AllSorted(DrainedTo(streams, ids, k, d), Ts)
  {
  }

  // ---------------------------------------------------- clear-service helpers

  /** Some stream holding a traced entry is gone. */
  ghost predicate TracedStreamLost(before: LogStreams, after: LogStreams) {
    exists t: TraceId, id: nat :: Mentions(before, t, id) && id !in after
  }

  /** Some stream labelled with the service holds a traced entry. */
  ghost predicate ServiceTraced(r: Interner, streams: LogStreams, service: string)
    requires AllKnown(r, LabelsOf(streams))
  {
    exists t: TraceId, id: nat :: Mentions(streams, t, id) && LabelledWith(r, LabelsOf(streams), id, "service", service)
  }

  lemma LostIffServiceTraced(r: Interner, streams: LogStreams, service: string)
    requires AllKnown(r, LabelsOf(streams))
    ensures TracedStreamLost(streams, WithoutLabel(r, streams, "service", service)) <==> ServiceTraced(r, streams, service)
  {
    var after := WithoutLabel(r, streams, "service", service);
    if t: TraceId, id: nat :| Mentions(streams, t, id) && id !in after {
      assert LabelledWith(r, LabelsOf(streams), id, "service", service);
    }
    if ServiceTraced(r, streams, service) {
      var t: TraceId, id: nat :| Mentions(streams, t, id) && LabelledWith(r, LabelsOf(streams), id, "service", service);
      assert id !in after;
    }
  }

  /** Dropping streams without touching the trace index leaves it exact iff nothing traced was dropped. */
  lemma StaleIffTracedStreamLost(before: LogStreams, after: LogStreams, index: TraceIndex)
    requires forall id :: id in after ==> id in before && after[id] == before[id]
    ensures TraceExact(before, index) ==> (TraceExact(after, index) <==> !TracedStreamLost(before, after))
  {
    if TraceExact(before, index) && TracedStreamLost(before, after) {
      var t: TraceId, id: nat :| Mentions(before, t, id) && id !in after;
      assert Listed(index, t, id) && !Mentions(after, t, id);
    }
    if TraceExact(before, index) && !TracedStreamLost(before, after) {
      forall t: TraceId, id: nat ensures Mentions(after, t, id) <==> Listed(index, t, id) {
        assert Mentions(before, t, id) ==> id in after;
      }
    }
  }

  // One stream of service "api" with one entry of trace 7.
  const OneTraced := LogEntry(0, "", 0, Some(7), None, 0, None, [])
  const ApiOnly: LogStreams := map[0 := Stream([(0, 1)], [OneTraced])]
  const ApiNames := Interner(["service", "api"])
  const TraceSeven: TraceIndex := map[7 := {0}]

  /** `clear_service` does leave the trace index stale: one traced entry is enough. */
  lemma ClearServiceLeavesStaleTrace()
    ensures ApiNames.Valid() && AllKnown(ApiNames, LabelsOf(ApiOnly)) && TraceExact(ApiOnly, TraceSeven)
    ensures !TraceExact(WithoutLabel(ApiNames, ApiOnly, "service", "api"), TraceSeven)
  {
    assert ApiOnly[0].entries[0].traceId == Some(7);
    assert ApiNames.Resolve(ApiOnly[0].labels[0].0) == "service" && ApiNames.Resolve(ApiOnly[0].labels[0].1) == "api";
    assert LabelledWith(ApiNames, LabelsOf(ApiOnly), 0, "service", "api");
    assert Listed(TraceSeven, 7, 0);
    assert !Mentions(WithoutLabel(ApiNames, ApiOnly, "service", "api"), 7, 0);
  }

  lemma WithoutKeeps(streams: LogStreams, ids: seq<nat>, index: TraceIndex)
    requires TraceCovered(streams, index) && AllSorted(streams, Ts)
    ensures TraceCovered(Without(streams, ids), index) && AllSorted(Without(streams, ids), Ts)
  {
    forall t: TraceId, id: nat | Mentions(Without(streams, ids), t, id) ensures Listed(index, t, id) {
      assert Mentions(streams, t, id);
    }
  }
}
