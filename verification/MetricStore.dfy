/** Metric storage: series identified by name and labels, with an inverted index. */
module MetricStore {
  import opened Options
  import opened Enumeration
  import opened Interning
  import opened LabelIdentity
  import opened LabelIndexing
  import opened Positions
  import opened PostingLists
  import opened StableSorting
  import opened StreamMaps
  import opened TimeOrdered

  datatype Sample = Sample(timestampMs: I64, value: real, ingestSeq: nat)

  type Series = Streams<Sample>

  datatype MetricType = Counter | Gauge | Histogram | Summary | Unknown
  datatype MetricMetadata = MetricMetadata(metricType: Option<MetricType>, help: Option<string>, unit: Option<string>)

  function TsMs(s: Sample): int { s.timestampMs }

  /** The metric name comes first, as the label `__name__`. */
  function NamedLabels(name: string, labels: seq<Label>): (named: seq<Label>)
    ensures forall n :: ValuesOf(named, n) == (if n == "__name__" then [name] else []) + ValuesOf(labels, n)
  {
    assert ([("__name__", name)] + labels)[1..] == labels;
    [("__name__", name)] + labels
  }

  /** `name` is the metric name of some series. */
  ghost predicate InUse(r: Interner, series: Series, name: Spur) {
    exists id :: id in series && r.Get("__name__").Some? && FirstValue(series[id].labels, r.Get("__name__").value) == Some(name)
  }

  function NamesInUse(r: Interner, series: Series): (names: set<Spur>)
    requires r.Get("__name__").Some?
    ensures forall name :: name in names <==> InUse(r, series, name)
  {
    set id | id in series && FirstValue(series[id].labels, r.Get("__name__").value).Some?
      :: FirstValue(series[id].labels, r.Get("__name__").value).value
  }

  /** Registrations of names no series uses any more are dropped. */
  function Pruned<V>(r: Interner, series: Series, registry: map<Spur, V>): (kept: map<Spur, V>)
    ensures forall name :: name in kept ==> name in registry && kept[name] == registry[name]
    ensures r.Get("__name__").Some? ==> forall name :: name in kept <==> name in registry && InUse(r, series, name)
    ensures r.Get("__name__").None? ==> kept == registry
  {
    if r.Get("__name__").None? then registry
    else
      var names := NamesInUse(r, series);
      map name | name in registry && name in names :: registry[name]
  }

  /** Some series with an older first sample were dropped, the others are untouched. */
  ghost predicate OldestDropped(before: Series, after: Series) {
    && (forall id :: id in after ==> id in before && after[id] == before[id])
    && (forall i, j :: i in before && i !in after && j in after ==> FirstTs(before, i, TsMs) <= FirstTs(before, j, TsMs))
  }

  /** No series dropped has a younger first sample than one kept. */
  ghost predicate OldestFirst(before: Series, after: Series) {
    forall i, j :: i in before && i !in after && before[i].entries != [] && j in before && j in after && before[j].entries != [] ==>
      before[i].entries[0].timestampMs <= before[j].entries[0].timestampMs
  }

  lemma DroppedOldestFirst(before: Series, after: Series)
    requires OldestDropped(before, after)
    ensures OldestFirst(before, after)
  {
    forall i, j | i in before && i !in after && before[i].entries != [] && j in before && j in after && before[j].entries != []
      ensures before[i].entries[0].timestampMs <= before[j].entries[0].timestampMs
    {
      assert FirstTs(before, i, TsMs) <= FirstTs(before, j, TsMs);
    }
  }

  lemma {:induction false} WithoutCount(series: Series, ids: seq<nat>)
    requires Distinct(ids) && forall i :: 0 <= i < |ids| ==> ids[i] in series
    ensures |Without(series, ids)| + |ids| == |series|
  {
    if ids == [] {
      assert Without(series, ids) == series;
    } else {
      var n := |ids| - 1;
      WithoutCount(series, ids[..n]);
      assert ids[..n + 1] == ids && ids[n] !in ids[..n];
      WithoutNext(series, ids, n);
    }
  }

  lemma PrefixDropped(series: Series, ids: seq<nat>, n: nat)
    requires forall id :: id in ids <==> id in series
    requires Distinct(ids) && SortedBy(ids, FirstKey(series, TsMs)) && n <= |ids|
    ensures OldestDropped(series, Without(series, ids[..n]))
    ensures Distinct(ids[..n]) && forall i :: 0 <= i < n ==> ids[..n][i] in series
  {
    var after := Without(series, ids[..n]);
    assert forall k :: 0 <= k < n ==> ids[k] == ids[..n][k];
    forall i, j | i in series && i !in after && j in after ensures FirstTs(series, i, TsMs) <= FirstTs(series, j, TsMs) {
      var a :| 0 <= a < n && ids[..n][a] == i;
      var b :| 0 <= b < |ids| && ids[b] == j;
      assert n <= b;
      assert FirstKey(series, TsMs)(ids[a]) <= FirstKey(series, TsMs)(ids[b]);
    }
    forall i | 0 <= i < n ensures ids[..n][i] in series { assert ids[i] in ids; }
  }

  lemma NothingDropped(series: Series)
    ensures OldestDropped(series, series)
  {
  }

  lemma SortedWithout(series: Series, ids: seq<nat>)
    requires AllSorted(series, TsMs)
    ensures AllSorted(Without(series, ids), TsMs)
  {
  }

  /** The `excess` series with the oldest first samples. */
  method OldestSeries(series: Series, excess: nat) returns (drop: seq<nat>)
    requires excess <= |series|
    ensures Distinct(drop) && forall i :: 0 <= i < |drop| ==> drop[i] in series
    ensures |Without(series, drop)| == |series| - excess
    ensures OldestDropped(series, Without(series, drop))
    ensures AllSorted(series, TsMs) ==> AllSorted(Without(series, drop), TsMs)
  {
    hide SortedBy, FirstKey, OldestDropped;
    var ids := OrderedBy(series.Keys, FirstKey(series, TsMs));
    forall i | 0 <= i < |ids| ensures ids[i] in series { assert ids[i] in ids; }
    assert Without(series, ids) == map[];
    WithoutCount(series, ids);
    drop := ids[..excess];
    PrefixDropped(series, ids, excess);
    WithoutCount(series, drop);
  }

  class MetricStore {
    var series: Series
    var labelIndex: Postings
    var labelValues: Values
    var interner: Interner
    var totalSamples: nat
    var seriesIds: map<LabelSet, nat>
    var nextSeriesId: nat
    var normalizedNameSources: map<Spur, Spur>
    var metricMetadata: map<Spur, MetricMetadata>

    ghost predicate Valid()
      reads this
    {
      && interner.Valid()
      && AllKnown(interner, LabelsOf(series))
      && Indexed(LabelsOf(series), labelIndex, labelValues, seriesIds, nextSeriesId)
      && AllSorted(series, TsMs)
      && totalSamples == Total(series)
    }

    ghost function Contents(): Contents<Sample>
      reads this
      requires Valid()
    {
      ContentsOf(series, seriesIds)
    }

    constructor New()
      ensures Valid()
      ensures series == map[] && interner == EmptyInterner && nextSeriesId == 0
      ensures normalizedNameSources == map[] && metricMetadata == map[]
      ensures Contents() == map[]
    {
      series := map[];
      labelIndex := map[];
      labelValues := map[];
      interner := EmptyInterner;
      totalSamples := 0;
      seriesIds := map[];
      nextSeriesId := 0;
      normalizedNameSources := map[];
      metricMetadata := map[];
      TotalEmpty<Sample>(map[]);
    }

    /** Registers a visible metric name; a second source for the same name is a collision. */
    method RegisterMetricName(normalized: string, source: string) returns (ok: bool)
      requires Valid()
      modifies this`interner, this`normalizedNameSources
      ensures Valid()
      ensures interner == old(interner).Intern(normalized).Intern(source)
      ensures interner.Get(normalized).Some? && interner.Get(source).Some?
      ensures var n, s := interner.Get(normalized).value, interner.Get(source).value;
              && ok == (n in old(normalizedNameSources) ==> old(normalizedNameSources)[n] == s)
              && normalizedNameSources == if ok then old(normalizedNameSources)[n := s] else old(normalizedNameSources)
    {
      hide Indexed, AllSorted, Total, LabelsOf;
      var r1 := interner.Intern(normalized);
      var r2 := r1.Intern(source);
      interner.InternCorrect(normalized);
      r1.InternCorrect(source);
      r2.GetStable(r1, normalized);
      KnownLater(interner, r2, LabelsOf(series));
      interner := r2;
      var n, s := r2.Get(normalized).value, r2.Get(source).value;
      if n in normalizedNameSources && normalizedNameSources[n] != s {
        ok := false;
      } else {
        ok := true;
        normalizedNameSources := normalizedNameSources[n := s];
      }
    }

    method IngestSamples(name: string, labels: seq<Label>, samples: seq<Sample>)
      requires Valid()
      modifies this
      ensures Valid()
      ensures interner == InternAll(old(interner), NamedLabels(name, labels)) && Interned(interner, NamedLabels(name, labels))
      ensures var ls := LabelSetOf(interner, NamedLabels(name, labels));
              var id := if ls in old(seriesIds) then old(seriesIds)[ls] else old(nextSeriesId);
              && series == Appended(old(series), id, ls, samples, TsMs)
              && seriesIds == old(seriesIds)[ls := id]
              && nextSeriesId == (if ls in old(seriesIds) then old(nextSeriesId) else old(nextSeriesId) + 1)
              && Contents() == ContentsAfterIngest(old(Contents()), ls, samples, TsMs)
      ensures totalSamples == old(totalSamples) + |samples|
      ensures normalizedNameSources == old(normalizedNameSources) && metricMetadata == old(metricMetadata)
    {
      hide Indexed, IdsInverse, AllKnown, AllSorted, Total, ContentsOf, ContentsAfterIngest;
      hide Interned, InternAll, LabelSetOf, KnownSet, LabelsOf, Appended, Interner.Valid, Interner.GrownFrom;
      IndexedParts(LabelsOf(series), labelIndex, labelValues, seriesIds, nextSeriesId);
      var r, ls := InternLabelPairs(interner, NamedLabels(name, labels));
      LabelSetKnown(r, NamedLabels(name, labels));
      var id;
      id, series, labelIndex, labelValues, seriesIds, nextSeriesId :=
        IngestInto(interner, r, series, labelIndex, labelValues, seriesIds, nextSeriesId, ls, samples, TsMs);
      interner := r;
      totalSamples := totalSamples + |samples|;
    }

    method SelectSeries(ms: seq<LabelMatcher>, rx: RegexEngine) returns (ids: seq<nat>)
      requires Valid()
      ensures forall id :: id in ids <==>
        id in series && KnownSet(interner, series[id].labels) && SatisfiesAll(interner, series[id].labels, ms, rx)
      ensures ms != [] ==> Ascending(ids)
      ensures Distinct(ids)
    {
      var keys := SomeOrder(series.Keys);
      ids := SelectIndexedIds(interner, LabelsOf(series), labelIndex, labelValues, keys, ms, rx);
      forall id | id in series ensures KnownSet(interner, series[id].labels) {
        assert LabelsOf(series)[id] == series[id].labels;
      }
    }

    /** The samples of a series within `[start, end]`; `None` where the slice panics. */
    function GetSamples(id: nat, start: I64, end: I64): (r: Option<seq<Sample>>)
      requires Valid()
      reads this
      ensures r.None? <==> id in series && SomeBetween(series[id].entries, TsMs, end, start)
      ensures r.Some? ==> r.value == if id in series then Window(series[id].entries, TsMs, start, end) else []
      ensures r.Some? && id in series ==> Selects(series[id].entries, (s: Sample) => start <= s.timestampMs <= end, r.value)
    {
      if id in series then
        WindowIs(series[id].entries, TsMs, start, end, (s: Sample) => start <= s.timestampMs <= end);
        SliceMeaning(series[id].entries, TsMs, start, end);
        Slice(series[id].entries, TsMs, start, end)
      else Some([])
    }

    method EvictToMax(maxSeries: nat)
      requires Valid()
      modifies this
      ensures Valid()
      ensures |series| == if |old(series)| <= maxSeries then |old(series)| else maxSeries
      ensures OldestDropped(old(series), series) && OldestFirst(old(series), series)
      ensures interner == old(interner) && nextSeriesId == old(nextSeriesId)
      ensures normalizedNameSources == old(normalizedNameSources)
      ensures metricMetadata == if |old(series)| <= maxSeries then old(metricMetadata) else Pruned(interner, series, old(metricMetadata))
    {
      hide Indexed, AllKnown, AllSorted, Total, LabelsOf, Pruned, SortedBy, FirstKey, OldestDropped, OldestFirst;
      if |series| <= maxSeries {
        NothingDropped(series);
        DroppedOldestFirst(series, series);
        return;
      }
      var drop := OldestSeries(series, |series| - maxSeries);
      DroppedOldestFirst(series, Without(series, drop));
      TotalWithout(series, drop);
      totalSamples := totalSamples - EntriesIn(series, drop);
      labelIndex, labelValues, seriesIds, series :=
        RemoveStreams(interner, series, labelIndex, labelValues, seriesIds, nextSeriesId, drop);
      metricMetadata := Pruned(interner, series, metricMetadata);
    }

    method EvictBefore(cutoffMs: int)
      requires Valid()
      modifies this
      ensures Valid()
      ensures series == Retained(old(series), cutoffMs, TsMs)
      ensures interner == old(interner) && nextSeriesId == old(nextSeriesId)
      ensures Contents() == ContentsAfterEvictBefore(old(Contents()), cutoffMs, TsMs)
      ensures normalizedNameSources == old(normalizedNameSources)
      ensures metricMetadata == Pruned(interner, series, old(metricMetadata))
    {
      hide Indexed, IdsInverse, Below, AllKnown, AllSorted, Total, ContentsOf, ContentsAfterEvictBefore, Retained, LabelsOf, Pruned;
      ghost var was, wasIds := series, seriesIds;
      IndexedParts(LabelsOf(series), labelIndex, labelValues, seriesIds, nextSeriesId);
      var cut, removed := TrimAll(series, cutoffMs, TsMs);
      var empty := EmptyStreams(cut);
      CutFacts(series, cut, cutoffMs, empty, TsMs);
      labelIndex, labelValues, seriesIds, series :=
        RemoveStreams(interner, cut, labelIndex, labelValues, seriesIds, nextSeriesId, empty);
      totalSamples := totalSamples - removed;
      metricMetadata := Pruned(interner, series, metricMetadata);
      IndexedParts(LabelsOf(series), labelIndex, labelValues, seriesIds, nextSeriesId);
      RetainedContents(was, wasIds, seriesIds, cutoffMs, TsMs);
    }

    method Clear()
      modifies this
      ensures Valid()
      ensures series == map[] && interner == EmptyInterner && nextSeriesId == 0 && totalSamples == 0
      ensures seriesIds == map[] && normalizedNameSources == map[] && metricMetadata == map[]
    {
      series := map[];
      labelIndex := map[];
      labelValues := map[];
      interner := EmptyInterner;
      totalSamples := 0;
      seriesIds := map[];
      nextSeriesId := 0;
      normalizedNameSources := map[];
      metricMetadata := map[];
      TotalEmpty<Sample>(map[]);
    }

    method ClearService(service: string)
      requires Valid()
      modifies this
      ensures Valid()
      ensures series == WithoutLabel(old(interner), old(series), "service", service)
      ensures interner == old(interner) && nextSeriesId == old(nextSeriesId)
      ensures series != old(series) ==>
        && normalizedNameSources == Pruned(interner, series, old(normalizedNameSources))
        && metricMetadata == Pruned(interner, series, old(metricMetadata))
      ensures series == old(series) ==>
        normalizedNameSources == old(normalizedNameSources) && metricMetadata == old(metricMetadata)
    {
      hide Indexed, AllKnown, AllSorted, Total, LabelsOf, IndexExact, ValuesExact, Pruned;
      IndexedParts(LabelsOf(series), labelIndex, labelValues, seriesIds, nextSeriesId);
      LabelledStreams(interner, series, labelIndex, "service", service);
      var value := interner.Get(service);
      var key := interner.Get("service");
      if value.None? || key.None? || (key.value, value.value) !in labelIndex { return; }
      var ids := labelIndex[(key.value, value.value)];
      PostedStreams(series, labelIndex, (key.value, value.value));
      assert ids[0] in series && ids[0] !in Without(series, ids);
      SortedWithout(series, ids);
      TotalWithout(series, ids);
      totalSamples := totalSamples - EntriesIn(series, ids);
      labelIndex, labelValues, seriesIds, series :=
        RemoveStreams(interner, series, labelIndex, labelValues, seriesIds, nextSeriesId, ids);
      normalizedNameSources := Pruned(interner, series, normalizedNameSources);
      metricMetadata := Pruned(interner, series, metricMetadata);
    }

    /** Restores the identity map after loading a snapshot. */
    method RebuildSeriesIds()
      requires forall i, j :: i in series && j in series && series[i].labels == series[j].labels ==> i == j
      modifies this`seriesIds, this`nextSeriesId
      ensures IdsInverse(LabelsOf(series), seriesIds) && Below(LabelsOf(series), nextSeriesId)
      ensures nextSeriesId > 0 ==> nextSeriesId - 1 in series
      ensures old(Valid()) ==> Valid() && seriesIds == old(seriesIds) && nextSeriesId <= old(nextSeriesId)
    {
      ghost var ids := seriesIds;
      seriesIds, nextSeriesId := IdentityMap(LabelsOf(series));
      if old(Valid()) {
        IdsInverseUnique(LabelsOf(series), ids, seriesIds);
        assert nextSeriesId > 0 ==> nextSeriesId - 1 in LabelsOf(series);
      }
    }
  }
}
