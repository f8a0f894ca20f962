/**
  Runs of the metric and trace stores, and the eviction pass over all three.
  `LogRuns` does the same for the log store.
 */
module StoreRuns {
  import opened LabelIndexing
  import L = LogStore
  import M = MetricStore
  import opened SpanConditions
  import opened StableSorting
  import opened StreamMaps
  import opened TraceIds
  import opened TraceIndexing
  import opened TraceNarrowing
  import T = TraceStore
  import IngestTraces
  import SentSpans

  // --------------------------------------------------------------- metric store

  datatype MetricOp =
    | Register(normalized: string, source: string)
    | Append(name: string, labels: seq<Label>, samples: seq<M.Sample>)
    | AgeOutSeries(cutoffMs: int)
    | ShrinkSeries(maxSeries: nat)
    | DropSeriesOf(service: string)
    | ResetSeries
    | RebuildSeries

  /** Any run of operations keeps every index of the metric store exact and every series sorted. */
  method DriveMetrics(ops: seq<MetricOp>) returns (store: M.MetricStore)
    ensures fresh(store) && store.Valid()
  {
    hide M.MetricStore.Valid;
    store := new M.MetricStore.New();
    for n := 0 to |ops|
      invariant fresh(store) && store.Valid()
    {
      match ops[n] {
        case Register(normalized, source) => var _ := store.RegisterMetricName(normalized, source);
        case Append(name, labels, samples) => store.IngestSamples(name, labels, samples);
        case AgeOutSeries(cutoffMs) => store.EvictBefore(cutoffMs);
        case ShrinkSeries(maxSeries) => store.EvictToMax(maxSeries);
        case DropSeriesOf(service) => store.ClearService(service);
        case ResetSeries => store.Clear();
        case RebuildSeries =>
          DistinctSeriesLabels(store);
          store.RebuildSeriesIds();
      }
    }
  }

  lemma DistinctSeriesLabels(store: M.MetricStore)
    requires store.Valid()
    ensures forall i, j :: i in store.series && j in store.series && store.series[i].labels == store.series[j].labels ==> i == j
  {
    forall i, j | i in store.series && j in store.series && store.series[i].labels == store.series[j].labels ensures i == j {
      assert LabelsOf(store.series)[i] == LabelsOf(store.series)[j];
      assert store.seriesIds[LabelsOf(store.series)[i]] == i;
    }
  }

  // ---------------------------------------------------------------- trace store

  datatype TraceOp =
    | Send(request: seq<SentSpans.ResourceSpans>)
    | AgeOutSpans(cutoff: int)
    | ShrinkSpans(maxSpans: nat)
    | DropSpansOf(service: string)
    | ResetSpans

  lemma NothingLinked(store: T.TraceStore)
    requires store.Valid() && store.traces == map[]
    ensures AllLinked(store.interner, store.traces)
  {
  }

  lemma ValidFiled(store: T.TraceStore)
    requires store.Valid()
    ensures T.WellFiled(store.interner, store.traces)
  {
  }

  /** Removing spans keeps a store built from requests linked. */
  method Remove(store: T.TraceStore, op: TraceOp)
    requires store.Valid() && AllLinked(store.interner, store.traces) && (op.AgeOutSpans? || op.ShrinkSpans? || op.DropSpansOf?)
    modifies store
    ensures store.Valid() && AllLinked(store.interner, store.traces)
  {
    hide T.TraceStore.Valid, AllLinked, T.WellFiled, T.OldestTracesDropped, T.RetainedTraces, T.WithoutService;
    ghost var r, before := store.interner, store.traces;
    ValidFiled(store);
    match op {
      case AgeOutSpans(cutoff) =>
        store.EvictBefore(cutoff);
        ValidFiled(store);
        IngestTraces.RemovalKeepsLinks(r, before, store.traces, cutoff, 0, 0);
      case ShrinkSpans(maxSpans) =>
        store.EvictToMax(maxSpans);
        ValidFiled(store);
        IngestTraces.RemovalKeepsLinks(r, before, store.traces, 0, maxSpans, 0);
      case DropSpansOf(service) =>
        store.ClearService(service);
        ValidFiled(store);
        if r.Get(service).Some? { IngestTraces.RemovalKeepsLinks(r, before, store.traces, 0, 0, r.Get(service).value); }
    }
  }

  /** Any run of requests and removals keeps every index of the trace store exact and every span linked to its service. */
  method DriveTraces(ops: seq<TraceOp>) returns (store: T.TraceStore)
    ensures fresh(store) && store.Valid() && AllLinked(store.interner, store.traces)
  {
    hide T.TraceStore.Valid, AllLinked, T.WellFiled;
    store := new T.TraceStore.New();
    ValidFiled(store);
    NothingLinked(store);
    var nextSeq: nat := 1;
    for n := 0 to |ops|
      invariant fresh(store) && store.Valid()
      invariant T.WellFiled(store.interner, store.traces) && AllLinked(store.interner, store.traces)
    {
      match ops[n] {
        case Send(request) =>
          var _, _, next, _ := IngestTraces.IngestRequest(store, request, nextSeq);
          nextSeq := next;
        case ResetSpans =>
          store.Clear();
          ValidFiled(store);
          NothingLinked(store);
        case _ => Remove(store, ops[n]);
      }
      ValidFiled(store);
    }
  }

  /** On any store built that way, narrowing through the indexes is invisible. */
  method SelectAfter(ops: seq<TraceOp>, conds: seq<SpanCondition>, joins: seq<LogicalOp>, eng: Engine)
    returns (store: T.TraceStore, results: seq<TraceResult>)
    requires WellFormed(conds, joins)
    ensures fresh(store) && store.Valid() && Lists(results, FullScan(store.interner, store.traces, conds, joins, eng))
  {
    hide T.TraceStore.Valid, AllLinked, T.WellFiled, Lists;
    store := DriveTraces(ops);
    ValidFiled(store);
    results := EvalSpanSelector(conds, joins, store, eng);
  }

  // ------------------------------------------------------------------- eviction

  function SaturatingSub(a: I64, b: I64): I64 {
    if a - b < I64_MIN then I64_MIN else if a - b > I64_MAX then I64_MAX else a - b
  }

  /** Division as the machine does it, towards zero. */
  function TruncatingDiv(a: int, b: nat): int
    requires b > 0
  {
    if a >= 0 then a / b else -((-a) / b)
  }

  ghost predicate AllFrom<E>(streams: Streams<E>, key: E -> int, cutoff: int) {
    forall id, i :: id in streams && 0 <= i < |streams[id].entries| ==> key(streams[id].entries[i]) >= cutoff
  }

  ghost predicate SpansFrom(traces: Traces, cutoff: int) {
    forall t: TraceId, i: nat :: t in traces && i < |traces[t]| ==> traces[t][i].startTimeNs >= cutoff
  }

  lemma {:induction false} AtLeastFrom<E>(xs: seq<E>, key: E -> int, cutoff: int, i: nat)
    requires i < |AtLeast(xs, key, cutoff)|
    ensures key(AtLeast(xs, key, cutoff)[i]) >= cutoff
  {
    if key(xs[0]) < cutoff {
      AtLeastFrom(xs[1..], key, cutoff, i);
    } else if i > 0 {
      AtLeastFrom(xs[1..], key, cutoff, i - 1);
    }
  }

  lemma RetainedFrom<E>(streams: Streams<E>, key: E -> int, cutoff: int)
    ensures AllFrom(Retained(streams, cutoff, key), key, cutoff)
  {
    var after := Retained(streams, cutoff, key);
    forall id, i | id in after && 0 <= i < |after[id].entries| ensures key(after[id].entries[i]) >= cutoff {
      AtLeastFrom(streams[id].entries, key, cutoff, i);
    }
  }

  lemma RetainedSpansFrom(traces: Traces, cutoff: int)
    ensures SpansFrom(T.RetainedTraces(traces, cutoff), cutoff)
  {
    var after: Traces := T.RetainedTraces(traces, cutoff);
    forall t: TraceId, i: nat | t in after && i < |after[t]| ensures after[t][i].startTimeNs >= cutoff {
      AtLeastFrom(traces[t], StartOf, cutoff, i);
    }
  }

  /** Entry `i` of a suffix is a later entry of the whole. */
  lemma SuffixAt<E>(whole: seq<E>, suffix: seq<E>, i: nat) returns (j: nat)
    requires |suffix| <= |whole| && suffix == whole[|whole| - |suffix|..] && i < |suffix|
    ensures j < |whole| && suffix[i] == whole[j]
  {
    j := |whole| - |suffix| + i;
  }

  lemma DrainedFrom(before: L.LogStreams, after: L.LogStreams, cutoff: int)
    requires L.SuffixesOf(before, after) && AllFrom(before, L.Ts, cutoff)
    ensures AllFrom(after, L.Ts, cutoff)
  {
    hide L.SuffixesOf, L.Ts;
    forall id, i | id in after && 0 <= i < |after[id].entries| ensures L.Ts(after[id].entries[i]) >= cutoff {
      OneSuffix(before, after, id);
      var j := SuffixAt(before[id].entries, after[id].entries, i);
      assert L.Ts(before[id].entries[j]) >= cutoff;
    }
  }

  lemma OneSuffix(before: L.LogStreams, after: L.LogStreams, id: nat)
    requires L.SuffixesOf(before, after) && id in after
    ensures id in before && |after[id].entries| <= |before[id].entries|
    ensures after[id].entries == before[id].entries[|before[id].entries| - |after[id].entries|..]
  {
  }

  lemma DrainedSuffixes(before: L.LogStreams, after: L.LogStreams)
    requires L.DrainedInOrder(before, after)
    ensures L.SuffixesOf(before, after)
  {
  }

  /** The log store's share: first by age, then by count. */
  method EvictLogs(store: L.LogStore, cutoff: int, maxEntries: nat)
    requires store.Valid()
    modifies store
    ensures store.Valid() && L.TraceExact(store.streams, store.traceIndex)
    ensures L.DrainedInOrder(Retained(old(store.streams), cutoff, L.Ts), store.streams)
    ensures AllFrom(store.streams, L.Ts, cutoff) && store.totalEntries <= maxEntries
  {
    hide L.LogStore.Valid, L.TraceExact, L.DrainedInOrder, Retained, AllFrom;
    ghost var kept := Retained(store.streams, cutoff, L.Ts);
    RetainedFrom(store.streams, L.Ts, cutoff);
    store.EvictBefore(cutoff);
    store.EvictToMax(maxEntries);
    DrainedSuffixes(kept, store.streams);
    DrainedFrom(kept, store.streams, cutoff);
  }

  method EvictMetrics(store: M.MetricStore, cutoffMs: int, maxSeries: nat)
    requires store.Valid()
    modifies store
    ensures store.Valid()
    ensures M.OldestDropped(Retained(old(store.series), cutoffMs, M.TsMs), store.series)
    ensures AllFrom(store.series, M.TsMs, cutoffMs) && |store.series| <= maxSeries
  {
    hide M.MetricStore.Valid, Retained;
    ghost var kept := Retained(store.series, cutoffMs, M.TsMs);
    RetainedFrom(store.series, M.TsMs, cutoffMs);
    store.EvictBefore(cutoffMs);
    store.EvictToMax(maxSeries);
    assert forall id :: id in store.series ==> id in kept && store.series[id] == kept[id];
  }

  method EvictTraces(store: T.TraceStore, cutoff: int, maxSpans: nat)
    requires store.Valid() && AllLinked(store.interner, store.traces)
    modifies store
    ensures store.Valid() && AllLinked(store.interner, store.traces)
    ensures T.OldestTracesDropped(T.RetainedTraces(old(store.traces), cutoff), store.traces, maxSpans)
    ensures SpansFrom(store.traces, cutoff) && store.totalSpans <= maxSpans
  {
    hide T.TraceStore.Valid, T.RetainedTraces, AllLinked, T.WellFiled, T.SpanTotal, T.MinimalWith;
    ghost var r, before := store.interner, store.traces;
    ghost var kept := T.RetainedTraces(store.traces, cutoff);
    RetainedSpansFrom(store.traces, cutoff);
    ValidFiled(store);
    store.EvictBefore(cutoff);
    ValidFiled(store);
    IngestTraces.RemovalKeepsLinks(r, before, kept, cutoff, 0, 0);
    store.EvictToMax(maxSpans);
    ValidFiled(store);
    IngestTraces.RemovalKeepsLinks(r, kept, store.traces, 0, maxSpans, 0);
    TotalIsCount(store);
    assert forall t :: t in store.traces ==> t in kept && store.traces[t] == kept[t];
  }

  lemma TotalIsCount(store: T.TraceStore)
    requires store.Valid()
    ensures store.totalSpans == T.SpanTotal(store.traces)
  {
  }

  /** The cutoff `retention` before now, held within 64 bits. */
  ghost predicate CutoffIs(cutoff: int, now: I64, retention: I64) {
    && (I64_MIN <= now - retention <= I64_MAX ==> cutoff == now - retention)
    && (now - retention < I64_MIN ==> cutoff == I64_MIN)
    && (now - retention > I64_MAX ==> cutoff == I64_MAX)
  }

  /** The cutoff in milliseconds, its fraction cut off. */
  ghost predicate MillisOf(ms: int, cutoff: int) {
    if cutoff >= 0 then ms * 1_000_000 <= cutoff < (ms + 1) * 1_000_000 else (ms - 1) * 1_000_000 < cutoff <= ms * 1_000_000
  }

  /** What one pass does to the three stores: age first, then count. */
  ghost predicate Evicted(before: StoreState, after: StoreState, cutoff: int, cutoffMs: int, maxSpans: nat) {
    && L.DrainedInOrder(Retained(before.logs, cutoff, L.Ts), after.logs)
    && M.OldestDropped(Retained(before.series, cutoffMs, M.TsMs), after.series)
    && T.OldestTracesDropped(T.RetainedTraces(before.traces, cutoff), after.traces, maxSpans)
  }

  datatype StoreState = StoreState(logs: L.LogStreams, series: M.Series, traces: Traces)

  ghost function StateOf(logs: L.LogStore, metrics: M.MetricStore, traces: T.TraceStore): StoreState
    reads logs, metrics, traces
  {
    StoreState(logs.streams, metrics.series, traces.traces)
  }

  lemma CutoffsAre(now: I64, retention: I64)
    ensures var cutoff := SaturatingSub(now, retention);
            CutoffIs(cutoff, now, retention) && MillisOf(TruncatingDiv(cutoff, 1_000_000), cutoff)
  {
  }

  /** One eviction pass: afterwards every store respects its age limit and its size limit at once. */
  method RunEviction(logs: L.LogStore, metrics: M.MetricStore, traces: T.TraceStore,
                     now: I64, retention: I64, maxEntries: nat, maxSeries: nat, maxSpans: nat)
    requires logs.Valid() && metrics.Valid() && traces.Valid() && AllLinked(traces.interner, traces.traces)
    modifies logs, metrics, traces
    ensures logs.Valid() && metrics.Valid() && traces.Valid() && AllLinked(traces.interner, traces.traces)
    ensures logs.totalEntries <= maxEntries && |metrics.series| <= maxSeries && traces.totalSpans <= maxSpans
    ensures exists cutoff, cutoffMs ::
      && CutoffIs(cutoff, now, retention) && MillisOf(cutoffMs, cutoff)
      && AllFrom(logs.streams, L.Ts, cutoff) && AllFrom(metrics.series, M.TsMs, cutoffMs) && SpansFrom(traces.traces, cutoff)
      && Evicted(old(StateOf(logs, metrics, traces)), StateOf(logs, metrics, traces), cutoff, cutoffMs, maxSpans)
    ensures I64_MIN <= now - retention <= I64_MAX ==>
      && (forall id, i :: id in logs.streams && 0 <= i < |logs.streams[id].entries| ==> logs.streams[id].entries[i].timestampNs + retention >= now)
      && (forall t, i :: t in traces.traces && 0 <= i < |traces.traces[t]| ==> traces.traces[t][i].startTimeNs + retention >= now)
      && (forall id, i :: id in metrics.series && 0 <= i < |metrics.series[id].entries| ==>
            (metrics.series[id].entries[i].timestampMs + 1) * 1_000_000 + retention > now)
  {
    hide L.LogStore.Valid, M.MetricStore.Valid, T.TraceStore.Valid, AllLinked, T.WellFiled, AllFrom, SpansFrom, Retained, T.RetainedTraces;
    hide L.DrainedInOrder, M.OldestDropped, T.OldestTracesDropped, L.TraceExact;
    var cutoff := SaturatingSub(now, retention);
    EvictLogs(logs, cutoff, maxEntries);
    EvictMetrics(metrics, TruncatingDiv(cutoff, 1_000_000), maxSeries);
    EvictTraces(traces, cutoff, maxSpans);
    CutoffsAre(now, retention);
    YoungerThan(logs.streams, traces.traces, cutoff);
    YoungerSamples(metrics.series, cutoff, TruncatingDiv(cutoff, 1_000_000));
  }

  /** Samples carry milliseconds, so one may be up to a millisecond older. */
  lemma YoungerSamples(series: M.Series, cutoff: int, cutoffMs: int)
    requires AllFrom(series, M.TsMs, cutoffMs) && MillisOf(cutoffMs, cutoff)
    ensures forall id, i :: id in series && 0 <= i < |series[id].entries| ==> (series[id].entries[i].timestampMs + 1) * 1_000_000 > cutoff
  {
    forall id, i | id in series && 0 <= i < |series[id].entries| ensures (series[id].entries[i].timestampMs + 1) * 1_000_000 > cutoff {
      assert M.TsMs(series[id].entries[i]) >= cutoffMs;
    }
  }

  lemma YoungerThan(streams: L.LogStreams, traces: Traces, cutoff: int)
    requires AllFrom(streams, L.Ts, cutoff) && SpansFrom(traces, cutoff)
    ensures forall id, i :: id in streams && 0 <= i < |streams[id].entries| ==> streams[id].entries[i].timestampNs >= cutoff
    ensures forall t, i :: t in traces && 0 <= i < |traces[t]| ==> traces[t][i].startTimeNs >= cutoff
  {
    forall id, i | id in streams && 0 <= i < |streams[id].entries| ensures streams[id].entries[i].timestampNs >= cutoff {
      assert L.Ts(streams[id].entries[i]) >= cutoff;
    }
  }
}
