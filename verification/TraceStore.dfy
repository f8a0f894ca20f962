/** Trace storage: spans by trace id, with service, name, status and attribute indexes. */
module TraceStore {
  import opened Enumeration
  import opened Interning
  import opened MapSums
  import opened Positions
  import opened StableSorting
  import opened StreamMaps
  import opened TraceIds
  import opened TraceIndexing

  // ------------------------------------------------------------ specification

  function TraceKey(s: Span): int { s.traceId }

  ghost function SpanCounts(traces: Traces): map<TraceId, nat> {
    map t | t in traces :: |traces[t]|
  }

  ghost function SpanTotal(traces: Traces): nat {
    Sum(SpanCounts(traces))
  }

  lemma SpanTotalPut(traces: Traces, t: TraceId, spans: seq<Span>)
    ensures SpanTotal(traces[t := spans]) == SpanTotal(traces) - |SpansOf(traces, t)| + |spans|
  {
    SumUpdate(SpanCounts(traces), t, |spans|);
    assert SpanCounts(traces[t := spans]) == SpanCounts(traces)[t := |spans|];
  }

  lemma SpanTotalDrop(traces: Traces, t: TraceId)
    requires t in traces
    ensures SpanTotal(traces) == SpanTotal(traces - {t}) + |traces[t]|
  {
    SumRemove(SpanCounts(traces), t);
    assert SpanCounts(traces - {t}) == SpanCounts(traces) - {t};
  }

  lemma SpanTotalReplace(traces: Traces, t: TraceId, spans: seq<Span>)
    requires t in traces
    ensures SpanTotal(Replace(traces, t, spans)) == SpanTotal(traces) - |traces[t]| + |spans|
  {
    SpanTotalPut(traces, t, spans);
    SpanTotalDrop(traces, t);
  }

  lemma SpanTotalEmpty(traces: Traces)
    requires traces == map[]
    ensures SpanTotal(traces) == 0
  {
    SumEmpty(SpanCounts(traces));
  }

  predicate AttributesKnown(r: Interner, attributes: seq<Attribute>) {
    forall i :: 0 <= i < |attributes| ==>
      r.Knows(attributes[i].0) && (attributes[i].1.StringValue? ==> r.Knows(attributes[i].1.s))
  }

  /** Every spur a query may resolve has a string. */
  predicate SpanKnown(r: Interner, s: Span) {
    && r.Knows(s.name) && r.Knows(s.serviceName)
    && AttributesKnown(r, s.attributes)
    && forall i :: 0 <= i < |s.events| ==> r.Knows(s.events[i].name) && AttributesKnown(r, s.events[i].attributes)
  }

  /** Spans are filed under their own trace id, no trace is empty, every spur has a string. */
  ghost predicate WellFiled(r: Interner, traces: Traces) {
    forall t :: t in traces ==>
      traces[t] != [] && forall i :: 0 <= i < |traces[t]| ==> traces[t][i].traceId == t && SpanKnown(r, traces[t][i])
  }

  function PushAll(traces: Traces, spans: seq<Span>): Traces {
    if spans == [] then traces else Push(PushAll(traces, spans[..|spans| - 1]), spans[|spans| - 1])
  }

  /** Each trace gains its own spans of the batch, in order; other traces gain nothing. */
  lemma {:induction false} PushAllSpans(traces: Traces, spans: seq<Span>, t: TraceId)
    ensures SpansOf(PushAll(traces, spans), t) == SpansOf(traces, t) + KeyFilter(spans, TraceKey, t)
    ensures t in PushAll(traces, spans) <==> t in traces || KeyFilter(spans, TraceKey, t) != []
  {
    if spans == [] {
      assert SpansOf(traces, t) + [] == SpansOf(traces, t);
    } else {
      var front, last := spans[..|spans| - 1], spans[|spans| - 1];
      PushAllSpans(traces, front, t);
      assert spans == front + [last];
      KeyFilterAppend(front, [last], TraceKey, t);
      assert KeyFilter([last], TraceKey, t) == if last.traceId == t then [last] else [];
      assert SpansOf(traces, t) + (KeyFilter(front, TraceKey, t) + KeyFilter([last], TraceKey, t))
          == SpansOf(traces, t) + KeyFilter(front, TraceKey, t) + KeyFilter([last], TraceKey, t);
    }
  }

  /** What is left of every trace at or after the cutoff; emptied traces are gone. */
  function RetainedTraces(traces: Traces, cutoff: int): Traces {
    map t | t in traces && AtLeast(traces[t], StartOf, cutoff) != [] :: AtLeast(traces[t], StartOf, cutoff)
  }

  /** The spans of other services, in order. */
  function OtherServices(spans: seq<Span>, service: Spur): seq<Span> {
    if spans == [] then []
    else (if spans[0].serviceName != service then [spans[0]] else []) + OtherServices(spans[1..], service)
  }

  function WithoutService(traces: Traces, service: Spur): Traces {
    map t | t in traces && OtherServices(traces[t], service) != [] :: OtherServices(traces[t], service)
  }

  /** Earliest span start of a trace. */
  function EarliestOf(spans: seq<Span>): (e: int)
    ensures forall i :: 0 <= i < |spans| ==> e <= spans[i].startTimeNs
    ensures spans != [] ==> exists i :: 0 <= i < |spans| && e == spans[i].startTimeNs
    ensures spans == [] ==> e == I64_MAX
  {
    if spans == [] then I64_MAX
    else if |spans| == 1 then spans[0].startTimeNs
    else
      var rest := EarliestOf(spans[1..]);
      if spans[0].startTimeNs <= rest then spans[0].startTimeNs else rest
  }

  function Earliest(traces: Traces): TraceId -> int {
    (t: TraceId) => EarliestOf(SpansOf(traces, t))
  }

  /**
    Whole traces were dropped, in order of their earliest span, and no more of
    them than it takes to get down to `max` spans.
   */
  ghost predicate OldestTracesDropped(before: Traces, after: Traces, max: nat) {
    && (forall t :: t in after ==> t in before && after[t] == before[t])
    && (forall t, u :: t in before && t !in after && u in after ==> EarliestOf(before[t]) <= EarliestOf(before[u]))
    && SpanTotal(after) <= max
    && (after != before ==> exists last :: MinimalWith(before, after, max, last))
  }

  /** The last trace dropped could not have been kept. */
  ghost predicate MinimalWith(before: Traces, after: Traces, max: nat, last: TraceId) {
    && last in before && last !in after
    && SpanTotal(after) + |before[last]| > max
    && forall t :: t in before && t !in after ==> EarliestOf(before[t]) <= EarliestOf(before[last])
  }

  // -------------------------------------------------------------------- store

  class TraceStore {
    var traces: Traces
    var serviceIndex: KeyIndex<Spur>
    var nameIndex: KeyIndex<Spur>
    var statusIndex: KeyIndex<SpanStatus>
    var attrIndex: AttrIndex
    var interner: Interner
    var totalSpans: nat

    ghost predicate Valid()
      reads this
    {
      && Indexed(traces)
      && AttrExact(attrIndex, traces)
      && totalSpans == SpanTotal(traces)
      && interner.Valid() && WellFiled(interner, traces)
    }

    /** The service, name and status indexes are exact for `ts`. */
    ghost predicate Indexed(ts: Traces)
      reads this
    {
      && Exact(serviceIndex, ts, ServiceOf)
      && Exact(nameIndex, ts, NameOf)
      && Exact(statusIndex, ts, StatusOf)
    }

    constructor New()
      ensures Valid() && traces == map[] && interner == EmptyInterner
    {
      traces := map[];
      serviceIndex := map[];
      nameIndex := map[];
      statusIndex := map[];
      attrIndex := map[];
      interner := EmptyInterner;
      totalSpans := 0;
      SpanTotalEmpty(map[]);
    }

    method IngestSpans(spans: seq<Span>)
      requires Valid() && forall i :: 0 <= i < |spans| ==> SpanKnown(interner, spans[i])
      modifies this
      ensures Valid() && interner == old(interner)
      ensures traces == PushAll(old(traces), spans)
      ensures totalSpans == old(totalSpans) + |spans|
    {
      for n := 0 to |spans|
        invariant Valid() && interner == old(interner)
        invariant traces == PushAll(old(traces), spans[..n])
        invariant totalSpans == old(totalSpans) + n
      {
        assert spans[..n + 1][..n] == spans[..n] && spans[..n + 1][n] == spans[n];
        IngestSpan(spans[n]);
      }
      assert spans[..|spans|] == spans;
    }

    method IngestSpan(span: Span)
      requires Valid() && SpanKnown(interner, span)
      modifies this
      ensures Valid() && interner == old(interner)
      ensures traces == Push(old(traces), span)
      ensures totalSpans == old(totalSpans) + 1
    {
      hide Exact, AttrExact, NoEmptyAttrs, SpanTotal, WellFiled, SpanKnown, AttrIn, AddTo;
      var t := span.traceId;
      PushExact(serviceIndex, traces, ServiceOf, span);
      PushExact(nameIndex, traces, NameOf, span);
      PushExact(statusIndex, traces, StatusOf, span);
      PushWellFiled(interner, traces, span);
      SpanTotalPut(traces, t, SpansOf(traces, t) + [span]);
      serviceIndex := AddTo(serviceIndex, span.serviceName, t);
      nameIndex := AddTo(nameIndex, span.name, t);
      statusIndex := AddTo(statusIndex, span.status, t);
      attrIndex := AttrsWith(attrIndex, traces, span);
      traces := traces[t := SpansOf(traces, t) + [span]];
      totalSpans := totalSpans + 1;
    }

    method EvictToMax(maxSpans: nat)
      requires Valid()
      modifies this
      ensures Valid() && interner == old(interner)
      ensures OldestTracesDropped(old(traces), traces, maxSpans)
    {
      hide Exact, Mirrors, NoEmptySets, AttrExact, SpanTotal, WellFiled, OldestTracesDropped, SortedBy, Earliest, In, Dropped;
      if totalSpans <= maxSpans {
        NothingDropped(traces, maxSpans);
        return;
      }
      ghost var was := traces;
      var ids := OrderedBy(traces.Keys, Earliest(traces));
      ExactMirrors(serviceIndex, traces, ServiceOf);
      ExactMirrors(nameIndex, traces, NameOf);
      ExactMirrors(statusIndex, traces, StatusOf);
      DroppedNone(was, ids);
      var n := 0;
      while n < |ids| && totalSpans > maxSpans
        invariant 0 <= n <= |ids| && traces == Dropped(was, ids, n)
        invariant Mirrors(serviceIndex, traces, ServiceOf)
        invariant Mirrors(nameIndex, traces, NameOf)
        invariant Mirrors(statusIndex, traces, StatusOf)
        invariant totalSpans == SpanTotal(traces) && interner == old(interner)
        invariant n > 0 ==> totalSpans + |SpansOf(was, ids[n - 1])| > maxSpans
      {
        DroppedNext(was, ids, n);
        DropTrace(ids[n]);
        n := n + 1;
      }
      if n == |ids| { DroppedAll(was, ids); }
      PrefixDropped(was, ids, n, maxSpans);
      DroppedWellFiled(interner, was, ids, n);
      serviceIndex := CleanIndex(serviceIndex, traces, ServiceOf);
      nameIndex := CleanIndex(nameIndex, traces, NameOf);
      statusIndex := CleanIndex(statusIndex, traces, StatusOf);
      RebuildAttrIndex();
    }

    /** Removes one whole trace; emptied index sets are left for later. */
    method DropTrace(t: TraceId)
      requires t in traces && totalSpans == SpanTotal(traces)
      requires Mirrors(serviceIndex, traces, ServiceOf)
      requires Mirrors(nameIndex, traces, NameOf)
      requires Mirrors(statusIndex, traces, StatusOf)
      modifies this`traces, this`totalSpans, this`serviceIndex, this`nameIndex, this`statusIndex
      ensures traces == old(traces) - {t} && totalSpans == SpanTotal(traces)
      ensures totalSpans == old(totalSpans) - |old(traces)[t]|
      ensures Mirrors(serviceIndex, traces, ServiceOf)
      ensures Mirrors(nameIndex, traces, NameOf)
      ensures Mirrors(statusIndex, traces, StatusOf)
    {
      hide Mirrors, SpanTotal;
      SpanTotalDrop(traces, t);
      serviceIndex := WithdrawTrace(serviceIndex, traces, ServiceOf, t);
      nameIndex := WithdrawTrace(nameIndex, traces, NameOf, t);
      statusIndex := WithdrawTrace(statusIndex, traces, StatusOf, t);
      totalSpans := totalSpans - |traces[t]|;
      traces := traces - {t};
    }

    method EvictBefore(cutoff: int)
      requires Valid()
      modifies this
      ensures Valid() && interner == old(interner)
      ensures traces == RetainedTraces(old(traces), cutoff)
    {
      hide Exact, AttrExact, SpanTotal, WellFiled, AtLeast;
      var todo := traces.Keys;
      ghost var was := traces;
      while todo != {}
        invariant todo <= was.Keys
        invariant Indexed(traces) && totalSpans == SpanTotal(traces)
        invariant interner == old(interner) && WellFiled(interner, traces)
        invariant forall t :: t in todo ==> t in traces && traces[t] == was[t]
        invariant forall t :: t in traces && t !in todo ==> t in RetainedTraces(was, cutoff) && traces[t] == RetainedTraces(was, cutoff)[t]
        invariant forall t :: t in RetainedTraces(was, cutoff) && t !in todo ==> t in traces
        decreases todo
      {
        var t :| t in todo;
        AtLeastElements(traces[t], StartOf, cutoff);
        if exists i :: 0 <= i < |traces[t]| && traces[t][i].startTimeNs < cutoff {
          Shrink(t, AtLeast(traces[t], StartOf, cutoff));
        } else {
          NothingOld(traces[t], cutoff);
          NoEmptyTrace(interner, traces);
        }
        todo := todo - {t};
      }
      assert traces == RetainedTraces(was, cutoff);
      RebuildAttrIndex();
    }

    /** Leaves only some of the spans of one trace and reconciles the indexes. */
    method Shrink(t: TraceId, left: seq<Span>)
      requires Indexed(traces) && totalSpans == SpanTotal(traces) && WellFiled(interner, traces)
      requires t in traces && (forall s :: s in left ==> s in traces[t])
      modifies this`traces, this`totalSpans, this`serviceIndex, this`nameIndex, this`statusIndex
      ensures Indexed(traces) && totalSpans == SpanTotal(traces) && WellFiled(interner, traces)
      ensures traces == Replace(old(traces), t, left)
    {
      hide Exact, SpanTotal, WellFiled;
      ghost var was := traces;
      var before := traces[t];
      SpanTotalReplace(traces, t, left);
      ReplaceWellFiled(interner, traces, t, left);
      totalSpans := totalSpans + |left| - |before|;
      traces := if left == [] then traces - {t} else traces[t := left];
      ReconcileTraceIndexes(was, t, before);
    }

    /** Prunes the index entries a shrunken trace no longer supports. */
    method ReconcileTraceIndexes(ghost was: Traces, t: TraceId, before: seq<Span>)
      requires t in was && before == was[t] && Indexed(was)
      requires traces == Replace(was, t, SpansOf(traces, t))
      requires forall s :: s in SpansOf(traces, t) ==> s in before
      modifies this`serviceIndex, this`nameIndex, this`statusIndex
      ensures Indexed(traces)
    {
      hide Exact, Replace, SpansOf;
      var left := SpansOf(traces, t);
      nameIndex := Reconciled(nameIndex, was, NameOf, t, before, left);
      statusIndex := Reconciled(statusIndex, was, StatusOf, t, before, left);
      serviceIndex := Reconciled(serviceIndex, was, ServiceOf, t, before, left);
    }

    method ClearService(service: string)
      requires Valid()
      modifies this
      ensures Valid() && interner == old(interner)
      ensures traces == if interner.Get(service).Some? then WithoutService(old(traces), interner.Get(service).value) else old(traces)
    {
      hide Exact, AttrExact, SpanTotal, WellFiled, OtherServices;
      var known := interner.Get(service);
      if known.None? { return; }
      var spur := known.value;
      ghost var was := traces;
      ServiceTraces(serviceIndex, traces, spur);
      NoEmptyTrace(interner, traces);
      if spur !in serviceIndex {
        assert forall t :: !In(serviceIndex, spur, t);
        return;
      }
      var todo := serviceIndex[spur];
      assert forall t :: t in todo <==> In(serviceIndex, spur, t);
      while todo != {}
        invariant forall t :: t in todo ==> t in traces && traces[t] == was[t] && t in was
        invariant Indexed(traces) && totalSpans == SpanTotal(traces)
        invariant interner == old(interner) && WellFiled(interner, traces)
        invariant forall t :: t in traces && t !in todo ==> t in WithoutService(was, spur) && traces[t] == WithoutService(was, spur)[t]
        invariant forall t :: t in WithoutService(was, spur) && t !in todo ==> t in traces
        decreases todo
      {
        var t :| t in todo;
        OtherServicesElements(traces[t], spur);
        Shrink(t, OtherServices(traces[t], spur));
        todo := todo - {t};
      }
      assert traces == WithoutService(was, spur);
      RebuildAttrIndex();
    }

    method Clear()
      modifies this
      ensures Valid() && traces == map[] && interner == EmptyInterner && totalSpans == 0
    {
      traces := map[];
      serviceIndex := map[];
      nameIndex := map[];
      statusIndex := map[];
      attrIndex := map[];
      interner := EmptyInterner;
      totalSpans := 0;
      SpanTotalEmpty(map[]);
    }

    method RebuildAttrIndex()
      requires WellFiled(interner, traces)
      modifies this`attrIndex
      ensures AttrExact(attrIndex, traces)
    {
      attrIndex := AttrsOf(interner, traces);
    }
  }

  // ------------------------------------------------------------------ helpers

  lemma PushWellFiled(r: Interner, traces: Traces, span: Span)
    requires WellFiled(r, traces) && SpanKnown(r, span)
    ensures WellFiled(r, Push(traces, span))
  {
  }

  lemma ReplaceWellFiled(r: Interner, traces: Traces, t: TraceId, left: seq<Span>)
    requires WellFiled(r, traces) && t in traces && forall s :: s in left ==> s in traces[t]
    ensures WellFiled(r, Replace(traces, t, left))
  {
    forall i | 0 <= i < |left| ensures left[i].traceId == t && SpanKnown(r, left[i]) {
      assert left[i] in traces[t];
    }
  }

  lemma NoEmptyTrace(r: Interner, traces: Traces)
    requires WellFiled(r, traces)
    ensures forall t :: t in traces ==> traces[t] != []
  {
  }

  /** The attribute index with one more span of a trace entered. */
  method AttrsWith(index: AttrIndex, ghost traces: Traces, span: Span) returns (index': AttrIndex)
    requires AttrExact(index, traces)
    ensures AttrExact(index', Push(traces, span))
  {
    hide AttrIn, SpanHasAttr;
    index' := IndexAttributes(index, span);
    PushAttrExact(index, index', traces, span);
  }

  lemma ExactMirrors<K(!new)>(index: KeyIndex<K>, traces: Traces, keyOf: Span -> K)
    requires Exact(index, traces, keyOf)
    ensures Mirrors(index, traces, keyOf)
  {
  }

  method CleanIndex<K(!new)>(index: KeyIndex<K>, ghost traces: Traces, ghost keyOf: Span -> K) returns (index': KeyIndex<K>)
    requires Mirrors(index, traces, keyOf)
    ensures Exact(index', traces, keyOf)
  {
    index' := DropEmptySets(index);
  }

  method WithdrawTrace<K(==, !new)>(index: KeyIndex<K>, traces: Traces, keyOf: Span -> K, t: TraceId) returns (index': KeyIndex<K>)
    requires Mirrors(index, traces, keyOf) && t in traces
    ensures Mirrors(index', traces - {t}, keyOf)
  {
    hide Mirrors, KeysOf, In;
    index' := Withdraw(index, t, KeysOf(traces[t], keyOf));
    WithdrawnMirrors(index, index', traces, keyOf, t);
  }

  method Reconciled<K(==, !new)>(index: KeyIndex<K>, ghost was: Traces, keyOf: Span -> K, t: TraceId, before: seq<Span>, left: seq<Span>)
    returns (index': KeyIndex<K>)
    requires Exact(index, was, keyOf) && t in was && before == was[t]
    requires forall s :: s in left ==> s in before
    ensures Exact(index', Replace(was, t, left), keyOf)
  {
    var surviving := set i | 0 <= i < |left| :: keyOf(left[i]);
    index' := ReconcileIndex(index, t, KeysOf(before, keyOf), surviving);
    forall k ensures k in surviving <==> SomeSpan(left, keyOf, k) {}
    ReconciledExact(index, index', was, keyOf, t, left);
  }

  lemma NothingOld(spans: seq<Span>, cutoff: int)
    requires forall i :: 0 <= i < |spans| ==> spans[i].startTimeNs >= cutoff
    ensures AtLeast(spans, StartOf, cutoff) == spans
  {
    if spans != [] {
      NothingOld(spans[1..], cutoff);
      assert spans == [spans[0]] + spans[1..];
    }
  }

  // ------------------------------------------------------------ size eviction

  function Dropped(traces: Traces, ids: seq<TraceId>, n: nat): Traces
    requires n <= |ids|
  {
    map t | t in traces && t !in ids[..n] :: traces[t]
  }

  lemma DroppedNext(traces: Traces, ids: seq<TraceId>, n: nat)
    requires n < |ids| && Distinct(ids) && forall t :: t in ids <==> t in traces
    ensures ids[n] in Dropped(traces, ids, n) && Dropped(traces, ids, n)[ids[n]] == traces[ids[n]]
    ensures Dropped(traces, ids, n + 1) == Dropped(traces, ids, n) - {ids[n]}
  {
    assert ids[n] in ids;
    assert ids[..n + 1] == ids[..n] + [ids[n]];
    assert ids[n] !in ids[..n];
  }

  lemma DroppedNone(traces: Traces, ids: seq<TraceId>)
    ensures Dropped(traces, ids, 0) == traces
  {
  }

  lemma DroppedAll(traces: Traces, ids: seq<TraceId>)
    requires forall t :: t in ids <==> t in traces
    ensures SpanTotal(Dropped(traces, ids, |ids|)) == 0
  {
    assert ids[..|ids|] == ids;
    SpanTotalEmpty(Dropped(traces, ids, |ids|));
  }

  lemma DroppedWellFiled(r: Interner, traces: Traces, ids: seq<TraceId>, n: nat)
    requires WellFiled(r, traces) && n <= |ids|
    ensures WellFiled(r, Dropped(traces, ids, n))
  {
  }

  lemma NothingDropped(traces: Traces, max: nat)
    requires SpanTotal(traces) <= max
    ensures OldestTracesDropped(traces, traces, max)
  {
  }

  lemma InPrefix(ids: seq<TraceId>, n: nat, t: TraceId) returns (m: nat)
    requires n <= |ids| && t in ids
    ensures m < |ids| && ids[m] == t
    ensures Distinct(ids) ==> (m < n <==> t in ids[..n])
  {
    m :| 0 <= m < |ids| && ids[m] == t;
    if m < n { assert ids[..n][m] == t; }
    if Distinct(ids) && t in ids[..n] {
      var k :| 0 <= k < n && ids[..n][k] == t;
      assert k == m;
    }
  }

  /** Dropped traces start no later than kept ones, and none later than the last one dropped. */
  lemma PrefixInOrder(traces: Traces, ids: seq<TraceId>, n: nat, t: TraceId)
    requires n <= |ids| && Distinct(ids) && SortedBy(ids, Earliest(traces))
    requires forall t :: t in ids <==> t in traces
    requires t in traces && t !in Dropped(traces, ids, n)
    ensures forall u :: u in Dropped(traces, ids, n) ==> EarliestOf(traces[t]) <= EarliestOf(traces[u])
    ensures n > 0 && ids[n - 1] in traces && EarliestOf(traces[t]) <= EarliestOf(traces[ids[n - 1]])
  {
    var a := InPrefix(ids, n, t);
    assert ids[n - 1] in ids;
    assert a == n - 1 || Earliest(traces)(ids[a]) <= Earliest(traces)(ids[n - 1]);
    forall u | u in Dropped(traces, ids, n) ensures EarliestOf(traces[t]) <= EarliestOf(traces[u]) {
      var b := InPrefix(ids, n, u);
      assert Earliest(traces)(ids[a]) <= Earliest(traces)(ids[b]);
    }
  }

  lemma PrefixDropped(traces: Traces, ids: seq<TraceId>, n: nat, max: nat)
    requires n <= |ids| && Distinct(ids) && SortedBy(ids, Earliest(traces))
    requires forall t :: t in ids <==> t in traces
    requires SpanTotal(Dropped(traces, ids, n)) <= max
    requires n > 0 ==> SpanTotal(Dropped(traces, ids, n)) + |SpansOf(traces, ids[n - 1])| > max
    ensures OldestTracesDropped(traces, Dropped(traces, ids, n), max)
  {
    hide SpanTotal, SortedBy, Earliest;
    var after := Dropped(traces, ids, n);
    forall t | t in traces && t !in after
      ensures forall u :: u in after ==> EarliestOf(traces[t]) <= EarliestOf(traces[u])
      ensures n > 0 && ids[n - 1] in traces && EarliestOf(traces[t]) <= EarliestOf(traces[ids[n - 1]])
    {
      PrefixInOrder(traces, ids, n, t);
    }
    if n == 0 {
      DroppedNone(traces, ids);
    } else {
      assert ids[n - 1] in ids && ids[..n][n - 1] == ids[n - 1];
      assert MinimalWith(traces, after, max, ids[n - 1]);
    }
  }

  // ----------------------------------------------------------- service removal

  /** What clearing a service leaves of a trace: the spans of other services, in order. */
  lemma {:induction false} OtherServicesIs(spans: seq<Span>, service: Spur)
    ensures Selects(spans, (s: Span) => s.serviceName != service, OtherServices(spans, service))
  {
    hide Selects;
    var test := (s: Span) => s.serviceName != service;
    if spans == [] {
      SelectsNothing(test);
    } else {
      OtherServicesIs(spans[1..], service);
      SelectsCons(spans[0], spans[1..], test, OtherServices(spans[1..], service));
      assert spans == [spans[0]] + spans[1..];
    }
  }

  /** What each removal leaves of a trace; a trace goes when nothing is left. */
  lemma RemovedSpans(traces: Traces, cutoff: int, service: Spur, t: TraceId)
    requires t in traces
    ensures Selects(traces[t], (s: Span) => s.startTimeNs >= cutoff, SpansOf(RetainedTraces(traces, cutoff), t))
    ensures Selects(traces[t], (s: Span) => s.serviceName != service, SpansOf(WithoutService(traces, service), t))
  {
    hide Selects;
    AtLeastIs(traces[t], StartOf, cutoff, (s: Span) => s.startTimeNs >= cutoff);
    OtherServicesIs(traces[t], service);
  }

  lemma {:induction false} OtherServicesElements(spans: seq<Span>, service: Spur)
    ensures forall s :: s in OtherServices(spans, service) <==> s in spans && s.serviceName != service
    ensures (forall s :: s in spans ==> s.serviceName != service) ==> OtherServices(spans, service) == spans
  {
    if spans != [] {
      OtherServicesElements(spans[1..], service);
      assert spans == [spans[0]] + spans[1..];
    }
  }

  /** The service index names exactly the traces that clearing the service will touch. */
  lemma ServiceTraces(index: KeyIndex<Spur>, traces: Traces, service: Spur)
    requires Exact(index, traces, ServiceOf)
    ensures forall t :: In(index, service, t) ==> t in traces
    ensures forall t :: t in traces && !In(index, service, t) ==> OtherServices(traces[t], service) == traces[t]
  {
    forall t | In(index, service, t) ensures t in traces {
      assert HasKey(traces, ServiceOf, service, t);
    }
    forall t | t in traces && !In(index, service, t) ensures OtherServices(traces[t], service) == traces[t] {
      assert !HasKey(traces, ServiceOf, service, t);
      OtherServicesElements(traces[t], service);
    }
  }

  // ------------------------------------------------------- attribute rebuilding

  /** The attribute index of all surviving spans, built from nothing. */
  method AttrsOf(ghost r: Interner, traces: Traces) returns (index: AttrIndex)
    requires WellFiled(r, traces)
    ensures AttrExact(index, traces)
  {
    index := map[];
    var todo := traces.Keys;
    while todo != {}
      invariant todo <= traces.Keys
      invariant NoEmptyAttrs(index)
      invariant forall k: Spur, v: Spur, t: TraceId :: AttrIn(index, k, v, t) <==> t !in todo && HasAttr(traces, k, v, t)
      decreases todo
    {
      var t :| t in todo;
      ghost var was := index;
      index := IndexTrace(index, t, traces[t]);
      todo := todo - {t};
      forall k: Spur, v: Spur, u: TraceId ensures AttrIn(index, k, v, u) <==> u !in todo && HasAttr(traces, k, v, u) {
        assert AttrIn(index, k, v, u) <==> AttrIn(was, k, v, u) || (u == t && SomeHasAttr(traces[t], k, v));
      }
    }
  }

  ghost predicate SomeHasAttr(spans: seq<Span>, k: Spur, v: Spur) {
    exists i :: 0 <= i < |spans| && SpanHasAttr(spans[i], k, v)
  }

  method IndexTrace(index: AttrIndex, t: TraceId, spans: seq<Span>) returns (index': AttrIndex)
    requires NoEmptyAttrs(index) && forall i :: 0 <= i < |spans| ==> spans[i].traceId == t
    ensures NoEmptyAttrs(index')
    ensures forall k: Spur, v: Spur, u: TraceId ::
      AttrIn(index', k, v, u) <==> AttrIn(index, k, v, u) || (u == t && SomeHasAttr(spans, k, v))
  {
    hide AttrIn, SpanHasAttr, NoEmptyAttrs;
    index' := index;
    for n := 0 to |spans|
      invariant NoEmptyAttrs(index')
      invariant forall k: Spur, v: Spur, u: TraceId ::
        AttrIn(index', k, v, u) <==> AttrIn(index, k, v, u) || (u == t && SomeHasAttr(spans[..n], k, v))
    {
      forall k: Spur, v: Spur { SomeHasAttrSnoc(spans, n, k, v); }
      index' := IndexAttributes(index', spans[n]);
    }
    assert spans[..|spans|] == spans;
  }

  lemma SomeHasAttrSnoc(spans: seq<Span>, n: nat, k: Spur, v: Spur)
    requires n < |spans|
    ensures SomeHasAttr(spans[..n + 1], k, v) <==> SomeHasAttr(spans[..n], k, v) || SpanHasAttr(spans[n], k, v)
  {
    hide SpanHasAttr;
    var upTo := spans[..n + 1];
    assert upTo[n] == spans[n];
    if SomeHasAttr(spans[..n], k, v) {
      var i :| 0 <= i < n && SpanHasAttr(spans[..n][i], k, v);
      assert SpanHasAttr(upTo[i], k, v);
    }
    if SomeHasAttr(upTo, k, v) && !SpanHasAttr(spans[n], k, v) {
      var i :| 0 <= i < |upTo| && SpanHasAttr(upTo[i], k, v);
      assert SpanHasAttr(spans[..n][i], k, v);
    }
  }
}
