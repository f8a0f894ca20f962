/**
  TraceQL span selectors: the candidate traces are narrowed through the indexes
  first, then every span of a candidate is checked.  The result is the same as
  checking every span of every trace.
 */
module TraceNarrowing {
  import opened Options
  import opened Enumeration
  import opened Interning
  import opened PostingLists
  import opened SpanConditions
  import opened StreamMaps
  import opened TraceIds
  import opened TraceIndexing
  import opened TraceStore

  datatype MatchedSpan = MatchedSpan(
    spanId: SpanId, name: string, serviceName: string, startTimeNs: I64, durationNs: I64, status: SpanStatus)

  datatype TraceResult = TraceResult(traceId: TraceId, matched: seq<MatchedSpan>)

  function ToMatched(r: Interner, s: Span): MatchedSpan
    requires SpanKnown(r, s)
  {
    MatchedSpan(s.spanId, r.Resolve(s.name), r.Resolve(s.serviceName), s.startTimeNs, s.durationNs, s.status)
  }

  // -------------------------------------------------------------- the full scan

  ghost predicate AllReadable(r: Interner, spans: seq<Span>) {
    forall i :: 0 <= i < |spans| ==> SpanKnown(r, spans[i])
  }

  /** The selected spans of one trace, in span order. */
  ghost function MatchedIn(r: Interner, spans: seq<Span>, conds: seq<SpanCondition>, ops: seq<LogicalOp>, eng: Engine): seq<MatchedSpan>
    requires AllReadable(r, spans) && WellFormed(conds, ops)
  {
    if spans == [] then []
    else
      MatchedIn(r, spans[..|spans| - 1], conds, ops, eng)
      + (var s := spans[|spans| - 1]; if Selected(r, s, conds, ops, eng) then [ToMatched(r, s)] else [])
  }

  /** Every trace of the store with its selected spans, traces without any left out. */
  ghost function FullScan(r: Interner, traces: Traces, conds: seq<SpanCondition>, ops: seq<LogicalOp>, eng: Engine): map<TraceId, seq<MatchedSpan>>
    requires WellFiled(r, traces) && WellFormed(conds, ops)
  {
    map t | t in traces && MatchedIn(r, traces[t], conds, ops, eng) != [] :: MatchedIn(r, traces[t], conds, ops, eng)
  }

  /** `results` lists `m` in ascending order of trace id. */
  ghost predicate Lists(results: seq<TraceResult>, m: map<TraceId, seq<MatchedSpan>>) {
    && (forall i, j :: 0 <= i < j < |results| ==> results[i].traceId < results[j].traceId)
    && (forall i :: 0 <= i < |results| ==> results[i].traceId in m && m[results[i].traceId] == results[i].matched)
    && (forall t :: t in m ==> exists i :: 0 <= i < |results| && results[i].traceId == t)
  }

  /** A listing is determined by what it lists. */
  lemma ListsUnique(xs: seq<TraceResult>, ys: seq<TraceResult>, m: map<TraceId, seq<MatchedSpan>>)
    requires Lists(xs, m) && Lists(ys, m)
    ensures xs == ys
  {
    var xids: seq<nat> := seq(|xs|, i requires 0 <= i < |xs| => xs[i].traceId);
    var yids: seq<nat> := seq(|ys|, i requires 0 <= i < |ys| => ys[i].traceId);
    forall t ensures t in xids <==> t in yids {
      if t in m {
        var i :| 0 <= i < |xs| && xs[i].traceId == t;
        var j :| 0 <= j < |ys| && ys[j].traceId == t;
        assert xids[i] == t && yids[j] == t;
      }
    }
    AscendingUnique(xids, yids);
    forall i | 0 <= i < |xs| ensures xs[i] == ys[i] {
      assert xids[i] == yids[i];
    }
  }

  // ----------------------------------------------------- what ingestion promises

  /** If `resource.service.name` finds a string on the span, it is the span's service. */
  ghost predicate ServiceLinked(r: Interner, s: Span)
    requires SpanKnown(r, s)
  {
    match FindAttribute(r, s.attributes, ResourceScope, "service.name")
    case Some(StringValue(v)) => v == s.serviceName
    case _ => true
  }

  ghost predicate AllLinked(r: Interner, traces: Traces)
    requires WellFiled(r, traces)
  {
    forall t, i :: t in traces && 0 <= i < |traces[t]| ==> ServiceLinked(r, traces[t][i])
  }

  // ------------------------------------------------------------------ narrowing

  /** Every trace with a span satisfying the condition is in the set. */
  ghost predicate Covers(r: Interner, traces: Traces, c: SpanCondition, eng: Engine, candidates: set<TraceId>)
    requires WellFiled(r, traces)
  {
    forall t, i :: t in traces && 0 <= i < |traces[t]| && SpanMatches(r, traces[t][i], c, eng) ==> t in candidates
  }

  function Lookup<K>(index: KeyIndex<K>, k: Option<K>): Option<set<TraceId>> {
    if k.Some? && k.value in index then Some(index[k.value]) else None
  }

  /** Narrowing through one of the span-key indexes. */
  lemma LookupCovers<K(!new)>(r: Interner, traces: Traces, index: KeyIndex<K>, keyOf: Span -> K, k: Option<K>, c: SpanCondition, eng: Engine)
    requires WellFiled(r, traces) && Exact(index, traces, keyOf)
    requires forall t, i :: t in traces && 0 <= i < |traces[t]| && SpanMatches(r, traces[t][i], c, eng) ==> k == Some(keyOf(traces[t][i]))
    ensures Lookup(index, k).Some? ==> Covers(r, traces, c, eng, Lookup(index, k).value)
  {
    forall t, i | Lookup(index, k).Some? && t in traces && 0 <= i < |traces[t]| && SpanMatches(r, traces[t][i], c, eng)
      ensures t in index[k.value]
    {
      assert HasKey(traces, keyOf, k.value, t);
      assert In(index, k.value, t);
    }
  }

  function AttrLookup(r: Interner, index: AttrIndex, key: string, value: Spur): set<TraceId> {
    var k := r.Get(key);
    if k.Some? && k.value in index && value in index[k.value] then index[k.value][value] else {}
  }

  function CandidateKeys(scope: AttrScope, attr: string): seq<string> {
    match scope
    case SpanScope => ["span." + attr]
    case ResourceScope => ["resource." + attr, attr]
  }

  /** `indexed_attribute_traces` for every attribute but the service name. */
  method IndexedAttributeTraces(r: Interner, ghost traces: Traces, index: AttrIndex, scope: AttrScope, attr: string, value: string, ghost eng: Engine)
    returns (candidates: Option<set<TraceId>>)
    requires r.Valid() && WellFiled(r, traces) && AttrExact(index, traces)
    ensures candidates.Some? ==> Covers(r, traces, Attribute(scope, attr, Eq, StringVal(value)), eng, candidates.value)
  {
    var v := r.Get(value);
    if v.None? { return None; }
    var keys := CandidateKeys(scope, attr);
    var out: set<TraceId> := {};
    for n := 0 to |keys|
      invariant forall m :: 0 <= m < n ==> AttrLookup(r, index, keys[m], v.value) <= out
    {
      out := out + AttrLookup(r, index, keys[n], v.value);
    }
    candidates := if out == {} then None else Some(out);
    forall t, i | t in traces && 0 <= i < |traces[t]| && SpanMatches(r, traces[t][i], Attribute(scope, attr, Eq, StringVal(value)), eng)
      ensures t in out
    {
      var s := traces[t][i];
      var j := MatchingAttribute(r, s, scope, attr, value, eng);
      var (k, x) := s.attributes[j];
      assert SpanHasAttr(s, k, x.s);
      assert HasAttr(traces, k, x.s, t);
      assert AttrIn(index, k, x.s, t);
      r.GetResolve(x.s, value);
      r.GetResolve(k, r.Resolve(k));
      var m :| 0 <= m < |keys| && keys[m] == r.Resolve(k);
      assert t in AttrLookup(r, index, keys[m], v.value);
    }
  }

  /** A span satisfying a string `=` condition carries that very attribute. */
  lemma MatchingAttribute(r: Interner, s: Span, scope: AttrScope, attr: string, value: string, eng: Engine) returns (j: nat)
    requires SpanKnown(r, s) && SpanMatches(r, s, Attribute(scope, attr, Eq, StringVal(value)), eng)
    ensures j < |s.attributes| && s.attributes[j].1.StringValue? && r.Resolve(s.attributes[j].1.s) == value
    ensures r.Resolve(s.attributes[j].0) in CandidateKeys(scope, attr)
    ensures FindAttribute(r, s.attributes, scope, attr) == Some(s.attributes[j].1)
  {
    var found := FindAttribute(r, s.attributes, scope, attr);
    j :| FirstAnswering(r, s.attributes, scope, attr, j) && s.attributes[j].1 == found.value;
    var key := r.Resolve(s.attributes[j].0);
    var keys := CandidateKeys(scope, attr);
    assert key == keys[0] || (|keys| > 1 && key == keys[1]);
  }

  /** The trace set an `=` condition resolves to through an index, if it does. */
  method IndexableTraces(c: SpanCondition, store: TraceStore, eng: Engine) returns (candidates: Option<set<TraceId>>)
    requires store.Valid() && AllLinked(store.interner, store.traces)
    ensures candidates.Some? ==> Covers(store.interner, store.traces, c, eng, candidates.value)
  {
    hide Exact, AttrExact, SpanTotal;
    var r := store.interner;
    match c {
      case Name(Eq, name) =>
        SameName(r, store.traces, name, eng);
        LookupCovers(r, store.traces, store.nameIndex, NameOf, r.Get(name), c, eng);
        candidates := Lookup(store.nameIndex, r.Get(name));
      case Status(Eq, status) =>
        LookupCovers(r, store.traces, store.statusIndex, StatusOf, Some(status), c, eng);
        candidates := Lookup(store.statusIndex, Some(status));
      case Attribute(scope, attr, Eq, StringVal(value)) =>
        if scope == ResourceScope && attr == "service.name" {
          SameService(r, store.traces, value, eng);
          LookupCovers(r, store.traces, store.serviceIndex, ServiceOf, r.Get(value), c, eng);
          candidates := Lookup(store.serviceIndex, r.Get(value));
        } else {
          candidates := IndexedAttributeTraces(r, store.traces, store.attrIndex, scope, attr, value, eng);
        }
      case _ => candidates := None;
    }
  }

  lemma SameName(r: Interner, traces: Traces, name: string, eng: Engine)
    requires r.Valid() && WellFiled(r, traces)
    ensures forall t, i ::
      t in traces && 0 <= i < |traces[t]| && SpanMatches(r, traces[t][i], Name(Eq, name), eng)
      ==> r.Get(name) == Some(NameOf(traces[t][i]))
  {
    forall t, i | t in traces && 0 <= i < |traces[t]| && SpanMatches(r, traces[t][i], Name(Eq, name), eng)
      ensures r.Get(name) == Some(NameOf(traces[t][i]))
    {
      r.GetResolve(traces[t][i].name, name);
    }
  }

  lemma SameService(r: Interner, traces: Traces, value: string, eng: Engine)
    requires r.Valid() && WellFiled(r, traces) && AllLinked(r, traces)
    ensures forall t, i ::
      t in traces && 0 <= i < |traces[t]| && SpanMatches(r, traces[t][i], Attribute(ResourceScope, "service.name", Eq, StringVal(value)), eng)
      ==> r.Get(value) == Some(ServiceOf(traces[t][i]))
  {
    forall t, i | t in traces && 0 <= i < |traces[t]|
        && SpanMatches(r, traces[t][i], Attribute(ResourceScope, "service.name", Eq, StringVal(value)), eng)
      ensures r.Get(value) == Some(ServiceOf(traces[t][i]))
    {
      var s := traces[t][i];
      var j := MatchingAttribute(r, s, ResourceScope, "service.name", value, eng);
      assert ServiceLinked(r, s);
      r.GetResolve(s.serviceName, value);
    }
  }

  /** Intersection of the trace sets of all indexable conditions; `None` when there is none, or an `||`. */
  method CandidateTraceIds(conds: seq<SpanCondition>, ops: seq<LogicalOp>, store: TraceStore, eng: Engine)
    returns (candidates: Option<set<TraceId>>)
    requires store.Valid() && AllLinked(store.interner, store.traces) && WellFormed(conds, ops)
    ensures candidates.Some? ==> forall t ::
      t in store.traces && MatchedIn(store.interner, store.traces[t], conds, ops, eng) != [] ==> t in candidates.value
  {
    hide Exact, AttrExact, SpanTotal;
    if Or in ops { return None; }
    candidates := None;
    for n := 0 to |conds|
      invariant candidates.Some? ==> forall t ::
        t in store.traces && SomeSatisfiesAll(store.interner, store.traces[t], conds[..n], eng) ==> t in candidates.value
    {
      var narrowed := IndexableTraces(conds[n], store, eng);
      if narrowed.Some? {
        forall t | t in store.traces && SomeSatisfiesAll(store.interner, store.traces[t], conds[..n + 1], eng)
          ensures t in narrowed.value
        {
          var i :| 0 <= i < |store.traces[t]| && AllMatch(store.interner, store.traces[t][i], conds[..n + 1], eng);
          assert SpanMatches(store.interner, store.traces[t][i], conds[..n + 1][n], eng);
        }
        candidates := Some(if candidates.None? then narrowed.value else candidates.value * narrowed.value);
      }
      forall t | t in store.traces && SomeSatisfiesAll(store.interner, store.traces[t], conds[..n + 1], eng)
        ensures SomeSatisfiesAll(store.interner, store.traces[t], conds[..n], eng)
      {
        SatisfiesFewer(store.interner, store.traces[t], conds, n, eng);
      }
    }
    assert conds[..|conds|] == conds;
    forall t | t in store.traces && MatchedIn(store.interner, store.traces[t], conds, ops, eng) != []
      ensures SomeSatisfiesAll(store.interner, store.traces[t], conds, eng)
    {
      MatchedSatisfiesAll(store.interner, store.traces[t], conds, ops, eng);
    }
  }

  ghost predicate SomeSatisfiesAll(r: Interner, spans: seq<Span>, conds: seq<SpanCondition>, eng: Engine)
    requires AllReadable(r, spans)
  {
    exists i :: 0 <= i < |spans| && AllMatch(r, spans[i], conds, eng)
  }

  lemma SatisfiesFewer(r: Interner, spans: seq<Span>, conds: seq<SpanCondition>, n: nat, eng: Engine)
    requires AllReadable(r, spans) && n < |conds| && SomeSatisfiesAll(r, spans, conds[..n + 1], eng)
    ensures SomeSatisfiesAll(r, spans, conds[..n], eng)
  {
    var i :| 0 <= i < |spans| && AllMatch(r, spans[i], conds[..n + 1], eng);
    forall m | 0 <= m < n ensures SpanMatches(r, spans[i], conds[..n][m], eng) {
      assert SpanMatches(r, spans[i], conds[..n + 1][m], eng);
    }
    assert AllMatch(r, spans[i], conds[..n], eng);
  }

  /** Without `||`, a trace with a selected span has a span satisfying every condition. */
  lemma {:induction false} MatchedSatisfiesAll(r: Interner, spans: seq<Span>, conds: seq<SpanCondition>, ops: seq<LogicalOp>, eng: Engine)
    requires AllReadable(r, spans) && WellFormed(conds, ops) && Or !in ops
    requires MatchedIn(r, spans, conds, ops, eng) != []
    ensures SomeSatisfiesAll(r, spans, conds, eng)
  {
    var front, last := spans[..|spans| - 1], spans[|spans| - 1];
    if Selected(r, last, conds, ops, eng) {
      if conds != [] { NoOrSingleGroup(conds, ops); }
      assert AllMatch(r, spans[|spans| - 1], conds, eng);
    } else {
      MatchedSatisfiesAll(r, front, conds, ops, eng);
      var i :| 0 <= i < |front| && AllMatch(r, front[i], conds, eng);
      assert AllMatch(r, spans[i], conds, eng);
    }
  }

  // ------------------------------------------------------------------- scanning

  method ScanTrace(r: Interner, spans: seq<Span>, conds: seq<SpanCondition>, ops: seq<LogicalOp>, eng: Engine)
    returns (matched: seq<MatchedSpan>)
    requires AllReadable(r, spans) && WellFormed(conds, ops)
    ensures matched == MatchedIn(r, spans, conds, ops, eng)
  {
    matched := [];
    for n := 0 to |spans|
      invariant matched == MatchedIn(r, spans[..n], conds, ops, eng)
    {
      assert spans[..n + 1][..n] == spans[..n] && spans[..n + 1][n] == spans[n];
      var selected := SpanMatchesConditions(r, spans[n], conds, ops, eng);
      if selected { matched := matched + [ToMatched(r, spans[n])]; }
    }
    assert spans[..|spans|] == spans;
  }

  /** Scans some traces, in any order, and sorts the results by trace id. */
  method ScanTraces(store: TraceStore, ids: set<TraceId>, conds: seq<SpanCondition>, ops: seq<LogicalOp>, eng: Engine)
    returns (results: seq<TraceResult>)
    requires WellFiled(store.interner, store.traces) && WellFormed(conds, ops)
    requires forall t :: t in FullScan(store.interner, store.traces, conds, ops, eng) ==> t in ids
    ensures Lists(results, FullScan(store.interner, store.traces, conds, ops, eng))
  {
    ghost var full := FullScan(store.interner, store.traces, conds, ops, eng);
    var found: map<TraceId, seq<MatchedSpan>> := map[];
    var todo := ids;
    while todo != {}
      invariant todo <= ids
      invariant forall t :: t in found ==> t in full && found[t] == full[t]
      invariant forall t :: t in full && t !in todo ==> t in found
      decreases todo
    {
      var t :| t in todo;
      if t in store.traces {
        var matched := ScanTrace(store.interner, store.traces[t], conds, ops, eng);
        if matched != [] { found := found[t := matched]; }
      }
      todo := todo - {t};
    }
    results := InOrder(found);
    assert found == full;
  }

  method InOrder(m: map<TraceId, seq<MatchedSpan>>) returns (results: seq<TraceResult>)
    ensures Lists(results, m)
  {
    var order: seq<nat> := AscendingIds(m.Keys);
    results := [];
    for n := 0 to |order|
      invariant |results| == n
      invariant forall i :: 0 <= i < n ==> results[i].traceId == order[i] && order[i] in m && results[i].matched == m[order[i]]
    {
      assert order[n] in order;
      results := results + [TraceResult(order[n], m[order[n]])];
    }
    forall t | t in m ensures exists i :: 0 <= i < |results| && results[i].traceId == t {
      assert t in order;
      var i :| 0 <= i < |order| && order[i] == t;
      assert results[i].traceId == t;
    }
  }

  /** A span selector evaluated through the indexes equals the full scan. */
  method EvalSpanSelector(conds: seq<SpanCondition>, ops: seq<LogicalOp>, store: TraceStore, eng: Engine) returns (results: seq<TraceResult>)
    requires store.Valid() && AllLinked(store.interner, store.traces) && WellFormed(conds, ops)
    ensures Lists(results, FullScan(store.interner, store.traces, conds, ops, eng))
  {
    hide Exact, AttrExact, SpanTotal;
    var candidates := CandidateTraceIds(conds, ops, store, eng);
    var ids := if candidates.Some? then candidates.value else store.traces.Keys;
    results := ScanTraces(store, ids, conds, ops, eng);
  }
}
