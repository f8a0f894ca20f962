/** Whole TraceQL expressions: selectors, structural operators and pipelines. */
module TraceQueries {
  import opened Ancestry
  import opened Interning
  import opened SpanConditions
  import opened StableSorting
  import opened StreamMaps
  import opened TraceIds
  import opened TraceIndexing
  import opened TraceNarrowing
  import opened TraceStore

  datatype StructuralOp = Descendant | Child | Sibling

  datatype Stage =
    | CountFilter(op: CompareOp, count: nat)
    | AvgDuration(op: CompareOp, nanos: int)
    | MaxDuration(op: CompareOp, nanos: int)
    | MinDuration(op: CompareOp, nanos: int)

  datatype Expr =
    | SpanSelector(conds: seq<SpanCondition>, ops: seq<LogicalOp>)
    | Structural(op: StructuralOp, lhs: Expr, rhs: Expr)
    | Pipeline(inner: Expr, stages: seq<Stage>)

  predicate WellFormedExpr(e: Expr) {
    match e
    case SpanSelector(conds, ops) => WellFormed(conds, ops)
    case Structural(_, lhs, rhs) => WellFormedExpr(lhs) && WellFormedExpr(rhs)
    case Pipeline(inner, _) => WellFormedExpr(inner)
  }

  // ------------------------------------------------------------------ structure

  /** Span id to span; of equal ids the last one wins. */
  function SpanMapOf(spans: seq<Span>): SpanMap {
    if spans == [] then map[] else SpanMapOf(spans[..|spans| - 1])[spans[|spans| - 1].spanId := spans[|spans| - 1]]
  }

  ghost predicate Related(spans: SpanMap, op: StructuralOp, l: SpanId, r: SpanId) {
    match op
    case Descendant => IsAncestor(spans, l, r)
    case Child => IsChild(l, r, spans)
    case Sibling => IsSibling(l, r, spans)
  }

  method IsRelated(spans: SpanMap, op: StructuralOp, l: SpanId, r: SpanId) returns (related: bool)
    ensures related <==> Related(spans, op, l, r)
  {
    match op {
      case Descendant => related := IsDescendant(l, r, spans);
      case Child => related := IsChild(l, r, spans);
      case Sibling => related := IsSibling(l, r, spans);
    }
  }

  function IdOf(m: MatchedSpan): int { m.spanId }

  /** Every right-hand span related to the left-hand span `l`, in order. */
  ghost function RelatedTo(spans: SpanMap, op: StructuralOp, l: MatchedSpan, rhs: seq<MatchedSpan>): seq<MatchedSpan> {
    if rhs == [] then []
    else
      var last := rhs[|rhs| - 1];
      RelatedTo(spans, op, l, rhs[..|rhs| - 1]) + (if Related(spans, op, l.spanId, last.spanId) then [last] else [])
  }

  ghost function RelatedPairs(spans: SpanMap, op: StructuralOp, lhs: seq<MatchedSpan>, rhs: seq<MatchedSpan>): seq<MatchedSpan> {
    if lhs == [] then []
    else RelatedPairs(spans, op, lhs[..|lhs| - 1], rhs) + RelatedTo(spans, op, lhs[|lhs| - 1], rhs)
  }

  /** Drops repetitions of the preceding id (`dedup_by_key`). */
  function DedupById(xs: seq<MatchedSpan>): (ys: seq<MatchedSpan>)
    ensures |xs| > 0 ==> |ys| > 0 && ys[|ys| - 1].spanId == xs[|xs| - 1].spanId
  {
    if |xs| <= 1 then xs
    else
      var front := DedupById(xs[..|xs| - 1]);
      if front[|front| - 1].spanId == xs[|xs| - 1].spanId then front else front + [xs[|xs| - 1]]
  }

  ghost function StructuralMatch(spans: SpanMap, op: StructuralOp, lhs: seq<MatchedSpan>, rhs: seq<MatchedSpan>): seq<MatchedSpan> {
    DedupById(StableSort(RelatedPairs(spans, op, lhs, rhs), IdOf))
  }

  lemma KeyFilterOfOne(x: MatchedSpan, id: int)
    ensures KeyFilter([x], IdOf, id) == if IdOf(x) == id then [x] else []
    ensures KeyFilter<MatchedSpan>([], IdOf, id) == []
  {
  }

  lemma {:induction false} RelatedToKeys(spans: SpanMap, op: StructuralOp, l: MatchedSpan, rhs: seq<MatchedSpan>, id: int)
    ensures KeyFilter(RelatedTo(spans, op, l, rhs), IdOf, id)
         == if id >= 0 && Related(spans, op, l.spanId, id) then KeyFilter(rhs, IdOf, id) else []
  {
    hide Related, KeyFilter;
    if rhs == [] {
      KeyFilterOfOne(l, id);
    } else {
      var front, last := rhs[..|rhs| - 1], rhs[|rhs| - 1];
      RelatedToKeys(spans, op, l, front, id);
      assert rhs == front + [last];
      KeyFilterAppend(front, [last], IdOf, id);
      KeyFilterOfOne(last, id);
      if Related(spans, op, l.spanId, last.spanId) {
        KeyFilterAppend(RelatedTo(spans, op, l, front), [last], IdOf, id);
      } else {
        assert RelatedTo(spans, op, l, front) + [] == RelatedTo(spans, op, l, front);
      }
    }
  }

  ghost predicate SomeRelated(spans: SpanMap, op: StructuralOp, lhs: seq<MatchedSpan>, id: SpanId) {
    exists i :: 0 <= i < |lhs| && Related(spans, op, lhs[i].spanId, id)
  }

  /** Spans of one id come through exactly when some left-hand span is related to it, first come first. */
  lemma {:induction false} RelatedPairsKeys(spans: SpanMap, op: StructuralOp, lhs: seq<MatchedSpan>, rhs: seq<MatchedSpan>, id: SpanId)
    ensures var pairs := KeyFilter(RelatedPairs(spans, op, lhs, rhs), IdOf, id);
            var candidates := KeyFilter(rhs, IdOf, id);
            if SomeRelated(spans, op, lhs, id) && candidates != [] then pairs != [] && pairs[0] == candidates[0] else pairs == []
  {
    if lhs != [] {
      var front, last := lhs[..|lhs| - 1], lhs[|lhs| - 1];
      RelatedPairsKeys(spans, op, front, rhs, id);
      RelatedToKeys(spans, op, last, rhs, id);
      KeyFilterAppend(RelatedPairs(spans, op, front, rhs), RelatedTo(spans, op, last, rhs), IdOf, id);
      assert SomeRelated(spans, op, lhs, id) <==> SomeRelated(spans, op, front, id) || Related(spans, op, last.spanId, id) by {
        if SomeRelated(spans, op, front, id) {
          var i :| 0 <= i < |front| && Related(spans, op, front[i].spanId, id);
          assert Related(spans, op, lhs[i].spanId, id);
        }
        if SomeRelated(spans, op, lhs, id) && !Related(spans, op, last.spanId, id) {
          var i :| 0 <= i < |lhs| && Related(spans, op, lhs[i].spanId, id);
          assert Related(spans, op, front[i].spanId, id);
        }
      }
    }
  }

  /** `m` is the first element of its id. */
  ghost predicate FirstOfId(xs: seq<MatchedSpan>, m: MatchedSpan) {
    KeyFilter(xs, IdOf, m.spanId) != [] && KeyFilter(xs, IdOf, m.spanId)[0] == m
  }

  ghost predicate IdsAscend(xs: seq<MatchedSpan>) {
    forall i, j :: 0 <= i < j < |xs| ==> xs[i].spanId < xs[j].spanId
  }

  lemma FirstOfIdSnoc(front: seq<MatchedSpan>, last: MatchedSpan, m: MatchedSpan)
    ensures FirstOfId(front + [last], m) <==>
      FirstOfId(front, m) || (m == last && KeyFilter(front, IdOf, last.spanId) == [])
  {
    KeyFilterAppend(front, [last], IdOf, m.spanId);
    assert KeyFilter([last], IdOf, m.spanId) == if last.spanId == m.spanId then [last] else [];
    if KeyFilter(front, IdOf, m.spanId) != [] {
      KeyFilterElements(front, IdOf, m.spanId);
      assert KeyFilter(front + [last], IdOf, m.spanId)[0] == KeyFilter(front, IdOf, m.spanId)[0];
    }
  }

  /** In a sorted list the last id has occurred before iff it is the last id kept. */
  lemma LastIdSeen(front: seq<MatchedSpan>, before: seq<MatchedSpan>, last: MatchedSpan)
    requires SortedBy(front + [last], IdOf) && IdsAscend(before)
    requires forall m :: m in before <==> FirstOfId(front, m)
    requires before != []
    ensures forall i :: 0 <= i < |before| ==> before[i].spanId <= last.spanId
    ensures KeyFilter(front, IdOf, last.spanId) != [] <==> before[|before| - 1].spanId == last.spanId
  {
    var all := front + [last];
    forall i | 0 <= i < |before| ensures before[i].spanId <= last.spanId {
      assert FirstOfId(front, before[i]);
      KeyFilterElements(front, IdOf, before[i].spanId);
      assert before[i] in front;
      var k :| 0 <= k < |front| && front[k] == before[i];
      assert IdOf(all[k]) <= IdOf(all[|front|]);
    }
    var end := before[|before| - 1];
    assert end in before && FirstOfId(front, end);
    if KeyFilter(front, IdOf, last.spanId) != [] {
      var first := KeyFilter(front, IdOf, last.spanId)[0];
      KeyFilterElements(front, IdOf, last.spanId);
      assert first in KeyFilter(front, IdOf, last.spanId) && first.spanId == last.spanId;
      assert first in before;
      var k :| 0 <= k < |before| && before[k] == first;
    }
  }

  /** Appending the last element unless its id is there keeps one element per id. */
  lemma DedupStep(front: seq<MatchedSpan>, before: seq<MatchedSpan>, last: MatchedSpan)
    requires SortedBy(front + [last], IdOf) && IdsAscend(before) && before != []
    requires forall m :: m in before <==> FirstOfId(front, m)
    ensures var after := if before[|before| - 1].spanId == last.spanId then before else before + [last];
            IdsAscend(after) && forall m :: m in after <==> FirstOfId(front + [last], m)
  {
    LastIdSeen(front, before, last);
    hide FirstOfId, SortedBy, KeyFilter;
    var after := if before[|before| - 1].spanId == last.spanId then before else before + [last];
    forall m: MatchedSpan ensures m in after <==> FirstOfId(front + [last], m) {
      FirstOfIdSnoc(front, last, m);
      assert m in before <==> FirstOfId(front, m);
    }
  }

  lemma {:induction false} DedupSorted(xs: seq<MatchedSpan>)
    requires SortedBy(xs, IdOf)
    ensures IdsAscend(DedupById(xs))
    ensures forall m :: m in DedupById(xs) <==> FirstOfId(xs, m)
  {
    hide FirstOfId;
    if |xs| == 0 {
      forall m: MatchedSpan ensures !FirstOfId(xs, m) { NoFirstInNothing(m); }
    } else if |xs| == 1 {
      forall m: MatchedSpan ensures FirstOfId(xs, m) <==> m == xs[0] {
        assert xs == [] + [xs[0]];
        NoFirstInNothing(m);
        NoFirstInNothing(xs[0]);
        FirstOfIdSnoc([], xs[0], m);
      }
    } else {
      var front, last := xs[..|xs| - 1], xs[|xs| - 1];
      assert xs == front + [last];
      DedupSorted(front);
      DedupStep(front, DedupById(front), last);
    }
  }

  lemma NoFirstInNothing(m: MatchedSpan)
    ensures !FirstOfId([], m)
    ensures KeyFilter<MatchedSpan>([], IdOf, m.spanId) == []
  {
  }

  /**
    The outcome of a structural operator on one trace: ascending span ids, and a
    span is in it iff it is the first right-hand match of its id and some
    left-hand match is related to it.
   */
  lemma StructuralMatchMeaning(spans: SpanMap, op: StructuralOp, lhs: seq<MatchedSpan>, rhs: seq<MatchedSpan>)
    ensures var ms := StructuralMatch(spans, op, lhs, rhs);
            && IdsAscend(ms)
            && forall m :: m in ms <==> SomeRelated(spans, op, lhs, m.spanId) && FirstOfId(rhs, m)
  {
    var pairs := RelatedPairs(spans, op, lhs, rhs);
    var sorted := StableSort(pairs, IdOf);
    StableSortSorts(pairs, IdOf);
    DedupSorted(sorted);
    forall m: MatchedSpan
      ensures m in DedupById(sorted) <==> SomeRelated(spans, op, lhs, m.spanId) && FirstOfId(rhs, m)
    {
      RelatedPairsKeys(spans, op, lhs, rhs, m.spanId);
      assert KeyFilter(sorted, IdOf, m.spanId) == KeyFilter(pairs, IdOf, m.spanId);
    }
  }

  /** All related pairs by nested iteration, then sorted and deduplicated by span id. */
  method MatchStructural(spans: SpanMap, op: StructuralOp, lhs: seq<MatchedSpan>, rhs: seq<MatchedSpan>) returns (matched: seq<MatchedSpan>)
    ensures matched == StructuralMatch(spans, op, lhs, rhs)
  {
    matched := [];
    for i := 0 to |lhs|
      invariant matched == RelatedPairs(spans, op, lhs[..i], rhs)
    {
      assert lhs[..i + 1][..i] == lhs[..i] && lhs[..i + 1][i] == lhs[i];
      ghost var before := matched;
      for j := 0 to |rhs|
        invariant matched == before + RelatedTo(spans, op, lhs[i], rhs[..j])
      {
        assert rhs[..j + 1][..j] == rhs[..j] && rhs[..j + 1][j] == rhs[j];
        var related := IsRelated(spans, op, lhs[i].spanId, rhs[j].spanId);
        if related { matched := matched + [rhs[j]]; }
      }
      assert rhs[..|rhs|] == rhs;
    }
    assert lhs[..|lhs|] == lhs;
    matched := DedupById(StableSort(matched, IdOf));
  }

  // ------------------------------------------------------------------ pipelines

  function TotalDuration(ms: seq<MatchedSpan>): int {
    if ms == [] then 0 else TotalDuration(ms[..|ms| - 1]) + ms[|ms| - 1].durationNs
  }

  /** Division rounding towards zero. */
  function TruncatedDiv(a: int, b: int): int
    requires b > 0
  {
    if a >= 0 then a / b else -((-a) / b)
  }

  function Clamp(x: int): int {
    if x < I64_MIN then I64_MIN else if x > I64_MAX then I64_MAX else x
  }

  function Longest(ms: seq<MatchedSpan>): (d: int)
    requires ms != []
    ensures (forall i :: 0 <= i < |ms| ==> ms[i].durationNs <= d) && exists i :: 0 <= i < |ms| && ms[i].durationNs == d
  {
    if |ms| == 1 then ms[0].durationNs
    else
      var rest := Longest(ms[1..]);
      if ms[0].durationNs >= rest then ms[0].durationNs else rest
  }

  function Shortest(ms: seq<MatchedSpan>): (d: int)
    requires ms != []
    ensures (forall i :: 0 <= i < |ms| ==> d <= ms[i].durationNs) && exists i :: 0 <= i < |ms| && ms[i].durationNs == d
  {
    if |ms| == 1 then ms[0].durationNs
    else
      var rest := Shortest(ms[1..]);
      if ms[0].durationNs <= rest then ms[0].durationNs else rest
  }

  predicate Keeps(stage: Stage, ms: seq<MatchedSpan>) {
    match stage
    case CountFilter(op, count) => CompareInt(|ms|, op, count)
    case AvgDuration(op, nanos) => ms != [] && CompareInt(Clamp(TruncatedDiv(TotalDuration(ms), |ms|)), op, nanos)
    case MaxDuration(op, nanos) => ms != [] && CompareInt(Longest(ms), op, nanos)
    case MinDuration(op, nanos) => ms != [] && CompareInt(Shortest(ms), op, nanos)
  }

  predicate KeptByAll(stages: seq<Stage>, ms: seq<MatchedSpan>) {
    forall i :: 0 <= i < |stages| ==> Keeps(stages[i], ms)
  }

  // ------------------------------------------------------------------ semantics

  /** What an expression selects from each trace, by plain scanning. */
  ghost function Meaning(e: Expr, r: Interner, traces: Traces, eng: Engine): map<TraceId, seq<MatchedSpan>>
    requires WellFormedExpr(e) && WellFiled(r, traces)
    ensures forall t :: t in Meaning(e, r, traces, eng) ==> t in traces
  {
    match e
    case SpanSelector(conds, ops) => FullScan(r, traces, conds, ops, eng)
    case Structural(op, lhs, rhs) =>
      StructuralJoin(op, Meaning(lhs, r, traces, eng), Meaning(rhs, r, traces, eng), traces)
    case Pipeline(inner, stages) =>
      KeptBy(stages, Meaning(inner, r, traces, eng))
  }

  /** Traces matched on both sides, with the spans the operator relates. */
  ghost function StructuralJoin(op: StructuralOp, l: map<TraceId, seq<MatchedSpan>>, m: map<TraceId, seq<MatchedSpan>>, traces: Traces)
    : (j: map<TraceId, seq<MatchedSpan>>)
    ensures forall t :: t in j ==> t in traces
  {
    map t | t in l && t in m && t in traces && StructuralMatch(SpanMapOf(traces[t]), op, l[t], m[t]) != []
      :: StructuralMatch(SpanMapOf(traces[t]), op, l[t], m[t])
  }

  method EvalStructural(op: StructuralOp, lhs: seq<TraceResult>, rhs: seq<TraceResult>, traces: Traces,
                        ghost l: map<TraceId, seq<MatchedSpan>>, ghost m: map<TraceId, seq<MatchedSpan>>) returns (results: seq<TraceResult>)
    requires Lists(lhs, l) && Lists(rhs, m)
    ensures Lists(results, StructuralJoin(op, l, m, traces))
  {
    hide Lists, StructuralMatch, SpanMapOf;
    ListedIn(lhs, l);
    var rhsByTrace := ByTrace(rhs, m);
    results := [];
    ghost var join := StructuralJoin(op, l, m, traces);
    ghost var done: map<TraceId, seq<MatchedSpan>> := map[];
    ListsNothing();
    for n := 0 to |lhs|
      invariant Lists(results, done)
      invariant forall t :: t in done ==> t in join && done[t] == join[t] && (n < |lhs| ==> t < lhs[n].traceId)
      invariant forall k :: 0 <= k < n && lhs[k].traceId in join ==> lhs[k].traceId in done
    {
      var t := lhs[n].traceId;
      if t in rhsByTrace && t in traces {
        var matched := MatchStructural(SpanMapOf(traces[t]), op, lhs[n].matched, rhsByTrace[t]);
        if matched != [] {
          ListsExtend(results, done, t, matched);
          results := results + [TraceResult(t, matched)];
          done := done[t := matched];
        }
      }
    }
    assert done == join;
  }

  lemma ListsNothing()
    ensures Lists([], map[])
  {
  }

  lemma ListedIn(results: seq<TraceResult>, m: map<TraceId, seq<MatchedSpan>>)
    requires Lists(results, m)
    ensures forall i, j :: 0 <= i < j < |results| ==> results[i].traceId < results[j].traceId
    ensures forall i :: 0 <= i < |results| ==> results[i].traceId in m && m[results[i].traceId] == results[i].matched
    ensures forall t :: t in m ==> exists i :: 0 <= i < |results| && results[i].traceId == t
  {
  }

  /** A listing grows at its end. */
  lemma ListsExtend(results: seq<TraceResult>, m: map<TraceId, seq<MatchedSpan>>, t: TraceId, ms: seq<MatchedSpan>)
    requires Lists(results, m) && forall u :: u in m ==> u < t
    ensures Lists(results + [TraceResult(t, ms)], m[t := ms])
  {
    var longer := results + [TraceResult(t, ms)];
    assert longer[|results|].traceId == t;
    var m' := m[t := ms];
    forall u | u in m' ensures exists i :: 0 <= i < |longer| && longer[i].traceId == u {
      if u != t {
        var i :| 0 <= i < |results| && results[i].traceId == u;
        assert longer[i].traceId == u;
      }
    }
  }

  method ByTrace(results: seq<TraceResult>, ghost m: map<TraceId, seq<MatchedSpan>>) returns (byTrace: map<TraceId, seq<MatchedSpan>>)
    requires Lists(results, m)
    ensures byTrace == m
  {
    byTrace := map[];
    for n := 0 to |results|
      invariant forall t :: t in byTrace ==> t in m && byTrace[t] == m[t]
      invariant forall i :: 0 <= i < n ==> results[i].traceId in byTrace
    {
      byTrace := byTrace[results[n].traceId := results[n].matched];
    }
  }

  method ApplyStages(inner: seq<TraceResult>, stages: seq<Stage>, ghost m: map<TraceId, seq<MatchedSpan>>) returns (results: seq<TraceResult>)
    requires Lists(inner, m)
    ensures Lists(results, KeptBy(stages, m))
  {
    hide Lists, KeptByAll, Keeps;
    results := inner;
    KeptByNone(stages, m);
    for n := 0 to |stages|
      invariant Lists(results, KeptBy(stages[..n], m))
    {
      results := ApplyStage(results, stages[n], KeptBy(stages[..n], m));
      KeptByNext(stages, n, m);
    }
    assert stages[..|stages|] == stages;
  }

  ghost function KeptBy(stages: seq<Stage>, m: map<TraceId, seq<MatchedSpan>>): map<TraceId, seq<MatchedSpan>> {
    map t | t in m && KeptByAll(stages, m[t]) :: m[t]
  }

  ghost function KeptByOne(stage: Stage, m: map<TraceId, seq<MatchedSpan>>): map<TraceId, seq<MatchedSpan>> {
    map t | t in m && Keeps(stage, m[t]) :: m[t]
  }

  lemma KeptByNone(stages: seq<Stage>, m: map<TraceId, seq<MatchedSpan>>)
    ensures KeptBy(stages[..0], m) == m
  {
  }

  lemma KeptByNext(stages: seq<Stage>, n: nat, m: map<TraceId, seq<MatchedSpan>>)
    requires n < |stages|
    ensures KeptBy(stages[..n + 1], m) == KeptByOne(stages[n], KeptBy(stages[..n], m))
  {
    forall t | t in m { KeptByAllSnoc(stages, n, m[t]); }
  }

  lemma KeptByAllSnoc(stages: seq<Stage>, n: nat, ms: seq<MatchedSpan>)
    requires n < |stages|
    ensures KeptByAll(stages[..n + 1], ms) <==> KeptByAll(stages[..n], ms) && Keeps(stages[n], ms)
  {
    if KeptByAll(stages[..n + 1], ms) {
      assert stages[..n + 1][n] == stages[n];
      forall i | 0 <= i < n ensures Keeps(stages[..n][i], ms) { assert stages[..n + 1][i] == stages[..n][i]; }
    }
  }

  method ApplyStage(results: seq<TraceResult>, stage: Stage, ghost m: map<TraceId, seq<MatchedSpan>>) returns (kept: seq<TraceResult>)
    requires Lists(results, m)
    ensures Lists(kept, KeptByOne(stage, m))
  {
    hide Lists, Keeps;
    ListedIn(results, m);
    kept := [];
    ghost var done: map<TraceId, seq<MatchedSpan>> := map[];
    ListsNothing();
    for n := 0 to |results|
      invariant Lists(kept, done)
      invariant forall t :: t in done ==> t in m && done[t] == m[t] && Keeps(stage, m[t]) && (n < |results| ==> t < results[n].traceId)
      invariant forall k :: 0 <= k < n && Keeps(stage, results[k].matched) ==> results[k].traceId in done
    {
      if Keeps(stage, results[n].matched) {
        ListsExtend(kept, done, results[n].traceId, results[n].matched);
        kept := kept + [results[n]];
        done := done[results[n].traceId := results[n].matched];
      }
    }
    assert done == KeptByOne(stage, m);
  }

  /** Evaluates an expression; index narrowing never changes what it means. */
  method Evaluate(e: Expr, store: TraceStore, eng: Engine) returns (results: seq<TraceResult>)
    requires WellFormedExpr(e) && store.Valid() && AllLinked(store.interner, store.traces)
    ensures Lists(results, Meaning(e, store.interner, store.traces, eng))
    decreases e
  {
    hide Exact, AttrExact, SpanTotal, Lists;
    match e {
      case SpanSelector(conds, ops) =>
        results := EvalSpanSelector(conds, ops, store, eng);
      case Structural(op, lhs, rhs) =>
        var l := Evaluate(lhs, store, eng);
        var m := Evaluate(rhs, store, eng);
        results := EvalStructural(op, l, m, store.traces, Meaning(lhs, store.interner, store.traces, eng), Meaning(rhs, store.interner, store.traces, eng));
      case Pipeline(inner, stages) =>
        var i := Evaluate(inner, store, eng);
        results := ApplyStages(i, stages, Meaning(inner, store.interner, store.traces, eng));
    }
  }
}
