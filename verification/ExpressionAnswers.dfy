/**
  What the answers to TraceQL pipelines and structural operators say, read off
  the answers of their parts and the stored parent links.
 */
module ExpressionAnswers {
  import opened Ancestry
  import opened Interning
  import opened Options
  import opened SpanConditions
  import opened StableSorting
  import opened StreamMaps
  import opened TraceIds
  import opened TraceIndexing
  import opened TraceNarrowing
  import opened TraceQueries
  import opened TraceStore

  // ------------------------------------------------------------------ pipelines

  /** The results are exactly the inner ones whose spans pass the test, in ascending order of trace id. */
  ghost predicate KeptFrom(results: seq<TraceResult>, inner: seq<TraceResult>, test: seq<MatchedSpan> -> bool) {
    && (forall j, k :: 0 <= j < k < |results| ==> results[j].traceId < results[k].traceId)
    && forall x :: x in results <==> x in inner && test(x.matched)
  }

  lemma InListing(results: seq<TraceResult>, m: map<TraceId, seq<MatchedSpan>>, x: TraceResult)
    requires Lists(results, m)
    ensures x in results <==> x.traceId in m && m[x.traceId] == x.matched
  {
    if x.traceId in m && m[x.traceId] == x.matched {
      var i :| 0 <= i < |results| && results[i].traceId == x.traceId;
      assert results[i] == x;
    }
  }

  /** A pipeline keeps what all its stages keep. */
  lemma KeptByListing(results: seq<TraceResult>, inner: seq<TraceResult>, m: map<TraceId, seq<MatchedSpan>>, stages: seq<Stage>, test: seq<MatchedSpan> -> bool)
    requires Lists(inner, m) && Lists(results, KeptBy(stages, m))
    requires forall ms :: KeptByAll(stages, ms) <==> test(ms)
    ensures KeptFrom(results, inner, test)
  {
    forall x: TraceResult ensures x in results <==> x in inner && test(x.matched) {
      InListing(results, KeptBy(stages, m), x);
      InListing(inner, m, x);
    }
  }

  /** The answers of an expression and of the same expression behind some stages. */
  ghost predicate Piped(r: Interner, traces: Traces, e: Expr, stages: seq<Stage>, eng: Engine, inner: seq<TraceResult>, results: seq<TraceResult>) {
    && WellFormedExpr(e) && WellFiled(r, traces)
    && Lists(inner, Meaning(e, r, traces, eng)) && Lists(results, Meaning(Pipeline(e, stages), r, traces, eng))
  }

  lemma PipedKeeps(r: Interner, traces: Traces, e: Expr, stage: Stage, eng: Engine, inner: seq<TraceResult>, results: seq<TraceResult>,
                   test: seq<MatchedSpan> -> bool)
    requires Piped(r, traces, e, [stage], eng, inner, results)
    requires forall ms :: Keeps(stage, ms) <==> test(ms)
    ensures KeptFrom(results, inner, test)
  {
    forall ms ensures KeptByAll([stage], ms) <==> Keeps(stage, ms) { assert [stage][0] == stage; }
    KeptByListing(results, inner, Meaning(e, r, traces, eng), [stage], test);
  }

  /** `count()` compares the number of matched spans. */
  lemma CountAnswers(r: Interner, traces: Traces, e: Expr, op: CompareOp, n: nat, eng: Engine, inner: seq<TraceResult>, results: seq<TraceResult>)
    requires Piped(r, traces, e, [CountFilter(op, n)], eng, inner, results)
    ensures op == Gt ==> KeptFrom(results, inner, (ms: seq<MatchedSpan>) => |ms| > n)
    ensures op == Lt ==> KeptFrom(results, inner, (ms: seq<MatchedSpan>) => |ms| < n)
    ensures op == Gte ==> KeptFrom(results, inner, (ms: seq<MatchedSpan>) => |ms| >= n)
    ensures op == Lte ==> KeptFrom(results, inner, (ms: seq<MatchedSpan>) => |ms| <= n)
    ensures op == Eq ==> KeptFrom(results, inner, (ms: seq<MatchedSpan>) => |ms| == n)
    ensures op == Neq ==> KeptFrom(results, inner, (ms: seq<MatchedSpan>) => |ms| != n)
    ensures op == Regex ==> results == []
  {
    hide Piped, KeptFrom;
    var test: seq<MatchedSpan> -> bool := match op
      case Gt => (ms: seq<MatchedSpan>) => |ms| > n
      case Lt => (ms: seq<MatchedSpan>) => |ms| < n
      case Gte => (ms: seq<MatchedSpan>) => |ms| >= n
      case Lte => (ms: seq<MatchedSpan>) => |ms| <= n
      case Eq => (ms: seq<MatchedSpan>) => |ms| == n
      case Neq => (ms: seq<MatchedSpan>) => |ms| != n
      case Regex => (ms: seq<MatchedSpan>) => false;
    PipedKeeps(r, traces, e, CountFilter(op, n), eng, inner, results, test);
    if op == Regex { NothingKept(results, inner, test); }
  }

  lemma NothingKept(results: seq<TraceResult>, inner: seq<TraceResult>, test: seq<MatchedSpan> -> bool)
    requires KeptFrom(results, inner, test) && forall ms :: !test(ms)
    ensures results == []
  {
    FirstIsIn(results);
  }

  lemma FirstIsIn(results: seq<TraceResult>)
    ensures results == [] || results[0] in results
  {
  }

  ghost predicate SomeSpanOf(ms: seq<MatchedSpan>, test: int -> bool) {
    exists i :: 0 <= i < |ms| && test(ms[i].durationNs)
  }

  ghost predicate EverySpanOf(ms: seq<MatchedSpan>, test: int -> bool) {
    ms != [] && forall i :: 0 <= i < |ms| ==> test(ms[i].durationNs)
  }

  /** `max(duration)` exceeds a bound iff some span does, and stays below it iff all do. */
  lemma LongestAnswers(r: Interner, traces: Traces, e: Expr, op: CompareOp, n: int, eng: Engine, inner: seq<TraceResult>, results: seq<TraceResult>)
    requires Piped(r, traces, e, [MaxDuration(op, n)], eng, inner, results)
    ensures op == Gt ==> KeptFrom(results, inner, (ms: seq<MatchedSpan>) => SomeSpanOf(ms, (d: int) => d > n))
    ensures op == Gte ==> KeptFrom(results, inner, (ms: seq<MatchedSpan>) => SomeSpanOf(ms, (d: int) => d >= n))
    ensures op == Lt ==> KeptFrom(results, inner, (ms: seq<MatchedSpan>) => EverySpanOf(ms, (d: int) => d < n))
    ensures op == Lte ==> KeptFrom(results, inner, (ms: seq<MatchedSpan>) => EverySpanOf(ms, (d: int) => d <= n))
    ensures op == Eq ==> KeptFrom(results, inner, (ms: seq<MatchedSpan>) =>
      SomeSpanOf(ms, (d: int) => d == n) && EverySpanOf(ms, (d: int) => d <= n))
    ensures op == Neq ==> KeptFrom(results, inner, (ms: seq<MatchedSpan>) =>
      SomeSpanOf(ms, (d: int) => d > n) || EverySpanOf(ms, (d: int) => d < n))
    ensures op == Regex ==> results == []
  {
    hide Piped, KeptFrom;
    var test: seq<MatchedSpan> -> bool := match op
      case Gt => (ms: seq<MatchedSpan>) => SomeSpanOf(ms, (d: int) => d > n)
      case Gte => (ms: seq<MatchedSpan>) => SomeSpanOf(ms, (d: int) => d >= n)
      case Lt => (ms: seq<MatchedSpan>) => EverySpanOf(ms, (d: int) => d < n)
      case Lte => (ms: seq<MatchedSpan>) => EverySpanOf(ms, (d: int) => d <= n)
      case Eq => (ms: seq<MatchedSpan>) => SomeSpanOf(ms, (d: int) => d == n) && EverySpanOf(ms, (d: int) => d <= n)
      case Neq => (ms: seq<MatchedSpan>) => SomeSpanOf(ms, (d: int) => d > n) || EverySpanOf(ms, (d: int) => d < n)
      case Regex => (ms: seq<MatchedSpan>) => false;
    PipedKeeps(r, traces, e, MaxDuration(op, n), eng, inner, results, test);
    if op == Regex { NothingKept(results, inner, test); }
  }

  /** `min(duration)`, the other way round. */
  lemma ShortestAnswers(r: Interner, traces: Traces, e: Expr, op: CompareOp, n: int, eng: Engine, inner: seq<TraceResult>, results: seq<TraceResult>)
    requires Piped(r, traces, e, [MinDuration(op, n)], eng, inner, results)
    ensures op == Lt ==> KeptFrom(results, inner, (ms: seq<MatchedSpan>) => SomeSpanOf(ms, (d: int) => d < n))
    ensures op == Lte ==> KeptFrom(results, inner, (ms: seq<MatchedSpan>) => SomeSpanOf(ms, (d: int) => d <= n))
    ensures op == Gt ==> KeptFrom(results, inner, (ms: seq<MatchedSpan>) => EverySpanOf(ms, (d: int) => d > n))
    ensures op == Gte ==> KeptFrom(results, inner, (ms: seq<MatchedSpan>) => EverySpanOf(ms, (d: int) => d >= n))
    ensures op == Eq ==> KeptFrom(results, inner, (ms: seq<MatchedSpan>) =>
      SomeSpanOf(ms, (d: int) => d == n) && EverySpanOf(ms, (d: int) => d >= n))
    ensures op == Neq ==> KeptFrom(results, inner, (ms: seq<MatchedSpan>) =>
      SomeSpanOf(ms, (d: int) => d < n) || EverySpanOf(ms, (d: int) => d > n))
    ensures op == Regex ==> results == []
  {
    hide Piped, KeptFrom;
    var test: seq<MatchedSpan> -> bool := match op
      case Lt => (ms: seq<MatchedSpan>) => SomeSpanOf(ms, (d: int) => d < n)
      case Lte => (ms: seq<MatchedSpan>) => SomeSpanOf(ms, (d: int) => d <= n)
      case Gt => (ms: seq<MatchedSpan>) => EverySpanOf(ms, (d: int) => d > n)
      case Gte => (ms: seq<MatchedSpan>) => EverySpanOf(ms, (d: int) => d >= n)
      case Eq => (ms: seq<MatchedSpan>) => SomeSpanOf(ms, (d: int) => d == n) && EverySpanOf(ms, (d: int) => d >= n)
      case Neq => (ms: seq<MatchedSpan>) => SomeSpanOf(ms, (d: int) => d < n) || EverySpanOf(ms, (d: int) => d > n)
      case Regex => (ms: seq<MatchedSpan>) => false;
    PipedKeeps(r, traces, e, MinDuration(op, n), eng, inner, results, test);
    if op == Regex { NothingKept(results, inner, test); }
  }

  /** Running totals of the durations. */
  ghost predicate TotalsTo(ms: seq<MatchedSpan>, totals: seq<int>) {
    |totals| == |ms| + 1 && totals[0] == 0 && forall i :: 0 <= i < |ms| ==> totals[i + 1] == totals[i] + ms[i].durationNs
  }

  /** `a` is the mean duration with its fraction cut off. */
  ghost predicate MeanIs(ms: seq<MatchedSpan>, a: int) {
    ms != [] && exists totals: seq<int> :: TotalsTo(ms, totals) && CutQuotient(totals[|ms|], |ms|, a)
  }

  /** `a` times `n` is the multiple of `n` nearest to the total on the side of zero. */
  ghost predicate CutQuotient(total: int, n: nat, a: int) {
    if total >= 0 then a * n <= total < (a + 1) * n else (a - 1) * n < total <= a * n
  }

  lemma {:induction false} DurationTotals(ms: seq<MatchedSpan>) returns (totals: seq<int>)
    ensures TotalsTo(ms, totals) && totals[|ms|] == TotalDuration(ms)
    ensures forall i :: 0 <= i <= |ms| ==> I64_MIN * i <= totals[i] <= I64_MAX * i
  {
    if ms == [] {
      totals := [0];
    } else {
      var front := DurationTotals(ms[..|ms| - 1]);
      totals := front + [front[|ms| - 1] + ms[|ms| - 1].durationNs];
    }
  }

  lemma {:induction false} TotalsUnique(ms: seq<MatchedSpan>, xs: seq<int>, ys: seq<int>, i: nat)
    requires TotalsTo(ms, xs) && TotalsTo(ms, ys) && i <= |ms|
    ensures xs[i] == ys[i]
  {
    if i > 0 { TotalsUnique(ms, xs, ys, i - 1); }
  }

  lemma TimesKeepsOrder(a: int, b: int, n: nat)
    ensures a <= b ==> a * n <= b * n
  {
  }

  lemma CutQuotientUnique(total: int, n: nat, a: int, b: int)
    requires n > 0 && CutQuotient(total, n, a) && CutQuotient(total, n, b)
    ensures a == b
  {
    TimesKeepsOrder(a + 1, b, n);
    TimesKeepsOrder(a, b - 1, n);
    TimesKeepsOrder(b + 1, a, n);
    TimesKeepsOrder(b, a - 1, n);
  }

  lemma TruncatedDivCuts(total: int, n: nat)
    requires n > 0
    ensures CutQuotient(total, n, TruncatedDiv(total, n))
  {
    if total >= 0 {
      assert total == total / n * n + total % n;
    } else {
      assert -total == (-total) / n * n + (-total) % n;
    }
  }

  lemma QuotientInRange(total: int, n: nat, a: int)
    requires n > 0 && CutQuotient(total, n, a) && I64_MIN * n <= total <= I64_MAX * n
    ensures I64_MIN <= a <= I64_MAX
  {
    TimesKeepsOrder(I64_MAX + 1, a, n);
    TimesKeepsOrder(I64_MAX, a - 1, n);
    TimesKeepsOrder(a, I64_MIN - 1, n);
    TimesKeepsOrder(a + 1, I64_MIN, n);
  }

  /** The mean the stage computes; the clamp never bites, the mean of 64-bit numbers being one. */
  lemma StageMean(ms: seq<MatchedSpan>, a: int)
    requires ms != []
    ensures MeanIs(ms, a) <==> a == Clamp(TruncatedDiv(TotalDuration(ms), |ms|))
  {
    var totals := DurationTotals(ms);
    var mean := TruncatedDiv(TotalDuration(ms), |ms|);
    TruncatedDivCuts(TotalDuration(ms), |ms|);
    QuotientInRange(TotalDuration(ms), |ms|, mean);
    if MeanIs(ms, a) {
      var others: seq<int> :| TotalsTo(ms, others) && CutQuotient(others[|ms|], |ms|, a);
      TotalsUnique(ms, totals, others, |ms|);
      CutQuotientUnique(TotalDuration(ms), |ms|, a, mean);
    }
  }

  /** `avg(duration)` compares the mean, its fraction cut off. */
  lemma AverageAnswers(r: Interner, traces: Traces, e: Expr, op: CompareOp, n: int, eng: Engine, inner: seq<TraceResult>, results: seq<TraceResult>)
    requires Piped(r, traces, e, [AvgDuration(op, n)], eng, inner, results)
    ensures op == Gt ==> KeptFrom(results, inner, (ms: seq<MatchedSpan>) => exists a :: MeanIs(ms, a) && a > n)
    ensures op == Lt ==> KeptFrom(results, inner, (ms: seq<MatchedSpan>) => exists a :: MeanIs(ms, a) && a < n)
    ensures op == Gte ==> KeptFrom(results, inner, (ms: seq<MatchedSpan>) => exists a :: MeanIs(ms, a) && a >= n)
    ensures op == Lte ==> KeptFrom(results, inner, (ms: seq<MatchedSpan>) => exists a :: MeanIs(ms, a) && a <= n)
    ensures op == Eq ==> KeptFrom(results, inner, (ms: seq<MatchedSpan>) => exists a :: MeanIs(ms, a) && a == n)
    ensures op == Neq ==> KeptFrom(results, inner, (ms: seq<MatchedSpan>) => exists a :: MeanIs(ms, a) && a != n)
    ensures op == Regex ==> results == []
  {
    hide Piped, KeptFrom, Clamp, TruncatedDiv, TotalDuration;
    forall ms: seq<MatchedSpan>, a: int | ms != []
      ensures MeanIs(ms, a) <==> a == Clamp(TruncatedDiv(TotalDuration(ms), |ms|))
    {
      StageMean(ms, a);
    }
    hide MeanIs;
    var test: seq<MatchedSpan> -> bool := match op
      case Gt => (ms: seq<MatchedSpan>) => exists a :: MeanIs(ms, a) && a > n
      case Lt => (ms: seq<MatchedSpan>) => exists a :: MeanIs(ms, a) && a < n
      case Gte => (ms: seq<MatchedSpan>) => exists a :: MeanIs(ms, a) && a >= n
      case Lte => (ms: seq<MatchedSpan>) => exists a :: MeanIs(ms, a) && a <= n
      case Eq => (ms: seq<MatchedSpan>) => exists a :: MeanIs(ms, a) && a == n
      case Neq => (ms: seq<MatchedSpan>) => exists a :: MeanIs(ms, a) && a != n
      case Regex => (ms: seq<MatchedSpan>) => false;
    forall ms: seq<MatchedSpan> ensures Keeps(AvgDuration(op, n), ms) <==> test(ms) {
      if ms != [] {
        assert MeanIs(ms, Clamp(TruncatedDiv(TotalDuration(ms), |ms|)));
      } else {
        forall a ensures !MeanIs(ms, a) { NoMean(a); }
      }
    }
    PipedKeeps(r, traces, e, AvgDuration(op, n), eng, inner, results, test);
    if op == Regex { NothingKept(results, inner, test); }
  }

  lemma NoMean(a: int)
    ensures !MeanIs([], a)
  {
  }

  /** Several stages keep what each of them keeps on its own. */
  lemma PipelineAnswers(r: Interner, traces: Traces, e: Expr, stages: seq<Stage>, eng: Engine, inner: seq<TraceResult>, results: seq<TraceResult>,
                        singles: seq<seq<TraceResult>>)
    requires Piped(r, traces, e, stages, eng, inner, results)
    requires |singles| == |stages| && forall k :: 0 <= k < |stages| ==> Piped(r, traces, e, [stages[k]], eng, inner, singles[k])
    ensures forall x :: x in results <==> x in inner && forall k :: 0 <= k < |stages| ==> x in singles[k]
  {
    hide Lists, Keeps;
    var m := Meaning(e, r, traces, eng);
    forall x: TraceResult
      ensures x in results <==> x in inner && forall k :: 0 <= k < |stages| ==> x in singles[k]
    {
      InListing(inner, m, x);
      InListing(results, KeptBy(stages, m), x);
      forall k | 0 <= k < |stages| ensures x in singles[k] <==> x in inner && Keeps(stages[k], x.matched) {
        InListing(singles[k], KeptBy([stages[k]], m), x);
        assert [stages[k]][0] == stages[k];
      }
    }
  }

  // ------------------------------------------------------------------ structure

  /** Span `i` is the last one stored under this id. */
  ghost predicate LastOfId(spans: seq<Span>, id: SpanId, i: nat) {
    i < |spans| && spans[i].spanId == id && forall j :: i < j < |spans| ==> spans[j].spanId != id
  }

  /** The stored parent of a span id; of equal ids the last span counts. */
  ghost predicate ParentIs(spans: seq<Span>, id: SpanId, parent: SpanId) {
    exists i: nat :: LastOfId(spans, id, i) && spans[i].parentSpanId == Some(parent)
  }

  lemma {:induction false} SpanMapHoldsLast(spans: seq<Span>, id: SpanId)
    ensures id in SpanMapOf(spans) <==> exists i :: 0 <= i < |spans| && spans[i].spanId == id
    ensures forall i: nat :: LastOfId(spans, id, i) ==> id in SpanMapOf(spans) && SpanMapOf(spans)[id] == spans[i]
    ensures id in SpanMapOf(spans) ==> exists i: nat :: LastOfId(spans, id, i)
  {
    if spans != [] {
      var n := |spans| - 1;
      var front := spans[..n];
      SpanMapHoldsLast(front, id);
      if spans[n].spanId == id {
        assert LastOfId(spans, id, n);
      } else {
        forall i: nat ensures LastOfId(spans, id, i) <==> LastOfId(front, id, i) {
          if LastOfId(front, id, i) { assert forall j :: i < j < n ==> spans[j] == front[j]; }
          if LastOfId(spans, id, i) { assert forall j :: i < j < n ==> spans[j] == front[j]; }
        }
        if id in SpanMapOf(front) {
          var i :| 0 <= i < |front| && front[i].spanId == id;
          assert spans[i].spanId == id;
        }
        if i :| 0 <= i < |spans| && spans[i].spanId == id {
          assert front[i].spanId == id;
        }
      }
    }
  }

  lemma ParentOfIsStored(spans: seq<Span>, id: SpanId, parent: SpanId)
    ensures ParentOf(SpanMapOf(spans), id) == Some(parent) <==> ParentIs(spans, id, parent)
  {
    SpanMapHoldsLast(spans, id);
    if ParentOf(SpanMapOf(spans), id) == Some(parent) {
      var i: nat :| LastOfId(spans, id, i);
    }
  }

  /** Each id on the path is the stored parent of the one before. */
  ghost predicate ParentPath(spans: seq<Span>, path: seq<SpanId>) {
    forall k :: 0 <= k < |path| - 1 ==> ParentIs(spans, path[k], path[k + 1])
  }

  lemma {:induction false} UpIsPath(spans: seq<Span>, d: SpanId, n: nat, a: SpanId)
    ensures Up(SpanMapOf(spans), d, n) == Some(a)
       <==> exists path: seq<SpanId> :: |path| == n + 1 && path[0] == d && path[n] == a && ParentPath(spans, path)
  {
    hide ParentIs, SpanMapOf;
    if n == 0 {
      if d == a {
        var path: seq<SpanId> := [d];
        assert |path| == n + 1 && path[0] == d && path[n] == a && ParentPath(spans, path);
      }
    } else {
      if Up(SpanMapOf(spans), d, n) == Some(a) {
        var x := Up(SpanMapOf(spans), d, n - 1).value;
        UpIsPath(spans, d, n - 1, x);
        ParentOfIsStored(spans, x, a);
        var front: seq<SpanId> :| |front| == n && front[0] == d && front[n - 1] == x && ParentPath(spans, front);
        var path: seq<SpanId> := front + [a];
        assert |path| == n + 1 && path[0] == d && path[n] == a && ParentPath(spans, path);
      }
      if path: seq<SpanId> :| |path| == n + 1 && path[0] == d && path[n] == a && ParentPath(spans, path) {
        var front := path[..n];
        assert |front| == n && front[0] == d && front[n - 1] == path[n - 1] && ParentPath(spans, front);
        UpIsPath(spans, d, n - 1, path[n - 1]);
        assert ParentIs(spans, path[n - 1], path[n - 1 + 1]);
        ParentOfIsStored(spans, path[n - 1], a);
      }
    }
  }

  /** What relates a right-hand span to a left-hand one, in terms of the stored parents. */
  ghost predicate Linked(spans: seq<Span>, op: StructuralOp, l: SpanId, r: SpanId) {
    match op
    case Child => ParentIs(spans, r, l)
    case Sibling => l != r && forall p: SpanId :: ParentIs(spans, l, p) <==> ParentIs(spans, r, p)
    case Descendant =>
      l != r && exists path: seq<SpanId> :: |path| >= 2 && path[0] == r && path[|path| - 1] == l && ParentPath(spans, path)
  }

  lemma RelatedIsLinked(spans: seq<Span>, op: StructuralOp, l: SpanId, r: SpanId)
    ensures Related(SpanMapOf(spans), op, l, r) <==> Linked(spans, op, l, r)
  {
    hide ParentIs, ParentPath, SpanMapOf;
    match op
    case Child => ParentOfIsStored(spans, r, l);
    case Sibling =>
      forall id: SpanId, p: SpanId ensures ParentOf(SpanMapOf(spans), id) == Some(p) <==> ParentIs(spans, id, p) { ParentOfIsStored(spans, id, p); }
      var a, b := ParentOf(SpanMapOf(spans), l), ParentOf(SpanMapOf(spans), r);
      assert a.Some? ==> ParentIs(spans, l, a.value);
      assert b.Some? ==> ParentIs(spans, r, b.value);
    case Descendant =>
      if n: nat :| n >= 1 && Up(SpanMapOf(spans), r, n) == Some(l) {
        UpIsPath(spans, r, n, l);
      }
      if path: seq<SpanId> :| |path| >= 2 && path[0] == r && path[|path| - 1] == l && ParentPath(spans, path) {
        UpIsPath(spans, r, |path| - 1, l);
      }
  }

  /** The first listed span of its id. */
  ghost predicate FirstListed(ms: seq<MatchedSpan>, m: MatchedSpan) {
    exists i :: 0 <= i < |ms| && ms[i] == m && forall j :: 0 <= j < i ==> ms[j].spanId != m.spanId
  }

  ghost predicate NoneOfId(ms: seq<MatchedSpan>, id: SpanId) {
    forall j :: 0 <= j < |ms| ==> ms[j].spanId != id
  }

  lemma FirstListedSnoc(front: seq<MatchedSpan>, last: MatchedSpan, m: MatchedSpan)
    ensures FirstListed(front + [last], m) <==> FirstListed(front, m) || (m == last && NoneOfId(front, last.spanId))
  {
    var ms := front + [last];
    assert forall j :: 0 <= j < |front| ==> ms[j] == front[j];
    if FirstListed(ms, m) {
      var i :| 0 <= i < |ms| && ms[i] == m && forall j :: 0 <= j < i ==> ms[j].spanId != m.spanId;
      if i < |front| { assert front[i] == m; }
    }
    if FirstListed(front, m) {
      var i :| 0 <= i < |front| && front[i] == m && forall j :: 0 <= j < i ==> front[j].spanId != m.spanId;
      assert ms[i] == m;
    }
    assert ms[|front|] == last;
  }

  lemma NoneOfIdIff(ms: seq<MatchedSpan>, id: SpanId)
    ensures KeyFilter(ms, IdOf, id) == [] <==> NoneOfId(ms, id)
  {
    KeyFilterElements(ms, IdOf, id);
    if j :| 0 <= j < |ms| && ms[j].spanId == id { assert ms[j] in KeyFilter(ms, IdOf, id); }
    if KeyFilter(ms, IdOf, id) != [] { assert KeyFilter(ms, IdOf, id)[0] in ms; }
  }

  lemma {:induction false} FirstOfIdIsFirst(ms: seq<MatchedSpan>, m: MatchedSpan)
    ensures FirstOfId(ms, m) <==> FirstListed(ms, m)
  {
    if ms == [] {
      NoFirstInNothing(m);
    } else {
      hide KeyFilter, FirstOfId, FirstListed;
      var front, last := ms[..|ms| - 1], ms[|ms| - 1];
      assert ms == front + [last];
      FirstOfIdSnoc(front, last, m);
      FirstListedSnoc(front, last, m);
      FirstOfIdIsFirst(front, m);
      NoneOfIdIff(front, last.spanId);
    }
  }

  /**
    A structural operator answers with the traces found on both sides; of each, with
    the right-hand spans linked to some left-hand one, one per id, by ascending id.
   */
  lemma StructuralAnswers(r: Interner, traces: Traces, op: StructuralOp, lhs: Expr, rhs: Expr, eng: Engine,
                          left: seq<TraceResult>, right: seq<TraceResult>, results: seq<TraceResult>, t: TraceId, m: MatchedSpan)
    requires WellFormedExpr(lhs) && WellFormedExpr(rhs) && WellFiled(r, traces)
    requires Lists(left, Meaning(lhs, r, traces, eng)) && Lists(right, Meaning(rhs, r, traces, eng))
    requires Lists(results, Meaning(Structural(op, lhs, rhs), r, traces, eng))
    ensures forall x :: x in results ==> x.matched != [] && IdsAscend(x.matched)
    ensures (exists x :: x in results && x.traceId == t && m in x.matched) <==>
      exists a, b :: a in left && b in right && LinkedIn(traces, op, a, b, t, m)
  {
    hide Lists, StructuralMatch, FirstListed, FirstOfId, Linked, IdsAscend, WellFiled;
    var l, n := Meaning(lhs, r, traces, eng), Meaning(rhs, r, traces, eng);
    var join := StructuralJoin(op, l, n, traces);
    forall x | x in results ensures x.matched != [] && IdsAscend(x.matched) {
      InListing(results, join, x);
      StructuralMatchMeaning(SpanMapOf(traces[x.traceId]), op, l[x.traceId], n[x.traceId]);
    }
    if x :| x in results && x.traceId == t && m in x.matched {
      InListing(results, join, x);
      InListing(left, l, TraceResult(t, l[t]));
      InListing(right, n, TraceResult(t, n[t]));
      MatchIsLinked(traces[t], op, l[t], n[t], m);
      assert LinkedIn(traces, op, TraceResult(t, l[t]), TraceResult(t, n[t]), t, m);
    }
    if a, b :| a in left && b in right && LinkedIn(traces, op, a, b, t, m) {
      LinkedListed(traces, op, l, n, left, right, results, a, b, t, m);
    }
  }

  lemma LinkedListed(traces: Traces, op: StructuralOp, l: map<TraceId, seq<MatchedSpan>>, n: map<TraceId, seq<MatchedSpan>>,
                     left: seq<TraceResult>, right: seq<TraceResult>, results: seq<TraceResult>, a: TraceResult, b: TraceResult, t: TraceId, m: MatchedSpan)
    requires Lists(left, l) && Lists(right, n) && Lists(results, StructuralJoin(op, l, n, traces))
    requires a in left && b in right && LinkedIn(traces, op, a, b, t, m)
    ensures exists x :: x in results && x.traceId == t && m in x.matched
  {
    hide Lists, StructuralMatch, FirstListed, Linked;
    InListing(left, l, a);
    InListing(right, n, b);
    MatchIsLinked(traces[t], op, l[t], n[t], m);
    var x := TraceResult(t, StructuralMatch(SpanMapOf(traces[t]), op, l[t], n[t]));
    InListing(results, StructuralJoin(op, l, n, traces), x);
  }

  /** `m` is a right-hand span of trace `t` linked to some left-hand span. */
  ghost predicate LinkedIn(traces: Traces, op: StructuralOp, a: TraceResult, b: TraceResult, t: TraceId, m: MatchedSpan) {
    && t in traces && a.traceId == t && b.traceId == t && FirstListed(b.matched, m)
    && exists i :: 0 <= i < |a.matched| && Linked(traces[t], op, a.matched[i].spanId, m.spanId)
  }

  lemma MatchIsLinked(spans: seq<Span>, op: StructuralOp, lhs: seq<MatchedSpan>, rhs: seq<MatchedSpan>, m: MatchedSpan)
    ensures m in StructuralMatch(SpanMapOf(spans), op, lhs, rhs) <==>
      FirstListed(rhs, m) && exists i :: 0 <= i < |lhs| && Linked(spans, op, lhs[i].spanId, m.spanId)
  {
    hide FirstListed, FirstOfId, Linked, Related, StructuralMatch, SpanMapOf;
    StructuralMatchMeaning(SpanMapOf(spans), op, lhs, rhs);
    FirstOfIdIsFirst(rhs, m);
    forall i | 0 <= i < |lhs|
      ensures Related(SpanMapOf(spans), op, lhs[i].spanId, m.spanId) <==> Linked(spans, op, lhs[i].spanId, m.spanId)
    {
      RelatedIsLinked(spans, op, lhs[i].spanId, m.spanId);
    }
  }
}
