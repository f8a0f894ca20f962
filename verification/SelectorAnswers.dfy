/**
  What the answers to TraceQL selectors say about the stored spans, read off the
  spans' own fields.
 */
module SelectorAnswers {
  import opened Interning
  import opened Options
  import opened Positions
  import opened SpanConditions
  import opened TraceIndexing
  import opened TraceNarrowing
  import opened TraceStore

  // ------------------------------------------------------------------- answers

  /** An answer shows a span as it is stored. */
  ghost predicate Shows(r: Interner, m: MatchedSpan, s: Span)
    requires SpanKnown(r, s)
  {
    && m.spanId == s.spanId && m.name == r.Resolve(s.name) && m.serviceName == r.Resolve(s.serviceName)
    && m.startTimeNs == s.startTimeNs && m.durationNs == s.durationNs && m.status == s.status
  }

  /** `ms` shows, in span order, exactly the spans passing the test; `at` tells which. */
  ghost predicate PicksAt(r: Interner, ms: seq<MatchedSpan>, spans: seq<Span>, test: Span -> bool, at: seq<nat>)
    requires AllReadable(r, spans)
  {
    PositionsOf(spans, test, at) && |at| == |ms| && forall k :: 0 <= k < |at| ==> Shows(r, ms[k], spans[at[k]])
  }

  ghost predicate Picks(r: Interner, ms: seq<MatchedSpan>, spans: seq<Span>, test: Span -> bool)
    requires AllReadable(r, spans)
  {
    exists at :: PicksAt(r, ms, spans, test, at)
  }

  /** The results are the traces with a span passing the test, ascending, each with exactly those spans. */
  ghost predicate Answers(r: Interner, traces: Traces, results: seq<TraceResult>, test: Span -> bool)
    requires WellFiled(r, traces)
  {
    && (forall j, k :: 0 <= j < k < |results| ==> results[j].traceId < results[k].traceId)
    && (forall k :: 0 <= k < |results| ==>
          && results[k].traceId in traces && results[k].matched != []
          && Picks(r, results[k].matched, traces[results[k].traceId], test))
    && (forall t, i :: t in traces && 0 <= i < |traces[t]| && test(traces[t][i]) ==>
          exists k :: 0 <= k < |results| && results[k].traceId == t)
  }

  /** The selector holds of exactly the spans passing the test. */
  ghost predicate Tests(r: Interner, conds: seq<SpanCondition>, ops: seq<LogicalOp>, eng: Engine, test: Span -> bool) {
    WellFormed(conds, ops) && forall s :: SpanKnown(r, s) ==> (Selected(r, s, conds, ops, eng) <==> test(s))
  }

  lemma PicksNothing(r: Interner, test: Span -> bool)
    ensures Picks(r, [], [], test)
  {
    assert PicksAt(r, [], [], test, []);
  }

  /** One more span, shown if it passes. */
  lemma PicksSnoc(r: Interner, ms: seq<MatchedSpan>, spans: seq<Span>, m: MatchedSpan, s: Span, test: Span -> bool)
    requires AllReadable(r, spans + [s]) && AllReadable(r, spans) && SpanKnown(r, s) && Shows(r, m, s)
    requires Picks(r, ms, spans, test)
    ensures Picks(r, ms + if test(s) then [m] else [], spans + [s], test)
  {
    hide SpanKnown, Shows, PositionsOf;
    var at: seq<nat> :| PicksAt(r, ms, spans, test, at);
    PositionsSnoc(spans, s, test, at);
    PositionsInRange(spans, test, at);
    assert PicksAt(r, ms + if test(s) then [m] else [], spans + [s], test, at + if test(s) then [|spans|] else []);
  }

  lemma {:induction false} PicksMatched(r: Interner, spans: seq<Span>, conds: seq<SpanCondition>, ops: seq<LogicalOp>, eng: Engine, test: Span -> bool)
    requires AllReadable(r, spans) && Tests(r, conds, ops, eng, test)
    ensures Picks(r, MatchedIn(r, spans, conds, ops, eng), spans, test)
  {
    hide Picks, SpanKnown, Selected;
    if spans == [] {
      PicksNothing(r, test);
    } else {
      var front, last := spans[..|spans| - 1], spans[|spans| - 1];
      assert spans == front + [last] && SpanKnown(r, last);
      PicksMatched(r, front, conds, ops, eng, test);
      PicksSnoc(r, MatchedIn(r, front, conds, ops, eng), front, ToMatched(r, last), last, test);
    }
  }

  lemma PicksSome(r: Interner, ms: seq<MatchedSpan>, spans: seq<Span>, test: Span -> bool, i: nat)
    requires AllReadable(r, spans) && Picks(r, ms, spans, test) && i < |spans| && test(spans[i])
    ensures ms != []
  {
  }

  /** What `EvalSpanSelector` lists answers every test the selector amounts to. */
  lemma ListedAnswers(r: Interner, traces: Traces, results: seq<TraceResult>, conds: seq<SpanCondition>, ops: seq<LogicalOp>, eng: Engine, test: Span -> bool)
    requires WellFiled(r, traces) && Tests(r, conds, ops, eng, test)
    requires Lists(results, FullScan(r, traces, conds, ops, eng))
    ensures Answers(r, traces, results, test)
  {
    hide Picks, SpanKnown, Selected;
    var full := FullScan(r, traces, conds, ops, eng);
    forall t | t in traces
      ensures AllReadable(r, traces[t]) && Picks(r, MatchedIn(r, traces[t], conds, ops, eng), traces[t], test)
    {
      PicksMatched(r, traces[t], conds, ops, eng, test);
    }
    forall t, i | t in traces && 0 <= i < |traces[t]| && test(traces[t][i])
      ensures exists k :: 0 <= k < |results| && results[k].traceId == t
    {
      PicksSome(r, MatchedIn(r, traces[t], conds, ops, eng), traces[t], test, i);
      assert t in full;
    }
  }

  /** A selector of one condition holds where the condition does. */
  lemma OneCondition(r: Interner, s: Span, c: SpanCondition, eng: Engine)
    requires SpanKnown(r, s)
    ensures WellFormed([c], []) && (Selected(r, s, [c], [], eng) <==> SpanMatches(r, s, c, eng))
  {
    assert Groups([c], []) == [[c]];
    assert [[c]][0] == [c] && [c][0] == c;
    if SpanMatches(r, s, c, eng) { assert AllMatch(r, s, [[c]][0], eng); }
  }

  ghost predicate SameTest(r: Interner, c: SpanCondition, eng: Engine, test: Span -> bool) {
    forall s :: SpanKnown(r, s) ==> (SpanMatches(r, s, c, eng) <==> test(s))
  }

  lemma OneConditionTests(r: Interner, c: SpanCondition, eng: Engine, test: Span -> bool)
    requires SameTest(r, c, eng, test)
    ensures Tests(r, [c], [], eng, test)
  {
    forall s | SpanKnown(r, s) ensures Selected(r, s, [c], [], eng) <==> test(s) { OneCondition(r, s, c, eng); }
  }

  /** The condition amounts to the test, and these are its answers. */
  ghost predicate Finds(r: Interner, traces: Traces, results: seq<TraceResult>, c: SpanCondition, eng: Engine, test: Span -> bool)
    requires WellFiled(r, traces)
  {
    Tests(r, [c], [], eng, test) && Answers(r, traces, results, test)
  }

  /** One condition, from its meaning on single spans to its answers. */
  lemma ConditionFinds(r: Interner, traces: Traces, results: seq<TraceResult>, c: SpanCondition, eng: Engine, test: Span -> bool)
    requires WellFiled(r, traces) && Lists(results, FullScan(r, traces, [c], [], eng))
    requires SameTest(r, c, eng, test)
    ensures Finds(r, traces, results, c, eng, test)
  {
    OneConditionTests(r, c, eng, test);
    ListedAnswers(r, traces, results, [c], [], eng, test);
  }

  // ------------------------------------------------------------ intrinsic fields

  /** A negative duration reads as zero. */
  lemma DurationAnswers(r: Interner, traces: Traces, results: seq<TraceResult>, op: CompareOp, n: nat, eng: Engine)
    requires WellFiled(r, traces) && Lists(results, FullScan(r, traces, [Duration(op, n)], [], eng))
    ensures op == Gt ==> Finds(r, traces, results, Duration(op, n), eng, (s: Span) => s.durationNs > n)
    ensures op == Gte ==> Finds(r, traces, results, Duration(op, n), eng, (s: Span) => s.durationNs >= n || n == 0)
    ensures op == Lt ==> Finds(r, traces, results, Duration(op, n), eng, (s: Span) => s.durationNs < n && n != 0)
    ensures op == Lte ==> Finds(r, traces, results, Duration(op, n), eng, (s: Span) => s.durationNs <= n)
    ensures op == Eq ==> Finds(r, traces, results, Duration(op, n), eng, (s: Span) => s.durationNs == n || (s.durationNs < 0 && n == 0))
    ensures op == Neq ==> Finds(r, traces, results, Duration(op, n), eng, (s: Span) => s.durationNs != n && (s.durationNs >= 0 || n != 0))
    ensures op == Regex ==> Finds(r, traces, results, Duration(op, n), eng, (s: Span) => false)
  {
    hide WellFiled, Lists, Finds, FullScan, SpanKnown;
    var test: Span -> bool := match op
      case Gt => (s: Span) => s.durationNs > n
      case Gte => (s: Span) => s.durationNs >= n || n == 0
      case Lt => (s: Span) => s.durationNs < n && n != 0
      case Lte => (s: Span) => s.durationNs <= n
      case Eq => (s: Span) => s.durationNs == n || (s.durationNs < 0 && n == 0)
      case Neq => (s: Span) => s.durationNs != n && (s.durationNs >= 0 || n != 0)
      case Regex => (s: Span) => false;
    ConditionFinds(r, traces, results, Duration(op, n), eng, test);
  }

  lemma StatusAnswers(r: Interner, traces: Traces, results: seq<TraceResult>, op: CompareOp, status: SpanStatus, eng: Engine)
    requires WellFiled(r, traces) && Lists(results, FullScan(r, traces, [Status(op, status)], [], eng))
    ensures op == Eq ==> Finds(r, traces, results, Status(op, status), eng, (s: Span) => s.status == status)
    ensures op == Neq ==> Finds(r, traces, results, Status(op, status), eng, (s: Span) => s.status != status)
    ensures op != Eq && op != Neq ==> Finds(r, traces, results, Status(op, status), eng, (s: Span) => false)
  {
    hide WellFiled, Lists, Finds, FullScan, SpanKnown;
    var test: Span -> bool := match op
      case Eq => (s: Span) => s.status == status
      case Neq => (s: Span) => s.status != status
      case _ => (s: Span) => false;
    ConditionFinds(r, traces, results, Status(op, status), eng, test);
  }

  lemma KindAnswers(r: Interner, traces: Traces, results: seq<TraceResult>, op: CompareOp, kind: SpanKind, eng: Engine)
    requires WellFiled(r, traces) && Lists(results, FullScan(r, traces, [Kind(op, kind)], [], eng))
    ensures op == Eq ==> Finds(r, traces, results, Kind(op, kind), eng, (s: Span) => s.kind == kind)
    ensures op == Neq ==> Finds(r, traces, results, Kind(op, kind), eng, (s: Span) => s.kind != kind)
    ensures op != Eq && op != Neq ==> Finds(r, traces, results, Kind(op, kind), eng, (s: Span) => false)
  {
    hide WellFiled, Lists, Finds, FullScan, SpanKnown;
    var test: Span -> bool := match op
      case Eq => (s: Span) => s.kind == kind
      case Neq => (s: Span) => s.kind != kind
      case _ => (s: Span) => false;
    ConditionFinds(r, traces, results, Kind(op, kind), eng, test);
  }

  // ------------------------------------------------------------------ strings

  /** `a` comes before `b`: they part at some position, where `a` ends or has the smaller character. */
  ghost predicate Precedes(a: string, b: string) {
    exists n: nat :: n <= |a| && n < |b| && a[..n] == b[..n] && (n == |a| || a[n] < b[n])
  }

  lemma {:induction false} LessIsPrecedes(a: string, b: string)
    ensures StringLess(a, b) <==> Precedes(a, b)
  {
    if a == "" && b != "" { assert a[..0] == b[..0]; }
    if a != "" && b != "" {
      LessIsPrecedes(a[1..], b[1..]);
      if a[0] < b[0] { assert a[..0] == b[..0]; }
      if a[0] == b[0] && Precedes(a[1..], b[1..]) {
        var n: nat :| n <= |a[1..]| && n < |b[1..]| && a[1..][..n] == b[1..][..n] && (n == |a[1..]| || a[1..][n] < b[1..][n]);
        assert a[..n + 1] == [a[0]] + a[1..][..n] && b[..n + 1] == [b[0]] + b[1..][..n];
      }
      if Precedes(a, b) && a[0] == b[0] {
        var n: nat :| n <= |a| && n < |b| && a[..n] == b[..n] && (n == |a| || a[n] < b[n]);
        assert a[1..][..n - 1] == a[..n][1..] && b[1..][..n - 1] == b[..n][1..];
      }
      if Precedes(a, b) && a[0] != b[0] {
        var n: nat :| n <= |a| && n < |b| && a[..n] == b[..n] && (n == |a| || a[n] < b[n]);
        assert n > 0 ==> a[..n][0] == b[..n][0];
      }
    }
  }

  /** What a text has to be for an operator to hold between it and `value`; `regex` tells what a pattern matches. */
  ghost predicate TextIs(op: CompareOp, value: string, regex: bool, text: string) {
    || (op == Eq && text == value)
    || (op == Neq && text != value)
    || (op == Gt && Precedes(value, text))
    || (op == Lt && Precedes(text, value))
    || (op == Gte && !Precedes(text, value))
    || (op == Lte && !Precedes(value, text))
    || (op == Regex && regex)
  }

  lemma {:induction false} PrecedesTotal(a: string, b: string)
    ensures !(StringLess(a, b) && StringLess(b, a))
    ensures a == b <==> !StringLess(a, b) && !StringLess(b, a)
  {
    if a != "" && b != "" {
      PrecedesTotal(a[1..], b[1..]);
      assert a == [a[0]] + a[1..] && b == [b[0]] + b[1..];
    }
  }

  lemma CompareMeansTextIs(op: CompareOp, value: string, pattern: Option<string>, eng: Engine, text: string)
    ensures CompareString(text, op, value, pattern, eng) <==> TextIs(op, value, pattern.Some? && eng.isMatch(pattern.value, text), text)
  {
    LessIsPrecedes(text, value);
    LessIsPrecedes(value, text);
    PrecedesTotal(text, value);
  }

  lemma RegexOnly(op: CompareOp, value: string, a: bool, b: bool, text: string)
    requires op == Regex ==> a == b
    ensures TextIs(op, value, a, text) <==> TextIs(op, value, b, text)
  {
  }

  /** The pattern compiles and matches. */
  ghost predicate Fits(eng: Engine, pattern: string, text: string) {
    eng.compiles(pattern) && eng.isMatch(pattern, text)
  }

  /** A span's name, its string compared code point by code point. */
  lemma NameAnswers(r: Interner, traces: Traces, results: seq<TraceResult>, op: CompareOp, value: string, eng: Engine)
    requires WellFiled(r, traces) && Lists(results, FullScan(r, traces, [Name(op, value)], [], eng))
    ensures Finds(r, traces, results, Name(op, value), eng, (s: Span) => r.Knows(s.name) && TextIs(op, value, Fits(eng, value, r.Resolve(s.name)), r.Resolve(s.name)))
  {
    hide WellFiled, Lists, Finds, FullScan, TextIs, CompareString;
    var test := (s: Span) => r.Knows(s.name) && TextIs(op, value, Fits(eng, value, r.Resolve(s.name)), r.Resolve(s.name));
    forall s | SpanKnown(r, s) ensures SpanMatches(r, s, Name(op, value), eng) <==> test(s) {
      NameMatches(r, s, op, value, eng);
    }
    ConditionFinds(r, traces, results, Name(op, value), eng, test);
  }

  lemma NameMatches(r: Interner, s: Span, op: CompareOp, value: string, eng: Engine)
    requires SpanKnown(r, s)
    ensures SpanMatches(r, s, Name(op, value), eng) <==> TextIs(op, value, Fits(eng, value, r.Resolve(s.name)), r.Resolve(s.name))
  {
    CompareMeansTextIs(op, value, PatternOf(Name(op, value), eng), eng, r.Resolve(s.name));
  }

  // --------------------------------------------------------------- attributes

  /** Attribute `i` is the first one under one of the keys. */
  ghost predicate FirstUnder(r: Interner, attributes: seq<Attribute>, keys: set<string>, i: nat) {
    && i < |attributes| && r.Knows(attributes[i].0) && r.Resolve(attributes[i].0) in keys
    && forall j :: 0 <= j < i ==> r.Knows(attributes[j].0) && r.Resolve(attributes[j].0) !in keys
  }

  ghost predicate NoneUnder(r: Interner, attributes: seq<Attribute>, keys: set<string>) {
    forall i :: 0 <= i < |attributes| ==> r.Knows(attributes[i].0) && r.Resolve(attributes[i].0) !in keys
  }

  /** The keys of a scoped attribute name: resource attributes are also found without their prefix. */
  ghost predicate KeysOf(scope: AttrScope, attr: string, keys: set<string>) {
    || (scope == SpanScope && keys == {"span." + attr})
    || (scope == ResourceScope && keys == {"resource." + attr, attr})
  }

  /** The number a value reads as; texts are parsed only where the target is an integer. */
  ghost predicate ReadsAs(r: Interner, v: AttributeValue, parseText: bool, eng: Engine, x: real) {
    || (v.IntValue? && x == v.i as real)
    || (v.FloatValue? && x == v.f)
    || (parseText && v.StringValue? && r.Knows(v.s) && eng.parseInt(r.Resolve(v.s)).Some? && x == eng.parseInt(r.Resolve(v.s)).value as real)
  }

  /** The first attribute under the keys reads as a number passing the test. */
  ghost predicate NumberUnder(r: Interner, s: Span, keys: set<string>, parseText: bool, eng: Engine, passes: real -> bool) {
    exists i: nat, x: real :: FirstUnder(r, s.attributes, keys, i) && ReadsAs(r, s.attributes[i].1, parseText, eng, x) && passes(x)
  }

  lemma FindIsFirstUnder(r: Interner, attributes: seq<Attribute>, scope: AttrScope, attr: string, keys: set<string>)
    requires AttributesKnown(r, attributes) && KeysOf(scope, attr, keys)
    ensures var found := FindAttribute(r, attributes, scope, attr);
            && (found.None? <==> NoneUnder(r, attributes, keys))
            && forall i: nat :: FirstUnder(r, attributes, keys, i) ==> found == Some(attributes[i].1)
    ensures FindAttribute(r, attributes, scope, attr).Some? ==> exists i: nat :: FirstUnder(r, attributes, keys, i)
  {
    forall key ensures IsKeyFor(scope, attr, key) <==> key in keys {}
    var found := FindAttribute(r, attributes, scope, attr);
    if found.Some? {
      var i: nat :| FirstAnswering(r, attributes, scope, attr, i) && attributes[i].1 == found.value;
      assert FirstUnder(r, attributes, keys, i);
      forall j: nat | FirstUnder(r, attributes, keys, j) ensures j == i {}
    }
  }

  /** Closer than the distance between 1 and the next double, which is 2 to the power -52. */
  ghost predicate Near(x: real, t: real) { -1.0 < (x - t) * 4503599627370496.0 < 1.0 }

  ghost predicate NumberIs(op: CompareOp, x: real, t: real) {
    || (op == Eq && Near(x, t))
    || (op == Neq && !Near(x, t))
    || (op == Gt && x > t)
    || (op == Lt && x < t)
    || (op == Gte && x >= t)
    || (op == Lte && x <= t)
  }

  /** Integers and floats compare alike, as numbers. */
  lemma CompareMeansNumberIs(r: Interner, v: AttributeValue, op: CompareOp, target: SpanValue, t: real, pattern: Option<string>, eng: Engine)
    requires v.StringValue? ==> r.Knows(v.s)
    requires (target.IntVal? && t == target.i as real) || target == FloatVal(t)
    ensures CompareAttribute(r, v, op, target, pattern, eng) <==> exists x: real :: ReadsAs(r, v, target.IntVal?, eng, x) && NumberIs(op, x, t)
  {
    if v.IntValue? {
      assert ReadsAs(r, v, target.IntVal?, eng, v.i as real);
      if target.IntVal? { WholeNear(v.i, target.i); }
    } else if v.FloatValue? {
      assert ReadsAs(r, v, target.IntVal?, eng, v.f);
    } else if v.StringValue? && target.IntVal? && eng.parseInt(r.Resolve(v.s)).Some? {
      assert ReadsAs(r, v, target.IntVal?, eng, eng.parseInt(r.Resolve(v.s)).value as real);
      WholeNear(eng.parseInt(r.Resolve(v.s)).value, target.i);
    }
  }

  lemma WholeNear(a: int, b: int)
    ensures Near(a as real, b as real) <==> a == b
  {
  }

  /** The first attribute under the keys reads as a number standing in relation `op` to `t`. */
  lemma NumberMatches(r: Interner, s: Span, scope: AttrScope, attr: string, op: CompareOp, target: SpanValue, t: real, keys: set<string>, eng: Engine,
                      passes: real -> bool)
    requires SpanKnown(r, s) && KeysOf(scope, attr, keys)
    requires (target.IntVal? && t == target.i as real) || target == FloatVal(t)
    requires forall x: real :: passes(x) <==> NumberIs(op, x, t)
    ensures SpanMatches(r, s, Attribute(scope, attr, op, target), eng)
       <==> || NumberUnder(r, s, keys, target.IntVal?, eng, passes)
            || (op == Neq && NoneUnder(r, s.attributes, keys))
  {
    hide KeysOf, FindAttribute, CompareAttribute, ReadsAs, NumberIs;
    FindIsFirstUnder(r, s.attributes, scope, attr, keys);
    var found := FindAttribute(r, s.attributes, scope, attr);
    if found.Some? {
      var i: nat :| FirstUnder(r, s.attributes, keys, i);
      CompareMeansNumberIs(r, found.value, op, target, t, PatternOf(Attribute(scope, attr, op, target), eng), eng);
      if SpanMatches(r, s, Attribute(scope, attr, op, target), eng) {
        var x: real :| ReadsAs(r, found.value, target.IntVal?, eng, x) && NumberIs(op, x, t);
        assert FirstUnder(r, s.attributes, keys, i) && ReadsAs(r, s.attributes[i].1, target.IntVal?, eng, x) && passes(x);
      }
    }
  }

  /** An attribute compared with a number: integers, floats and, for integers, texts that parse; none passes only `!=`. */
  lemma NumberAnswers(r: Interner, traces: Traces, results: seq<TraceResult>, scope: AttrScope, attr: string, op: CompareOp, target: SpanValue,
                      t: real, keys: set<string>, eng: Engine)
    requires WellFiled(r, traces) && Lists(results, FullScan(r, traces, [Attribute(scope, attr, op, target)], [], eng))
    requires KeysOf(scope, attr, keys)
    requires (target.IntVal? && t == target.i as real) || target == FloatVal(t)
    ensures op == Gt ==> Finds(r, traces, results, Attribute(scope, attr, op, target), eng, (s: Span) => NumberUnder(r, s, keys, target.IntVal?, eng, (x: real) => x > t))
    ensures op == Lt ==> Finds(r, traces, results, Attribute(scope, attr, op, target), eng, (s: Span) => NumberUnder(r, s, keys, target.IntVal?, eng, (x: real) => x < t))
    ensures op == Gte ==> Finds(r, traces, results, Attribute(scope, attr, op, target), eng, (s: Span) => NumberUnder(r, s, keys, target.IntVal?, eng, (x: real) => x >= t))
    ensures op == Lte ==> Finds(r, traces, results, Attribute(scope, attr, op, target), eng, (s: Span) => NumberUnder(r, s, keys, target.IntVal?, eng, (x: real) => x <= t))
    ensures op == Eq ==> Finds(r, traces, results, Attribute(scope, attr, op, target), eng, (s: Span) => NumberUnder(r, s, keys, target.IntVal?, eng, (x: real) => Near(x, t)))
    ensures op == Neq ==> Finds(r, traces, results, Attribute(scope, attr, op, target), eng, (s: Span) =>
      NumberUnder(r, s, keys, target.IntVal?, eng, (x: real) => !Near(x, t)) || NoneUnder(r, s.attributes, keys))
    ensures op == Regex ==> Finds(r, traces, results, Attribute(scope, attr, op, target), eng, (s: Span) => false)
  {
    hide WellFiled, Lists, Finds, FullScan, SpanKnown, KeysOf, FirstUnder, NoneUnder, ReadsAs, SpanMatches, Near;
    var c := Attribute(scope, attr, op, target);
    var p := target.IntVal?;
    var passes: real -> bool := match op
      case Gt => (x: real) => x > t
      case Lt => (x: real) => x < t
      case Gte => (x: real) => x >= t
      case Lte => (x: real) => x <= t
      case Eq => (x: real) => Near(x, t)
      case Neq => (x: real) => !Near(x, t)
      case Regex => (x: real) => false;
    var test: Span -> bool := match op
      case Neq => (s: Span) => NumberUnder(r, s, keys, p, eng, passes) || NoneUnder(r, s.attributes, keys)
      case Regex => (s: Span) => false
      case _ => (s: Span) => NumberUnder(r, s, keys, p, eng, passes);
    forall s | SpanKnown(r, s) ensures SpanMatches(r, s, c, eng) <==> test(s) {
      NumberMatches(r, s, scope, attr, op, target, t, keys, eng, passes);
    }
    ConditionFinds(r, traces, results, c, eng, test);
  }

  /** An attribute compared with a truth value: only equality and inequality are defined. */
  lemma BoolAnswers(r: Interner, traces: Traces, results: seq<TraceResult>, scope: AttrScope, attr: string, op: CompareOp, b: bool,
                    keys: set<string>, eng: Engine)
    requires WellFiled(r, traces) && Lists(results, FullScan(r, traces, [Attribute(scope, attr, op, BoolVal(b))], [], eng))
    requires KeysOf(scope, attr, keys)
    ensures op == Eq ==> Finds(r, traces, results, Attribute(scope, attr, op, BoolVal(b)), eng, (s: Span) =>
      exists i: nat :: FirstUnder(r, s.attributes, keys, i) && s.attributes[i].1 == BoolValue(b))
    ensures op == Neq ==> Finds(r, traces, results, Attribute(scope, attr, op, BoolVal(b)), eng, (s: Span) =>
      (exists i: nat :: FirstUnder(r, s.attributes, keys, i) && s.attributes[i].1 == BoolValue(!b)) || NoneUnder(r, s.attributes, keys))
    ensures op != Eq && op != Neq ==> Finds(r, traces, results, Attribute(scope, attr, op, BoolVal(b)), eng, (s: Span) => false)
  {
    hide WellFiled, Lists, Finds, FullScan, SpanKnown, KeysOf, FindAttribute;
    var c := Attribute(scope, attr, op, BoolVal(b));
    var test: Span -> bool := match op
      case Eq => (s: Span) => exists i: nat :: FirstUnder(r, s.attributes, keys, i) && s.attributes[i].1 == BoolValue(b)
      case Neq => (s: Span) =>
        (exists i: nat :: FirstUnder(r, s.attributes, keys, i) && s.attributes[i].1 == BoolValue(!b)) || NoneUnder(r, s.attributes, keys)
      case _ => (s: Span) => false;
    forall s | SpanKnown(r, s) ensures SpanMatches(r, s, c, eng) <==> test(s) {
      KnownAttributes(r, s);
      FindIsFirstUnder(r, s.attributes, scope, attr, keys);
    }
    ConditionFinds(r, traces, results, c, eng, test);
  }

  lemma KnownAttributes(r: Interner, s: Span)
    requires SpanKnown(r, s)
    ensures AttributesKnown(r, s.attributes)
  {
  }

  /** An attribute compared with a text. */
  lemma TextAnswers(r: Interner, traces: Traces, results: seq<TraceResult>, scope: AttrScope, attr: string, op: CompareOp, value: string,
                    keys: set<string>, eng: Engine)
    requires WellFiled(r, traces) && Lists(results, FullScan(r, traces, [Attribute(scope, attr, op, StringVal(value))], [], eng))
    requires KeysOf(scope, attr, keys)
    ensures Finds(r, traces, results, Attribute(scope, attr, op, StringVal(value)), eng, (s: Span) => TextUnder(r, s, keys, op, value, eng) || (op == Neq && NoneUnder(r, s.attributes, keys)))
  {
    hide WellFiled, Lists, Finds, FullScan, SpanKnown, KeysOf, FindAttribute, CompareString;
    var c := Attribute(scope, attr, op, StringVal(value));
    var test := (s: Span) => TextUnder(r, s, keys, op, value, eng) || (op == Neq && NoneUnder(r, s.attributes, keys));
    forall s | SpanKnown(r, s) ensures SpanMatches(r, s, c, eng) <==> test(s) {
      TextMatches(r, s, scope, attr, op, value, keys, eng);
    }
    ConditionFinds(r, traces, results, c, eng, test);
  }

  /** The first attribute under the keys is a text standing in relation `op` to `value`. */
  ghost predicate TextUnder(r: Interner, s: Span, keys: set<string>, op: CompareOp, value: string, eng: Engine) {
    exists i: nat :: FirstUnder(r, s.attributes, keys, i) && TextValueIs(r, s.attributes[i].1, op, value, eng)
  }

  ghost predicate TextValueIs(r: Interner, v: AttributeValue, op: CompareOp, value: string, eng: Engine) {
    v.StringValue? && r.Knows(v.s) && TextIs(op, value, Fits(eng, value, r.Resolve(v.s)), r.Resolve(v.s))
  }

  lemma TextMatches(r: Interner, s: Span, scope: AttrScope, attr: string, op: CompareOp, value: string, keys: set<string>, eng: Engine)
    requires SpanKnown(r, s) && KeysOf(scope, attr, keys)
    ensures SpanMatches(r, s, Attribute(scope, attr, op, StringVal(value)), eng)
       <==> TextUnder(r, s, keys, op, value, eng) || (op == Neq && NoneUnder(r, s.attributes, keys))
  {
    hide KeysOf, FindAttribute, CompareString, TextIs;
    FindIsFirstUnder(r, s.attributes, scope, attr, keys);
    var found := FindAttribute(r, s.attributes, scope, attr);
    if found.Some? {
      var i: nat :| FirstUnder(r, s.attributes, keys, i);
      assert s.attributes[i].1 == found.value;
      var pattern := PatternOf(Attribute(scope, attr, op, StringVal(value)), eng);
      if found.value.StringValue? {
        assert r.Knows(found.value.s);
        var text := r.Resolve(found.value.s);
        CompareMeansTextIs(op, value, pattern, eng, text);
        assert op == Regex ==> (Fits(eng, value, text) <==> pattern.Some? && eng.isMatch(pattern.value, text));
        assert CompareAttribute(r, found.value, op, StringVal(value), pattern, eng) <==> TextValueIs(r, found.value, op, value, eng) by {
          RegexOnly(op, value, Fits(eng, value, text), pattern.Some? && eng.isMatch(pattern.value, text), text);
        }
      }
    }
  }

  // ------------------------------------------------------------------- events

  /** Some event of the span has a name standing in relation `op` to `value`; patterns are not compiled here and match nothing. */
  lemma EventNameAnswers(r: Interner, traces: Traces, results: seq<TraceResult>, op: CompareOp, value: string, eng: Engine)
    requires WellFiled(r, traces) && Lists(results, FullScan(r, traces, [EventName(op, value)], [], eng))
    ensures Finds(r, traces, results, EventName(op, value), eng, (s: Span) =>
      exists i :: 0 <= i < |s.events| && r.Knows(s.events[i].name) && TextIs(op, value, false, r.Resolve(s.events[i].name)))
  {
    hide WellFiled, Lists, Finds, FullScan, TextIs, CompareString;
    var test := (s: Span) => exists i :: 0 <= i < |s.events| && r.Knows(s.events[i].name) && TextIs(op, value, false, r.Resolve(s.events[i].name));
    forall s | SpanKnown(r, s) ensures SpanMatches(r, s, EventName(op, value), eng) <==> test(s) {
      forall i | 0 <= i < |s.events|
        ensures CompareString(r.Resolve(s.events[i].name), op, value, None, eng) <==> TextIs(op, value, false, r.Resolve(s.events[i].name))
      {
        CompareMeansTextIs(op, value, None, eng, r.Resolve(s.events[i].name));
      }
    }
    ConditionFinds(r, traces, results, EventName(op, value), eng, test);
  }

  /** Attribute `j` of event `i` stands under the key. */
  ghost predicate EventAttrAt(r: Interner, s: Span, attr: string, i: nat, j: nat) {
    && i < |s.events| && j < |s.events[i].attributes|
    && r.Knows(s.events[i].attributes[j].0) && r.Resolve(s.events[i].attributes[j].0) == attr
  }

  /** A value stands in relation `op` to a target of its own kind, numbers counting as one kind. */
  ghost predicate ValueIs(r: Interner, v: AttributeValue, op: CompareOp, target: SpanValue, eng: Engine) {
    match target
    case StringVal(value) => v.StringValue? && r.Knows(v.s) && TextIs(op, value, false, r.Resolve(v.s))
    case IntVal(n) => exists x: real :: ReadsAs(r, v, true, eng, x) && NumberIs(op, x, n as real)
    case FloatVal(t) => exists x: real :: ReadsAs(r, v, false, eng, x) && NumberIs(op, x, t)
    case BoolVal(b) => (op == Eq && v == BoolValue(b)) || (op == Neq && v == BoolValue(!b))
  }

  lemma CompareMeansValueIs(r: Interner, v: AttributeValue, op: CompareOp, target: SpanValue, eng: Engine)
    requires v.StringValue? ==> r.Knows(v.s)
    ensures CompareAttribute(r, v, op, target, None, eng) <==> ValueIs(r, v, op, target, eng)
  {
    match target
    case StringVal(value) => if v.StringValue? { CompareMeansTextIs(op, value, None, eng, r.Resolve(v.s)); }
    case IntVal(n) => CompareMeansNumberIs(r, v, op, target, n as real, None, eng);
    case FloatVal(t) => CompareMeansNumberIs(r, v, op, target, t, None, eng);
    case BoolVal(b) =>
  }

  /** Any attribute under the key, of any event, may match; no event carrying the key passes only `!=`. */
  lemma EventAttributeAnswers(r: Interner, traces: Traces, results: seq<TraceResult>, attr: string, op: CompareOp, target: SpanValue, eng: Engine)
    requires WellFiled(r, traces) && Lists(results, FullScan(r, traces, [EventAttribute(attr, op, target)], [], eng))
    ensures Finds(r, traces, results, EventAttribute(attr, op, target), eng, (s: Span) =>
      || (exists i: nat, j: nat :: EventAttrAt(r, s, attr, i, j) && ValueIs(r, s.events[i].attributes[j].1, op, target, eng))
      || (op == Neq && !exists i: nat, j: nat :: EventAttrAt(r, s, attr, i, j)))
  {
    hide WellFiled, Lists, Finds, FullScan, ValueIs, SpanKnown, SpanMatches;
    var c := EventAttribute(attr, op, target);
    var test := (s: Span) =>
      || (exists i: nat, j: nat :: EventAttrAt(r, s, attr, i, j) && ValueIs(r, s.events[i].attributes[j].1, op, target, eng))
      || (op == Neq && !exists i: nat, j: nat :: EventAttrAt(r, s, attr, i, j));
    forall s | SpanKnown(r, s) ensures SpanMatches(r, s, c, eng) <==> test(s) {
      EventAttributeMatches(r, s, attr, op, target, eng);
    }
    ConditionFinds(r, traces, results, c, eng, test);
  }

  lemma EventAttributeMatches(r: Interner, s: Span, attr: string, op: CompareOp, target: SpanValue, eng: Engine)
    requires SpanKnown(r, s)
    ensures SpanMatches(r, s, EventAttribute(attr, op, target), eng)
       <==> || (exists i: nat, j: nat :: EventAttrAt(r, s, attr, i, j) && ValueIs(r, s.events[i].attributes[j].1, op, target, eng))
            || (op == Neq && !exists i: nat, j: nat :: EventAttrAt(r, s, attr, i, j))
  {
    SomeEventMatches(r, s, attr, op, target, eng);
    SomeEventCarries(r, s, attr);
  }

  lemma SomeEventMatches(r: Interner, s: Span, attr: string, op: CompareOp, target: SpanValue, eng: Engine)
    requires SpanKnown(r, s)
    ensures (exists i :: 0 <= i < |s.events| && EventMatches(r, s.events[i], attr, op, target, eng))
       <==> exists i: nat, j: nat :: EventAttrAt(r, s, attr, i, j) && ValueIs(r, s.events[i].attributes[j].1, op, target, eng)
  {
    hide ValueIs, CompareAttribute;
    if i: nat, j: nat :| EventAttrAt(r, s, attr, i, j) && ValueIs(r, s.events[i].attributes[j].1, op, target, eng) {
      CompareMeansValueIs(r, s.events[i].attributes[j].1, op, target, eng);
      assert EventMatches(r, s.events[i], attr, op, target, eng);
    }
    if i: nat :| i < |s.events| && EventMatches(r, s.events[i], attr, op, target, eng) {
      var j: nat :| j < |s.events[i].attributes| && r.Resolve(s.events[i].attributes[j].0) == attr
                 && CompareAttribute(r, s.events[i].attributes[j].1, op, target, None, eng);
      CompareMeansValueIs(r, s.events[i].attributes[j].1, op, target, eng);
      assert EventAttrAt(r, s, attr, i, j);
    }
  }

  lemma SomeEventCarries(r: Interner, s: Span, attr: string)
    requires SpanKnown(r, s)
    ensures (exists i :: 0 <= i < |s.events| && EventCarries(r, s.events[i], attr)) <==> exists i: nat, j: nat :: EventAttrAt(r, s, attr, i, j)
  {
    if i: nat, j: nat :| EventAttrAt(r, s, attr, i, j) {
      assert EventCarries(r, s.events[i], attr);
    }
    if i: nat :| i < |s.events| && EventCarries(r, s.events[i], attr) {
      var j: nat :| j < |s.events[i].attributes| && r.Resolve(s.events[i].attributes[j].0) == attr;
      assert EventAttrAt(r, s, attr, i, j);
    }
  }

  // ------------------------------------------------------------ whole selectors

  /** Conditions `a` to `b` are joined by `&&` and delimited by `||` or an end. */
  ghost predicate Run(ops: seq<LogicalOp>, a: nat, b: nat) {
    && a <= b <= |ops|
    && (a == 0 || ops[a - 1] == Or) && (b == |ops| || ops[b] == Or)
    && forall k :: a <= k < b ==> ops[k] == And
  }

  ghost predicate HoldsOn(r: Interner, s: Span, conds: seq<SpanCondition>, ops: seq<LogicalOp>, eng: Engine, a: nat, b: nat)
    requires SpanKnown(r, s) && |ops| + 1 == |conds|
  {
    Run(ops, a, b) && forall k :: a <= k <= b ==> SpanMatches(r, s, conds[k], eng)
  }

  lemma HoldsOnShift(r: Interner, s: Span, conds: seq<SpanCondition>, ops: seq<LogicalOp>, eng: Engine, a: nat, b: nat)
    requires SpanKnown(r, s) && |ops| + 1 == |conds| && ops != []
    ensures HoldsOn(r, s, conds, ops, eng, a + 1, b + 1) <==> HoldsOn(r, s, conds[1..], ops[1..], eng, a, b) && (a == 0 ==> ops[0] == Or)
    ensures HoldsOn(r, s, conds, ops, eng, 0, b + 1) <==> HoldsOn(r, s, conds[1..], ops[1..], eng, 0, b) && ops[0] == And && SpanMatches(r, s, conds[0], eng)
    ensures HoldsOn(r, s, conds, ops, eng, 0, 0) <==> ops[0] == Or && SpanMatches(r, s, conds[0], eng)
  {
    hide SpanMatches;
    var c', o' := conds[1..], ops[1..];
    assert forall k :: 0 <= k < |o'| ==> o'[k] == ops[k + 1];
    assert forall k :: 0 <= k < |c'| ==> c'[k] == conds[k + 1];
    if HoldsOn(r, s, conds, ops, eng, a + 1, b + 1) {
      forall k | a <= k < b ensures o'[k] == And { assert ops[k + 1] == And; }
      forall k | a <= k <= b ensures SpanMatches(r, s, c'[k], eng) { assert SpanMatches(r, s, conds[k + 1], eng); }
    }
    if HoldsOn(r, s, conds, ops, eng, 0, b + 1) {
      forall k | 0 <= k < b ensures o'[k] == And { assert ops[k + 1] == And; }
      forall k | 0 <= k <= b ensures SpanMatches(r, s, c'[k], eng) { assert SpanMatches(r, s, conds[k + 1], eng); }
    }
    if HoldsOn(r, s, c', o', eng, a, b) {
      forall k | a + 1 <= k < b + 1 ensures ops[k] == And { assert o'[k - 1] == And; }
      forall k | a + 1 <= k <= b + 1 ensures SpanMatches(r, s, conds[k], eng) { assert SpanMatches(r, s, c'[k - 1], eng); }
    }
    if HoldsOn(r, s, c', o', eng, 0, b) && ops[0] == And && SpanMatches(r, s, conds[0], eng) {
      forall k | 0 <= k < b + 1 ensures ops[k] == And { if k > 0 { assert o'[k - 1] == And; } }
      forall k | 0 <= k <= b + 1 ensures SpanMatches(r, s, conds[k], eng) { if k > 0 { assert SpanMatches(r, s, c'[k - 1], eng); } }
    }
  }

  /** The first group is the run from the first condition on; the others are the later runs. */
  lemma {:induction false} GroupsAreRuns(r: Interner, s: Span, conds: seq<SpanCondition>, ops: seq<LogicalOp>, eng: Engine)
    requires SpanKnown(r, s) && |ops| + 1 == |conds|
    ensures AllMatch(r, s, Groups(conds, ops)[0], eng) <==> exists b :: HoldsOn(r, s, conds, ops, eng, 0, b)
    ensures AnyGroupMatches(r, s, Groups(conds, ops)[1..], eng) <==> exists a: nat, b: nat :: a > 0 && HoldsOn(r, s, conds, ops, eng, a, b)
  {
    hide SpanMatches;
    if ops == [] {
      assert conds == [conds[0]];
      assert HoldsOn(r, s, conds, ops, eng, 0, 0) <==> SpanMatches(r, s, conds[0], eng);
      return;
    }
    var c', o' := conds[1..], ops[1..];
    var rest := Groups(c', o');
    GroupsAreRuns(r, s, c', o', eng);
    forall a: nat, b: nat
      ensures HoldsOn(r, s, conds, ops, eng, a + 1, b + 1) <==> HoldsOn(r, s, c', o', eng, a, b) && (a == 0 ==> ops[0] == Or)
      ensures HoldsOn(r, s, conds, ops, eng, 0, b + 1) <==> HoldsOn(r, s, c', o', eng, 0, b) && ops[0] == And && SpanMatches(r, s, conds[0], eng)
      ensures HoldsOn(r, s, conds, ops, eng, 0, 0) <==> ops[0] == Or && SpanMatches(r, s, conds[0], eng)
    {
      HoldsOnShift(r, s, conds, ops, eng, a, b);
    }
    AnyGroupCons(r, s, rest, eng);
    assert AllMatch(r, s, Groups(conds, ops)[0], eng) <==> SpanMatches(r, s, conds[0], eng) && (ops[0] == And ==> AllMatch(r, s, rest[0], eng)) by {
      AllMatchCons(r, s, Groups(conds, ops)[0], eng);
      if ops[0] == And { assert Groups(conds, ops)[0][1..] == rest[0]; }
    }
    if ops[0] == And { assert Groups(conds, ops)[1..] == rest[1..]; } else { assert Groups(conds, ops)[1..] == rest; }
    RunsShift(r, s, conds, ops, eng);
  }

  lemma RunsShift(r: Interner, s: Span, conds: seq<SpanCondition>, ops: seq<LogicalOp>, eng: Engine)
    requires SpanKnown(r, s) && |ops| + 1 == |conds| && ops != []
    ensures (exists b :: HoldsOn(r, s, conds, ops, eng, 0, b)) <==>
      SpanMatches(r, s, conds[0], eng) && (ops[0] == And ==> exists b :: HoldsOn(r, s, conds[1..], ops[1..], eng, 0, b))
    ensures (exists a: nat, b: nat :: a > 0 && HoldsOn(r, s, conds, ops, eng, a, b)) <==>
      || (ops[0] == Or && exists b :: HoldsOn(r, s, conds[1..], ops[1..], eng, 0, b))
      || exists a: nat, b: nat :: a > 0 && HoldsOn(r, s, conds[1..], ops[1..], eng, a, b)
  {
    hide SpanMatches, HoldsOn;
    HoldsOnShift(r, s, conds, ops, eng, 0, 0);
    if b: nat :| HoldsOn(r, s, conds, ops, eng, 0, b) { if b > 0 { HoldsOnShift(r, s, conds, ops, eng, 0, b - 1); } }
    if b: nat :| HoldsOn(r, s, conds[1..], ops[1..], eng, 0, b) { HoldsOnShift(r, s, conds, ops, eng, 0, b); }
    if a: nat, b: nat :| a > 0 && HoldsOn(r, s, conds[1..], ops[1..], eng, a, b) {
      HoldsOnShift(r, s, conds, ops, eng, a, b);
      assert a + 1 > 0 && HoldsOn(r, s, conds, ops, eng, a + 1, b + 1);
    }
    if a: nat, b: nat :| a > 0 && HoldsOn(r, s, conds, ops, eng, a, b) {
      RunOrder(r, s, conds, ops, eng, a, b);
      HoldsOnShift(r, s, conds, ops, eng, a - 1, b - 1);
    }
  }

  lemma RunOrder(r: Interner, s: Span, conds: seq<SpanCondition>, ops: seq<LogicalOp>, eng: Engine, a: nat, b: nat)
    requires SpanKnown(r, s) && |ops| + 1 == |conds| && HoldsOn(r, s, conds, ops, eng, a, b)
    ensures a <= b
  {
  }

  /**
    A selector finds the spans on which, somewhere between two `||`s or ends, every
    condition holds that is tested there; each condition counts as on its own.
   */
  lemma SelectorFinds(r: Interner, traces: Traces, results: seq<TraceResult>, conds: seq<SpanCondition>, ops: seq<LogicalOp>, eng: Engine,
                      tests: seq<Span -> bool>)
    requires WellFiled(r, traces) && WellFormed(conds, ops) && Lists(results, FullScan(r, traces, conds, ops, eng))
    requires |tests| == |conds| && forall k :: 0 <= k < |conds| ==> Tests(r, [conds[k]], [], eng, tests[k])
    ensures Answers(r, traces, results, (s: Span) => conds == [] || exists a: nat, b: nat :: RunPasses(ops, tests, s, a, b))
  {
    hide WellFiled, Lists, Answers, FullScan, SpanKnown, SpanMatches, Groups;
    var test := (s: Span) => conds == [] || exists a: nat, b: nat :: RunPasses(ops, tests, s, a, b);
    forall s | SpanKnown(r, s) ensures Selected(r, s, conds, ops, eng) <==> test(s) {
      if conds != [] { SelectedIffRunPasses(r, s, conds, ops, eng, tests); }
    }
    ListedAnswers(r, traces, results, conds, ops, eng, test);
  }

  ghost predicate RunPasses(ops: seq<LogicalOp>, tests: seq<Span -> bool>, s: Span, a: nat, b: nat) {
    |tests| == |ops| + 1 && Run(ops, a, b) && forall k :: a <= k <= b ==> tests[k](s)
  }

  lemma SelectedIffRunPasses(r: Interner, s: Span, conds: seq<SpanCondition>, ops: seq<LogicalOp>, eng: Engine, tests: seq<Span -> bool>)
    requires SpanKnown(r, s) && |ops| + 1 == |conds| == |tests|
    requires forall k :: 0 <= k < |conds| ==> Tests(r, [conds[k]], [], eng, tests[k])
    ensures Selected(r, s, conds, ops, eng) <==> exists a: nat, b: nat :: RunPasses(ops, tests, s, a, b)
  {
    hide SpanMatches, SpanKnown;
    AnyGroupCons(r, s, Groups(conds, ops), eng);
    GroupsAreRuns(r, s, conds, ops, eng);
    forall k | 0 <= k < |conds| ensures SpanMatches(r, s, conds[k], eng) <==> tests[k](s) { OneCondition(r, s, conds[k], eng); }
    forall a: nat, b: nat ensures HoldsOn(r, s, conds, ops, eng, a, b) <==> RunPasses(ops, tests, s, a, b) {}
    assert AnyGroupMatches(r, s, Groups(conds, ops), eng) <==> exists a: nat, b: nat :: HoldsOn(r, s, conds, ops, eng, a, b);
  }
}
