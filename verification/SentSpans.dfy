/** What a trace request sends, span by span, and what each span is prepared as. */
module SentSpans {
  import opened Options
  import opened Positions
  import opened StreamMaps
  import opened TraceIds
  import opened TraceIndexing

  datatype PreparedValue =
    | TextValue(text: string)
    | WholeValue(i: int)
    | RealValue(f: real)
    | FlagValue(b: bool)
    | RawBytes(bytes: seq<bv8>)
    | ListValue(items: seq<PreparedValue>)
    | PairsValue(pairs: seq<(string, PreparedValue)>)

  type PreparedAttr = (string, PreparedValue)

  datatype PreparedEvent = PreparedEvent(name: string, timeNs: I64, attributes: seq<PreparedAttr>)

  /** A span with everything still spelled out, its attributes in storage order. */
  datatype PreparedSpan = PreparedSpan(
    traceId: TraceId, spanId: SpanId, parentSpanId: Option<SpanId>, name: string, service: string,
    startTimeNs: I64, durationNs: I64, status: SpanStatus, kind: SpanKind,
    attributes: seq<PreparedAttr>, events: seq<PreparedEvent>, ingestSeq: nat)

  /** A span as sent; ids are `None` when malformed or all zero, times are unsigned. */
  datatype SentSpan = SentSpan(
    traceId: Option<TraceId>, spanId: Option<SpanId>, parentSpanId: Option<SpanId>, name: string,
    startUnixNano: nat, endUnixNano: nat, status: SpanStatus, kind: SpanKind,
    attributes: seq<PreparedAttr>, events: seq<PreparedEvent>)

  datatype ScopeSpans = ScopeSpans(name: string, version: string, attributes: seq<PreparedAttr>, spans: seq<SentSpan>)
  datatype ResourceSpans = ResourceSpans(labels: seq<(string, string)>, scopes: seq<ScopeSpans>)

  // ------------------------------------------------------------------ preparing

  /** The first `service.name` label, or "unknown". */
  function ServiceName(labels: seq<(string, string)>): string {
    if labels == [] then "unknown"
    else if labels[0].0 == "service.name" then labels[0].1
    else ServiceName(labels[1..])
  }

  function Prefixed(prefix: string, attrs: seq<PreparedAttr>): seq<PreparedAttr> {
    if attrs == [] then [] else [(prefix + attrs[0].0, attrs[0].1)] + Prefixed(prefix, attrs[1..])
  }

  function ResourceAttrs(labels: seq<(string, string)>): seq<PreparedAttr> {
    if labels == [] then [] else [("resource." + labels[0].0, TextValue(labels[0].1))] + ResourceAttrs(labels[1..])
  }

  function ScopeAttrs(scope: ScopeSpans): seq<PreparedAttr> {
    (if scope.name == "" then [] else [("scope.name", TextValue(scope.name))])
    + (if scope.version == "" then [] else [("scope.version", TextValue(scope.version))])
    + Prefixed("scope.", scope.attributes)
  }

  predicate Accepted(s: SentSpan) {
    s.traceId.Some? && s.spanId.Some?
  }

  function Prepare(labels: seq<(string, string)>, scope: ScopeSpans, s: SentSpan, ingestSeq: nat): PreparedSpan
    requires Accepted(s)
  {
    var start, end := SaturatingI64(s.startUnixNano), SaturatingI64(s.endUnixNano);
    PreparedSpan(s.traceId.value, s.spanId.value, s.parentSpanId, s.name, ServiceName(labels), start, end - start, s.status, s.kind,
                 ResourceAttrs(labels) + ScopeAttrs(scope) + Prefixed("span.", s.attributes), s.events, ingestSeq)
  }

  /** The accepted spans of one scope group, numbered from `next` on. */
  function PrepareSpans(labels: seq<(string, string)>, scope: ScopeSpans, spans: seq<SentSpan>, next: nat): seq<PreparedSpan> {
    if spans == [] then []
    else if Accepted(spans[0]) then
      [Prepare(labels, scope, spans[0], next)] + PrepareSpans(labels, scope, spans[1..], next + 1)
    else PrepareSpans(labels, scope, spans[1..], next)
  }

  function PrepareScopes(labels: seq<(string, string)>, scopes: seq<ScopeSpans>, next: nat): seq<PreparedSpan> {
    if scopes == [] then []
    else
      var first := PrepareSpans(labels, scopes[0], scopes[0].spans, next);
      first + PrepareScopes(labels, scopes[1..], next + |first|)
  }

  function PrepareAll(request: seq<ResourceSpans>, next: nat): seq<PreparedSpan> {
    if request == [] then []
    else
      var first := PrepareScopes(request[0].labels, request[0].scopes, next);
      first + PrepareAll(request[1..], next + |first|)
  }

  /** Sequence numbers are handed out one by one, in order. */
  ghost predicate NumberedFrom(spans: seq<PreparedSpan>, next: nat) {
    forall i :: 0 <= i < |spans| ==> spans[i].ingestSeq == next + i
  }

  lemma {:induction false} SpansNumbered(labels: seq<(string, string)>, scope: ScopeSpans, spans: seq<SentSpan>, next: nat)
    ensures NumberedFrom(PrepareSpans(labels, scope, spans, next), next)
  {
    if spans != [] { SpansNumbered(labels, scope, spans[1..], if Accepted(spans[0]) then next + 1 else next); }
  }

  lemma {:induction false} ScopesNumbered(labels: seq<(string, string)>, scopes: seq<ScopeSpans>, next: nat)
    ensures NumberedFrom(PrepareScopes(labels, scopes, next), next)
  {
    if scopes != [] {
      SpansNumbered(labels, scopes[0], scopes[0].spans, next);
      ScopesNumbered(labels, scopes[1..], next + |PrepareSpans(labels, scopes[0], scopes[0].spans, next)|);
    }
  }

  lemma {:induction false} AllNumbered(request: seq<ResourceSpans>, next: nat)
    ensures NumberedFrom(PrepareAll(request, next), next)
  {
    if request != [] {
      ScopesNumbered(request[0].labels, request[0].scopes, next);
      AllNumbered(request[1..], next + |PrepareScopes(request[0].labels, request[0].scopes, next)|);
    }
  }

  // -------------------------------------------------------------- what was sent

  /** One span as sent, with its scope and the labels of its resource. */
  datatype SentItem = SentItem(labels: seq<(string, string)>, scope: ScopeSpans, span: SentSpan)

  function ItemsOf(labels: seq<(string, string)>, scope: ScopeSpans, spans: seq<SentSpan>): (items: seq<SentItem>)
    ensures |items| == |spans| && forall i :: 0 <= i < |spans| ==> items[i] == SentItem(labels, scope, spans[i])
  {
    seq(|spans|, i requires 0 <= i < |spans| => SentItem(labels, scope, spans[i]))
  }

  function ItemsOfScopes(labels: seq<(string, string)>, scopes: seq<ScopeSpans>): seq<SentItem> {
    if scopes == [] then [] else ItemsOf(labels, scopes[0], scopes[0].spans) + ItemsOfScopes(labels, scopes[1..])
  }

  /** Everything a request sends, in order. */
  function SentItems(request: seq<ResourceSpans>): seq<SentItem> {
    if request == [] then [] else ItemsOfScopes(request[0].labels, request[0].scopes) + SentItems(request[1..])
  }

  /** Only spans with a usable trace id and span id are stored. */
  ghost predicate Usable(item: SentItem) {
    item.span.traceId.Some? && item.span.spanId.Some?
  }

  /** A sent time, capped to 63 bits. */
  ghost predicate Capped(sent: nat, time: int) {
    if sent <= 0x7FFF_FFFF_FFFF_FFFF then time == sent else time == 0x7FFF_FFFF_FFFF_FFFF
  }

  /** The service is the first `service.name` label; without one it is "unknown". */
  ghost predicate ServiceIs(labels: seq<(string, string)>, service: string) {
    || (exists i :: 0 <= i < |labels| && labels[i] == ("service.name", service) && forall j :: 0 <= j < i ==> labels[j].0 != "service.name")
    || (service == "unknown" && forall j :: 0 <= j < |labels| ==> labels[j].0 != "service.name")
  }

  /** The attributes a span is stored with: resource labels, scope and span attributes, each under its prefix. */
  ghost function SentAttributes(item: SentItem): seq<PreparedAttr> {
    seq(|item.labels|, i requires 0 <= i < |item.labels| => ("resource." + item.labels[i].0, TextValue(item.labels[i].1)))
    + (if item.scope.name != "" then [("scope.name", TextValue(item.scope.name))] else [])
    + (if item.scope.version != "" then [("scope.version", TextValue(item.scope.version))] else [])
    + seq(|item.scope.attributes|, i requires 0 <= i < |item.scope.attributes| =>
            ("scope." + item.scope.attributes[i].0, item.scope.attributes[i].1))
    + seq(|item.span.attributes|, i requires 0 <= i < |item.span.attributes| =>
            ("span." + item.span.attributes[i].0, item.span.attributes[i].1))
  }

  ghost predicate ItemFits(p: PreparedSpan, item: SentItem, n: nat) {
    && item.span.traceId == Some(p.traceId) && item.span.spanId == Some(p.spanId) && item.span.parentSpanId == p.parentSpanId
    && p.name == item.span.name && p.status == item.span.status && p.kind == item.span.kind && p.ingestSeq == n
    && Capped(item.span.startUnixNano, p.startTimeNs) && Capped(item.span.endUnixNano, p.startTimeNs + p.durationNs)
    && ServiceIs(item.labels, p.service)
    && p.attributes == SentAttributes(item) && p.events == item.span.events
  }

  /** The prepared spans are the usable ones sent, one for one and in order. */
  ghost predicate AllFit(ps: seq<PreparedSpan>, items: seq<SentItem>, next: nat, at: seq<nat>) {
    && PositionsOf(items, Usable, at) && |at| == |ps|
    && forall k :: 0 <= k < |ps| ==> ItemFits(ps[k], items[at[k]], next + k)
  }

  lemma {:induction false} ServiceNameFits(labels: seq<(string, string)>)
    ensures ServiceIs(labels, ServiceName(labels))
  {
    if labels != [] && labels[0].0 != "service.name" {
      ServiceNameFits(labels[1..]);
      if i :| 0 <= i < |labels| - 1 && labels[1..][i] == ("service.name", ServiceName(labels)) && forall j :: 0 <= j < i ==> labels[1..][j].0 != "service.name" {
        assert labels[i + 1] == ("service.name", ServiceName(labels));
        forall j | 0 <= j < i + 1 ensures labels[j].0 != "service.name" { if j > 0 { assert labels[j] == labels[1..][j - 1]; } }
      } else {
        forall j | 0 <= j < |labels| ensures labels[j].0 != "service.name" { if j > 0 { assert labels[j] == labels[1..][j - 1]; } }
      }
    }
  }

  lemma {:induction false} PrefixedEach(prefix: string, attrs: seq<PreparedAttr>)
    ensures Prefixed(prefix, attrs) == seq(|attrs|, i requires 0 <= i < |attrs| => (prefix + attrs[i].0, attrs[i].1))
  {
    if attrs != [] { PrefixedEach(prefix, attrs[1..]); }
  }

  lemma {:induction false} ResourceEach(labels: seq<(string, string)>)
    ensures ResourceAttrs(labels) == seq(|labels|, i requires 0 <= i < |labels| => ("resource." + labels[i].0, TextValue(labels[i].1)))
  {
    if labels != [] { ResourceEach(labels[1..]); }
  }

  lemma PrepareFits(labels: seq<(string, string)>, scope: ScopeSpans, s: SentSpan, n: nat)
    requires Accepted(s)
    ensures ItemFits(Prepare(labels, scope, s, n), SentItem(labels, scope, s), n)
  {
    ServiceNameFits(labels);
    ResourceEach(labels);
    PrefixedEach("scope.", scope.attributes);
    PrefixedEach("span.", s.attributes);
  }

  lemma FitNothing(next: nat)
    ensures AllFit([], [], next, [])
  {
  }

  lemma FitAppend(ps: seq<PreparedSpan>, qs: seq<PreparedSpan>, a: seq<SentItem>, b: seq<SentItem>, next: nat, at: seq<nat>, bt: seq<nat>)
    requires AllFit(ps, a, next, at) && AllFit(qs, b, next + |ps|, bt)
    ensures AllFit(ps + qs, a + b, next, at + Shifted(bt, |a|))
  {
    hide ItemFits, PositionsOf;
    PositionsAppend(a, b, Usable, at, bt);
    PositionsInRange(a, Usable, at);
    PositionsInRange(b, Usable, bt);
    PositionsInRange(a + b, Usable, at + Shifted(bt, |a|));
    forall k | 0 <= k < |ps + qs| ensures ItemFits((ps + qs)[k], (a + b)[(at + Shifted(bt, |a|))[k]], next + k) {
      if k >= |ps| { assert ItemFits(qs[k - |ps|], b[bt[k - |ps|]], next + |ps| + (k - |ps|)); }
    }
  }

  lemma FitOne(labels: seq<(string, string)>, scope: ScopeSpans, s: SentSpan, next: nat) returns (at: seq<nat>)
    ensures AllFit(if Accepted(s) then [Prepare(labels, scope, s, next)] else [], [SentItem(labels, scope, s)], next, at)
  {
    at := if Accepted(s) then [0] else [];
    PositionsOfOne(SentItem(labels, scope, s), Usable);
    if Accepted(s) { PrepareFits(labels, scope, s, next); }
  }

  lemma {:induction false} SpansFit(labels: seq<(string, string)>, scope: ScopeSpans, spans: seq<SentSpan>, next: nat) returns (at: seq<nat>)
    ensures AllFit(PrepareSpans(labels, scope, spans, next), ItemsOf(labels, scope, spans), next, at)
  {
    hide AllFit, Prepare;
    if spans == [] {
      FitNothing(next);
      at := [];
      assert ItemsOf(labels, scope, spans) == [];
    } else {
      var one := if Accepted(spans[0]) then [Prepare(labels, scope, spans[0], next)] else [];
      var front := FitOne(labels, scope, spans[0], next);
      var back := SpansFit(labels, scope, spans[1..], next + |one|);
      FitAppend(one, PrepareSpans(labels, scope, spans[1..], next + |one|), [SentItem(labels, scope, spans[0])],
                ItemsOf(labels, scope, spans[1..]), next, front, back);
      at := front + Shifted(back, 1);
      assert ItemsOf(labels, scope, spans) == [SentItem(labels, scope, spans[0])] + ItemsOf(labels, scope, spans[1..]);
      assert [] + PrepareSpans(labels, scope, spans[1..], next) == PrepareSpans(labels, scope, spans[1..], next);
    }
  }

  lemma {:induction false} ScopesFit(labels: seq<(string, string)>, scopes: seq<ScopeSpans>, next: nat) returns (at: seq<nat>)
    ensures AllFit(PrepareScopes(labels, scopes, next), ItemsOfScopes(labels, scopes), next, at)
  {
    hide AllFit;
    if scopes == [] {
      FitNothing(next);
      at := [];
    } else {
      var first := PrepareSpans(labels, scopes[0], scopes[0].spans, next);
      var front := SpansFit(labels, scopes[0], scopes[0].spans, next);
      var back := ScopesFit(labels, scopes[1..], next + |first|);
      var items := ItemsOf(labels, scopes[0], scopes[0].spans);
      FitAppend(first, PrepareScopes(labels, scopes[1..], next + |first|), items, ItemsOfScopes(labels, scopes[1..]), next, front, back);
      at := front + Shifted(back, |items|);
    }
  }

  /** Exactly the usable spans of a request are prepared, in order, each as what was sent. */
  lemma {:induction false} RequestFits(request: seq<ResourceSpans>, next: nat) returns (at: seq<nat>)
    ensures AllFit(PrepareAll(request, next), SentItems(request), next, at)
  {
    hide AllFit;
    if request == [] {
      FitNothing(next);
      at := [];
    } else {
      var first := PrepareScopes(request[0].labels, request[0].scopes, next);
      var front := ScopesFit(request[0].labels, request[0].scopes, next);
      var back := RequestFits(request[1..], next + |first|);
      var items := ItemsOfScopes(request[0].labels, request[0].scopes);
      FitAppend(first, PrepareAll(request[1..], next + |first|), items, SentItems(request[1..]), next, front, back);
      at := front + Shifted(back, |items|);
    }
  }
}
