/**
  OTLP trace ingestion: spans are prepared as strings, then interned under the
  store's write lock and stored.  Every stored span carries its resource
  attributes first, which ties its `resource.service.name` to its service.
 */
module IngestTraces {
  import opened Options
  import opened Interning
  import opened Positions
  import opened SentSpans
  import opened SpanConditions
  import opened StableSorting
  import opened TraceIds
  import opened TraceIndexing
  import opened TraceNarrowing
  import opened TraceStore

  // ----------------------------------------------------------- the service link

  /** The first attribute that answers to `resource.service.name`. */
  function FindService(attrs: seq<PreparedAttr>): Option<PreparedValue> {
    if attrs == [] then None
    else if IsKeyFor(ResourceScope, "service.name", attrs[0].0) then Some(attrs[0].1)
    else FindService(attrs[1..])
  }

  /** It is absent, or it is the span's service. */
  ghost predicate PreparedLinked(p: PreparedSpan) {
    FindService(p.attributes).None? || FindService(p.attributes) == Some(TextValue(p.service))
  }

  lemma {:induction false} FindServiceAppend(xs: seq<PreparedAttr>, ys: seq<PreparedAttr>)
    ensures FindService(xs + ys) == if FindService(xs).Some? then FindService(xs) else FindService(ys)
  {
    if xs == [] {
      assert xs + ys == ys;
    } else {
      assert (xs + ys)[1..] == xs[1..] + ys;
      FindServiceAppend(xs[1..], ys);
    }
  }

  lemma ResourceKey(k: string)
    ensures IsKeyFor(ResourceScope, "service.name", "resource." + k) <==> k == "service.name"
  {
    assert ("resource." + k)[9..] == k;
    assert ("resource." + "service.name")[9..] == "service.name";
    assert ("resource." + k)[0] == 'r' && "service.name"[0] == 's';
  }

  lemma ForeignKey(prefix: string, k: string)
    requires prefix == "scope." || prefix == "span."
    ensures !IsKeyFor(ResourceScope, "service.name", prefix + k)
  {
    assert (prefix + k)[0] == 's' && ("resource." + "service.name")[0] == 'r';
    assert (prefix + k)[1] != 'e' && "service.name"[1] == 'e';
  }

  lemma {:induction false} FindServiceInResource(labels: seq<(string, string)>)
    ensures var found := FindService(ResourceAttrs(labels));
            found.None? || found == Some(TextValue(ServiceName(labels)))
  {
    if labels != [] {
      ResourceKey(labels[0].0);
      FindServiceInResource(labels[1..]);
    }
  }

  lemma {:induction false} NoServiceInPrefixed(prefix: string, attrs: seq<PreparedAttr>)
    requires prefix == "scope." || prefix == "span."
    ensures FindService(Prefixed(prefix, attrs)).None?
  {
    if attrs != [] {
      ForeignKey(prefix, attrs[0].0);
      NoServiceInPrefixed(prefix, attrs[1..]);
    }
  }

  lemma NoServiceInScope(scope: ScopeSpans)
    ensures FindService(ScopeAttrs(scope)).None?
  {
    var name := if scope.name == "" then [] else [("scope.name", TextValue(scope.name))];
    var version := if scope.version == "" then [] else [("scope.version", TextValue(scope.version))];
    ForeignKey("scope.", "name");
    ForeignKey("scope.", "version");
    assert "scope." + "name" == "scope.name" && "scope." + "version" == "scope.version";
    NoServiceInPrefixed("scope.", scope.attributes);
    FindServiceAppend(name, version);
    FindServiceAppend(name + version, Prefixed("scope.", scope.attributes));
  }

  /** Preparation puts the resource attributes first and prefixes every key. */
  lemma PrepareLinks(labels: seq<(string, string)>, scope: ScopeSpans, s: SentSpan, ingestSeq: nat)
    requires Accepted(s)
    ensures PreparedLinked(Prepare(labels, scope, s, ingestSeq))
  {
    FindServiceInResource(labels);
    NoServiceInScope(scope);
    NoServiceInPrefixed("span.", s.attributes);
    FindServiceAppend(ResourceAttrs(labels), ScopeAttrs(scope));
    FindServiceAppend(ResourceAttrs(labels) + ScopeAttrs(scope), Prefixed("span.", s.attributes));
  }

  ghost predicate AllPreparedLinked(ps: seq<PreparedSpan>) {
    forall i :: 0 <= i < |ps| ==> PreparedLinked(ps[i])
  }

  lemma {:induction false} SpansLinked(labels: seq<(string, string)>, scope: ScopeSpans, spans: seq<SentSpan>, next: nat)
    ensures AllPreparedLinked(PrepareSpans(labels, scope, spans, next))
  {
    if spans != [] {
      SpansLinked(labels, scope, spans[1..], if Accepted(spans[0]) then next + 1 else next);
      if Accepted(spans[0]) { PrepareLinks(labels, scope, spans[0], next); }
    }
  }

  lemma {:induction false} ScopesLinked(labels: seq<(string, string)>, scopes: seq<ScopeSpans>, next: nat)
    ensures AllPreparedLinked(PrepareScopes(labels, scopes, next))
  {
    if scopes != [] {
      SpansLinked(labels, scopes[0], scopes[0].spans, next);
      ScopesLinked(labels, scopes[1..], next + |PrepareSpans(labels, scopes[0], scopes[0].spans, next)|);
    }
  }

  lemma {:induction false} AllLinkedPrepared(request: seq<ResourceSpans>, next: nat)
    ensures AllPreparedLinked(PrepareAll(request, next))
  {
    if request != [] {
      ScopesLinked(request[0].labels, request[0].scopes, next);
      AllLinkedPrepared(request[1..], next + |PrepareScopes(request[0].labels, request[0].scopes, next)|);
    }
  }

  // ------------------------------------------------------------------ interning

  function InternValue(r: Interner, v: PreparedValue): (Interner, AttributeValue)
    decreases v, 1
  {
    match v
    case TextValue(text) => (r.Intern(text), StringValue(SpurOf(r.Intern(text), text)))
    case WholeValue(i) => (r, IntValue(i))
    case RealValue(f) => (r, FloatValue(f))
    case FlagValue(b) => (r, BoolValue(b))
    case RawBytes(bytes) => (r, BytesValue(bytes))
    case ListValue(items) => var (r', vs) := InternItems(r, items); (r', ArrayValue(vs))
    case PairsValue(pairs) => var (r', ps) := InternPairs(r, pairs); (r', KeyValueList(ps))
  }

  function InternItems(r: Interner, items: seq<PreparedValue>): (Interner, seq<AttributeValue>)
    decreases items, 0
  {
    if items == [] then (r, [])
    else
      var (r1, v) := InternValue(r, items[0]);
      var (r2, vs) := InternItems(r1, items[1..]);
      (r2, [v] + vs)
  }

  function InternPairs(r: Interner, pairs: seq<PreparedAttr>): (Interner, seq<Attribute>)
    decreases pairs, 0
  {
    if pairs == [] then (r, [])
    else
      var (r1, p) := InternPair(r, pairs[0]);
      var (r2, ps) := InternPairs(r1, pairs[1..]);
      (r2, [p] + ps)
  }

  function InternPair(r: Interner, p: PreparedAttr): (Interner, Attribute)
    decreases p, 2
  {
    var k := r.Intern(p.0);
    var (r1, v) := InternValue(k, p.1);
    (r1, (SpurOf(k, p.0), v))
  }

  /** The spur of a string just interned. */
  function SpurOf(r: Interner, s: string): Spur {
    match r.Get(s) case Some(k) => k case None => 0
  }

  lemma {:induction false} InternValueGrows(r: Interner, v: PreparedValue)
    requires r.Valid()
    ensures InternValue(r, v).0.Valid() && InternValue(r, v).0.GrownFrom(r)
    decreases v, 1
  {
    match v {
      case TextValue(text) => r.InternCorrect(text);
      case ListValue(items) => InternItemsGrows(r, items);
      case PairsValue(pairs) => InternPairsGrows(r, pairs);
      case _ =>
    }
  }

  lemma {:induction false} InternItemsGrows(r: Interner, items: seq<PreparedValue>)
    requires r.Valid()
    ensures InternItems(r, items).0.Valid() && InternItems(r, items).0.GrownFrom(r)
    decreases items, 0
  {
    if items != [] {
      InternValueGrows(r, items[0]);
      InternItemsGrows(InternValue(r, items[0]).0, items[1..]);
    }
  }

  lemma {:induction false} InternPairsGrows(r: Interner, pairs: seq<PreparedAttr>)
    requires r.Valid()
    ensures InternPairs(r, pairs).0.Valid() && InternPairs(r, pairs).0.GrownFrom(r)
    decreases pairs, 0
  {
    if pairs != [] {
      InternPairGrows(r, pairs[0]);
      InternPairsGrows(InternPair(r, pairs[0]).0, pairs[1..]);
    }
  }

  lemma {:induction false} InternPairGrows(r: Interner, p: PreparedAttr)
    requires r.Valid()
    ensures InternPair(r, p).0.Valid() && InternPair(r, p).0.GrownFrom(r)
    decreases p, 2
  {
    r.InternCorrect(p.0);
    InternValueGrows(r.Intern(p.0), p.1);
  }

  /** The stored value spells out the prepared one, all the way down. */
  ghost predicate EncodesValue(r: Interner, v: AttributeValue, p: PreparedValue)
    decreases p
  {
    match p
    case TextValue(text) => v.StringValue? && r.Knows(v.s) && r.Resolve(v.s) == text
    case WholeValue(i) => v == IntValue(i)
    case RealValue(f) => v == FloatValue(f)
    case FlagValue(b) => v == BoolValue(b)
    case RawBytes(bytes) => v == BytesValue(bytes)
    case ListValue(items) =>
      v.ArrayValue? && |v.items| == |items| && forall i :: 0 <= i < |items| ==> EncodesValue(r, v.items[i], items[i])
    case PairsValue(pairs) =>
      && v.KeyValueList? && |v.pairs| == |pairs|
      && forall i :: 0 <= i < |pairs| ==>
        r.Knows(v.pairs[i].0) && r.Resolve(v.pairs[i].0) == pairs[i].0 && EncodesValue(r, v.pairs[i].1, pairs[i].1)
  }

  lemma {:induction false} EncodesValueGrown(earlier: Interner, later: Interner, v: AttributeValue, p: PreparedValue)
    requires later.GrownFrom(earlier) && EncodesValue(earlier, v, p)
    ensures EncodesValue(later, v, p)
    decreases p
  {
    match p {
      case ListValue(items) =>
        forall i | 0 <= i < |items| ensures EncodesValue(later, v.items[i], items[i]) {
          EncodesValueGrown(earlier, later, v.items[i], items[i]);
        }
      case PairsValue(pairs) =>
        forall i | 0 <= i < |pairs|
          ensures later.Knows(v.pairs[i].0) && later.Resolve(v.pairs[i].0) == pairs[i].0 && EncodesValue(later, v.pairs[i].1, pairs[i].1)
        {
          EncodesValueGrown(earlier, later, v.pairs[i].1, pairs[i].1);
        }
      case _ =>
    }
  }

  /** A stored value spells out one prepared value only. */
  lemma {:induction false} EncodedValueUnique(r: Interner, v: AttributeValue, p: PreparedValue, q: PreparedValue)
    requires EncodesValue(r, v, p) && EncodesValue(r, v, q)
    ensures p == q
    decreases p
  {
    match p {
      case ListValue(items) =>
        forall i | 0 <= i < |items| ensures items[i] == q.items[i] {
          EncodedValueUnique(r, v.items[i], items[i], q.items[i]);
        }
      case PairsValue(pairs) =>
        forall i | 0 <= i < |pairs| ensures pairs[i] == q.pairs[i] {
          EncodedValueUnique(r, v.pairs[i].1, pairs[i].1, q.pairs[i].1);
        }
      case _ =>
    }
  }

  /** One stored attribute spells out one prepared attribute. */
  ghost predicate Encodes(r: Interner, a: Attribute, p: PreparedAttr) {
    r.Knows(a.0) && r.Resolve(a.0) == p.0 && EncodesValue(r, a.1, p.1)
  }

  lemma EncodesGrown(earlier: Interner, later: Interner, a: Attribute, p: PreparedAttr)
    requires later.GrownFrom(earlier) && Encodes(earlier, a, p)
    ensures Encodes(later, a, p)
  {
    EncodesValueGrown(earlier, later, a.1, p.1);
  }

  /** Interning a value, whatever it nests, spells it out. */
  lemma {:induction false} InternValueEncodes(r: Interner, v: PreparedValue)
    requires r.Valid()
    ensures EncodesValue(InternValue(r, v).0, InternValue(r, v).1, v)
    decreases v, 1
  {
    match v {
      case TextValue(text) => r.InternCorrect(text);
      case ListValue(items) => InternItemsEncodes(r, items);
      case PairsValue(pairs) => InternPairsEncodes(r, pairs);
      case _ =>
    }
  }

  lemma {:induction false} InternItemsEncodes(r: Interner, items: seq<PreparedValue>)
    requires r.Valid()
    ensures var (r', vs) := InternItems(r, items);
            |vs| == |items| && forall i :: 0 <= i < |items| ==> EncodesValue(r', vs[i], items[i])
    decreases items, 0
  {
    if items != [] {
      var (r1, v) := InternValue(r, items[0]);
      var (r2, vs) := InternItems(r1, items[1..]);
      InternValueEncodes(r, items[0]);
      InternValueGrows(r, items[0]);
      InternItemsEncodes(r1, items[1..]);
      InternItemsGrows(r1, items[1..]);
      EncodesValueGrown(r1, r2, v, items[0]);
      var all := [v] + vs;
      forall i | 0 <= i < |items| ensures EncodesValue(r2, all[i], items[i]) {
        if i > 0 { assert all[i] == vs[i - 1] && items[i] == items[1..][i - 1]; }
      }
    }
  }

  lemma {:induction false} InternPairsEncodes(r: Interner, pairs: seq<PreparedAttr>)
    requires r.Valid()
    ensures EncodesAll(InternPairs(r, pairs).0, InternPairs(r, pairs).1, pairs)
    decreases pairs, 0
  {
    if pairs != [] {
      var (r1, a) := InternPair(r, pairs[0]);
      var (r2, xs) := InternPairs(r1, pairs[1..]);
      InternPairEncodes(r, pairs[0]);
      InternPairGrows(r, pairs[0]);
      InternPairsEncodes(r1, pairs[1..]);
      InternPairsGrows(r1, pairs[1..]);
      EncodesGrown(r1, r2, a, pairs[0]);
      var all := [a] + xs;
      forall i | 0 <= i < |pairs| ensures Encodes(r2, all[i], pairs[i]) {
        if i > 0 { assert all[i] == xs[i - 1] && pairs[i] == pairs[1..][i - 1]; }
      }
    }
  }

  lemma {:induction false} InternPairEncodes(r: Interner, p: PreparedAttr)
    requires r.Valid()
    ensures Encodes(InternPair(r, p).0, InternPair(r, p).1, p)
    decreases p, 2
  {
    r.InternCorrect(p.0);
    InternValueEncodes(r.Intern(p.0), p.1);
    InternValueGrows(r.Intern(p.0), p.1);
  }

  ghost predicate EncodesAll(r: Interner, xs: seq<Attribute>, ps: seq<PreparedAttr>) {
    |xs| == |ps| && forall i :: 0 <= i < |xs| ==> Encodes(r, xs[i], ps[i])
  }

  lemma EncodesAllGrown(earlier: Interner, later: Interner, xs: seq<Attribute>, ps: seq<PreparedAttr>)
    requires later.GrownFrom(earlier) && EncodesAll(earlier, xs, ps)
    ensures EncodesAll(later, xs, ps)
  {
    forall i | 0 <= i < |xs| ensures Encodes(later, xs[i], ps[i]) {
      assert Encodes(earlier, xs[i], ps[i]);
      EncodesGrown(earlier, later, xs[i], ps[i]);
    }
  }

  method InternAttributes(r: Interner, attrs: seq<PreparedAttr>) returns (r': Interner, xs: seq<Attribute>)
    requires r.Valid()
    ensures r'.Valid() && r'.GrownFrom(r) && EncodesAll(r', xs, attrs)
  {
    r', xs := r, [];
    for n := 0 to |attrs|
      invariant r'.Valid() && r'.GrownFrom(r) && EncodesAll(r', xs, attrs[..n])
    {
      ghost var before := r';
      var a;
      r', a := InternAttribute(r', attrs[n]);
      EncodesAllGrown(before, r', xs, attrs[..n]);
      assert attrs[..n + 1] == attrs[..n] + [attrs[n]];
      xs := xs + [a];
    }
    assert attrs[..|attrs|] == attrs;
  }

  method InternAttribute(r: Interner, p: PreparedAttr) returns (r': Interner, a: Attribute)
    requires r.Valid()
    ensures r'.Valid() && r'.GrownFrom(r) && Encodes(r', a, p)
  {
    InternPairGrows(r, p);
    InternPairEncodes(r, p);
    var pair := InternPair(r, p);
    r', a := pair.0, pair.1;
  }

  ghost predicate EncodesEvent(r: Interner, e: SpanEvent, p: PreparedEvent) {
    r.Knows(e.name) && r.Resolve(e.name) == p.name && e.timeNs == p.timeNs && EncodesAll(r, e.attributes, p.attributes)
  }

  ghost predicate EncodesEvents(r: Interner, es: seq<SpanEvent>, ps: seq<PreparedEvent>) {
    |es| == |ps| && forall i :: 0 <= i < |es| ==> EncodesEvent(r, es[i], ps[i])
  }

  /** The stored span says exactly what was prepared. */
  ghost predicate EncodesSpan(r: Interner, s: Span, p: PreparedSpan) {
    && s.traceId == p.traceId && s.spanId == p.spanId && s.parentSpanId == p.parentSpanId
    && r.Knows(s.name) && r.Resolve(s.name) == p.name
    && r.Knows(s.serviceName) && r.Resolve(s.serviceName) == p.service
    && s.startTimeNs == p.startTimeNs && s.durationNs == p.durationNs && s.status == p.status && s.kind == p.kind
    && s.ingestSeq == p.ingestSeq
    && EncodesAll(r, s.attributes, p.attributes)
    && EncodesEvents(r, s.events, p.events)
  }

  lemma EncodesEventsGrown(earlier: Interner, later: Interner, es: seq<SpanEvent>, ps: seq<PreparedEvent>)
    requires later.GrownFrom(earlier) && EncodesEvents(earlier, es, ps)
    ensures EncodesEvents(later, es, ps)
  {
    forall i | 0 <= i < |es| ensures EncodesEvent(later, es[i], ps[i]) {
      assert EncodesEvent(earlier, es[i], ps[i]);
      EncodesAllGrown(earlier, later, es[i].attributes, ps[i].attributes);
    }
  }

  lemma EncodesSpanGrown(earlier: Interner, later: Interner, s: Span, p: PreparedSpan)
    requires later.GrownFrom(earlier) && EncodesSpan(earlier, s, p)
    ensures EncodesSpan(later, s, p)
  {
    EncodesAllGrown(earlier, later, s.attributes, p.attributes);
    EncodesEventsGrown(earlier, later, s.events, p.events);
  }

  method InternEvents(r: Interner, events: seq<PreparedEvent>) returns (r': Interner, es: seq<SpanEvent>)
    requires r.Valid()
    ensures r'.Valid() && r'.GrownFrom(r) && EncodesEvents(r', es, events)
  {
    hide EncodesAll, Interner.Valid;
    r', es := r, [];
    for n := 0 to |events|
      invariant r'.Valid() && r'.GrownFrom(r) && EncodesEvents(r', es, events[..n])
    {
      ghost var before := r';
      var k := r'.Intern(events[n].name);
      r'.InternCorrect(events[n].name);
      var xs;
      r', xs := InternAttributes(k, events[n].attributes);
      EncodesEventsGrown(before, r', es, events[..n]);
      es := es + [SpanEvent(SpurOf(k, events[n].name), events[n].timeNs, xs)];
    }
    assert events[..|events|] == events;
  }

  method InternPreparedSpan(r: Interner, p: PreparedSpan) returns (r': Interner, s: Span)
    requires r.Valid()
    ensures r'.Valid() && r'.GrownFrom(r) && EncodesSpan(r', s, p)
  {
    hide EncodesAll, EncodesEvents, Interner.Valid;
    var r1 := r.Intern(p.name);
    r.InternCorrect(p.name);
    var r2 := r1.Intern(p.service);
    r1.InternCorrect(p.service);
    var r3, xs := InternAttributes(r2, p.attributes);
    var r4, es := InternEvents(r3, p.events);
    EncodesAllGrown(r3, r4, xs, p.attributes);
    r' := r4;
    s := Span(p.traceId, p.spanId, p.parentSpanId, SpurOf(r1, p.name), SpurOf(r2, p.service), p.startTimeNs, p.durationNs,
              p.status, p.kind, xs, es, p.ingestSeq);
  }

  lemma EncodedKnown(r: Interner, s: Span, p: PreparedSpan)
    requires EncodesSpan(r, s, p)
    ensures SpanKnown(r, s)
  {
    forall i | 0 <= i < |s.attributes| ensures r.Knows(s.attributes[i].0) && (s.attributes[i].1.StringValue? ==> r.Knows(s.attributes[i].1.s)) {
      assert Encodes(r, s.attributes[i], p.attributes[i]);
    }
    forall i | 0 <= i < |s.events| ensures r.Knows(s.events[i].name) && AttributesKnown(r, s.events[i].attributes) {
      assert EncodesEvent(r, s.events[i], p.events[i]);
      forall j | 0 <= j < |s.events[i].attributes|
        ensures r.Knows(s.events[i].attributes[j].0) && (s.events[i].attributes[j].1.StringValue? ==> r.Knows(s.events[i].attributes[j].1.s))
      {
        assert Encodes(r, s.events[i].attributes[j], p.events[i].attributes[j]);
      }
    }
  }

  lemma {:induction false} FindEncoded(r: Interner, xs: seq<Attribute>, ps: seq<PreparedAttr>)
    requires EncodesAll(r, xs, ps) && AttributesKnown(r, xs)
    ensures var found := FindAttribute(r, xs, ResourceScope, "service.name");
            && (found.Some? <==> FindService(ps).Some?)
            && (found.Some? ==> EncodesValue(r, found.value, FindService(ps).value))
  {
    if xs != [] {
      assert Encodes(r, xs[0], ps[0]);
      assert AttributesKnown(r, xs[1..]);
      FindEncoded(r, xs[1..], ps[1..]);
    }
  }

  /** What preparation linked stays linked once interned. */
  lemma EncodedLinked(r: Interner, s: Span, p: PreparedSpan)
    requires r.Valid() && EncodesSpan(r, s, p) && PreparedLinked(p) && SpanKnown(r, s)
    ensures ServiceLinked(r, s)
  {
    FindEncoded(r, s.attributes, p.attributes);
    var found := FindAttribute(r, s.attributes, ResourceScope, "service.name");
    if found.Some? && found.value.StringValue? {
      r.GetResolve(found.value.s, p.service);
      r.GetResolve(s.serviceName, p.service);
    }
  }

  // ------------------------------------------------------------------- storing

  ghost predicate EncodesSpans(r: Interner, ss: seq<Span>, ps: seq<PreparedSpan>) {
    |ss| == |ps| && forall i :: 0 <= i < |ss| ==> EncodesSpan(r, ss[i], ps[i])
  }

  lemma EncodesSpansGrown(earlier: Interner, later: Interner, ss: seq<Span>, ps: seq<PreparedSpan>)
    requires later.GrownFrom(earlier) && EncodesSpans(earlier, ss, ps)
    ensures EncodesSpans(later, ss, ps)
  {
    forall i | 0 <= i < |ss| ensures EncodesSpan(later, ss[i], ps[i]) {
      assert EncodesSpan(earlier, ss[i], ps[i]);
      EncodesSpanGrown(earlier, later, ss[i], ps[i]);
    }
  }

  method InternSpans(r: Interner, ps: seq<PreparedSpan>) returns (r': Interner, ss: seq<Span>)
    requires r.Valid()
    ensures r'.Valid() && r'.GrownFrom(r) && EncodesSpans(r', ss, ps)
  {
    hide EncodesSpan, Interner.Valid;
    r', ss := r, [];
    for n := 0 to |ps|
      invariant r'.Valid() && r'.GrownFrom(r) && EncodesSpans(r', ss, ps[..n])
    {
      ghost var before := r';
      var s;
      r', s := InternPreparedSpan(r', ps[n]);
      EncodesSpansGrown(before, r', ss, ps[..n]);
      ss := ss + [s];
    }
    assert ps[..|ps|] == ps;
  }

  /** A larger interner changes nothing about what is stored. */
  lemma FiledGrown(earlier: Interner, later: Interner, traces: Traces)
    requires earlier.Valid() && later.Valid() && later.GrownFrom(earlier) && WellFiled(earlier, traces) && AllLinked(earlier, traces)
    ensures WellFiled(later, traces) && AllLinked(later, traces)
  {
    forall t, i | t in traces && 0 <= i < |traces[t]| ensures SpanKnown(later, traces[t][i]) && ServiceLinked(later, traces[t][i]) {
      LinkedGrown(earlier, later, traces[t][i]);
    }
  }

  lemma LinkedGrown(earlier: Interner, later: Interner, s: Span)
    requires later.GrownFrom(earlier) && SpanKnown(earlier, s) && ServiceLinked(earlier, s)
    ensures SpanKnown(later, s) && ServiceLinked(later, s)
  {
    FindGrown(earlier, later, s.attributes);
  }

  lemma {:induction false} FindGrown(earlier: Interner, later: Interner, xs: seq<Attribute>)
    requires later.GrownFrom(earlier) && AttributesKnown(earlier, xs)
    ensures AttributesKnown(later, xs)
    ensures FindAttribute(later, xs, ResourceScope, "service.name") == FindAttribute(earlier, xs, ResourceScope, "service.name")
  {
    if xs != [] {
      assert AttributesKnown(earlier, xs[1..]);
      FindGrown(earlier, later, xs[1..]);
    }
  }

  lemma {:induction false} PushAllLinked(r: Interner, traces: Traces, ss: seq<Span>)
    requires WellFiled(r, traces) && AllLinked(r, traces)
    requires forall i :: 0 <= i < |ss| ==> SpanKnown(r, ss[i]) && ServiceLinked(r, ss[i])
    ensures WellFiled(r, PushAll(traces, ss)) && AllLinked(r, PushAll(traces, ss))
  {
    if ss != [] {
      var front, last := ss[..|ss| - 1], ss[|ss| - 1];
      PushAllLinked(r, traces, front);
      PushLinked(r, PushAll(traces, front), last);
    }
  }

  lemma PushLinked(r: Interner, traces: Traces, s: Span)
    requires WellFiled(r, traces) && AllLinked(r, traces) && SpanKnown(r, s) && ServiceLinked(r, s)
    ensures WellFiled(r, Push(traces, s)) && AllLinked(r, Push(traces, s))
  {
    PushWellFiled(r, traces, s);
  }

  /** Interns and stores one scope group's spans. */
  method StoreSpans(store: TraceStore, ps: seq<PreparedSpan>) returns (ghost added: seq<Span>)
    requires store.Valid() && AllLinked(store.interner, store.traces) && AllPreparedLinked(ps)
    modifies store
    ensures store.Valid() && AllLinked(store.interner, store.traces)
    ensures store.interner.GrownFrom(old(store.interner)) && EncodesSpans(store.interner, added, ps)
    ensures store.traces == PushAll(old(store.traces), added)
    ensures store.totalSpans == old(store.totalSpans) + |ps|
  {
    hide Exact, AttrExact, SpanTotal, EncodesSpan, AllLinked, WellFiled, Interner.Valid, ServiceLinked, PreparedLinked;
    ghost var r := store.interner;
    var r', ss := InternSpans(store.interner, ps);
    FiledGrown(r, r', store.traces);
    forall i | 0 <= i < |ss| ensures SpanKnown(r', ss[i]) && ServiceLinked(r', ss[i]) {
      EncodedKnown(r', ss[i], ps[i]);
      EncodedLinked(r', ss[i], ps[i]);
    }
    PushAllLinked(r', store.traces, ss);
    store.interner := r';
    store.IngestSpans(ss);
    added := ss;
  }

  lemma {:induction false} PushAllAppend(traces: Traces, xs: seq<Span>, ys: seq<Span>)
    ensures PushAll(traces, xs + ys) == PushAll(PushAll(traces, xs), ys)
  {
    if ys == [] {
      assert xs + ys == xs;
    } else {
      var front, last := ys[..|ys| - 1], ys[|ys| - 1];
      PushAllAppend(traces, xs, front);
      assert (xs + ys)[..|xs + ys| - 1] == xs + front && (xs + ys)[|xs + ys| - 1] == last;
    }
  }

  /** The stored span holds what was sent, under number `n`. */
  ghost predicate SpanFits(r: Interner, s: Span, item: SentItem, n: nat) {
    && item.span.traceId == Some(s.traceId) && item.span.spanId == Some(s.spanId) && item.span.parentSpanId == s.parentSpanId
    && r.Knows(s.name) && r.Resolve(s.name) == item.span.name
    && r.Knows(s.serviceName) && ServiceIs(item.labels, r.Resolve(s.serviceName))
    && s.status == item.span.status && s.kind == item.span.kind && s.ingestSeq == n
    && Capped(item.span.startUnixNano, s.startTimeNs) && Capped(item.span.endUnixNano, s.startTimeNs + s.durationNs)
    && EncodesAll(r, s.attributes, SentAttributes(item)) && EncodesEvents(r, s.events, item.span.events)
  }

  /** The added spans are the usable ones of the request, one for one and in order. */
  ghost predicate SpansSent(r: Interner, added: seq<Span>, request: seq<ResourceSpans>, next: nat, at: seq<nat>) {
    && PositionsOf(SentItems(request), Usable, at) && |at| == |added|
    && forall k :: 0 <= k < |added| ==> at[k] < |SentItems(request)| && SpanFits(r, added[k], SentItems(request)[at[k]], next + k)
  }

  lemma StoredAsSent(r: Interner, added: seq<Span>, request: seq<ResourceSpans>, next: nat)
    requires EncodesSpans(r, added, PrepareAll(request, next))
    ensures exists at :: SpansSent(r, added, request, next, at)
  {
    hide ItemFits, PositionsOf, EncodesAll, EncodesEvents, ServiceIs, SentAttributes, Capped;
    var ps := PrepareAll(request, next);
    var at := SentSpans.RequestFits(request, next);
    PositionsInRange(SentItems(request), Usable, at);
    forall k | 0 <= k < |added| ensures SpanFits(r, added[k], SentItems(request)[at[k]], next + k) {
      assert EncodesSpan(r, added[k], ps[k]) && ItemFits(ps[k], SentItems(request)[at[k]], next + k);
      FitsThrough(r, added[k], ps[k], SentItems(request)[at[k]], next + k);
    }
    assert SpansSent(r, added, request, next, at);
  }

  lemma FitsThrough(r: Interner, s: Span, p: PreparedSpan, item: SentItem, n: nat)
    requires EncodesSpan(r, s, p) && ItemFits(p, item, n)
    ensures SpanFits(r, s, item, n)
  {
  }

  /**
    Stores a whole request.  Exactly the spans with usable ids are stored, in
    order and spelled out as prepared, under consecutive sequence numbers.
   */
  method IngestRequest(store: TraceStore, request: seq<ResourceSpans>, nextSeq: nat)
    returns (traces: nat, accepted: nat, nextSeq': nat, ghost added: seq<Span>)
    requires store.Valid() && AllLinked(store.interner, store.traces)
    modifies store
    ensures store.Valid() && AllLinked(store.interner, store.traces) && store.interner.GrownFrom(old(store.interner))
    ensures EncodesSpans(store.interner, added, PrepareAll(request, nextSeq))
    ensures exists at :: SpansSent(store.interner, added, request, nextSeq, at)
    ensures store.traces == PushAll(old(store.traces), added)
    ensures traces == |TraceIdsOf(added)|
    ensures accepted == |added| && nextSeq' == nextSeq + accepted && store.totalSpans == old(store.totalSpans) + accepted
  {
    hide Exact, AttrExact, SpanTotal, EncodesSpans, AllLinked, WellFiled, Interner.Valid, AllPreparedLinked, TraceIdsOf, SpansSent;
    AllLinkedPrepared(request, nextSeq);
    var prepared := PrepareAll(request, nextSeq);
    added := StoreSpans(store, prepared);
    traces := |(set i | 0 <= i < |prepared| :: prepared[i].traceId)|;
    accepted := |prepared|;
    nextSeq' := nextSeq + accepted;
    EncodedCount(store.interner, added, prepared);
    EncodedTraceIds(store.interner, added, prepared);
    StoredAsSent(store.interner, added, request, nextSeq);
  }

  function TraceIdsOf(ss: seq<Span>): set<TraceId> {
    set i | 0 <= i < |ss| :: ss[i].traceId
  }

  lemma EncodedTraceIds(r: Interner, ss: seq<Span>, ps: seq<PreparedSpan>)
    requires EncodesSpans(r, ss, ps)
    ensures TraceIdsOf(ss) == set i | 0 <= i < |ps| :: ps[i].traceId
  {
    var ids := set i | 0 <= i < |ps| :: ps[i].traceId;
    forall t ensures t in TraceIdsOf(ss) <==> t in ids {
      if t in TraceIdsOf(ss) {
        var i :| 0 <= i < |ss| && ss[i].traceId == t;
        assert EncodesSpan(r, ss[i], ps[i]);
      }
      if t in ids {
        var i :| 0 <= i < |ps| && ps[i].traceId == t;
        assert EncodesSpan(r, ss[i], ps[i]);
      }
    }
  }

  lemma EncodedCount(r: Interner, ss: seq<Span>, ps: seq<PreparedSpan>)
    requires EncodesSpans(r, ss, ps)
    ensures |ss| == |ps|
  {
  }

  // ------------------------------------------------- removing keeps the link

  lemma FewerSpansLinked(r: Interner, before: Traces, after: Traces)
    requires WellFiled(r, before) && AllLinked(r, before) && WellFiled(r, after)
    requires forall t :: t in after ==> t in before && forall s :: s in after[t] ==> s in before[t]
    ensures AllLinked(r, after)
  {
    forall t, i | t in after && 0 <= i < |after[t]| ensures ServiceLinked(r, after[t][i]) {
      assert after[t][i] in before[t];
      var j :| 0 <= j < |before[t]| && before[t][j] == after[t][i];
      assert ServiceLinked(r, before[t][j]);
    }
  }

  /** Age eviction, size eviction and clearing a service all keep the service link. */
  lemma RemovalKeepsLinks(r: Interner, before: Traces, after: Traces, cutoff: int, max: nat, service: Spur)
    requires WellFiled(r, before) && AllLinked(r, before) && WellFiled(r, after)
    requires after == RetainedTraces(before, cutoff) || after == WithoutService(before, service) || OldestTracesDropped(before, after, max)
    ensures AllLinked(r, after)
  {
    forall t | t in after ensures t in before && forall s :: s in after[t] ==> s in before[t] {
      AtLeastElements(before[t], StartOf, cutoff);
      OtherServicesElements(before[t], service);
    }
    FewerSpansLinked(r, before, after);
  }
}
