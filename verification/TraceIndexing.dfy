/** The ids that tie logs and spans together. */
module TraceIds {
  /** 16-byte trace ids and 8-byte span ids, as big-endian numbers. */
  type TraceId = nat
  type SpanId = nat
}

/**
  The secondary indexes of the trace store: for some key of a span (its name,
  status or service) the set of traces holding a span with that key.
 */
module TraceIndexing {
  import opened Options
  import opened Interning
  import opened StreamMaps
  import opened TraceIds

  datatype SpanStatus = Unset | Ok | Error
  datatype SpanKind = Unspecified | Internal | Server | Client | Producer | Consumer

  datatype AttributeValue =
    | StringValue(s: Spur)
    | IntValue(i: int)
    | FloatValue(f: real)
    | BoolValue(b: bool)
    | ArrayValue(items: seq<AttributeValue>)
    | BytesValue(bytes: seq<bv8>)
    | KeyValueList(pairs: seq<(Spur, AttributeValue)>)

  type Attribute = (Spur, AttributeValue)

  datatype SpanEvent = SpanEvent(name: Spur, timeNs: I64, attributes: seq<Attribute>)

  datatype Span = Span(
    traceId: TraceId, spanId: SpanId, parentSpanId: Option<SpanId>, name: Spur, serviceName: Spur,
    startTimeNs: I64, durationNs: I64, status: SpanStatus, kind: SpanKind,
    attributes: seq<Attribute>, events: seq<SpanEvent>, ingestSeq: nat)

  type Traces = map<TraceId, seq<Span>>
  type KeyIndex<!K> = map<K, set<TraceId>>

  function ServiceOf(s: Span): Spur { s.serviceName }
  function NameOf(s: Span): Spur { s.name }
  function StatusOf(s: Span): SpanStatus { s.status }
  function StartOf(s: Span): int { s.startTimeNs }

  predicate SomeSpan<K(==)>(spans: seq<Span>, keyOf: Span -> K, k: K) {
    exists i :: 0 <= i < |spans| && keyOf(spans[i]) == k
  }

  ghost predicate HasKey<K>(traces: Traces, keyOf: Span -> K, k: K, t: TraceId) {
    t in traces && SomeSpan(traces[t], keyOf, k)
  }

  ghost predicate In<K>(index: KeyIndex<K>, k: K, t: TraceId) {
    k in index && t in index[k]
  }

  /** The index lists a trace under a key exactly when one of its spans has the key. */
  ghost predicate Mirrors<K(!new)>(index: KeyIndex<K>, traces: Traces, keyOf: Span -> K) {
    forall k, t :: In(index, k, t) <==> HasKey(traces, keyOf, k, t)
  }

  ghost predicate NoEmptySets<K(!new)>(index: KeyIndex<K>) {
    forall k :: k in index ==> index[k] != {}
  }

  ghost predicate Exact<K(!new)>(index: KeyIndex<K>, traces: Traces, keyOf: Span -> K) {
    Mirrors(index, traces, keyOf) && NoEmptySets(index)
  }

  // ------------------------------------------------------------------- adding

  function Listing<K>(index: KeyIndex<K>, k: K): set<TraceId> {
    if k in index then index[k] else {}
  }

  function AddTo<K>(index: KeyIndex<K>, k: K, t: TraceId): KeyIndex<K> {
    index[k := Listing(index, k) + {t}]
  }

  function SpansOf(traces: Traces, t: TraceId): seq<Span> {
    if t in traces then traces[t] else []
  }

  function Push(traces: Traces, span: Span): Traces {
    traces[span.traceId := SpansOf(traces, span.traceId) + [span]]
  }

  lemma SomeSpanAppend<K>(xs: seq<Span>, ys: seq<Span>, keyOf: Span -> K, k: K)
    ensures SomeSpan(xs + ys, keyOf, k) <==> SomeSpan(xs, keyOf, k) || SomeSpan(ys, keyOf, k)
  {
    if SomeSpan(xs, keyOf, k) {
      var i :| 0 <= i < |xs| && keyOf(xs[i]) == k;
      assert (xs + ys)[i] == xs[i];
    }
    if SomeSpan(ys, keyOf, k) {
      var i :| 0 <= i < |ys| && keyOf(ys[i]) == k;
      assert (xs + ys)[|xs| + i] == ys[i];
    }
  }

  lemma PushExact<K(!new)>(index: KeyIndex<K>, traces: Traces, keyOf: Span -> K, span: Span)
    requires Exact(index, traces, keyOf)
    ensures Exact(AddTo(index, keyOf(span), span.traceId), Push(traces, span), keyOf)
  {
    var k0, t0 := keyOf(span), span.traceId;
    var index' := AddTo(index, k0, t0);
    assert t0 in index'[k0];
    forall k, t ensures In(index', k, t) <==> HasKey(Push(traces, span), keyOf, k, t) {
      assert In(index, k, t) <==> HasKey(traces, keyOf, k, t);
      SomeSpanAppend(SpansOf(traces, t0), [span], keyOf, k);
      assert SomeSpan([span], keyOf, k) <==> k == k0 by {
        assert [span][0] == span;
      }
    }
  }

  // ----------------------------------------------------------------- removing

  /** The traces where the spans of `t` have become `spans`, gone if there are none. */
  function Replace(traces: Traces, t: TraceId, spans: seq<Span>): Traces {
    if spans == [] then traces - {t} else traces[t := spans]
  }

  /** The keys, in span order. */
  function KeysOf<K>(spans: seq<Span>, keyOf: Span -> K): seq<K> {
    seq(|spans|, i requires 0 <= i < |spans| => keyOf(spans[i]))
  }

  lemma KeysOfElements<K>(spans: seq<Span>, keyOf: Span -> K, k: K)
    ensures k in KeysOf(spans, keyOf) <==> SomeSpan(spans, keyOf, k)
  {
    var keys := KeysOf(spans, keyOf);
    if k in keys {
      var i :| 0 <= i < |keys| && keys[i] == k;
      assert keyOf(spans[i]) == k;
    }
    if SomeSpan(spans, keyOf, k) {
      var i :| 0 <= i < |spans| && keyOf(spans[i]) == k;
      assert keys[i] == k;
    }
  }

  /** Drops `t` from the sets of the keys it no longer has; emptied sets go too. */
  method ReconcileIndex<K(==, !new)>(index: KeyIndex<K>, t: TraceId, before: seq<K>, surviving: set<K>) returns (index': KeyIndex<K>)
    requires NoEmptySets(index)
    ensures NoEmptySets(index')
    ensures forall k, u :: In(index', k, u) <==> In(index, k, u) && !(u == t && k in before && k !in surviving)
  {
    index' := index;
    for n := 0 to |before|
      invariant NoEmptySets(index')
      invariant forall k, u :: In(index', k, u) <==> In(index, k, u) && !(u == t && k in before[..n] && k !in surviving)
    {
      assert before[..n + 1] == before[..n] + [before[n]];
      var key := before[n];
      if key !in surviving && key in index' && t in index'[key] {
        ghost var was := index';
        var left := index'[key] - {t};
        index' := if left == {} then index' - {key} else index'[key := left];
        forall k, u ensures In(index', k, u) <==> In(was, k, u) && !(u == t && k == key) {
          if k == key { assert u in left <==> In(was, k, u) && u != t; }
        }
      }
    }
    assert before[..|before|] == before;
  }

  /** Reconciling one shrunken trace is all an exact index needs to stay exact. */
  lemma ReconciledExact<K(!new)>(index: KeyIndex<K>, index': KeyIndex<K>, traces: Traces, keyOf: Span -> K,
                                 t: TraceId, left: seq<Span>)
    requires Exact(index, traces, keyOf) && t in traces && NoEmptySets(index')
    requires forall s :: s in left ==> s in traces[t]
    requires forall k, u :: In(index', k, u) <==>
      In(index, k, u) && !(u == t && k in KeysOf(traces[t], keyOf) && !SomeSpan(left, keyOf, k))
    ensures Exact(index', Replace(traces, t, left), keyOf)
  {
    forall k, u ensures In(index', k, u) <==> HasKey(Replace(traces, t, left), keyOf, k, u) {
      assert In(index, k, u) <==> HasKey(traces, keyOf, k, u);
      KeysOfElements(traces[t], keyOf, k);
      if SomeSpan(left, keyOf, k) {
        var i :| 0 <= i < |left| && keyOf(left[i]) == k;
        assert left[i] in traces[t];
        var j :| 0 <= j < |traces[t]| && traces[t][j] == left[i];
        assert SomeSpan(traces[t], keyOf, k);
      }
    }
  }

  /** Takes `t` out of the sets of all keys of its spans, leaving empty sets behind. */
  method Withdraw<K(==, !new)>(index: KeyIndex<K>, t: TraceId, keys: seq<K>) returns (index': KeyIndex<K>)
    ensures forall k, u :: In(index', k, u) <==> In(index, k, u) && !(u == t && k in keys)
  {
    index' := index;
    for n := 0 to |keys|
      invariant forall k, u :: In(index', k, u) <==> In(index, k, u) && !(u == t && k in keys[..n])
    {
      assert keys[..n + 1] == keys[..n] + [keys[n]];
      if keys[n] in index' {
        index' := index'[keys[n] := index'[keys[n]] - {t}];
      }
    }
    assert keys[..|keys|] == keys;
  }

  lemma WithdrawnMirrors<K(!new)>(index: KeyIndex<K>, index': KeyIndex<K>, traces: Traces, keyOf: Span -> K, t: TraceId)
    requires Mirrors(index, traces, keyOf) && t in traces
    requires forall k, u :: In(index', k, u) <==> In(index, k, u) && !(u == t && k in KeysOf(traces[t], keyOf))
    ensures Mirrors(index', traces - {t}, keyOf)
  {
    forall k, u ensures In(index', k, u) <==> HasKey(traces - {t}, keyOf, k, u) {
      assert In(index, k, u) <==> HasKey(traces, keyOf, k, u);
      KeysOfElements(traces[t], keyOf, k);
    }
  }

  /** `retain(|_, v| !v.is_empty())` */
  function DropEmptySets<K(!new)>(index: KeyIndex<K>): (kept: KeyIndex<K>)
    ensures NoEmptySets(kept)
    ensures forall k, t :: In(kept, k, t) <==> In(index, k, t)
  {
    map k | k in index && index[k] != {} :: index[k]
  }

  // ---------------------------------------------------------- attribute index

  type AttrIndex = map<Spur, map<Spur, set<TraceId>>>

  ghost predicate AttrIn(index: AttrIndex, k: Spur, v: Spur, t: TraceId) {
    k in index && v in index[k] && t in index[k][v]
  }

  ghost predicate SpanHasAttr(s: Span, k: Spur, v: Spur) {
    exists i :: 0 <= i < |s.attributes| && s.attributes[i] == (k, StringValue(v))
  }

  ghost predicate HasAttr(traces: Traces, k: Spur, v: Spur, t: TraceId) {
    t in traces && exists i :: 0 <= i < |traces[t]| && SpanHasAttr(traces[t][i], k, v)
  }

  ghost predicate NoEmptyAttrs(index: AttrIndex) {
    forall k :: k in index ==> index[k] != map[] && forall v :: v in index[k] ==> index[k][v] != {}
  }

  /** The attribute index lists exactly the traces with a string attribute `k = v`. */
  ghost predicate AttrExact(index: AttrIndex, traces: Traces) {
    && NoEmptyAttrs(index)
    && forall k: Spur, v: Spur, t: TraceId :: AttrIn(index, k, v, t) <==> HasAttr(traces, k, v, t)
  }

  function AddAttr(index: AttrIndex, k: Spur, v: Spur, t: TraceId): AttrIndex {
    index[k := AddTo(if k in index then index[k] else map[], v, t)]
  }

  lemma AddAttrIn(index: AttrIndex, k: Spur, v: Spur, t: TraceId)
    ensures forall a: Spur, b: Spur, u: TraceId ::
      AttrIn(AddAttr(index, k, v, t), a, b, u) <==> AttrIn(index, a, b, u) || (a == k && b == v && u == t)
    ensures NoEmptyAttrs(index) ==> NoEmptyAttrs(AddAttr(index, k, v, t))
  {
    var inner := AddTo(if k in index then index[k] else map[], v, t);
    assert v in inner && t in inner[v];
  }

  /** Enters the string attributes of one span. */
  method IndexAttributes(index: AttrIndex, s: Span) returns (index': AttrIndex)
    requires NoEmptyAttrs(index)
    ensures NoEmptyAttrs(index')
    ensures forall k: Spur, v: Spur, t: TraceId ::
      AttrIn(index', k, v, t) <==> AttrIn(index, k, v, t) || (t == s.traceId && SpanHasAttr(s, k, v))
  {
    index' := IndexSome(index, s.attributes, s.traceId);
  }

  ghost predicate ListHasAttr(attributes: seq<Attribute>, k: Spur, v: Spur) {
    exists i :: 0 <= i < |attributes| && attributes[i] == (k, StringValue(v))
  }

  method IndexSome(index: AttrIndex, attributes: seq<Attribute>, u: TraceId) returns (index': AttrIndex)
    requires NoEmptyAttrs(index)
    ensures NoEmptyAttrs(index')
    ensures forall k: Spur, v: Spur, t: TraceId ::
      AttrIn(index', k, v, t) <==> AttrIn(index, k, v, t) || (t == u && ListHasAttr(attributes, k, v))
  {
    index' := index;
    for n := 0 to |attributes|
      invariant NoEmptyAttrs(index')
      invariant forall k: Spur, v: Spur, t: TraceId ::
        AttrIn(index', k, v, t) <==> AttrIn(index, k, v, t) || (t == u && ListHasAttr(attributes[..n], k, v))
    {
      forall k: Spur, v: Spur { ListHasAttrSnoc(attributes, n, k, v); }
      var (key, val) := attributes[n];
      if val.StringValue? {
        AddAttrIn(index', key, val.s, u);
        index' := AddAttr(index', key, val.s, u);
      }
    }
    assert attributes[..|attributes|] == attributes;
  }

  lemma ListHasAttrSnoc(attributes: seq<Attribute>, n: nat, k: Spur, v: Spur)
    requires n < |attributes|
    ensures ListHasAttr(attributes[..n + 1], k, v)
       <==> ListHasAttr(attributes[..n], k, v) || attributes[n] == (k, StringValue(v))
  {
    var upTo := attributes[..n + 1];
    assert upTo[n] == attributes[n];
    if ListHasAttr(attributes[..n], k, v) {
      var i :| 0 <= i < n && attributes[..n][i] == (k, StringValue(v));
      assert upTo[i] == (k, StringValue(v));
    }
    if ListHasAttr(upTo, k, v) && upTo[n] != (k, StringValue(v)) {
      var i :| 0 <= i < |upTo| && upTo[i] == (k, StringValue(v));
      assert attributes[..n][i] == (k, StringValue(v));
    }
  }

  lemma HasAttrPush(traces: Traces, span: Span, k: Spur, v: Spur, t: TraceId)
    ensures HasAttr(Push(traces, span), k, v, t) <==> HasAttr(traces, k, v, t) || (t == span.traceId && SpanHasAttr(span, k, v))
  {
    var before, after := SpansOf(traces, span.traceId), SpansOf(traces, span.traceId) + [span];
    assert after[|before|] == span;
    if t == span.traceId && HasAttr(traces, k, v, t) {
      var i :| 0 <= i < |before| && SpanHasAttr(before[i], k, v);
      assert SpanHasAttr(after[i], k, v);
    }
  }

  lemma PushAttrExact(index: AttrIndex, index': AttrIndex, traces: Traces, span: Span)
    requires AttrExact(index, traces) && NoEmptyAttrs(index')
    requires forall k: Spur, v: Spur, t: TraceId ::
      AttrIn(index', k, v, t) <==> AttrIn(index, k, v, t) || (t == span.traceId && SpanHasAttr(span, k, v))
    ensures AttrExact(index', Push(traces, span))
  {
    forall k: Spur, v: Spur, t: TraceId ensures AttrIn(index', k, v, t) <==> HasAttr(Push(traces, span), k, v, t) {
      HasAttrPush(traces, span, k, v, t);
      assert AttrIn(index, k, v, t) <==> HasAttr(traces, k, v, t);
    }
  }
}
