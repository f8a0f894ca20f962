/** Parent links between the spans of one trace, which may dangle or run in circles. */
module Ancestry {
  import opened Options
  import opened TraceIds
  import opened TraceIndexing

  type SpanMap = map<SpanId, Span>

  function ParentOf(spans: SpanMap, id: SpanId): Option<SpanId> {
    if id in spans then spans[id].parentSpanId else None
  }

  /** The span `n` parent links above `id`. */
  function Up(spans: SpanMap, id: SpanId, n: nat): Option<SpanId> {
    if n == 0 then Some(id)
    else
      match Up(spans, id, n - 1)
      case Some(x) => ParentOf(spans, x)
      case None => None
  }

  /** `a` is met somewhere strictly above `d`, and is not `d` itself. */
  ghost predicate IsAncestor(spans: SpanMap, a: SpanId, d: SpanId) {
    a != d && exists n: nat :: n >= 1 && Up(spans, d, n) == Some(a)
  }

  /** A set that no parent link leaves keeps the whole chain of its members. */
  lemma {:induction false} ChainStays(spans: SpanMap, s: set<SpanId>, d: SpanId, n: nat)
    requires d in s
    requires forall x :: x in s && ParentOf(spans, x).Some? ==> ParentOf(spans, x).value in s
    ensures Up(spans, d, n).Some? ==> Up(spans, d, n).value in s
  {
    if n > 0 { ChainStays(spans, s, d, n - 1); }
  }

  lemma NotAboveClosedSet(spans: SpanMap, s: set<SpanId>, a: SpanId, d: SpanId)
    requires d in s && a !in s
    requires forall x :: x in s && ParentOf(spans, x).Some? ==> ParentOf(spans, x).value in s
    ensures !IsAncestor(spans, a, d)
  {
    forall n: nat ensures Up(spans, d, n) != Some(a) {
      ChainStays(spans, s, d, n);
    }
  }

  /**
    Walks up from the descendant, giving up at a root, at a dangling parent or
    when a link leads back to a span already visited.
   */
  method IsDescendant(ancestor: SpanId, descendant: SpanId, spans: SpanMap) returns (r: bool)
    ensures r <==> IsAncestor(spans, ancestor, descendant)
  {
    var current := descendant;
    var visited: set<SpanId> := {};
    ghost var k: nat := 0;
    while true
      invariant Up(spans, descendant, k) == Some(current)
      invariant visited <= spans.Keys && ancestor !in visited
      invariant descendant in visited + {current}
      invariant forall v :: v in visited ==> ParentOf(spans, v).Some? && ParentOf(spans, v).value in visited + {current}
      invariant current == ancestor ==> k == 0 && visited == {}
      invariant current in visited ==> ParentOf(spans, current) == Some(current)
      decreases spans.Keys - visited
    {
      if current == ancestor { return false; }
      if current !in spans || spans[current].parentSpanId.None? {
        NotAboveClosedSet(spans, visited + {current}, ancestor, descendant);
        return false;
      }
      var parent := spans[current].parentSpanId.value;
      assert Up(spans, descendant, k + 1) == Some(parent);
      if parent == ancestor { return true; }
      if parent in visited {
        NotAboveClosedSet(spans, visited + {current}, ancestor, descendant);
        return false;
      }
      visited := visited + {current};
      current := parent;
      k := k + 1;
    }
  }

  predicate IsChild(parent: SpanId, child: SpanId, spans: SpanMap) {
    ParentOf(spans, child) == Some(parent)
  }

  predicate IsSibling(a: SpanId, b: SpanId, spans: SpanMap) {
    a != b && ParentOf(spans, a) == ParentOf(spans, b)
  }

  /** A direct child is a descendant unless it is its own parent. */
  lemma ChildIsDescendant(parent: SpanId, child: SpanId, spans: SpanMap)
    requires IsChild(parent, child, spans)
    ensures IsAncestor(spans, parent, child) <==> parent != child
  {
    assert Up(spans, child, 0) == Some(child);
    assert Up(spans, child, 1) == Some(parent);
  }
}
