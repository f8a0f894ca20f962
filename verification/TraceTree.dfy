/**
  The span tree of one trace: a flat span list turned into a forest of nodes by
  parent links, cut off below a fixed depth so that circular links end.
 */
module TraceTree {
  import opened Options
  import opened SpanWalks
  import opened StableSorting
  import opened TraceIds
  import opened TraceIndexing
  import opened TraceStore

  const MAX_DEPTH: nat := 128

  datatype SpanNode = SpanNode(span: Span, children: seq<SpanNode>)

  function NodeStart(n: SpanNode): int { n.span.startTimeNs }

  // ------------------------------------------------------------------ building

  function Kids(childrenOf: map<SpanId, seq<nat>>, p: SpanId): seq<nat> {
    if p in childrenOf then childrenOf[p] else []
  }

  ghost predicate Links(spans: seq<Span>, childrenOf: map<SpanId, seq<nat>>) {
    forall p :: Kids(childrenOf, p) == Children(spans, p)
  }

  /** The node of span `idx`, `depth` levels below its root. */
  function Node(idx: nat, spans: seq<Span>, childrenOf: map<SpanId, seq<nat>>, depth: nat): (n: SpanNode)
    requires idx < |spans| && Links(spans, childrenOf)
    ensures n.span == spans[idx]
    decreases if depth < MAX_DEPTH then MAX_DEPTH - depth else 0, 0
  {
    var children :=
      if depth + 1 < MAX_DEPTH then Nodes(Kids(childrenOf, spans[idx].spanId), spans, childrenOf, depth + 1) else [];
    SpanNode(spans[idx], StableSort(children, NodeStart))
  }

  function Nodes(idxs: seq<nat>, spans: seq<Span>, childrenOf: map<SpanId, seq<nat>>, depth: nat): (nodes: seq<SpanNode>)
    requires Within(spans, idxs) && Links(spans, childrenOf)
    ensures |nodes| == |idxs|
    decreases if depth < MAX_DEPTH then MAX_DEPTH - depth else 0, 1 + |idxs|
  {
    if idxs == [] then []
    else Nodes(idxs[..|idxs| - 1], spans, childrenOf, depth) + [Node(idxs[|idxs| - 1], spans, childrenOf, depth)]
  }

  function Forest(spans: seq<Span>, childrenOf: map<SpanId, seq<nat>>): seq<SpanNode>
    requires Links(spans, childrenOf)
  {
    StableSort(Nodes(Roots(spans), spans, childrenOf, 0), NodeStart)
  }

  // -------------------------------------------------------------------- shape

  ghost predicate InStartOrder(ns: seq<SpanNode>) {
    forall i, j :: 0 <= i < j < |ns| ==> ns[i].span.startTimeNs <= ns[j].span.startTimeNs
  }

  lemma SortedInStartOrder(ns: seq<SpanNode>)
    requires SortedBy(ns, NodeStart)
    ensures InStartOrder(ns)
  {
    forall i, j | 0 <= i < j < |ns| ensures ns[i].span.startTimeNs <= ns[j].span.startTimeNs { assert NodeStart(ns[i]) <= NodeStart(ns[j]); }
  }

  /** Children ascend in start time and name this node as their parent, all the way down. */
  ghost predicate Nested(n: SpanNode) {
    && InStartOrder(n.children)
    && forall i :: 0 <= i < |n.children| ==>
      n.children[i].span.parentSpanId == Some(n.span.spanId) && Nested(n.children[i])
  }

  /** At most `h` levels. */
  ghost predicate AtMostDeep(n: SpanNode, h: nat) {
    h > 0 && forall i :: 0 <= i < |n.children| ==> AtMostDeep(n.children[i], h - 1)
  }

  lemma {:induction false} NodesAt(idxs: seq<nat>, spans: seq<Span>, childrenOf: map<SpanId, seq<nat>>, depth: nat, k: nat)
    requires Within(spans, idxs) && Links(spans, childrenOf) && k < |idxs|
    ensures Nodes(idxs, spans, childrenOf, depth)[k] == Node(idxs[k], spans, childrenOf, depth)
  {
    hide Node, Links;
    var n := |idxs| - 1;
    if k < n {
      NodesAt(idxs[..n], spans, childrenOf, depth, k);
      assert idxs[..n][k] == idxs[k];
    }
  }

  /** Every node of a sorted list stands for one of the listed spans. */
  lemma SortedNode(idxs: seq<nat>, spans: seq<Span>, childrenOf: map<SpanId, seq<nat>>, depth: nat, x: SpanNode) returns (i: nat)
    requires Within(spans, idxs) && Links(spans, childrenOf)
    requires x in StableSort(Nodes(idxs, spans, childrenOf, depth), NodeStart)
    ensures i in idxs && x == Node(i, spans, childrenOf, depth)
  {
    var nodes := Nodes(idxs, spans, childrenOf, depth);
    StableSortElements(nodes, NodeStart);
    assert x in nodes;
    var k :| 0 <= k < |nodes| && nodes[k] == x;
    NodesAt(idxs, spans, childrenOf, depth, k);
    i := idxs[k];
  }

  /** A child of a node is the node of a child span, one level further down. */
  lemma ChildNode(idx: nat, spans: seq<Span>, childrenOf: map<SpanId, seq<nat>>, depth: nat, x: SpanNode) returns (c: nat)
    requires idx < |spans| && Links(spans, childrenOf) && depth < MAX_DEPTH
    requires x in Node(idx, spans, childrenOf, depth).children
    ensures depth + 1 < MAX_DEPTH && HangsBelow(spans, c, spans[idx].spanId) && x == Node(c, spans, childrenOf, depth + 1)
  {
    var kids := Kids(childrenOf, spans[idx].spanId);
    assert kids == Children(spans, spans[idx].spanId);
    c := SortedNode(kids, spans, childrenOf, depth + 1, x);
  }

  lemma ChildrenSorted(idx: nat, spans: seq<Span>, childrenOf: map<SpanId, seq<nat>>, depth: nat)
    requires idx < |spans| && Links(spans, childrenOf)
    ensures InStartOrder(Node(idx, spans, childrenOf, depth).children)
  {
    if depth + 1 < MAX_DEPTH {
      StableSortSorts(Nodes(Kids(childrenOf, spans[idx].spanId), spans, childrenOf, depth + 1), NodeStart);
      SortedInStartOrder(Node(idx, spans, childrenOf, depth).children);
    }
  }

  lemma {:induction false} NodeShape(idx: nat, spans: seq<Span>, childrenOf: map<SpanId, seq<nat>>, depth: nat)
    requires idx < |spans| && Links(spans, childrenOf) && depth < MAX_DEPTH
    ensures Nested(Node(idx, spans, childrenOf, depth)) && AtMostDeep(Node(idx, spans, childrenOf, depth), MAX_DEPTH - depth)
    decreases MAX_DEPTH - depth
  {
    hide Links, StableSort, SortedBy;
    var n := Node(idx, spans, childrenOf, depth);
    ChildrenSorted(idx, spans, childrenOf, depth);
    forall i | 0 <= i < |n.children|
      ensures n.children[i].span.parentSpanId == Some(n.span.spanId) && Nested(n.children[i])
      ensures AtMostDeep(n.children[i], MAX_DEPTH - depth - 1)
    {
      var c := ChildNode(idx, spans, childrenOf, depth, n.children[i]);
      NodeShape(c, spans, childrenOf, depth + 1);
    }
  }

  // ------------------------------------------------------------------ counting

  /** How often a span occurs in a tree. */
  function Count(n: SpanNode, s: Span): nat {
    (if n.span == s then 1 else 0) + CountAll(n.children, s)
  }

  function CountAll(nodes: seq<SpanNode>, s: Span): nat {
    if nodes == [] then 0 else Count(nodes[0], s) + CountAll(nodes[1..], s)
  }

  lemma {:induction false} CountAppend(xs: seq<SpanNode>, ys: seq<SpanNode>, s: Span)
    ensures CountAll(xs + ys, s) == CountAll(xs, s) + CountAll(ys, s)
  {
    if xs == [] {
      assert xs + ys == ys;
    } else {
      assert (xs + ys)[0] == xs[0] && (xs + ys)[1..] == xs[1..] + ys;
      CountAppend(xs[1..], ys, s);
    }
  }

  lemma {:induction false} CountInserted(x: SpanNode, ys: seq<SpanNode>, s: Span)
    ensures CountAll(InsertStable(x, ys, NodeStart), s) == Count(x, s) + CountAll(ys, s)
  {
    if ys == [] || NodeStart(x) <= NodeStart(ys[0]) {
      CountAppend([x], ys, s);
      assert [x][1..] == [];
    } else {
      var rest := InsertStable(x, ys[1..], NodeStart);
      CountInserted(x, ys[1..], s);
      assert ([ys[0]] + rest)[1..] == rest;
    }
  }

  lemma {:induction false} CountSorted(xs: seq<SpanNode>, s: Span)
    ensures CountAll(StableSort(xs, NodeStart), s) == CountAll(xs, s)
  {
    if xs != [] {
      CountSorted(xs[1..], s);
      CountInserted(xs[0], StableSort(xs[1..], NodeStart), s);
    }
  }

  // ----------------------------------------------------- one node for every walk

  /** How many of the walks end at this span. */
  function CountEnding(spans: seq<Span>, ws: seq<Walk>, s: Span): nat
    requires AllProper(spans, ws)
  {
    if ws == [] then 0
    else CountEnding(spans, ws[..|ws| - 1], s) + if spans[Last(ws[|ws| - 1])] == s then 1 else 0
  }

  lemma {:induction false} EndingAppend(spans: seq<Span>, xs: seq<Walk>, ys: seq<Walk>, s: Span)
    requires AllProper(spans, xs) && AllProper(spans, ys)
    ensures AllProper(spans, xs + ys) && CountEnding(spans, xs + ys, s) == CountEnding(spans, xs, s) + CountEnding(spans, ys, s)
  {
    if ys == [] {
      assert xs + ys == xs;
    } else {
      EndingAppend(spans, xs, ys[..|ys| - 1], s);
      assert (xs + ys)[..|xs + ys| - 1] == xs + ys[..|ys| - 1];
    }
  }

  /** Prefixing a walk does not move its end. */
  lemma {:induction false} EndingPrefixed(spans: seq<Span>, i: nat, ws: seq<Walk>, s: Span)
    requires i < |spans| && AllProper(spans, ws)
    ensures AllProper(spans, Prefixed(i, ws)) && CountEnding(spans, Prefixed(i, ws), s) == CountEnding(spans, ws, s)
  {
    if ws != [] {
      var n := |ws| - 1;
      EndingPrefixed(spans, i, ws[..n], s);
      assert Prefixed(i, ws)[..n] == Prefixed(i, ws[..n]);
      assert Last([i] + ws[n]) == Last(ws[n]);
    }
  }

  lemma EndingOne(spans: seq<Span>, i: nat, s: Span)
    requires i < |spans|
    ensures AllProper(spans, [[i]]) && CountEnding(spans, [[i]], s) == if spans[i] == s then 1 else 0
  {
    assert [[i]][..0] == [];
  }

  lemma EndingFrom(spans: seq<Span>, i: nat, n: nat, s: Span)
    requires i < |spans| && n > 0
    ensures CountEnding(spans, WalksFrom(spans, i, n), s)
         == (if spans[i] == s then 1 else 0)
          + CountEnding(spans, WalksFromAll(spans, Children(spans, spans[i].spanId), n - 1), s)
  {
    var below := WalksFromAll(spans, Children(spans, spans[i].spanId), n - 1);
    EndingOne(spans, i, s);
    EndingPrefixed(spans, i, below, s);
    EndingAppend(spans, [[i]], Prefixed(i, below), s);
  }

  /** A node holds a span once for every walk down to it within the depth left. */
  lemma {:induction false} NodeCount(idx: nat, spans: seq<Span>, childrenOf: map<SpanId, seq<nat>>, depth: nat, s: Span)
    requires idx < |spans| && Links(spans, childrenOf) && depth < MAX_DEPTH
    ensures Count(Node(idx, spans, childrenOf, depth), s) == CountEnding(spans, WalksFrom(spans, idx, MAX_DEPTH - depth), s)
    decreases MAX_DEPTH - depth, 0
  {
    hide Children, StableSort, WalksFrom, WalksFromAll, CountEnding;
    EndingFrom(spans, idx, MAX_DEPTH - depth, s);
    var kids := Kids(childrenOf, spans[idx].spanId);
    assert kids == Children(spans, spans[idx].spanId);
    if depth + 1 < MAX_DEPTH {
      NodesCount(kids, spans, childrenOf, depth + 1, s);
      CountSorted(Nodes(kids, spans, childrenOf, depth + 1), s);
    } else {
      CountSorted([], s);
      NoRoomLeft(spans, kids, s);
    }
  }

  lemma {:induction false} NoRoomLeft(spans: seq<Span>, idxs: seq<nat>, s: Span)
    requires Within(spans, idxs)
    ensures WalksFromAll(spans, idxs, 0) == [] && CountEnding(spans, [], s) == 0
  {
    if idxs != [] { NoRoomLeft(spans, idxs[..|idxs| - 1], s); }
  }

  lemma {:induction false} NodesCount(idxs: seq<nat>, spans: seq<Span>, childrenOf: map<SpanId, seq<nat>>, depth: nat, s: Span)
    requires Within(spans, idxs) && Links(spans, childrenOf) && depth < MAX_DEPTH
    ensures CountAll(Nodes(idxs, spans, childrenOf, depth), s) == CountEnding(spans, WalksFromAll(spans, idxs, MAX_DEPTH - depth), s)
    decreases MAX_DEPTH - depth, 1 + |idxs|
  {
    hide WalksFrom, Node, Links;
    if idxs != [] {
      var n := |idxs| - 1;
      var last := Node(idxs[n], spans, childrenOf, depth);
      NodesCount(idxs[..n], spans, childrenOf, depth, s);
      NodeCount(idxs[n], spans, childrenOf, depth, s);
      CountAppend(Nodes(idxs[..n], spans, childrenOf, depth), [last], s);
      assert [last][1..] == [];
      EndingAppend(spans, WalksFromAll(spans, idxs[..n], MAX_DEPTH - depth), WalksFrom(spans, idxs[n], MAX_DEPTH - depth), s);
    }
  }

  /** Every span occurs once for every root walk of at most 128 spans ending at it. */
  ghost predicate OncePerWalk(spans: seq<Span>, roots: seq<SpanNode>) {
    forall s :: CountAll(roots, s) == CountEnding(spans, RootWalks(spans, 128), s)
  }

  lemma ForestCountsWalks(spans: seq<Span>, childrenOf: map<SpanId, seq<nat>>)
    requires Links(spans, childrenOf)
    ensures OncePerWalk(spans, Forest(spans, childrenOf))
  {
    forall s ensures CountAll(Forest(spans, childrenOf), s) == CountEnding(spans, RootWalks(spans, MAX_DEPTH), s) {
      NodesCount(Roots(spans), spans, childrenOf, 0, s);
      CountSorted(Nodes(Roots(spans), spans, childrenOf, 0), s);
    }
  }

  // ------------------------------------------------------------ at most one each

  /** How many of the first `n` listed spans are this one. */
  function Copies(spans: seq<Span>, s: Span, n: nat): nat
    requires n <= |spans|
  {
    if n == 0 then 0 else Copies(spans, s, n - 1) + if spans[n - 1] == s then 1 else 0
  }

  /** No span is shown more often than it is stored. */
  ghost predicate ShownAtMostOnce(spans: seq<Span>, roots: seq<SpanNode>) {
    forall s :: CountAll(roots, s) <= Copies(spans, s, |spans|)
  }

  /** How many of the walks end at position `j`. */
  function EndsAt(spans: seq<Span>, ws: seq<Walk>, j: nat): nat
    requires AllProper(spans, ws)
  {
    if ws == [] then 0 else EndsAt(spans, ws[..|ws| - 1], j) + if Last(ws[|ws| - 1]) == j then 1 else 0
  }

  function SumEnds(spans: seq<Span>, ws: seq<Walk>, s: Span, n: nat): nat
    requires AllProper(spans, ws) && n <= |spans|
  {
    if n == 0 then 0 else SumEnds(spans, ws, s, n - 1) + if spans[n - 1] == s then EndsAt(spans, ws, n - 1) else 0
  }

  lemma {:induction false} SumEndsSnoc(spans: seq<Span>, ws: seq<Walk>, s: Span, n: nat)
    requires AllProper(spans, ws) && n <= |spans|
    ensures ws == [] ==> SumEnds(spans, ws, s, n) == 0
    ensures ws != [] ==>
      var last := Last(ws[|ws| - 1]);
      SumEnds(spans, ws, s, n) == SumEnds(spans, ws[..|ws| - 1], s, n) + if last < n && spans[last] == s then 1 else 0
  {
    if n > 0 { SumEndsSnoc(spans, ws, s, n - 1); }
  }

  /** Walks counted by span are walks counted by position. */
  lemma {:induction false} EndingIsSum(spans: seq<Span>, ws: seq<Walk>, s: Span)
    requires AllProper(spans, ws)
    ensures CountEnding(spans, ws, s) == SumEnds(spans, ws, s, |spans|)
  {
    SumEndsSnoc(spans, ws, s, |spans|);
    if ws != [] {
      EndingIsSum(spans, ws[..|ws| - 1], s);
      assert Within(spans, ws[|ws| - 1]);
    }
  }

  lemma {:induction false} SumAtMostCopies(spans: seq<Span>, ws: seq<Walk>, s: Span, n: nat)
    requires AllProper(spans, ws) && n <= |spans| && forall j: nat :: j < n ==> EndsAt(spans, ws, j) <= 1
    ensures SumEnds(spans, ws, s, n) <= Copies(spans, s, n)
  {
    if n > 0 { SumAtMostCopies(spans, ws, s, n - 1); }
  }

  lemma {:induction false} SumTwiceCopies(spans: seq<Span>, ws: seq<Walk>, s: Span, n: nat)
    requires AllProper(spans, ws) && n <= |spans|
    requires forall j: nat :: j < n && spans[j] == s ==> EndsAt(spans, ws, j) >= 2
    ensures SumEnds(spans, ws, s, n) >= 2 * Copies(spans, s, n)
    ensures (exists j :: 0 <= j < n && spans[j] == s) ==> Copies(spans, s, n) > 0
  {
    if n > 0 { SumTwiceCopies(spans, ws, s, n - 1); }
  }

  lemma {:induction false} EndsAtSome(spans: seq<Span>, ws: seq<Walk>, j: nat)
    requires AllProper(spans, ws)
    ensures EndsAt(spans, ws, j) > 0 <==> exists k :: 0 <= k < |ws| && Last(ws[k]) == j
  {
    if ws != [] {
      var n := |ws| - 1;
      EndsAtSome(spans, ws[..n], j);
      if k :| 0 <= k < n && Last(ws[k]) == j { assert Last(ws[..n][k]) == j; }
    }
  }

  /** Two walks of the list end at `j` iff the count says so. */
  lemma {:induction false} EndsAtTwo(spans: seq<Span>, ws: seq<Walk>, j: nat)
    requires AllProper(spans, ws)
    ensures EndsAt(spans, ws, j) >= 2 <==> exists k, l :: 0 <= k < l < |ws| && Last(ws[k]) == j && Last(ws[l]) == j
  {
    if ws != [] {
      var n := |ws| - 1;
      EndsAtTwo(spans, ws[..n], j);
      EndsAtSome(spans, ws[..n], j);
      if k, l :| 0 <= k < l < |ws| && Last(ws[k]) == j && Last(ws[l]) == j {
        assert Last(ws[..n][k]) == j;
        if l < n { assert Last(ws[..n][l]) == j; }
      }
      if k :| 0 <= k < n && Last(ws[..n][k]) == j { assert Last(ws[k]) == j; }
      if k, l :| 0 <= k < l < n && Last(ws[..n][k]) == j && Last(ws[..n][l]) == j { assert Last(ws[k]) == j && Last(ws[l]) == j; }
    }
  }

  /** Without a fork no two root walks end at one position. */
  lemma UnforkedEndsOnce(spans: seq<Span>, n: nat, j: nat)
    requires forall c, p, q :: !Forked(spans, n, c, p, q)
    ensures EndsAt(spans, RootWalks(spans, n), j) <= 1
  {
    var ws := RootWalks(spans, n);
    RootWalksExact(spans, n);
    EndsAtTwo(spans, ws, j);
    forall k, l | 0 <= k < l < |ws| && Last(ws[k]) == j && Last(ws[l]) == j ensures false {
      assert ws[k] in ws && ws[l] in ws;
      var c, p, q := TwoWalksFork(spans, ws[k], ws[l], n);
    }
  }

  /** Below a fork two root walks end at every copy of the span. */
  lemma ForkedEndsTwice(spans: seq<Span>, n: nat, c: nat, p: nat, q: nat, j: nat)
    requires Forked(spans, n, c, p, q) && j < |spans| && spans[j] == spans[c]
    ensures EndsAt(spans, RootWalks(spans, n), j) >= 2
  {
    var ws := RootWalks(spans, n);
    RootWalksExact(spans, n);
    EndsAtTwo(spans, ws, j);
    var a, b := ForkHasTwoWalks(spans, n, c, p, q);
    WalkExtended(spans, a, j, n - 1);
    WalkExtended(spans, b, j, n - 1);
    assert a + [j] in ws && b + [j] in ws;
    var k :| 0 <= k < |ws| && ws[k] == a + [j];
    var l :| 0 <= l < |ws| && ws[l] == b + [j];
    assert (a + [j])[..|a|] == a && (b + [j])[..|b|] == b;
    assert a != b;
    assert k != l;
    assert Last(ws[k]) == j && Last(ws[l]) == j;
  }

  /**
    The forest shows every span at most once iff no span hangs below two spans of
    one id that both lie within 126 links of a root.
   */
  lemma ShownAtMostOnceIff(spans: seq<Span>, roots: seq<SpanNode>)
    requires OncePerWalk(spans, roots)
    ensures ShownAtMostOnce(spans, roots) <==> !exists c, p, q :: Forked(spans, 128, c, p, q)
  {
    var ws := RootWalks(spans, MAX_DEPTH);
    if c: nat, p: nat, q: nat :| Forked(spans, MAX_DEPTH, c, p, q) {
      var s := spans[c];
      forall j: nat | j < |spans| && spans[j] == s ensures EndsAt(spans, ws, j) >= 2 {
        ForkedEndsTwice(spans, MAX_DEPTH, c, p, q, j);
      }
      SumTwiceCopies(spans, ws, s, |spans|);
      EndingIsSum(spans, ws, s);
      assert CountAll(roots, s) > Copies(spans, s, |spans|);
    } else {
      forall s ensures CountAll(roots, s) <= Copies(spans, s, |spans|) {
        forall j: nat | j < |spans| ensures EndsAt(spans, ws, j) <= 1 { UnforkedEndsOnce(spans, MAX_DEPTH, j); }
        SumAtMostCopies(spans, ws, s, |spans|);
        EndingIsSum(spans, ws, s);
      }
    }
  }

  /** With distinct ids, the spans within 127 links of a root are shown exactly once and no others. */
  ghost predicate EachReachingOnce(spans: seq<Span>, roots: seq<SpanNode>)
    requires DistinctSpans(spans)
  {
    forall i: nat :: i < |spans| ==>
      CountAll(roots, spans[i]) == if ReachesRoot(ById(spans), spans[i].spanId, 128) then 1 else 0
  }

  lemma {:induction false} OneCopy(spans: seq<Span>, ws: seq<Walk>, i: nat, n: nat)
    requires DistinctSpans(spans) && AllProper(spans, ws) && i < |spans| && n <= |spans|
    ensures SumEnds(spans, ws, spans[i], n) == if i < n then EndsAt(spans, ws, i) else 0
  {
    if n > 0 {
      OneCopy(spans, ws, i, n - 1);
      assert spans[n - 1] == spans[i] <==> n - 1 == i;
    }
  }

  lemma DistinctShownOnce(spans: seq<Span>, roots: seq<SpanNode>)
    requires DistinctSpans(spans) && OncePerWalk(spans, roots)
    ensures EachReachingOnce(spans, roots)
  {
    var ws := RootWalks(spans, MAX_DEPTH);
    forall i: nat | i < |spans|
      ensures CountAll(roots, spans[i]) == if ReachesRoot(ById(spans), spans[i].spanId, MAX_DEPTH) then 1 else 0
    {
      DistinctReached(spans, i, MAX_DEPTH);
      UnforkedEndsOnce(spans, MAX_DEPTH, i);
      EndingIsSum(spans, ws, spans[i]);
      OneCopy(spans, ws, i, |spans|);
      ReachedEnds(spans, i, MAX_DEPTH);
    }
  }

  lemma ReachedEnds(spans: seq<Span>, i: nat, n: nat)
    ensures EndsAt(spans, RootWalks(spans, n), i) > 0 <==> Reached(spans, i, n)
  {
    var ws := RootWalks(spans, n);
    RootWalksExact(spans, n);
    EndsAtSome(spans, ws, i);
    if k :| 0 <= k < |ws| && Last(ws[k]) == i { assert ws[k] in ws; }
    if Reached(spans, i, n) {
      var w :| IsRootWalk(spans, w, n) && Last(w) == i;
      assert w in ws;
      var k :| 0 <= k < |ws| && ws[k] == w;
    }
  }

  // --------------------------------------------------------------- the method

  /** Roots ascend in start time, have no parent among the spans, and nest at most 128 levels. */
  ghost predicate WellShaped(spans: seq<Span>, roots: seq<SpanNode>) {
    && InStartOrder(roots)
    && forall i :: 0 <= i < |roots| ==>
      && Nested(roots[i]) && AtMostDeep(roots[i], 128)
      && match roots[i].span.parentSpanId case Some(p) => p !in Ids(spans) case None => true
  }

  lemma ForestShape(spans: seq<Span>, childrenOf: map<SpanId, seq<nat>>)
    requires Links(spans, childrenOf)
    ensures WellShaped(spans, Forest(spans, childrenOf))
  {
    hide Nested, AtMostDeep, SortedBy, Node, Nodes, StableSort, Links;
    var roots := Forest(spans, childrenOf);
    StableSortSorts(Nodes(Roots(spans), spans, childrenOf, 0), NodeStart);
    SortedInStartOrder(roots);
    forall i | 0 <= i < |roots|
      ensures Nested(roots[i]) && AtMostDeep(roots[i], MAX_DEPTH)
      ensures match roots[i].span.parentSpanId case Some(p) => p !in Ids(spans) case None => true
    {
      var r := SortedNode(Roots(spans), spans, childrenOf, 0, roots[i]);
      NodeShape(r, spans, childrenOf, 0);
    }
  }

  lemma NextLink(spans: seq<Span>, i: nat, p: SpanId)
    requires i < |spans|
    ensures Where(ChildTest(spans, p), i + 1)
         == Where(ChildTest(spans, p), i) + if spans[i].parentSpanId == Some(p) && p in Ids(spans) then [i] else []
  {
  }

  lemma NextRoot(spans: seq<Span>, i: nat)
    requires i < |spans|
    ensures Where(RootTest(spans), i + 1)
         == if spans[i].parentSpanId.Some? && spans[i].parentSpanId.value in Ids(spans) then Where(RootTest(spans), i)
            else Where(RootTest(spans), i) + [i]
  {
  }

  method LinkSpans(spans: seq<Span>) returns (childrenOf: map<SpanId, seq<nat>>, roots: seq<nat>)
    ensures Links(spans, childrenOf) && roots == Roots(spans)
  {
    hide Where, Ids;
    var present := Ids(spans);
    childrenOf, roots := map[], [];
    NothingWhere(spans);
    for i := 0 to |spans|
      invariant forall p :: Kids(childrenOf, p) == Where(ChildTest(spans, p), i)
      invariant roots == Where(RootTest(spans), i)
    {
      forall p { NextLink(spans, i, p); }
      NextRoot(spans, i);
      var parent := spans[i].parentSpanId;
      if parent.Some? && parent.value in present {
        childrenOf := childrenOf[parent.value := Kids(childrenOf, parent.value) + [i]];
      } else {
        roots := roots + [i];
      }
    }
  }

  lemma NothingWhere(spans: seq<Span>)
    ensures Where(RootTest(spans), 0) == [] && forall p :: Where(ChildTest(spans, p), 0) == []
  {
  }

  /** The forest of a trace, `None` when there is no such trace. */
  method BuildTraceTree(store: TraceStore, traceId: TraceId) returns (tree: Option<seq<SpanNode>>)
    ensures tree.Some? <==> traceId in store.traces
    ensures tree.Some? ==> var spans := store.traces[traceId];
            && WellShaped(spans, tree.value) && OncePerWalk(spans, tree.value)
            && (ShownAtMostOnce(spans, tree.value) <==> !exists c, p, q :: Forked(spans, 128, c, p, q))
            && (DistinctSpans(spans) ==> EachReachingOnce(spans, tree.value))
            && exists links :: Links(spans, links) && tree.value == Forest(spans, links)
  {
    if traceId !in store.traces { return None; }
    var spans := store.traces[traceId];
    var childrenOf, roots := LinkSpans(spans);
    var forest := StableSort(Nodes(roots, spans, childrenOf, 0), NodeStart);
    assert forest == Forest(spans, childrenOf);
    ForestShape(spans, childrenOf);
    ForestCountsWalks(spans, childrenOf);
    ShownAtMostOnceIff(spans, forest);
    if DistinctSpans(spans) { DistinctShownOnce(spans, forest); }
    tree := Some(forest);
  }

  // ------------------------------------------------------------ a repeated batch

  function Plain(id: SpanId, parent: Option<SpanId>, ingestSeq: nat): Span {
    Span(7, id, parent, 0, 0, 0, 0, Unset, Internal, [], [], ingestSeq)
  }

  // A root and its child, sent twice.
  const SentTwice := [Plain(1, None, 1), Plain(2, Some(1), 2), Plain(1, None, 3), Plain(2, Some(1), 4)]

  /** A trace sent twice does show its child under both copies of the root. */
  lemma ResentTraceRepeatsChildren(roots: seq<SpanNode>)
    requires OncePerWalk(SentTwice, roots)
    ensures Forked(SentTwice, 128, 1, 0, 2) && !ShownAtMostOnce(SentTwice, roots)
  {
    var spans := SentTwice;
    assert spans[0].spanId == 1;
    assert IsRootWalk(spans, [0], MAX_DEPTH - 1) && Last([0]) == 0;
    assert IsRootWalk(spans, [2], MAX_DEPTH - 1) && Last([2]) == 2;
    assert HangsBelow(spans, 1, 1);
    assert Forked(spans, MAX_DEPTH, 1, 0, 2);
    ShownAtMostOnceIff(spans, roots);
  }
}
