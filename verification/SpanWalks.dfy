/**
  Parent links between the listed spans of one trace, read downwards: children,
  roots, and the walks from a span to the spans below it.  Span ids may repeat
  and links may run in circles, so a span may lie on many walks.
 */
module SpanWalks {
  import opened Ancestry
  import opened Enumeration
  import opened Options
  import opened TraceIds
  import opened TraceIndexing

  function Ids(spans: seq<Span>): set<SpanId> {
    set i | 0 <= i < |spans| :: spans[i].spanId
  }

  /** Span `i` hangs below `p`. */
  predicate HangsBelow(spans: seq<Span>, i: nat, p: SpanId) {
    i < |spans| && spans[i].parentSpanId == Some(p) && p in Ids(spans)
  }

  /** Span `i` has no parent among the spans. */
  predicate IsRoot(spans: seq<Span>, i: nat) {
    i < |spans| && match spans[i].parentSpanId case Some(p) => p !in Ids(spans) case None => true
  }

  /** The numbers below `n` passing a test, ascending. */
  function Where(test: nat -> bool, n: nat): (idxs: seq<nat>)
    ensures forall i: nat :: i in idxs <==> i < n && test(i)
    ensures forall k :: 0 <= k < |idxs| ==> idxs[k] < n
  {
    if n == 0 then [] else Where(test, n - 1) + if test(n - 1) then [n - 1] else []
  }

  predicate Within(spans: seq<Span>, idxs: seq<nat>) {
    forall k :: 0 <= k < |idxs| ==> idxs[k] < |spans|
  }

  function ChildTest(spans: seq<Span>, p: SpanId): nat -> bool {
    (i: nat) => HangsBelow(spans, i, p)
  }

  function RootTest(spans: seq<Span>): nat -> bool {
    (i: nat) => IsRoot(spans, i)
  }

  function Children(spans: seq<Span>, p: SpanId): (idxs: seq<nat>)
    ensures Within(spans, idxs)
    ensures forall i: nat :: i in idxs <==> HangsBelow(spans, i, p)
  {
    Where(ChildTest(spans, p), |spans|)
  }

  function Roots(spans: seq<Span>): (idxs: seq<nat>)
    ensures Within(spans, idxs)
    ensures forall i: nat :: i in idxs <==> IsRoot(spans, i)
  {
    Where(RootTest(spans), |spans|)
  }

  lemma {:induction false} WhereDistinct(test: nat -> bool, n: nat)
    ensures Distinct(Where(test, n))
  {
    if n > 0 { WhereDistinct(test, n - 1); }
  }

  // --------------------------------------------------------------------- walks

  /** Positions of spans, each hanging below the one before. */
  type Walk = seq<nat>

  ghost predicate IsWalk(spans: seq<Span>, w: Walk) {
    && w != [] && Within(spans, w)
    && forall k :: 0 <= k < |w| - 1 ==> HangsBelow(spans, w[k + 1], spans[w[k]].spanId)
  }

  /** Walks that start at a root and have at most `n` spans. */
  ghost predicate IsRootWalk(spans: seq<Span>, w: Walk, n: nat) {
    w != [] && IsWalk(spans, w) && IsRoot(spans, w[0]) && |w| <= n
  }

  function Last(w: Walk): nat
    requires w != []
  {
    w[|w| - 1]
  }

  function Prefixed(i: nat, ws: seq<Walk>): (ps: seq<Walk>)
    ensures |ps| == |ws| && forall k :: 0 <= k < |ws| ==> ps[k] == [i] + ws[k]
  {
    seq(|ws|, k requires 0 <= k < |ws| => [i] + ws[k])
  }

  ghost predicate AllProper(spans: seq<Span>, ws: seq<Walk>) {
    forall k :: 0 <= k < |ws| ==> ws[k] != [] && Within(spans, ws[k])
  }

  /** The walks of at most `n` spans starting at span `i`. */
  function WalksFrom(spans: seq<Span>, i: nat, n: nat): (ws: seq<Walk>)
    requires i < |spans|
    ensures AllProper(spans, ws)
    decreases n, 0
  {
    if n == 0 then [] else [[i]] + Prefixed(i, WalksFromAll(spans, Children(spans, spans[i].spanId), n - 1))
  }

  function WalksFromAll(spans: seq<Span>, idxs: seq<nat>, n: nat): (ws: seq<Walk>)
    requires Within(spans, idxs)
    ensures AllProper(spans, ws)
    decreases n, 1 + |idxs|
  {
    if idxs == [] then []
    else WalksFromAll(spans, idxs[..|idxs| - 1], n) + WalksFrom(spans, idxs[|idxs| - 1], n)
  }

  /** The walks of at most `n` spans starting at a root. */
  function RootWalks(spans: seq<Span>, n: nat): (ws: seq<Walk>)
    ensures AllProper(spans, ws)
  {
    WalksFromAll(spans, Roots(spans), n)
  }

  lemma WalkTail(spans: seq<Span>, i: nat, w: Walk)
    requires i < |spans| && w != []
    ensures IsWalk(spans, [i] + w) <==> IsWalk(spans, w) && HangsBelow(spans, w[0], spans[i].spanId)
  {
    var all := [i] + w;
    assert all[1..] == w && all[0] == i && all[1] == w[0];
    if IsWalk(spans, all) {
      forall k | 0 <= k < |w| ensures w[k] < |spans| { assert all[k + 1] == w[k]; }
      forall k | 0 <= k < |w| - 1 ensures HangsBelow(spans, w[k + 1], spans[w[k]].spanId) {
        assert HangsBelow(spans, all[k + 2], spans[all[k + 1]].spanId);
      }
    }
    if IsWalk(spans, w) && HangsBelow(spans, w[0], spans[i].spanId) {
      forall k | 0 <= k < |all| - 1 ensures HangsBelow(spans, all[k + 1], spans[all[k]].spanId) {
        if k > 0 { assert HangsBelow(spans, w[k], spans[w[k - 1]].spanId); }
      }
    }
  }

  lemma InPrefixed(i: nat, ws: seq<Walk>, w: Walk)
    ensures w in Prefixed(i, ws) <==> w != [] && w[0] == i && w[1..] in ws
  {
    if w in Prefixed(i, ws) {
      var k :| 0 <= k < |ws| && Prefixed(i, ws)[k] == w;
      assert w[1..] == ws[k];
    }
    if w != [] && w[0] == i && w[1..] in ws {
      var k :| 0 <= k < |ws| && ws[k] == w[1..];
      assert Prefixed(i, ws)[k] == w;
    }
  }

  lemma {:induction false} WalksFromExact(spans: seq<Span>, i: nat, n: nat, w: Walk)
    requires i < |spans|
    ensures w in WalksFrom(spans, i, n) <==> IsWalk(spans, w) && w[0] == i && |w| <= n
    decreases n, 0
  {
    if n > 0 {
      var kids := Children(spans, spans[i].spanId);
      InPrefixed(i, WalksFromAll(spans, kids, n - 1), w);
      assert w in WalksFrom(spans, i, n) <==> w == [i] || w in Prefixed(i, WalksFromAll(spans, kids, n - 1));
      if w != [] && w[0] == i {
        if |w| == 1 {
          assert w == [i];
          NoEmptyWalk(spans, kids, n - 1);
        } else {
          assert w == [i] + w[1..];
          WalksFromAllExact(spans, kids, n - 1, w[1..]);
          WalkTail(spans, i, w[1..]);
        }
      }
    }
  }

  lemma NoEmptyWalk(spans: seq<Span>, idxs: seq<nat>, n: nat)
    requires Within(spans, idxs)
    ensures [] !in WalksFromAll(spans, idxs, n)
  {
    assert AllProper(spans, WalksFromAll(spans, idxs, n));
  }

  lemma {:induction false} WalksFromAllExact(spans: seq<Span>, idxs: seq<nat>, n: nat, w: Walk)
    requires Within(spans, idxs)
    ensures w in WalksFromAll(spans, idxs, n) <==> IsWalk(spans, w) && w[0] in idxs && |w| <= n
    decreases n, 1 + |idxs|
  {
    if idxs != [] {
      var front, last := idxs[..|idxs| - 1], idxs[|idxs| - 1];
      WalksFromAllExact(spans, front, n, w);
      WalksFromExact(spans, last, n, w);
      assert idxs == front + [last];
    }
  }

  lemma {:induction false} WalksFromDistinct(spans: seq<Span>, i: nat, n: nat)
    requires i < |spans|
    ensures Distinct(WalksFrom(spans, i, n))
    decreases n, 0
  {
    if n > 0 {
      var kids := Children(spans, spans[i].spanId);
      var below := WalksFromAll(spans, kids, n - 1);
      WhereDistinct(ChildTest(spans, spans[i].spanId), |spans|);
      WalksFromAllDistinct(spans, kids, n - 1);
      NoEmptyWalk(spans, kids, n - 1);
      var ps := Prefixed(i, below);
      forall k | 0 <= k < |ps| ensures ps[k] != [i] && ps[k][1..] == below[k] {}
      assert WalksFrom(spans, i, n) == [[i]] + ps;
    }
  }

  lemma {:induction false} WalksFromAllDistinct(spans: seq<Span>, idxs: seq<nat>, n: nat)
    requires Within(spans, idxs) && Distinct(idxs)
    ensures Distinct(WalksFromAll(spans, idxs, n))
    decreases n, 1 + |idxs|
  {
    if idxs != [] {
      var front, last := idxs[..|idxs| - 1], idxs[|idxs| - 1];
      WalksFromAllDistinct(spans, front, n);
      WalksFromDistinct(spans, last, n);
      var xs, ys := WalksFromAll(spans, front, n), WalksFrom(spans, last, n);
      assert last !in front;
      forall k, l | 0 <= k < |xs| && 0 <= l < |ys| ensures xs[k] != ys[l] {
        WalksFromAllExact(spans, front, n, xs[k]);
        WalksFromExact(spans, last, n, ys[l]);
      }
      DistinctJoin(xs, ys);
    }
  }

  lemma DistinctJoin<T>(xs: seq<T>, ys: seq<T>)
    requires Distinct(xs) && Distinct(ys) && forall k, l :: 0 <= k < |xs| && 0 <= l < |ys| ==> xs[k] != ys[l]
    ensures Distinct(xs + ys)
  {
  }

  /** The list of root walks has every root walk exactly once. */
  lemma RootWalksExact(spans: seq<Span>, n: nat)
    ensures Distinct(RootWalks(spans, n))
    ensures forall w :: w in RootWalks(spans, n) <==> IsRootWalk(spans, w, n)
  {
    WhereDistinct(RootTest(spans), |spans|);
    WalksFromAllDistinct(spans, Roots(spans), n);
    forall w ensures w in RootWalks(spans, n) <==> IsRootWalk(spans, w, n) {
      WalksFromAllExact(spans, Roots(spans), n, w);
    }
  }

  // ------------------------------------------------------- when walks are unique

  /** Some root walk of at most `n` spans ends at span `i`. */
  ghost predicate Reached(spans: seq<Span>, i: nat, n: nat) {
    exists w :: IsRootWalk(spans, w, n) && Last(w) == i
  }

  /** Span `c` hangs below two spans of one id that are both reached with room for one more. */
  ghost predicate Forked(spans: seq<Span>, n: nat, c: nat, p: nat, q: nat) {
    && p < |spans| && q < |spans| && p != q && spans[p].spanId == spans[q].spanId
    && HangsBelow(spans, c, spans[p].spanId)
    && n > 0 && Reached(spans, p, n - 1) && Reached(spans, q, n - 1)
  }

  lemma WalkFront(spans: seq<Span>, w: Walk, n: nat)
    requires IsRootWalk(spans, w, n) && |w| > 1
    ensures IsRootWalk(spans, w[..|w| - 1], n - 1)
    ensures HangsBelow(spans, Last(w), spans[Last(w[..|w| - 1])].spanId)
  {
    var front := w[..|w| - 1];
    forall k | 0 <= k < |front| - 1 ensures HangsBelow(spans, front[k + 1], spans[front[k]].spanId) {
      assert HangsBelow(spans, w[k + 1], spans[w[k]].spanId);
    }
    assert HangsBelow(spans, w[|w| - 2 + 1], spans[w[|w| - 2]].spanId);
  }

  lemma WalkExtended(spans: seq<Span>, w: Walk, c: nat, n: nat)
    requires IsRootWalk(spans, w, n) && HangsBelow(spans, c, spans[Last(w)].spanId)
    ensures IsRootWalk(spans, w + [c], n + 1)
  {
    var all := w + [c];
    forall k | 0 <= k < |all| - 1 ensures HangsBelow(spans, all[k + 1], spans[all[k]].spanId) {
      if k < |w| - 1 { assert HangsBelow(spans, w[k + 1], spans[w[k]].spanId); }
    }
  }

  /** Two root walks to one span part at a fork. */
  lemma {:induction false} TwoWalksFork(spans: seq<Span>, a: Walk, b: Walk, n: nat) returns (c: nat, p: nat, q: nat)
    requires IsRootWalk(spans, a, n) && IsRootWalk(spans, b, n) && a != b && Last(a) == Last(b)
    ensures Forked(spans, n, c, p, q)
    decreases |a|
  {
    c := Last(a);
    if |a| > 1 { WalkFront(spans, a, n); }
    if |b| > 1 { WalkFront(spans, b, n); }
    assert |a| > 1 && |b| > 1 by { RootEnds(spans, a, b, n); }
    var a', b' := a[..|a| - 1], b[..|b| - 1];
    p, q := Last(a'), Last(b');
    if p == q {
      assert a == a' + [c] && b == b' + [c];
      c, p, q := TwoWalksFork(spans, a', b', n - 1);
      ReachedFurther(spans, p, n - 2, n - 1);
      ReachedFurther(spans, q, n - 2, n - 1);
    }
  }

  /** A walk ending at a root is that root alone. */
  lemma RootEnds(spans: seq<Span>, a: Walk, b: Walk, n: nat)
    requires IsRootWalk(spans, a, n) && IsRootWalk(spans, b, n) && a != b && Last(a) == Last(b)
    ensures |a| > 1 && |b| > 1
  {
    if |a| == 1 && |b| > 1 { WalkFront(spans, b, n); }
    if |b| == 1 && |a| > 1 { WalkFront(spans, a, n); }
  }

  lemma ReachedFurther(spans: seq<Span>, i: nat, n: nat, m: nat)
    requires Reached(spans, i, n) && n <= m
    ensures Reached(spans, i, m)
  {
    var w :| IsRootWalk(spans, w, n) && Last(w) == i;
    assert IsRootWalk(spans, w, m);
  }

  /** A fork lies on two walks. */
  lemma ForkHasTwoWalks(spans: seq<Span>, n: nat, c: nat, p: nat, q: nat) returns (a: Walk, b: Walk)
    requires Forked(spans, n, c, p, q)
    ensures IsRootWalk(spans, a, n - 1) && IsRootWalk(spans, b, n - 1) && Last(a) == p && Last(b) == q
  {
    a :| IsRootWalk(spans, a, n - 1) && Last(a) == p;
    b :| IsRootWalk(spans, b, n - 1) && Last(b) == q;
  }

  // --------------------------------------------------- walks against parent maps

  predicate DistinctSpans(spans: seq<Span>) {
    forall i, j :: 0 <= i < j < |spans| ==> spans[i].spanId != spans[j].spanId
  }

  function ById(spans: seq<Span>): (m: SpanMap)
    requires DistinctSpans(spans)
    ensures m.Keys == Ids(spans)
    ensures forall i :: 0 <= i < |spans| ==> spans[i].spanId in m && m[spans[i].spanId] == spans[i]
  {
    map i | 0 <= i < |spans| :: spans[i].spanId := spans[i]
  }

  /** A span with no parent among the spans. */
  predicate IsTop(m: SpanMap, id: SpanId) {
    id in m && match ParentOf(m, id) case Some(p) => p !in m case None => true
  }

  ghost predicate TopAfter(m: SpanMap, id: SpanId, hops: nat) {
    Up(m, id, hops).Some? && IsTop(m, Up(m, id, hops).value)
  }

  /** The parent chain of `id` arrives at a root after fewer than `n` links. */
  ghost predicate ReachesRoot(m: SpanMap, id: SpanId, n: nat) {
    exists hops: nat :: hops < n && TopAfter(m, id, hops)
  }

  lemma {:induction false} UpFromParent(m: SpanMap, id: SpanId, p: SpanId, hops: nat)
    requires ParentOf(m, id) == Some(p)
    ensures Up(m, id, hops + 1) == Up(m, p, hops)
  {
    if hops == 0 { assert Up(m, id, 0) == Some(id); } else { UpFromParent(m, id, p, hops - 1); }
  }

  lemma {:induction false} WalkReaches(spans: seq<Span>, w: Walk, n: nat)
    requires DistinctSpans(spans) && IsRootWalk(spans, w, n)
    ensures TopAfter(ById(spans), spans[Last(w)].spanId, |w| - 1)
  {
    if |w| > 1 {
      var front := w[..|w| - 1];
      WalkFront(spans, w, n);
      WalkReaches(spans, front, n - 1);
      UpFromParent(ById(spans), spans[Last(w)].spanId, spans[Last(front)].spanId, |front| - 1);
    }
  }

  lemma {:induction false} ReachesWalk(spans: seq<Span>, i: nat, hops: nat)
    requires DistinctSpans(spans) && i < |spans| && TopAfter(ById(spans), spans[i].spanId, hops)
    ensures Reached(spans, i, hops + 1)
    decreases hops
  {
    hide ById, DistinctSpans, IsTop, Up, IsWalk, IsRoot, HangsBelow, Ids;
    if hops == 0 {
      TopIsWalk(spans, i);
    } else {
      var p := AboveIsPresent(spans, i, hops);
      ReachesWalk(spans, p, hops - 1);
      var w :| IsRootWalk(spans, w, hops) && Last(w) == p;
      WalkExtended(spans, w, i, hops);
      assert Last(w + [i]) == i;
    }
  }

  lemma TopIsWalk(spans: seq<Span>, i: nat)
    requires DistinctSpans(spans) && i < |spans| && TopAfter(ById(spans), spans[i].spanId, 0)
    ensures Reached(spans, i, 1)
  {
    assert IsRootWalk(spans, [i], 1) && Last([i]) == i;
  }

  lemma TopAbove(m: SpanMap, id: SpanId, hops: nat)
    requires hops > 0 && TopAfter(m, id, hops)
    ensures ParentOf(m, id).Some? && ParentOf(m, id).value in m && TopAfter(m, ParentOf(m, id).value, hops - 1)
  {
    if ParentOf(m, id).None? { NothingAbove(m, id, hops); }
    var parent := ParentOf(m, id).value;
    UpFromParent(m, id, parent, hops - 1);
    if parent !in m { NothingAbove(m, parent, hops - 1); }
  }

  /** A chain that goes on has its next span among the listed ones. */
  lemma AboveIsPresent(spans: seq<Span>, i: nat, hops: nat) returns (p: nat)
    requires DistinctSpans(spans) && i < |spans| && hops > 0 && TopAfter(ById(spans), spans[i].spanId, hops)
    ensures p < |spans| && HangsBelow(spans, i, spans[p].spanId)
    ensures TopAfter(ById(spans), spans[p].spanId, hops - 1)
  {
    hide TopAfter, ById;
    TopAbove(ById(spans), spans[i].spanId, hops);
    p :| 0 <= p < |spans| && Some(spans[p].spanId) == ParentOf(ById(spans), spans[i].spanId);
  }

  lemma {:induction false} NothingAbove(m: SpanMap, id: SpanId, hops: nat)
    requires ParentOf(m, id).None?
    ensures hops > 0 ==> Up(m, id, hops).None?
  {
    if hops > 1 { NothingAbove(m, id, hops - 1); }
    if hops == 1 { assert Up(m, id, 0) == Some(id); }
  }

  /** With distinct ids a span is reached iff its parent chain arrives at a root in time, and nothing forks. */
  lemma DistinctReached(spans: seq<Span>, i: nat, n: nat)
    requires DistinctSpans(spans) && i < |spans|
    ensures Reached(spans, i, n) <==> ReachesRoot(ById(spans), spans[i].spanId, n)
    ensures forall c, p, q :: !Forked(spans, n, c, p, q)
  {
    if Reached(spans, i, n) {
      var w :| IsRootWalk(spans, w, n) && Last(w) == i;
      WalkReaches(spans, w, n);
    }
    if ReachesRoot(ById(spans), spans[i].spanId, n) {
      var hops: nat :| hops < n && TopAfter(ById(spans), spans[i].spanId, hops);
      ReachesWalk(spans, i, hops);
      ReachedFurther(spans, i, hops + 1, n);
    }
  }
}
