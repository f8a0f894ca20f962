/** Which elements of a sequence pass a test, as an ascending list of positions. */
module Positions {

  /** `at` lists, in ascending order, exactly the positions of the elements passing the test. */
  ghost predicate PositionsOf<T>(xs: seq<T>, test: T -> bool, at: seq<nat>) {
    && (forall j, k :: 0 <= j < k < |at| ==> at[j] < at[k])
    && (forall k :: 0 <= k < |at| ==> at[k] < |xs| && test(xs[at[k]]))
    && forall i :: 0 <= i < |xs| && test(xs[i]) ==> i in at
  }

  /** `ys` holds one element for each position. */
  ghost predicate TakenAt<T>(xs: seq<T>, at: seq<nat>, ys: seq<T>) {
    |ys| == |at| && forall k :: 0 <= k < |at| ==> at[k] < |xs| && ys[k] == xs[at[k]]
  }

  function Shifted(at: seq<nat>, n: nat): (later: seq<nat>)
    ensures |later| == |at| && forall k :: 0 <= k < |at| ==> later[k] == at[k] + n
  {
    seq(|at|, k requires 0 <= k < |at| => at[k] + n)
  }

  lemma PositionsAppend<T>(xs: seq<T>, ys: seq<T>, test: T -> bool, at: seq<nat>, bt: seq<nat>)
    requires PositionsOf(xs, test, at) && PositionsOf(ys, test, bt)
    ensures PositionsOf(xs + ys, test, at + Shifted(bt, |xs|))
  {
    var all, both := xs + ys, at + Shifted(bt, |xs|);
    forall k | 0 <= k < |both| ensures both[k] < |all| && test(all[both[k]]) {
      if k < |at| { assert all[at[k]] == xs[at[k]]; } else { assert all[both[k]] == ys[bt[k - |at|]]; }
    }
    forall i | 0 <= i < |all| && test(all[i]) ensures i in both {
      if i < |xs| {
        assert all[i] == xs[i] && i in at;
      } else {
        assert all[i] == ys[i - |xs|];
        var k :| 0 <= k < |bt| && bt[k] == i - |xs|;
        assert both[|at| + k] == i;
      }
    }
  }

  lemma TakenAppend<T>(xs: seq<T>, xs': seq<T>, at: seq<nat>, bt: seq<nat>, ys: seq<T>, ys': seq<T>)
    requires TakenAt(xs, at, ys) && TakenAt(xs', bt, ys')
    ensures TakenAt(xs + xs', at + Shifted(bt, |xs|), ys + ys')
  {
  }

  lemma TakenOne<T>(x: T, take: bool)
    ensures TakenAt([x], if take then [0] else [], if take then [x] else [])
  {
  }

  /** The positions in a single element. */
  lemma PositionsOfOne<T>(x: T, test: T -> bool)
    ensures PositionsOf([x], test, if test(x) then [0] else [])
  {
    if test(x) { assert [0][0] == 0; }
  }

  lemma PositionsInRange<T>(xs: seq<T>, test: T -> bool, at: seq<nat>)
    requires PositionsOf(xs, test, at)
    ensures forall k :: 0 <= k < |at| ==> at[k] < |xs|
  {
  }

  lemma PositionsInNothing<T>(test: T -> bool)
    ensures PositionsOf([], test, [])
  {
  }

  /** One more element. */
  lemma PositionsSnoc<T>(xs: seq<T>, x: T, test: T -> bool, at: seq<nat>)
    requires PositionsOf(xs, test, at)
    ensures PositionsOf(xs + [x], test, at + if test(x) then [|xs|] else [])
  {
    hide PositionsOf;
    var last: seq<nat> := if test(x) then [0] else [];
    PositionsOfOne(x, test);
    PositionsAppend(xs, [x], test, at, last);
    assert Shifted(last, |xs|) == if test(x) then [|xs|] else [];
  }

  /** Two tests in a row. */
  lemma PositionsWithin<T>(xs: seq<T>, p: T -> bool, at: seq<nat>, ys: seq<T>, q: T -> bool, bt: seq<nat>, both: T -> bool) returns (ct: seq<nat>)
    requires PositionsOf(xs, p, at) && TakenAt(xs, at, ys) && PositionsOf(ys, q, bt)
    requires forall x :: both(x) <==> p(x) && q(x)
    ensures PositionsOf(xs, both, ct) && |ct| == |bt| && forall k :: 0 <= k < |ct| ==> bt[k] < |at| && ct[k] == at[bt[k]]
  {
    ct := seq(|bt|, k requires 0 <= k < |bt| => at[bt[k]]);
    forall i | 0 <= i < |xs| && both(xs[i]) ensures i in ct {
      var j :| 0 <= j < |at| && at[j] == i;
      assert ys[j] == xs[i];
      var k :| 0 <= k < |bt| && bt[k] == j;
      assert ct[k] == i;
    }
  }

  /** `ys` is what is left of `xs` when only the elements passing the test are kept, in order. */
  ghost predicate Selects<T>(xs: seq<T>, test: T -> bool, ys: seq<T>) {
    exists at :: PositionsOf(xs, test, at) && TakenAt(xs, at, ys)
  }

  lemma SelectsNothing<T>(test: T -> bool)
    ensures Selects([], test, [])
  {
    var none: seq<T> := [];
    assert PositionsOf(none, test, []) && TakenAt(none, [], none);
  }

  /** One more element in front. */
  lemma SelectsCons<T>(x: T, xs: seq<T>, test: T -> bool, ys: seq<T>)
    requires Selects(xs, test, ys)
    ensures Selects([x] + xs, test, (if test(x) then [x] else []) + ys)
  {
    hide PositionsOf, TakenAt;
    var at: seq<nat> :| PositionsOf(xs, test, at) && TakenAt(xs, at, ys);
    var first: seq<nat> := if test(x) then [0] else [];
    PositionsOfOne(x, test);
    TakenOne(x, test(x));
    PositionsAppend([x], xs, test, first, at);
    TakenAppend([x], xs, first, at, if test(x) then [x] else [], ys);
  }
}
