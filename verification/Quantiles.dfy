/** Quantiles by linear interpolation, over histogram buckets and over sorted samples. */
module Quantiles {
  import opened Options

  /** The upper bound of a bucket; an unreadable one counts as infinite. */
  datatype Bound = Finite(v: real) | Infinite

  datatype Bucket = Bucket(bound: Bound, count: real)

  predicate AtMost(a: Bound, b: Bound) {
    b.Infinite? || (a.Finite? && a.v <= b.v)
  }

  ghost predicate BoundsAscend(buckets: seq<Bucket>) {
    forall i, j :: 0 <= i <= j < |buckets| ==> AtMost(buckets[i].bound, buckets[j].bound)
  }

  /** Cumulative, as histogram buckets are meant to be. */
  ghost predicate Cumulative(buckets: seq<Bucket>) {
    && (forall i, j :: 0 <= i <= j < |buckets| ==> buckets[i].count <= buckets[j].count)
    && (forall i :: 0 <= i < |buckets| ==> buckets[i].count >= 0.0)
  }

  ghost predicate BoundsNonNegative(buckets: seq<Bucket>) {
    forall i :: 0 <= i < |buckets| ==> AtMost(Finite(0.0), buckets[i].bound)
  }

  /** A histogram that has seen something. */
  ghost predicate Proper(buckets: seq<Bucket>) {
    buckets != [] && BoundsAscend(buckets) && BoundsNonNegative(buckets) && Cumulative(buckets) && Total(buckets) > 0.0
  }

  function Total(buckets: seq<Bucket>): real {
    if buckets == [] then 0.0 else buckets[|buckets| - 1].count
  }

  function PrevCount(buckets: seq<Bucket>, i: nat): real
    requires i <= |buckets|
  {
    if i == 0 then 0.0 else buckets[i - 1].count
  }

  function PrevBound(buckets: seq<Bucket>, i: nat): Bound
    requires i <= |buckets|
  {
    if i == 0 then Finite(0.0) else buckets[i - 1].bound
  }

  /** The first bucket reaching the target; the number of buckets if none does. */
  function Reaching(buckets: seq<Bucket>, target: real): (i: nat)
    ensures i <= |buckets|
    ensures forall j :: 0 <= j < i ==> buckets[j].count < target
    ensures i < |buckets| ==> buckets[i].count >= target
  {
    if buckets == [] || buckets[0].count >= target then 0 else 1 + Reaching(buckets[1..], target)
  }

  function Interpolate(lo: real, hi: real, from: real, to: real, target: real): real
    requires from != to
  {
    lo + (target - from) / (to - from) * (hi - lo)
  }

  /** The value at which the buckets reach the target. */
  function ValueAt(buckets: seq<Bucket>, target: real): Bound
    requires buckets != []
  {
    var i := Reaching(buckets, target);
    if i == |buckets| then buckets[i - 1].bound
    else
      match buckets[i].bound
      case Infinite => PrevBound(buckets, i)
      case Finite(hi) =>
        if buckets[i].count == PrevCount(buckets, i) then Finite(hi)
        else
          match PrevBound(buckets, i)
          case Infinite => Infinite
          case Finite(lo) => Finite(Interpolate(lo, hi, PrevCount(buckets, i), buckets[i].count, target))
  }

  /** The cumulative count a quantile asks for. */
  function Target(buckets: seq<Bucket>, q: real): real {
    q * Total(buckets)
  }

  function QuantileOf(buckets: seq<Bucket>, q: real): Bound
    requires buckets != []
  {
    ValueAt(buckets, Target(buckets, q))
  }

  /** One time stamp of `histogram_quantile`; nothing for an empty histogram. */
  method HistogramQuantile(quantile: real, buckets: seq<Bucket>) returns (value: Option<Bound>)
    requires BoundsAscend(buckets)
    ensures value == if Total(buckets) == 0.0 then None else Some(QuantileOf(buckets, quantile))
  {
    hide Interpolate, Target;
    if buckets == [] || buckets[|buckets| - 1].count == 0.0 { return None; }
    var target := Target(buckets, quantile);
    var prevCount, prevBound := 0.0, Finite(0.0);
    for i := 0 to |buckets|
      invariant prevCount == PrevCount(buckets, i) && prevBound == PrevBound(buckets, i)
      invariant forall j :: 0 <= j < i ==> buckets[j].count < target
    {
      var count, bound := buckets[i].count, buckets[i].bound;
      assert i > 0 ==> AtMost(prevBound, bound);
      if count >= target {
        assert Reaching(buckets, target) == i;
        if bound.Infinite? {
          return Some(prevBound);
        } else if count == prevCount {
          return Some(bound);
        } else if prevBound.Finite? {
          return Some(Finite(Interpolate(prevBound.v, bound.v, prevCount, count, target)));
        } else {
          assert false;
        }
      }
      prevCount, prevBound := count, bound;
    }
    value := Some(buckets[|buckets| - 1].bound);
  }

  // ---------------------------------------------------------------- arithmetic

  lemma Ratio(x: real, d: real)
    requires 0.0 <= x <= d && d > 0.0
    ensures 0.0 <= x / d <= 1.0
  {
    var f := x / d;
    assert f * d == x;
    assert f > 1.0 ==> (f - 1.0) * d > 0.0;
  }

  lemma Fraction(from: real, to: real, target: real)
    requires from < to && from <= target <= to
    ensures 0.0 <= (target - from) / (to - from) <= 1.0
  {
    Ratio(target - from, to - from);
  }

  lemma FractionMonotone(from: real, to: real, t1: real, t2: real)
    requires from < to && t1 <= t2
    ensures (t1 - from) / (to - from) <= (t2 - from) / (to - from)
  {
    var f1, f2 := (t1 - from) / (to - from), (t2 - from) / (to - from);
    assert f1 * (to - from) == t1 - from && f2 * (to - from) == t2 - from;
    if f1 > f2 { Scale(f2, f1, to - from); }
  }

  lemma Scale(a: real, b: real, d: real)
    requires a <= b && d >= 0.0
    ensures a * d <= b * d
    ensures a < b && d > 0.0 ==> a * d < b * d
  {
    assert (b - a) * d >= 0.0;
  }

  /** Interpolating stays between the ends and never turns back. */
  lemma InterpolateBounds(lo: real, hi: real, from: real, to: real, target: real)
    requires lo <= hi && from < to && from <= target <= to
    ensures lo <= Interpolate(lo, hi, from, to, target) <= hi
  {
    Fraction(from, to, target);
    Scale(0.0, (target - from) / (to - from), hi - lo);
    Scale((target - from) / (to - from), 1.0, hi - lo);
  }

  lemma InterpolateMonotone(lo: real, hi: real, from: real, to: real, t1: real, t2: real)
    requires lo <= hi && from < to && t1 <= t2
    ensures Interpolate(lo, hi, from, to, t1) <= Interpolate(lo, hi, from, to, t2)
  {
    FractionMonotone(from, to, t1, t2);
    Scale((t1 - from) / (to - from), (t2 - from) / (to - from), hi - lo);
  }

  // -------------------------------------------------------- histogram quantile

  /** Every infinite bucket already holds the total. */
  ghost predicate OverflowIsLast(buckets: seq<Bucket>) {
    forall i :: 0 <= i < |buckets| && buckets[i].bound.Infinite? ==> buckets[i].count == Total(buckets)
  }

  /** The largest finite bound, 0 if there is none. */
  function LargestFinite(buckets: seq<Bucket>): (m: real)
    ensures m >= 0.0
    ensures forall i :: 0 <= i < |buckets| && buckets[i].bound.Finite? ==> buckets[i].bound.v <= m
    ensures m == 0.0 || exists i :: 0 <= i < |buckets| && buckets[i].bound == Finite(m)
  {
    if buckets == [] then 0.0
    else
      var rest := LargestFinite(buckets[..|buckets| - 1]);
      match buckets[|buckets| - 1].bound
      case Finite(v) => if v > rest then v else rest
      case Infinite => rest
  }

  predicate InRange(buckets: seq<Bucket>, value: Bound) {
    value.Finite? && 0.0 <= value.v <= LargestFinite(buckets)
  }

  lemma Share(q: real, total: real)
    requires 0.0 <= q <= 1.0 && total >= 0.0
    ensures 0.0 <= q * total <= total && 1.0 * total == total
  {
    Scale(0.0, q, total);
    Scale(q, 1.0, total);
  }

  lemma TargetReached(buckets: seq<Bucket>, q: real)
    requires Proper(buckets) && 0.0 <= q <= 1.0
    ensures 0.0 <= Target(buckets, q) <= Total(buckets) && Reaching(buckets, Target(buckets, q)) < |buckets|
    ensures Target(buckets, 1.0) == Total(buckets)
  {
    hide Reaching;
    Share(q, Total(buckets));
    assert buckets[|buckets| - 1].count >= Target(buckets, q);
  }

  /** The value lies between the bounds of the bucket that reaches the target. */
  lemma ValueInBucket(buckets: seq<Bucket>, target: real)
    requires Proper(buckets) && 0.0 <= target && Reaching(buckets, target) < |buckets|
    ensures var i := Reaching(buckets, target);
            && AtMost(PrevBound(buckets, i), ValueAt(buckets, target))
            && AtMost(ValueAt(buckets, target), buckets[i].bound)
            && (PrevBound(buckets, i).Finite? ==> ValueAt(buckets, target).Finite?)
  {
    var i := Reaching(buckets, target);
    assert AtMost(PrevBound(buckets, i), buckets[i].bound);
    assert PrevCount(buckets, i) <= target <= buckets[i].count;
    if buckets[i].bound.Finite? && buckets[i].count != PrevCount(buckets, i) {
      InterpolateBounds(PrevBound(buckets, i).v, buckets[i].bound.v, PrevCount(buckets, i), buckets[i].count, target);
    }
  }

  /** Bucket `i` is the first with at least this count. */
  ghost predicate FirstReaching(buckets: seq<Bucket>, target: real, i: nat) {
    i < |buckets| && buckets[i].count >= target && forall j :: 0 <= j < i ==> buckets[j].count < target
  }

  /** The value lies as far along the bounds of bucket `i` as the target along its counts; both start from zero. */
  ghost predicate ValueIn(buckets: seq<Bucket>, target: real, i: nat, value: Bound)
    requires i < |buckets|
  {
    var bound, count := buckets[i].bound, buckets[i].count;
    var lo, from := if i == 0 then Finite(0.0) else buckets[i - 1].bound, if i == 0 then 0.0 else buckets[i - 1].count;
    && (bound.Infinite? ==> value == lo)
    && (bound.Finite? ==> value.Finite? && lo.Finite?)
    && (bound.Finite? && count == from ==> value == bound)
    && (bound.Finite? && count != from ==> (value.v - lo.v) * (count - from) == (target - from) * (bound.v - lo.v))
  }

  lemma ValueExact(buckets: seq<Bucket>, target: real, i: nat)
    requires BoundsAscend(buckets) && FirstReaching(buckets, target, i)
    ensures ValueIn(buckets, target, i, ValueAt(buckets, target))
  {
    hide Interpolate;
    var n := Reaching(buckets, target);
    assert n == i by { assert n <= i; assert n < |buckets| && buckets[n].count >= target; }
    assert i > 0 ==> AtMost(buckets[i - 1].bound, buckets[i].bound);
    if buckets[i].bound.Finite? && buckets[i].count != PrevCount(buckets, i) {
      InterpolateExact(PrevBound(buckets, i).v, buckets[i].bound.v, PrevCount(buckets, i), buckets[i].count, target);
    }
  }

  /** The exact quantile: the value where the counts first reach its share of the last count. */
  lemma QuantileExact(buckets: seq<Bucket>, q: real, i: nat)
    requires BoundsAscend(buckets) && buckets != [] && FirstReaching(buckets, q * buckets[|buckets| - 1].count, i)
    ensures ValueIn(buckets, q * buckets[|buckets| - 1].count, i, QuantileOf(buckets, q))
  {
    hide ValueIn, ValueAt, FirstReaching, BoundsAscend;
    var target := q * buckets[|buckets| - 1].count;
    assert Target(buckets, q) == target;
    ValueExact(buckets, target, i);
  }

  lemma InterpolateExact(lo: real, hi: real, from: real, to: real, target: real)
    requires from != to
    ensures (Interpolate(lo, hi, from, to, target) - lo) * (to - from) == (target - from) * (hi - lo)
  {
    var f := (target - from) / (to - from);
    assert f * (to - from) == target - from;
    assert f * (hi - lo) * (to - from) == f * (to - from) * (hi - lo);
  }

  /** A quantile no bucket reaches has the last bound. */
  lemma UnreachedQuantile(buckets: seq<Bucket>, q: real)
    requires buckets != [] && forall j :: 0 <= j < |buckets| ==> buckets[j].count < q * buckets[|buckets| - 1].count
    ensures QuantileOf(buckets, q) == buckets[|buckets| - 1].bound
  {
  }

  lemma ValueInRange(buckets: seq<Bucket>, q: real)
    requires Proper(buckets) && OverflowIsLast(buckets) && 0.0 <= q <= 1.0
    ensures InRange(buckets, QuantileOf(buckets, q))
  {
    hide Target;
    var target := Target(buckets, q);
    TargetReached(buckets, q);
    ValueInBucket(buckets, target);
    var i := Reaching(buckets, target);
    assert i > 0 ==> buckets[i - 1].count < target && buckets[i - 1].bound.Finite?;
    assert i > 0 ==> AtMost(Finite(0.0), buckets[i - 1].bound);
  }

  /** Every quantile lies between 0 and the largest finite bound iff no infinite bucket misses part of the total. */
  lemma QuantilesInRangeIff(buckets: seq<Bucket>)
    requires Proper(buckets)
    ensures (forall q :: 0.0 <= q <= 1.0 ==> InRange(buckets, QuantileOf(buckets, q))) <==> OverflowIsLast(buckets)
  {
    if OverflowIsLast(buckets) {
      forall q | 0.0 <= q <= 1.0 ensures InRange(buckets, QuantileOf(buckets, q)) { ValueInRange(buckets, q); }
    }
    if j :| 0 <= j < |buckets| && buckets[j].bound.Infinite? && buckets[j].count != Total(buckets) {
      TargetReached(buckets, 1.0);
      var target := Target(buckets, 1.0);
      var i := Reaching(buckets, target);
      assert buckets[j].count <= buckets[|buckets| - 1].count;
      assert forall k :: 0 <= k <= j ==> buckets[k].count <= buckets[j].count;
      assert AtMost(buckets[j].bound, buckets[i - 1].bound) && AtMost(buckets[j].bound, buckets[i].bound);
      assert ValueAt(buckets, target).Infinite?;
      assert !InRange(buckets, QuantileOf(buckets, 1.0));
    }
  }

  /** A larger quantile never has a smaller value. */
  lemma QuantileMonotone(buckets: seq<Bucket>, q1: real, q2: real)
    requires Proper(buckets) && 0.0 <= q1 <= q2 <= 1.0
    ensures AtMost(QuantileOf(buckets, q1), QuantileOf(buckets, q2))
  {
    hide Target, ValueAt, Reaching, BoundsAscend, BoundsNonNegative, Cumulative, AtMost;
    TargetMonotone(buckets, q1, q2);
    TargetReached(buckets, q1);
    TargetReached(buckets, q2);
    ValueMonotone(buckets, Target(buckets, q1), Target(buckets, q2));
  }

  lemma TargetMonotone(buckets: seq<Bucket>, q1: real, q2: real)
    requires Proper(buckets) && q1 <= q2
    ensures Target(buckets, q1) <= Target(buckets, q2)
  {
    Scale(q1, q2, Total(buckets));
  }

  lemma ValueMonotone(buckets: seq<Bucket>, t1: real, t2: real)
    requires Proper(buckets) && 0.0 <= t1 <= t2
    requires Reaching(buckets, t1) < |buckets| && Reaching(buckets, t2) < |buckets|
    ensures AtMost(ValueAt(buckets, t1), ValueAt(buckets, t2))
  {
    var i1, i2 := Reaching(buckets, t1), Reaching(buckets, t2);
    ReachingMonotone(buckets, t1, t2);
    if i1 < i2 {
      hide ValueAt, Interpolate;
      ValueInBucket(buckets, t1);
      ValueInBucket(buckets, t2);
      assert AtMost(buckets[i1].bound, buckets[i2 - 1].bound);
    } else {
      ValueMonotoneWithin(buckets, t1, t2);
    }
  }

  lemma ReachingMonotone(buckets: seq<Bucket>, t1: real, t2: real)
    requires t1 <= t2
    ensures Reaching(buckets, t1) <= Reaching(buckets, t2)
  {
    var i2 := Reaching(buckets, t2);
    assert i2 < |buckets| ==> buckets[i2].count >= t1;
  }

  lemma ValueMonotoneWithin(buckets: seq<Bucket>, t1: real, t2: real)
    requires Proper(buckets) && 0.0 <= t1 <= t2
    requires Reaching(buckets, t1) == Reaching(buckets, t2) < |buckets|
    ensures AtMost(ValueAt(buckets, t1), ValueAt(buckets, t2))
  {
    hide Interpolate;
    var i := Reaching(buckets, t1);
    var lo, hi := PrevBound(buckets, i), buckets[i].bound;
    assert AtMost(lo, hi);
    assert PrevCount(buckets, i) <= t1 <= buckets[i].count;
    if hi.Finite? && buckets[i].count != PrevCount(buckets, i) {
      InterpolateMonotone(lo.v, hi.v, PrevCount(buckets, i), buckets[i].count, t1, t2);
    }
  }

  // Two buckets with unreadable bounds; the second holds more than the first.
  const TwoOverflows := [Bucket(Finite(1.0), 1.0), Bucket(Infinite, 2.0), Bucket(Infinite, 3.0)]

  /** A second infinite bucket does push the top quantile beyond every finite bound. */
  lemma TwoOverflowsEscape()
    ensures Proper(TwoOverflows) && !InRange(TwoOverflows, QuantileOf(TwoOverflows, 1.0))
  {
    var b := TwoOverflows;
    assert Reaching(b, 3.0) == 2;
    assert PrevBound(b, 2) == Infinite;
  }

  // ----------------------------------------------------------- sample quantile

  ghost predicate AscendingValues(values: seq<real>) {
    forall i, j :: 0 <= i <= j < |values| ==> values[i] <= values[j]
  }

  function Ceil(x: real): int { -((-x).Floor) }

  /** The weighted mean of two values. */
  function Weighted(a: real, b: real, f: real): real { a * (1.0 - f) + b * f }

  /** The value at a possibly fractional rank. */
  function AtRank(values: seq<real>, rank: real): real
    requires 0.0 <= rank <= (|values| - 1) as real
  {
    var lower, upper := rank.Floor, Ceil(rank);
    if lower == upper then values[lower]
    else Weighted(values[lower], values[upper], rank - lower as real)
  }

  /** The rank of a quantile among `n + 1` samples. */
  function Rank(q: real, n: nat): real {
    q * n as real
  }

  lemma RankBounds(q: real, n: nat)
    requires 0.0 <= q <= 1.0
    ensures 0.0 <= Rank(q, n) <= n as real
    ensures Rank(0.0, n) == 0.0 && Rank(1.0, n) == n as real
  {
    var m := n as real;
    Share(q, m);
    assert Rank(q, n) == q * m && Rank(0.0, n) == 0.0 * m && Rank(1.0, n) == 1.0 * m;
  }

  lemma RankMonotone(q1: real, q2: real, n: nat)
    requires q1 <= q2
    ensures Rank(q1, n) <= Rank(q2, n)
  {
    Scale(q1, q2, n as real);
  }

  function InterpolateQuantile(values: seq<real>, q: real): Option<real>
    requires 0.0 <= q <= 1.0
  {
    if values == [] then None
    else if |values| == 1 then Some(values[0])
    else
      RankBounds(q, |values| - 1);
      Some(AtRank(values, Rank(q, |values| - 1)))
  }

  lemma WeightedForm(a: real, b: real, f: real)
    ensures Weighted(a, b, f) == a + f * (b - a)
  {
  }

  lemma SharesInOrder(f1: real, f2: real, d: real)
    requires 0.0 <= f1 <= f2 <= 1.0 && d >= 0.0
    ensures 0.0 <= f1 * d <= f2 * d <= d
  {
    Scale(0.0, f1, d);
    Scale(f1, f2, d);
    Scale(f2, 1.0, d);
    assert 0.0 * d == 0.0 && 1.0 * d == d;
  }

  /** A weighted mean lies between its two values and moves with the weight of the larger one. */
  lemma WeightedBetween(a: real, b: real, f1: real, f2: real)
    requires a <= b && 0.0 <= f1 <= f2 <= 1.0
    ensures a <= Weighted(a, b, f1) <= Weighted(a, b, f2) <= b
  {
    hide Weighted;
    WeightedForm(a, b, f1);
    WeightedForm(a, b, f2);
    SharesInOrder(f1, f2, b - a);
  }

  lemma AtRankWeighted(values: seq<real>, rank: real)
    requires 0.0 <= rank <= (|values| - 1) as real
    ensures var lower, upper := rank.Floor, Ceil(rank);
            && 0 <= lower <= upper < |values| && upper <= lower + 1
            && AtRank(values, rank) == if lower == upper then values[lower] else Weighted(values[lower], values[upper], rank - lower as real)
  {
    hide Weighted;
    assert 0 <= rank.Floor <= Ceil(rank) <= |values| - 1;
  }

  lemma AtRankBetween(values: seq<real>, rank: real)
    requires AscendingValues(values) && 0.0 <= rank <= (|values| - 1) as real
    ensures values[rank.Floor] <= AtRank(values, rank) <= values[Ceil(rank)]
  {
    hide AtRank, Weighted;
    var f := rank - rank.Floor as real;
    AtRankWeighted(values, rank);
    WeightedBetween(values[rank.Floor], values[Ceil(rank)], f, f);
  }

  lemma AtRankMonotone(values: seq<real>, r1: real, r2: real)
    requires AscendingValues(values) && 0.0 <= r1 <= r2 <= (|values| - 1) as real
    ensures AtRank(values, r1) <= AtRank(values, r2)
  {
    hide AtRank, Weighted;
    AtRankBetween(values, r1);
    AtRankBetween(values, r2);
    if r1.Floor == r2.Floor {
      if Ceil(r1) == Ceil(r2) {
        AtRankWeighted(values, r1);
        AtRankWeighted(values, r2);
        WeightedBetween(values[r1.Floor], values[Ceil(r1)], r1 - r1.Floor as real, r2 - r2.Floor as real);
      }
    } else {
      assert Ceil(r1) <= r2.Floor;
    }
  }

  lemma RankEnds(values: seq<real>, rank: real)
    requires AscendingValues(values) && 0.0 <= rank <= (|values| - 1) as real
    ensures values[0] <= AtRank(values, rank) <= values[|values| - 1]
    ensures AtRank(values, 0.0) == values[0]
    ensures AtRank(values, (|values| - 1) as real) == values[|values| - 1]
  {
    AtRankBetween(values, rank);
    assert 0 <= rank.Floor <= Ceil(rank) <= |values| - 1;
  }

  /** The quantile of sorted samples lies between the extremes, reaches both, and never decreases. */
  lemma SampleQuantile(values: seq<real>, q1: real, q2: real)
    requires values != [] && AscendingValues(values) && 0.0 <= q1 <= q2 <= 1.0
    ensures InterpolateQuantile(values, q1).Some? && InterpolateQuantile(values, q2).Some?
    ensures values[0] <= InterpolateQuantile(values, q1).value <= InterpolateQuantile(values, q2).value <= values[|values| - 1]
    ensures InterpolateQuantile(values, 0.0) == Some(values[0]) && InterpolateQuantile(values, 1.0) == Some(values[|values| - 1])
  {
    hide AtRank, AscendingValues, Rank;
    if |values| > 1 {
      var n := |values| - 1;
      RankBounds(q1, n);
      RankBounds(q2, n);
      RankMonotone(q1, q2, n);
      RankEnds(values, Rank(q1, n));
      RankEnds(values, Rank(q2, n));
      AtRankMonotone(values, Rank(q1, n), Rank(q2, n));
    }
  }

  /** The exact value: between the samples around rank `q * (n - 1)`, as far along as the rank. */
  lemma SampleQuantileExact(values: seq<real>, q: real, rank: real, i: nat)
    requires 0.0 <= q <= 1.0 && rank == q * (|values| - 1) as real
    requires i + 1 < |values| && i as real <= rank <= (i + 1) as real
    ensures InterpolateQuantile(values, q) == Some(values[i] + (rank - i as real) * (values[i + 1] - values[i]))
  {
    hide AtRank;
    RankBounds(q, |values| - 1);
    assert Rank(q, |values| - 1) == rank;
    AtRankExact(values, rank, i);
  }

  lemma WeightedEnds(a: real, b: real, f: real)
    ensures f == 0.0 ==> a + f * (b - a) == a
    ensures f == 1.0 ==> a + f * (b - a) == b
  {
  }

  lemma AtRankExact(values: seq<real>, rank: real, i: nat)
    requires i + 1 < |values| && i as real <= rank <= (i + 1) as real
    ensures AtRank(values, rank) == values[i] + (rank - i as real) * (values[i + 1] - values[i])
  {
    hide AtRank, Weighted;
    AtRankWeighted(values, rank);
    WeightedForm(values[i], values[i + 1], rank - i as real);
    WeightedEnds(values[i], values[i + 1], rank - i as real);
    assert i as real < rank < (i + 1) as real ==> rank.Floor == i && Ceil(rank) == i + 1;
  }

  lemma OneSample(value: real, q: real)
    requires 0.0 <= q <= 1.0
    ensures InterpolateQuantile([value], q) == Some(value)
  {
  }
}
