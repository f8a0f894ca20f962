/** Sums of natural-number measures over the values of a finite map. */
module MapSums {

  ghost function Sum<K>(m: map<K, nat>): nat {
    if m.Keys == {} then 0
    else
      var k :| k in m.Keys;
      m[k] + Sum(m - {k})
  }

  /** Any key may be taken out first. */
  lemma {:induction false} SumRemove<K>(m: map<K, nat>, k: K)
    requires k in m
    ensures Sum(m) == m[k] + Sum(m - {k})
    decreases |m|
  {
    var j :| j in m.Keys && Sum(m) == m[j] + Sum(m - {j});
    if j != k {
      SumRemove(m - {j}, k);
      SumRemove(m - {k}, j);
      assert (m - {j}) - {k} == (m - {k}) - {j};
    }
  }

  lemma SumUpdate<K>(m: map<K, nat>, k: K, n: nat)
    ensures Sum(m[k := n]) == Sum(m - {k}) + n
    ensures Sum(m) == Sum(m - {k}) + (if k in m then m[k] else 0)
  {
    SumRemove(m[k := n], k);
    assert m[k := n] - {k} == m - {k};
    if k in m {
      SumRemove(m, k);
    } else {
      assert m - {k} == m;
    }
  }

  lemma SumEmpty<K>(m: map<K, nat>)
    requires m.Keys == {}
    ensures Sum(m) == 0
  {
  }

  ghost function Weights<K, V>(m: map<K, V>, w: V -> nat): map<K, nat> {
    map k | k in m :: w(m[k])
  }

  /** The total weight of the values of a map. */
  ghost function Tally<K, V>(m: map<K, V>, w: V -> nat): nat {
    Sum(Weights(m, w))
  }

  function Restrict<K, V>(m: map<K, V>, keys: set<K>): map<K, V> {
    map k | k in m && k in keys :: m[k]
  }

  lemma TallyNothing<K, V>(m: map<K, V>, w: V -> nat)
    ensures Tally(Restrict(m, {}), w) == 0
  {
    SumEmpty(Weights(Restrict(m, {}), w));
  }

  lemma TallyNext<K, V>(m: map<K, V>, keys: set<K>, k: K, w: V -> nat)
    requires k in m && k !in keys
    ensures Tally(Restrict(m, keys + {k}), w) == Tally(Restrict(m, keys), w) + w(m[k])
  {
    var before, after := Weights(Restrict(m, keys), w), Weights(Restrict(m, keys + {k}), w);
    SumUpdate(before, k, w(m[k]));
    assert before - {k} == before;
    assert after == before[k := w(m[k])];
  }

  /** Only keys of weight zero may be left out of a tally. */
  lemma {:induction false} TallyRestrict<K, V>(m: map<K, V>, keys: set<K>, w: V -> nat)
    requires forall k :: k in m && k !in keys ==> w(m[k]) == 0
    ensures Tally(Restrict(m, keys), w) == Tally(m, w)
    decreases m.Keys - keys
  {
    if k :| k in m && k !in keys {
      TallyNext(m, keys, k, w);
      TallyRestrict(m, keys + {k}, w);
    } else {
      assert Restrict(m, keys) == m;
    }
  }

  /** A pointwise smaller weight tallies to less, and to the same only if it is the same everywhere. */
  lemma {:induction false} TallyAtMost<K, V>(m: map<K, V>, w: V -> nat, w': V -> nat)
    requires forall k :: k in m ==> w(m[k]) <= w'(m[k])
    ensures Tally(m, w) <= Tally(m, w')
    ensures Tally(m, w) == Tally(m, w') <==> forall k :: k in m ==> w(m[k]) == w'(m[k])
    decreases m.Keys
  {
    if k :| k in m {
      var rest := m - {k};
      TallyAtMost(rest, w, w');
      SumRemove(Weights(m, w), k);
      SumRemove(Weights(m, w'), k);
      assert Weights(m, w) - {k} == Weights(rest, w) && Weights(m, w') - {k} == Weights(rest, w');
      assert forall j :: j in m ==> j == k || j in rest;
    } else {
      assert Weights(m, w) == Weights(m, w');
    }
  }

  /** Tallying a selection is tallying everything with weight zero outside it. */
  lemma TallySelected<K, V>(m: map<K, V>, keys: set<K>, w: V -> nat, all: V -> nat)
    requires forall k :: k in m ==> all(m[k]) == if k in keys then w(m[k]) else 0
    ensures Tally(Restrict(m, keys), w) == Tally(m, all)
  {
    TallyRestrict(m, keys, all);
    TallyAtMost(Restrict(m, keys), w, all);
  }

  ghost function Ones<K, V>(m: map<K, V>, w: V -> nat): set<K> {
    set k | k in m && w(m[k]) == 1
  }

  lemma OnesWithout<K, V>(m: map<K, V>, w: V -> nat, k: K)
    requires k in m
    ensures |Ones(m, w)| == |Ones(m - {k}, w)| + if w(m[k]) == 1 then 1 else 0
  {
    assert k !in Ones(m - {k}, w);
    assert Ones(m, w) == if w(m[k]) == 1 then Ones(m - {k}, w) + {k} else Ones(m - {k}, w);
  }

  /** A tally of weights zero and one counts the keys of weight one. */
  lemma {:induction false} TallyCounts<K, V>(m: map<K, V>, w: V -> nat)
    requires forall k :: k in m ==> w(m[k]) <= 1
    ensures Tally(m, w) == |Ones(m, w)|
    decreases m.Keys
  {
    hide Ones;
    if k :| k in m {
      TallyCounts(m - {k}, w);
      SumRemove(Weights(m, w), k);
      assert Weights(m, w) - {k} == Weights(m - {k}, w);
      OnesWithout(m, w, k);
    } else {
      SumEmpty(Weights(m, w));
      NoOnes(m, w);
    }
  }

  lemma NoOnes<K, V>(m: map<K, V>, w: V -> nat)
    requires m.Keys == {}
    ensures |Ones(m, w)| == 0
  {
  }
}
