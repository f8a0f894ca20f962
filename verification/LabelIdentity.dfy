/**
  When two label vectors name the same stream: interning and sorting by name
  forgets the order of different names, and nothing else.
 */
module LabelIdentity {
  import opened Interning
  import opened LabelIndexing
  import opened StableSorting

  /** The values given for one name, in order. */
  function ValuesOf(labels: seq<Label>, name: string): seq<string> {
    if labels == [] then []
    else (if labels[0].0 == name then [labels[0].1] else []) + ValuesOf(labels[1..], name)
  }

  ghost predicate SameLabels(a: seq<Label>, b: seq<Label>) {
    forall name :: ValuesOf(a, name) == ValuesOf(b, name)
  }

  /** The pairs of one interned name. */
  function PairsWith(r: Interner, k: Spur, values: seq<string>): seq<LabelPair> {
    if values == [] then []
    else [(k, match r.Get(values[0]) case Some(v) => v case None => 0)] + PairsWith(r, k, values[1..])
  }

  predicate AllInterned(r: Interner, values: seq<string>) {
    forall i :: 0 <= i < |values| ==> r.Get(values[i]).Some?
  }

  lemma {:induction false} ValuesInterned(r: Interner, labels: seq<Label>, name: string)
    requires Interned(r, labels)
    ensures AllInterned(r, ValuesOf(labels, name))
    ensures r.Get(name).None? ==> ValuesOf(labels, name) == []
  {
    if labels != [] {
      assert Interned(r, labels[1..]);
      ValuesInterned(r, labels[1..], name);
    }
  }

  lemma {:induction false} PairsOfName(r: Interner, labels: seq<Label>, k: Spur)
    requires r.Valid() && Interned(r, labels) && r.Knows(k)
    ensures KeyFilter(Pairs(r, labels), PairKey, k) == PairsWith(r, k, ValuesOf(labels, r.Resolve(k)))
  {
    if labels != [] {
      assert Interned(r, labels[1..]);
      PairsOfName(r, labels[1..], k);
      r.GetResolve(k, labels[0].0);
      var first: LabelPair := (r.Get(labels[0].0).value, r.Get(labels[0].1).value);
      assert Pairs(r, labels) == [first] + Pairs(r, labels[1..]);
      KeyFilterCons(first, Pairs(r, labels[1..]), PairKey, k);
      var rest := ValuesOf(labels[1..], r.Resolve(k));
      if labels[0].0 == r.Resolve(k) {
        assert ([labels[0].1] + rest)[1..] == rest;
        assert PairsWith(r, k, [labels[0].1] + rest) == [first] + PairsWith(r, k, rest);
      } else {
        assert [] + rest == rest;
      }
    }
  }

  lemma {:induction false} NoPairsOfUnknown(r: Interner, labels: seq<Label>, k: int)
    requires Interned(r, labels) && !(0 <= k && r.Knows(k))
    ensures KeyFilter(Pairs(r, labels), PairKey, k) == []
  {
    if labels != [] {
      assert Interned(r, labels[1..]);
      NoPairsOfUnknown(r, labels[1..], k);
      var first: LabelPair := (r.Get(labels[0].0).value, r.Get(labels[0].1).value);
      assert Pairs(r, labels) == [first] + Pairs(r, labels[1..]);
      KeyFilterCons(first, Pairs(r, labels[1..]), PairKey, k);
    }
  }

  lemma {:induction false} PairsWithInjective(r: Interner, k: Spur, xs: seq<string>, ys: seq<string>)
    requires r.Valid() && AllInterned(r, xs) && AllInterned(r, ys)
    ensures PairsWith(r, k, xs) == PairsWith(r, k, ys) <==> xs == ys
  {
    if xs != [] && ys != [] {
      assert AllInterned(r, xs[1..]) && AllInterned(r, ys[1..]);
      PairsWithInjective(r, k, xs[1..], ys[1..]);
      assert xs == [xs[0]] + xs[1..] && ys == [ys[0]] + ys[1..];
      var px, py := PairsWith(r, k, xs), PairsWith(r, k, ys);
      assert px[1..] == PairsWith(r, k, xs[1..]) && py[1..] == PairsWith(r, k, ys[1..]);
      if px == py {
        assert px[0].1 == py[0].1;
        assert r.Get(xs[0]) == r.Get(ys[0]);
      }
    }
  }

  /** Two label vectors get the same label set iff they give each name the same values in the same order. */
  lemma SameLabelSetIff(r: Interner, a: seq<Label>, b: seq<Label>)
    requires r.Valid() && Interned(r, a) && Interned(r, b)
    ensures LabelSetOf(r, a) == LabelSetOf(r, b) <==> SameLabels(a, b)
  {
    SortsAlikeIff(Pairs(r, a), Pairs(r, b), PairKey);
    if SameLabels(a, b) {
      forall k: int ensures KeyFilter(Pairs(r, a), PairKey, k) == KeyFilter(Pairs(r, b), PairKey, k) {
        if 0 <= k && r.Knows(k) {
          PairsOfName(r, a, k);
          PairsOfName(r, b, k);
          assert ValuesOf(a, r.Resolve(k)) == ValuesOf(b, r.Resolve(k));
        } else {
          NoPairsOfUnknown(r, a, k);
          NoPairsOfUnknown(r, b, k);
        }
      }
    }
    if SameByKey(Pairs(r, a), Pairs(r, b), PairKey) {
      forall name ensures ValuesOf(a, name) == ValuesOf(b, name) {
        SameValues(r, a, b, name);
      }
    }
  }

  lemma SameValues(r: Interner, a: seq<Label>, b: seq<Label>, name: string)
    requires r.Valid() && Interned(r, a) && Interned(r, b)
    requires SameByKey(Pairs(r, a), Pairs(r, b), PairKey)
    ensures ValuesOf(a, name) == ValuesOf(b, name)
  {
    ValuesInterned(r, a, name);
    ValuesInterned(r, b, name);
    if r.Get(name).Some? {
      var k := r.Get(name).value;
      PairsOfName(r, a, k);
      PairsOfName(r, b, k);
      assert KeyFilter(Pairs(r, a), PairKey, k) == KeyFilter(Pairs(r, b), PairKey, k);
      PairsWithInjective(r, k, ValuesOf(a, name), ValuesOf(b, name));
    }
  }
}
