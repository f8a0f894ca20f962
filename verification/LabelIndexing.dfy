/**
  The inverted label index shared by the log and metric stores: interned label
  sets, postings per label pair, known values per label name, and matcher
  evaluation through the postings.
 */
module LabelIndexing {
  import opened Enumeration
  import opened Options
  import opened Interning
  import opened PostingLists
  import opened StableSorting

  type Label = (string, string)
  type LabelPair = (Spur, Spur)
  type LabelSet = seq<LabelPair>

  datatype MatchOp = Eq | Neq | Regex | NotRegex
  datatype LabelMatcher = LabelMatcher(name: string, op: MatchOp, value: string)

  /** The regex engine: which patterns compile, and what they match (anchored). */
  datatype RegexEngine = RegexEngine(compiles: string -> bool, isMatch: (string, string) -> bool)

  // ---------------------------------------------------------------- interning

  function PairKey(p: LabelPair): int { p.0 }

  function InternAll(r: Interner, labels: seq<Label>): Interner
    decreases |labels|
  {
    if labels == [] then r
    else InternAll(r.Intern(labels[0].0).Intern(labels[0].1), labels[1..])
  }

  predicate Interned(r: Interner, labels: seq<Label>) {
    forall i :: 0 <= i < |labels| ==> r.Get(labels[i].0).Some? && r.Get(labels[i].1).Some?
  }

  function Pairs(r: Interner, labels: seq<Label>): (ps: seq<LabelPair>)
    requires Interned(r, labels)
    ensures |ps| == |labels|
    ensures forall i :: 0 <= i < |ps| ==> ps[i] == (r.Get(labels[i].0).value, r.Get(labels[i].1).value)
  {
    if labels == [] then []
    else [(r.Get(labels[0].0).value, r.Get(labels[0].1).value)] + Pairs(r, labels[1..])
  }

  /** The canonical form of a label vector: interned and sorted by name. */
  function LabelSetOf(r: Interner, labels: seq<Label>): LabelSet
    requires Interned(r, labels)
  {
    StableSort(Pairs(r, labels), PairKey)
  }

  lemma {:induction false} InternAllCorrect(r: Interner, labels: seq<Label>)
    requires r.Valid()
    ensures InternAll(r, labels).Valid() && InternAll(r, labels).GrownFrom(r)
    ensures Interned(InternAll(r, labels), labels)
    decreases |labels|
  {
    if labels != [] {
      var r1 := r.Intern(labels[0].0);
      var r2 := r1.Intern(labels[0].1);
      r.InternCorrect(labels[0].0);
      r1.InternCorrect(labels[0].1);
      InternAllCorrect(r2, labels[1..]);
      var r' := InternAll(r, labels);
      r2.GetStable(r1, labels[0].0);
      r'.GetStable(r2, labels[0].0);
      r'.GetStable(r2, labels[0].1);
      forall i | 0 <= i < |labels| ensures r'.Get(labels[i].0).Some? && r'.Get(labels[i].1).Some? {
        if i > 0 { assert labels[i] == labels[1..][i - 1]; }
      }
    }
  }

  /** Growth of the interner never changes a label set already formed. */
  lemma {:induction false} PairsStable(earlier: Interner, later: Interner, labels: seq<Label>)
    requires later.Valid() && later.GrownFrom(earlier) && Interned(earlier, labels)
    ensures Interned(later, labels) && Pairs(later, labels) == Pairs(earlier, labels)
  {
    forall i | 0 <= i < |labels|
      ensures later.Get(labels[i].0) == earlier.Get(labels[i].0) && later.Get(labels[i].1) == earlier.Get(labels[i].1)
    {
      later.GetStable(earlier, labels[i].0);
      later.GetStable(earlier, labels[i].1);
    }
  }

  /** Interning what is already interned changes nothing. */
  lemma {:induction false} InternAllKnown(r: Interner, labels: seq<Label>)
    requires r.Valid() && Interned(r, labels)
    ensures InternAll(r, labels) == r
    decreases |labels|
  {
    if labels != [] {
      r.InternCorrect(labels[0].0);
      r.InternCorrect(labels[0].1);
      InternAllKnown(r, labels[1..]);
    }
  }

  /** The spurs handed out for the first label are the ones it keeps. */
  lemma InternFirst(r: Interner, labels: seq<Label>)
    requires r.Valid() && labels != []
    ensures var r1 := r.Intern(labels[0].0);
            var r2 := r1.Intern(labels[0].1);
            && r2.Valid() && InternAll(r2, labels[1..]) == InternAll(r, labels)
            && r1.Get(labels[0].0).Some? && InternAll(r, labels).Get(labels[0].0) == r1.Get(labels[0].0)
            && r2.Get(labels[0].1).Some? && InternAll(r, labels).Get(labels[0].1) == r2.Get(labels[0].1)
  {
    var r1 := r.Intern(labels[0].0);
    var r2 := r1.Intern(labels[0].1);
    r.InternCorrect(labels[0].0);
    r1.InternCorrect(labels[0].1);
    InternAllCorrect(r2, labels[1..]);
    r2.GetStable(r1, labels[0].0);
    InternAll(r, labels).GetStable(r2, labels[0].0);
    InternAll(r, labels).GetStable(r2, labels[0].1);
  }

  method InternLabelPairs(interner: Interner, labels: seq<Label>) returns (interner': Interner, interned: LabelSet)
    requires interner.Valid()
    ensures interner' == InternAll(interner, labels)
    ensures interner'.Valid() && interner'.GrownFrom(interner) && Interned(interner', labels)
    ensures interned == LabelSetOf(interner', labels)
  {
    hide StableSort, Interner.Get, Interner.Intern, Interner.Valid, Interner.GrownFrom, InternAll, Pairs, Interned;
    InternAllCorrect(interner, labels);
    ghost var final := InternAll(interner, labels);
    interner' := interner;
    var pairs: seq<LabelPair> := [];
    for i := 0 to |labels|
      invariant interner'.Valid()
      invariant InternAll(interner', labels[i..]) == final
      invariant pairs == Pairs(final, labels)[..i]
    {
      assert labels[i..][0] == labels[i] && labels[i..][1..] == labels[i + 1..];
      InternFirst(interner', labels[i..]);
      interner' := interner'.Intern(labels[i].0);
      var name := interner'.Get(labels[i].0).value;
      interner' := interner'.Intern(labels[i].1);
      var value := interner'.Get(labels[i].1).value;
      pairs := pairs + [(name, value)];
    }
    assert labels[|labels|..] == [];
    InternNothing(interner');
    assert pairs == Pairs(final, labels);
    interned := StableSort(pairs, PairKey);
  }

  lemma InternNothing(r: Interner)
    ensures InternAll(r, []) == r
  {
  }

  /** Every spur of the label set has a string. */
  predicate KnownSet(r: Interner, ls: LabelSet) {
    forall i :: 0 <= i < |ls| ==> r.Knows(ls[i].0) && r.Knows(ls[i].1)
  }

  lemma LabelSetKnown(r: Interner, labels: seq<Label>)
    requires Interned(r, labels)
    ensures KnownSet(r, LabelSetOf(r, labels))
  {
    var ps := Pairs(r, labels);
    var ls := LabelSetOf(r, labels);
    StableSortElements<LabelPair>(ps, PairKey);
    assert forall p: LabelPair :: p in ps ==> r.Knows(p.0) && r.Knows(p.1);
    assert forall i :: 0 <= i < |ls| ==> ls[i] in ps;
  }

  /** The value of the first pair with the given name. */
  function FirstValue(ls: LabelSet, k: Spur): Option<Spur> {
    if ls == [] then None else if ls[0].0 == k then Some(ls[0].1) else FirstValue(ls[1..], k)
  }

  // ---------------------------------------------------------------- invariant

  type Postings = map<LabelPair, seq<nat>>
  type Values = map<Spur, set<Spur>>

  ghost predicate Posted(index: Postings, p: LabelPair, id: nat) {
    p in index && id in index[p]
  }

  ghost predicate Carries(labels: map<nat, LabelSet>, p: LabelPair, id: nat) {
    id in labels && p in labels[id]
  }

  predicate HasValue(values: Values, k: Spur, v: Spur) {
    k in values && v in values[k]
  }

  ghost predicate ListsWellFormed(index: Postings) {
    forall p :: p in index ==> index[p] != [] && Ascending(index[p])
  }

  /** `index[(k,v)]` is exactly the ids whose label set carries `(k,v)`. */
  ghost predicate IndexExact(labels: map<nat, LabelSet>, index: Postings) {
    && ListsWellFormed(index)
    && forall p, id :: Posted(index, p, id) <==> Carries(labels, p, id)
  }

  /** `values[k]` is exactly the `v` with a posting list for `(k,v)`; no empty sets. */
  ghost predicate ValuesExact(index: Postings, values: Values) {
    && (forall k: Spur, v: Spur :: HasValue(values, k, v) <==> (k, v) in index)
    && (forall k :: k in values ==> values[k] != {})
  }

  /** `ids` is the inverse of `labels`. */
  ghost predicate IdsInverse(labels: map<nat, LabelSet>, ids: map<LabelSet, nat>) {
    && (forall id :: id in labels ==> labels[id] in ids && ids[labels[id]] == id)
    && (forall ls :: ls in ids ==> ids[ls] in labels && labels[ids[ls]] == ls)
  }

  ghost predicate Indexed(labels: map<nat, LabelSet>, index: Postings, values: Values, ids: map<LabelSet, nat>, next: nat) {
    && IndexExact(labels, index)
    && ValuesExact(index, values)
    && IdsInverse(labels, ids)
    && Below(labels, next)
  }

  ghost predicate Below(labels: map<nat, LabelSet>, next: nat) {
    forall id :: id in labels ==> id < next
  }

  lemma IndexedParts(labels: map<nat, LabelSet>, index: Postings, values: Values, ids: map<LabelSet, nat>, next: nat)
    requires Indexed(labels, index, values, ids, next)
    ensures IndexExact(labels, index) && ValuesExact(index, values)
    ensures IdsInverse(labels, ids) && Below(labels, next)
  {
  }

  // --------------------------------------------------------------- operations

  method TrackLabelValues(values: Values, ls: LabelSet) returns (values': Values)
    requires forall k :: k in values ==> values[k] != {}
    ensures forall k: Spur, v: Spur :: HasValue(values', k, v) <==> HasValue(values, k, v) || (k, v) in ls
    ensures forall k :: k in values' ==> values'[k] != {}
  {
    values' := values;
    for i := 0 to |ls|
      invariant forall k: Spur, v: Spur :: HasValue(values', k, v) <==> HasValue(values, k, v) || (k, v) in ls[..i]
      invariant forall k :: k in values' ==> values'[k] != {}
    {
      var (k, v) := ls[i];
      assert ls[..i + 1] == ls[..i] + [(k, v)];
      var known := (if k in values' then values'[k] else {}) + {v};
      assert v in known;
      values' := values'[k := known];
    }
    assert ls[..|ls|] == ls;
  }

  /** Enters a new id into the posting list of every pair it carries. */
  method PostLabels(index: Postings, ls: LabelSet, id: nat) returns (index': Postings)
    requires ListsWellFormed(index)
    ensures ListsWellFormed(index')
    ensures forall p, i :: Posted(index', p, i) <==> Posted(index, p, i) || (p in ls && i == id)
  {
    index' := index;
    for n := 0 to |ls|
      invariant ListsWellFormed(index')
      invariant forall p, i :: Posted(index', p, i) <==> Posted(index, p, i) || (p in ls[..n] && i == id)
    {
      assert ls[..n + 1] == ls[..n] + [ls[n]];
      var list := new PostingList.Of(if ls[n] in index' then index'[ls[n]] else []);
      list.Insert(id);
      assert id in list.ids;
      ghost var before := index';
      index' := index'[ls[n] := list.ids];
      forall p, i ensures Posted(index', p, i) <==> Posted(before, p, i) || (p == ls[n] && i == id) {
        if p == ls[n] { assert i in list.ids <==> Posted(before, p, i) || i == id; }
      }
    }
    assert ls[..|ls|] == ls;
  }

  /** One pair's share of `remove_from_label_indexes`. */
  method RemoveFromPair(index: Postings, values: Values, p: LabelPair, id: nat) returns (index': Postings, values': Values)
    requires ListsWellFormed(index) && ValuesExact(index, values)
    ensures ListsWellFormed(index') && ValuesExact(index', values')
    ensures forall q, i :: Posted(index', q, i) <==> Posted(index, q, i) && !(q == p && i == id)
  {
    index', values' := index, values;
    if p in index {
      var list := new PostingList.Of(index[p]);
      var _ := list.Remove(id);
      if |list.ids| == 0 {
        index' := index - {p};
        assert HasValue(values, p.0, p.1);
        var left := values[p.0] - {p.1};
        values' := if left == {} then values - {p.0} else values[p.0 := left];
        forall k: Spur, v: Spur ensures HasValue(values', k, v) <==> (k, v) in index' {
          assert HasValue(values, k, v) <==> (k, v) in index;
          assert (k, v) == p <==> k == p.0 && v == p.1;
          assert k == p.0 ==> (v in left <==> v in values[k] && v != p.1);
        }
      } else {
        index' := index[p := list.ids];
      }
    }
  }

  method RemoveFromLabelIndexes(index: Postings, values: Values, ls: LabelSet, id: nat)
    returns (index': Postings, values': Values)
    requires ListsWellFormed(index) && ValuesExact(index, values)
    ensures ListsWellFormed(index') && ValuesExact(index', values')
    ensures forall p, i :: Posted(index', p, i) <==> Posted(index, p, i) && !(p in ls && i == id)
  {
    index', values' := index, values;
    for n := 0 to |ls|
      invariant ListsWellFormed(index') && ValuesExact(index', values')
      invariant forall p, i :: Posted(index', p, i) <==> Posted(index, p, i) && !(p in ls[..n] && i == id)
    {
      assert ls[..n + 1] == ls[..n] + [ls[n]];
      index', values' := RemoveFromPair(index', values', ls[n], id);
    }
    assert ls[..|ls|] == ls;
  }

  /** Dropping one id from every index leaves the indexes of the remaining ids. */
  method Unlink(ghost labels: map<nat, LabelSet>, index: Postings, values: Values, ids: map<LabelSet, nat>, ghost next: nat,
                ls: LabelSet, id: nat)
    returns (index': Postings, values': Values, ids': map<LabelSet, nat>)
    requires Indexed(labels, index, values, ids, next)
    requires id in labels && labels[id] == ls
    ensures Indexed(labels - {id}, index', values', ids', next)
    ensures ids' == ids - {ls}
  {
    ids' := ids - {ls};
    index', values' := RemoveFromLabelIndexes(index, values, ls, id);
    forall p, i ensures Posted(index', p, i) <==> Carries(labels - {id}, p, i) {
      assert Posted(index, p, i) <==> Carries(labels, p, i);
    }
  }

  /** Entering a new label set under the next id keeps the indexes exact. */
  method Link(ghost labels: map<nat, LabelSet>, index: Postings, values: Values, ids: map<LabelSet, nat>, next: nat, ls: LabelSet)
    returns (index': Postings, values': Values, ids': map<LabelSet, nat>)
    requires Indexed(labels, index, values, ids, next)
    requires ls !in ids
    ensures Indexed(labels[next := ls], index', values', ids', next + 1)
    ensures ids' == ids[ls := next]
  {
    values' := TrackLabelValues(values, ls);
    ids' := ids[ls := next];
    index' := PostLabels(index, ls, next);
    forall p, i ensures Posted(index', p, i) <==> Carries(labels[next := ls], p, i) {
      assert Posted(index, p, i) <==> Carries(labels, p, i);
    }
    forall k: Spur, v: Spur ensures HasValue(values', k, v) <==> (k, v) in index' {
      assert HasValue(values, k, v) <==> (k, v) in index;
      if (k, v) in index {
        assert Posted(index, (k, v), index[(k, v)][0]);
        assert Posted(index', (k, v), index[(k, v)][0]);
      }
      if (k, v) in ls { assert Posted(index', (k, v), next); }
      if (k, v) in index' { assert Posted(index', (k, v), index'[(k, v)][0]); }
    }
  }

  /** Looks a label set up by identity, or enters it under the next id. */
  method Identify(ghost labels: map<nat, LabelSet>, index: Postings, values: Values, ids: map<LabelSet, nat>, next: nat, ls: LabelSet)
    returns (id: nat, index': Postings, values': Values, ids': map<LabelSet, nat>, next': nat)
    requires Indexed(labels, index, values, ids, next)
    ensures id == if ls in ids then ids[ls] else next
    ensures ids' == ids[ls := id]
    ensures next' == if ls in ids then next else next + 1
    ensures Indexed(labels[id := ls], index', values', ids', next')
  {
    if ls in ids {
      id, index', ids', next' := ids[ls], index, ids, next;
      assert labels[id := ls] == labels && ids' == ids[ls := id];
      forall p | p in ls ensures p in index {
        assert Carries(labels, p, id);
        assert Posted(index, p, id);
      }
      values' := TrackLabelValues(values, ls);
    } else {
      id, next' := next, next + 1;
      index', values', ids' := Link(labels, index, values, ids, next, ls);
    }
  }

  function Omit(labels: map<nat, LabelSet>, drop: seq<nat>): map<nat, LabelSet> {
    map id | id in labels && id !in drop :: labels[id]
  }

  /** Takes the listed ids out of every index. */
  method UnlinkAll(labels: map<nat, LabelSet>, index: Postings, values: Values, ids: map<LabelSet, nat>, ghost next: nat, drop: seq<nat>)
    returns (index': Postings, values': Values, ids': map<LabelSet, nat>)
    requires Indexed(labels, index, values, ids, next)
    requires Distinct(drop) && forall i :: 0 <= i < |drop| ==> drop[i] in labels
    ensures Indexed(Omit(labels, drop), index', values', ids', next)
  {
    index', values', ids' := index, values, ids;
    assert Omit(labels, drop[..0]) == labels;
    for n := 0 to |drop|
      invariant Indexed(Omit(labels, drop[..n]), index', values', ids', next)
    {
      assert drop[n] !in drop[..n];
      assert drop[..n + 1] == drop[..n] + [drop[n]];
      assert Omit(labels, drop[..n + 1]) == Omit(labels, drop[..n]) - {drop[n]};
      index', values', ids' :=
        Unlink(Omit(labels, drop[..n]), index', values', ids', next, labels[drop[n]], drop[n]);
    }
    assert drop[..|drop|] == drop;
  }

  /** The identity map and next id recomputed from the label sets, in id order. */
  method IdentityMap(labels: map<nat, LabelSet>) returns (ids: map<LabelSet, nat>, next: nat)
    requires forall i, j :: i in labels && j in labels && labels[i] == labels[j] ==> i == j
    ensures IdsInverse(labels, ids)
    ensures Below(labels, next)
    ensures next > 0 ==> next - 1 in labels
  {
    var order: seq<nat> := AscendingIds(labels.Keys);
    ids, next := map[], 0;
    for n := 0 to |order|
      invariant forall i :: 0 <= i < n ==> labels[order[i]] in ids && ids[labels[order[i]]] == order[i] < next
      invariant forall ls :: ls in ids ==> ids[ls] in labels && labels[ids[ls]] == ls
      invariant next > 0 ==> next - 1 in labels
    {
      assert order[n] in order;
      ids := ids[labels[order[n]] := order[n]];
      next := if next > order[n] + 1 then next else order[n] + 1;
    }
    forall id | id in labels ensures labels[id] in ids && ids[labels[id]] == id < next {
      assert id in order;
    }
  }

  /** Only one map can be the inverse of the label sets. */
  lemma IdsInverseUnique(labels: map<nat, LabelSet>, ids: map<LabelSet, nat>, ids': map<LabelSet, nat>)
    requires IdsInverse(labels, ids) && IdsInverse(labels, ids')
    ensures ids == ids'
  {
    forall ls ensures ls in ids <==> ls in ids' {
      if ls in ids { assert labels[ids[ls]] in ids'; }
      if ls in ids' { assert labels[ids'[ls]] in ids; }
    }
    forall ls | ls in ids ensures ids[ls] == ids'[ls] { assert labels[ids[ls]] == ls; }
  }

  // ------------------------------------------------------------ plain scanning

  predicate ValueTest(m: LabelMatcher, rx: RegexEngine, value: string) {
    match m.op
    case Eq => value == m.value
    case Neq => value == m.value
    case Regex => rx.isMatch(m.value, value)
    case NotRegex => rx.isMatch(m.value, value)
  }

  /** Some pair of the label set has the matcher's name and passes its test. */
  predicate SomePairPasses(r: Interner, ls: LabelSet, m: LabelMatcher, rx: RegexEngine)
    requires KnownSet(r, ls)
  {
    exists i :: 0 <= i < |ls| && r.Resolve(ls[i].0) == m.name && ValueTest(m, rx, r.Resolve(ls[i].1))
  }

  /**
    What one matcher says about one label set.  A pattern that does not compile
    matches nothing; its negation matches everything while the label name is
    unknown to the store, and nothing afterwards.
   */
  predicate Satisfies(r: Interner, ls: LabelSet, m: LabelMatcher, rx: RegexEngine)
    requires KnownSet(r, ls)
  {
    match m.op
    case Eq => SomePairPasses(r, ls, m, rx)
    case Neq => !SomePairPasses(r, ls, m, rx)
    case Regex => rx.compiles(m.value) && SomePairPasses(r, ls, m, rx)
    case NotRegex => if rx.compiles(m.value) then !SomePairPasses(r, ls, m, rx) else r.Get(m.name).None?
  }

  /** The four matchers, said of the pairs as strings. */
  lemma MatcherMeans(r: Interner, ls: LabelSet, m: LabelMatcher, rx: RegexEngine)
    requires KnownSet(r, ls)
    ensures m.op == Eq ==> (Satisfies(r, ls, m, rx) <==>
      exists i :: 0 <= i < |ls| && r.Resolve(ls[i].0) == m.name && r.Resolve(ls[i].1) == m.value)
    ensures m.op == Neq ==> (Satisfies(r, ls, m, rx) <==>
      forall i :: 0 <= i < |ls| && r.Resolve(ls[i].0) == m.name ==> r.Resolve(ls[i].1) != m.value)
    ensures m.op == Regex ==> (Satisfies(r, ls, m, rx) <==>
      exists i :: 0 <= i < |ls| && r.Resolve(ls[i].0) == m.name && rx.compiles(m.value) && rx.isMatch(m.value, r.Resolve(ls[i].1)))
    ensures m.op == NotRegex && rx.compiles(m.value) ==> (Satisfies(r, ls, m, rx) <==>
      forall i :: 0 <= i < |ls| && r.Resolve(ls[i].0) == m.name ==> !rx.isMatch(m.value, r.Resolve(ls[i].1)))
    ensures m.op == NotRegex && !rx.compiles(m.value) ==> (Satisfies(r, ls, m, rx) <==> forall k :: r.Knows(k) ==> r.Resolve(k) != m.name)
  {
  }

  predicate SatisfiesAll(r: Interner, ls: LabelSet, ms: seq<LabelMatcher>, rx: RegexEngine)
    requires KnownSet(r, ls)
  {
    forall i :: 0 <= i < |ms| ==> Satisfies(r, ls, ms[i], rx)
  }

  /** No growth of the interner changes what the matcher says about the label set. */
  ghost predicate VerdictKept(r: Interner, ls: LabelSet, m: LabelMatcher, rx: RegexEngine)
    requires KnownSet(r, ls)
  {
    forall r': Interner :: r'.Valid() && r'.GrownFrom(r) ==> KnownSet(r', ls) && (Satisfies(r', ls, m, rx) <==> Satisfies(r, ls, m, rx))
  }

  lemma PassesStable(r: Interner, r': Interner, ls: LabelSet, m: LabelMatcher, rx: RegexEngine)
    requires KnownSet(r, ls) && r'.GrownFrom(r)
    ensures KnownSet(r', ls) && (SomePairPasses(r', ls, m, rx) <==> SomePairPasses(r, ls, m, rx))
  {
    assert forall k: Spur :: r.Knows(k) ==> r'.Knows(k) && r'.Resolve(k) == r.Resolve(k);
    if SomePairPasses(r', ls, m, rx) {
      var i :| 0 <= i < |ls| && r'.Resolve(ls[i].0) == m.name && ValueTest(m, rx, r'.Resolve(ls[i].1));
      assert r.Resolve(ls[i].0) == m.name;
    }
    if SomePairPasses(r, ls, m, rx) {
      var i :| 0 <= i < |ls| && r.Resolve(ls[i].0) == m.name && ValueTest(m, rx, r.Resolve(ls[i].1));
      assert r'.Resolve(ls[i].0) == m.name;
    }
  }

  /** A verdict is lasting unless a negated pattern does not compile and its label name is still unknown. */
  lemma VerdictKeptIff(r: Interner, ls: LabelSet, m: LabelMatcher, rx: RegexEngine)
    requires r.Valid() && KnownSet(r, ls)
    ensures VerdictKept(r, ls, m, rx) <==> m.op != NotRegex || rx.compiles(m.value) || r.Get(m.name).Some?
  {
    if m.op != NotRegex || rx.compiles(m.value) || r.Get(m.name).Some? {
      forall r': Interner | r'.Valid() && r'.GrownFrom(r)
        ensures KnownSet(r', ls) && (Satisfies(r', ls, m, rx) <==> Satisfies(r, ls, m, rx))
      {
        PassesStable(r, r', ls, m, rx);
        r'.GetStable(r, m.name);
      }
    } else {
      r.InternCorrect(m.name);
      assert r.Intern(m.name).GrownFrom(r);
    }
  }

  const ApiOnlyNames := Interner(["service", "api"])

  /** A stream of service "api" satisfies `zone !~ "("` until a label name `zone` is first seen. */
  lemma InvalidPatternFlips(rx: RegexEngine)
    requires !rx.compiles("(")
    ensures var r, ls, m := ApiOnlyNames, [(0, 1)], LabelMatcher("zone", NotRegex, "(");
            && r.Valid() && KnownSet(r, ls) && Satisfies(r, ls, m, rx)
            && KnownSet(r.Intern("zone"), ls) && !Satisfies(r.Intern("zone"), ls, m, rx)
  {
    var r := ApiOnlyNames;
    assert |"service"| == 7 && |"api"| == 3 && |"zone"| == 4;
    assert r.Valid();
    assert "zone" !in r.strings;
    r.InternCorrect("zone");
  }

  ghost predicate AllKnown(r: Interner, labels: map<nat, LabelSet>) {
    forall id :: id in labels ==> KnownSet(r, labels[id])
  }

  lemma KnownOmit(r: Interner, labels: map<nat, LabelSet>, drop: seq<nat>)
    requires AllKnown(r, labels)
    ensures AllKnown(r, Omit(labels, drop))
  {
  }

  lemma KnownLater(earlier: Interner, later: Interner, labels: map<nat, LabelSet>)
    requires AllKnown(earlier, labels) && later.GrownFrom(earlier)
    ensures AllKnown(later, labels)
  {
  }

  lemma KnownGrown(earlier: Interner, later: Interner, labels: map<nat, LabelSet>, id: nat, ls: LabelSet)
    requires AllKnown(earlier, labels) && later.GrownFrom(earlier) && KnownSet(later, ls)
    ensures AllKnown(later, labels[id := ls])
  {
  }

  ghost predicate IsScan(r: Interner, labels: map<nat, LabelSet>, m: LabelMatcher, rx: RegexEngine, list: seq<nat>)
    requires AllKnown(r, labels)
  {
    && Ascending(list)
    && forall id :: id in list <==> id in labels && Satisfies(r, labels[id], m, rx)
  }

  // ------------------------------------------------------- indexed evaluation

  lemma UnknownNamePassesNowhere(r: Interner, labels: map<nat, LabelSet>, m: LabelMatcher, rx: RegexEngine)
    requires AllKnown(r, labels) && r.Get(m.name).None?
    ensures forall id :: id in labels ==> !SomePairPasses(r, labels[id], m, rx)
  {
  }

  /** A label set passes through name `k` exactly when some posted pair `(k,v)` does. */
  lemma PassesThroughIndex(r: Interner, labels: map<nat, LabelSet>, index: Postings, m: LabelMatcher, rx: RegexEngine, k: Spur, id: nat)
    requires r.Valid() && AllKnown(r, labels) && IndexExact(labels, index)
    requires r.Get(m.name) == Some(k) && id in labels
    ensures SomePairPasses(r, labels[id], m, rx)
       <==> exists v: Spur :: Posted(index, (k, v), id) && r.Knows(v) && ValueTest(m, rx, r.Resolve(v))
  {
    var ls := labels[id];
    if SomePairPasses(r, ls, m, rx) {
      var i :| 0 <= i < |ls| && r.Resolve(ls[i].0) == m.name && ValueTest(m, rx, r.Resolve(ls[i].1));
      r.GetResolve(ls[i].0, m.name);
      assert ls[i] == (k, ls[i].1);
      assert Carries(labels, (k, ls[i].1), id);
    }
    if v: Spur :| Posted(index, (k, v), id) && r.Knows(v) && ValueTest(m, rx, r.Resolve(v)) {
      assert Carries(labels, (k, v), id);
      var i :| 0 <= i < |ls| && ls[i] == (k, v);
      assert r.Resolve(ls[i].0) == m.name;
    }
  }

  /** Union of the posting lists of all values of `k` that pass the test. */
  method UnionOfPassing(r: Interner, ghost labels: map<nat, LabelSet>, index: Postings, values: Values,
                        m: LabelMatcher, rx: RegexEngine, k: Spur) returns (list: seq<nat>)
    requires r.Valid() && AllKnown(r, labels) && IndexExact(labels, index) && ValuesExact(index, values)
    requires r.Get(m.name) == Some(k)
    requires m.op == Regex || m.op == NotRegex
    ensures Ascending(list)
    ensures forall id :: id in list <==> id in labels && SomePairPasses(r, labels[id], m, rx)
  {
    list := [];
    ghost var seen: set<Spur> := {};
    var todo: set<Spur> := if k in values then values[k] else {};
    ghost var all := todo;
    while todo != {}
      invariant Ascending(list)
      invariant seen + todo == all
      invariant forall id :: id in list <==>
        exists v: Spur :: v in seen && Posted(index, (k, v), id) && r.Knows(v) && ValueTest(m, rx, r.Resolve(v))
      decreases todo
    {
      var v :| v in todo;
      assert HasValue(values, k, v);
      assert Posted(index, (k, v), index[(k, v)][0]);
      assert Carries(labels, (k, v), index[(k, v)][0]);
      ghost var before := list;
      if rx.isMatch(m.value, r.Resolve(v)) && (k, v) in index {
        list := Union(list, index[(k, v)]);
      }
      todo := todo - {v};
      seen := seen + {v};
    }
    forall id ensures id in list <==> id in labels && SomePairPasses(r, labels[id], m, rx) {
      if id in labels { PassesThroughIndex(r, labels, index, m, rx, k, id); }
      forall v: Spur | Posted(index, (k, v), id) ensures v in seen && id in labels {
        assert HasValue(values, k, v);
        assert Carries(labels, (k, v), id);
      }
    }
  }

  /** The posting list of one exact pair, empty when there is none. */
  lemma ExactPairScan(r: Interner, labels: map<nat, LabelSet>, index: Postings, m: LabelMatcher, rx: RegexEngine, k: Spur, id: nat)
    requires r.Valid() && AllKnown(r, labels) && IndexExact(labels, index)
    requires r.Get(m.name) == Some(k) && id in labels
    requires m.op == Eq || m.op == Neq
    ensures SomePairPasses(r, labels[id], m, rx)
       <==> r.Get(m.value).Some? && Posted(index, (k, r.Get(m.value).value), id)
  {
    PassesThroughIndex(r, labels, index, m, rx, k, id);
    if SomePairPasses(r, labels[id], m, rx) {
      var v: Spur :| Posted(index, (k, v), id) && r.Knows(v) && ValueTest(m, rx, r.Resolve(v));
      r.GetResolve(v, m.value);
    }
  }

  /** The posting list of one matcher, or `None` where the query ends empty-handed. */
  method MatcherIds(r: Interner, ghost labels: map<nat, LabelSet>, index: Postings, values: Values,
                    all: seq<nat>, m: LabelMatcher, rx: RegexEngine) returns (list: Option<seq<nat>>)
    requires r.Valid() && AllKnown(r, labels) && IndexExact(labels, index) && ValuesExact(index, values)
    requires Ascending(all) && forall id :: id in all <==> id in labels
    ensures list.Some? ==> IsScan(r, labels, m, rx, list.value)
    ensures list.None? ==> forall id :: id in labels ==> !Satisfies(r, labels[id], m, rx)
  {
    var name := r.Get(m.name);
    if name.None? {
      UnknownNamePassesNowhere(r, labels, m, rx);
      return if m.op == Neq || m.op == NotRegex then Some(all) else None;
    }
    var k := name.value;
    match m.op {
      case Eq =>
        forall id | id in labels { ExactPairScan(r, labels, index, m, rx, k, id); }
        var value := r.Get(m.value);
        if value.None? || (k, value.value) !in index { return None; }
        forall id | id in index[(k, value.value)] ensures id in labels {
          assert Carries(labels, (k, value.value), id) by { assert Posted(index, (k, value.value), id); }
        }
        list := Some(index[(k, value.value)]);
      case Neq =>
        forall id | id in labels { ExactPairScan(r, labels, index, m, rx, k, id); }
        var value := r.Get(m.value);
        if value.Some? && (k, value.value) in index {
          var rest := Difference(all, index[(k, value.value)]);
          list := Some(rest);
        } else {
          list := Some(all);
        }
      case Regex =>
        if !rx.compiles(m.value) { return None; }
        var passing := UnionOfPassing(r, labels, index, values, m, rx, k);
        list := Some(passing);
      case NotRegex =>
        if !rx.compiles(m.value) { return None; }
        var excluded := UnionOfPassing(r, labels, index, values, m, rx, k);
        var rest := Difference(all, excluded);
        list := Some(rest);
    }
  }

  /** Evaluates a matcher list through the index; equal to scanning every label set. */
  method SelectIndexedIds(r: Interner, ghost labels: map<nat, LabelSet>, index: Postings, values: Values,
                          allIds: seq<nat>, ms: seq<LabelMatcher>, rx: RegexEngine) returns (ids: seq<nat>)
    requires r.Valid() && AllKnown(r, labels) && IndexExact(labels, index) && ValuesExact(index, values)
    requires forall id :: id in allIds <==> id in labels
    ensures forall id :: id in ids <==> id in labels && SatisfiesAll(r, labels[id], ms, rx)
    ensures ms != [] ==> Ascending(ids)
    ensures ms == [] ==> ids == allIds
  {
    if ms == [] { return allIds; }
    var allPosting := new PostingList.FromIds(allIds);
    var all := allPosting.ids;
    var lists: seq<seq<nat>> := [];
    for n := 0 to |ms|
      invariant |lists| == n
      invariant forall i :: 0 <= i < n ==> IsScan(r, labels, ms[i], rx, lists[i])
    {
      var list := MatcherIds(r, labels, index, values, all, ms[n], rx);
      if list.None? {
        return [];
      }
      lists := lists + [list.value];
    }
    ids := Intersect(lists);
    forall id ensures id in ids <==> id in labels && SatisfiesAll(r, labels[id], ms, rx) {
      assert IsScan(r, labels, ms[0], rx, lists[0]);
      if id in labels {
        forall i | 0 <= i < |ms| ensures id in lists[i] <==> Satisfies(r, labels[id], ms[i], rx) {
          assert IsScan(r, labels, ms[i], rx, lists[i]);
        }
      } else {
        assert id !in lists[0];
      }
    }
  }
}
