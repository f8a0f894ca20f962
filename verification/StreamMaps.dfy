/**
  Streams of time-stamped items identified by label sets: what appending,
  cutting and removing do to the stream map, its totals and its label indexes.
  The log store keeps its log streams this way, the metric store its series.
 */
module StreamMaps {
  import opened Enumeration
  import opened Interning
  import opened LabelIndexing
  import opened MapSums
  import opened StableSorting
  import opened TimeOrdered

  datatype Stream<T> = Stream(labels: LabelSet, entries: seq<T>)

  type Streams<T> = map<nat, Stream<T>>

  const I64_MIN: int := -0x8000_0000_0000_0000
  const I64_MAX: int := 0x7FFF_FFFF_FFFF_FFFF
  type I64 = x: int | I64_MIN <= x <= I64_MAX

  /** Unsigned nanoseconds as a signed time stamp. */
  function SaturatingI64(x: nat): I64 {
    if x > I64_MAX then I64_MAX else x
  }

  function LabelsOf<T>(streams: Streams<T>): map<nat, LabelSet> {
    map id | id in streams :: streams[id].labels
  }

  ghost function Lengths<T>(streams: Streams<T>): map<nat, nat> {
    map id | id in streams :: |streams[id].entries|
  }

  ghost function Total<T>(streams: Streams<T>): nat {
    Sum(Lengths(streams))
  }

  lemma TotalPut<T>(streams: Streams<T>, id: nat, s: Stream<T>)
    ensures Total(streams[id := s]) == Total(streams) - Left(streams, id) + |s.entries|
  {
    SumUpdate(Lengths(streams), id, |s.entries|);
    assert Lengths(streams[id := s]) == Lengths(streams)[id := |s.entries|];
  }

  lemma TotalDrop<T>(streams: Streams<T>, id: nat)
    requires id in streams
    ensures Total(streams) == Total(streams - {id}) + |streams[id].entries|
  {
    SumRemove(Lengths(streams), id);
    assert Lengths(streams - {id}) == Lengths(streams) - {id};
  }

  lemma TotalEmpty<T>(streams: Streams<T>)
    requires streams == map[]
    ensures Total(streams) == 0
  {
    SumEmpty(Lengths(streams));
  }

  /** The streams left when the listed ones are taken out. */
  function Without<T>(streams: Streams<T>, ids: seq<nat>): Streams<T> {
    map id | id in streams && id !in ids :: streams[id]
  }

  lemma WithoutNext<T>(streams: Streams<T>, ids: seq<nat>, n: nat)
    requires n < |ids| && ids[n] !in ids[..n]
    ensures Without(streams, ids[..n + 1]) == Without(streams, ids[..n]) - {ids[n]}
  {
  }

  ghost predicate AllSorted<T>(streams: Streams<T>, key: T -> int) {
    forall id :: id in streams ==> SortedBy(streams[id].entries, key)
  }

  /** `batch` appended to stream `id`, which keeps its entries in time order. */
  function Appended<T>(streams: Streams<T>, id: nat, ls: LabelSet, batch: seq<T>, key: T -> int): Streams<T> {
    var before := if id in streams then streams[id].entries else [];
    streams[id := Stream(ls, StableSort(before + batch, key))]
  }

  function Cut<T>(s: Stream<T>, cutoff: int, key: T -> int): Stream<T> {
    Stream(s.labels, AtLeast(s.entries, key, cutoff))
  }

  /** What is left of each stream at or after the cutoff; emptied streams are gone. */
  function Retained<T>(streams: Streams<T>, cutoff: int, key: T -> int): Streams<T> {
    map id | id in streams && Cut(streams[id], cutoff, key).entries != [] :: Cut(streams[id], cutoff, key)
  }

  predicate HasLabel(r: Interner, ls: LabelSet, name: string, value: string)
    requires KnownSet(r, ls)
  {
    exists i :: 0 <= i < |ls| && r.Resolve(ls[i].0) == name && r.Resolve(ls[i].1) == value
  }

  /** Number of entries of stream `id` still present. */
  function Left<T>(streams: Streams<T>, id: nat): nat {
    if id in streams then |streams[id].entries| else 0
  }

  function FirstTs<T>(streams: Streams<T>, id: nat, key: T -> int): int {
    if id in streams && |streams[id].entries| > 0 then key(streams[id].entries[0]) else I64_MAX
  }

  type Contents<T> = map<LabelSet, seq<T>>

  function ContentsAfterIngest<T>(c: Contents<T>, ls: LabelSet, batch: seq<T>, key: T -> int): Contents<T> {
    c[ls := StableSort((if ls in c then c[ls] else []) + batch, key)]
  }

  function ContentsAfterEvictBefore<T>(c: Contents<T>, cutoff: int, key: T -> int): Contents<T> {
    map ls | ls in c && AtLeast(c[ls], key, cutoff) != [] :: AtLeast(c[ls], key, cutoff)
  }

  ghost function ContentsOf<T>(streams: Streams<T>, ids: map<LabelSet, nat>): Contents<T>
    requires IdsInverse(LabelsOf(streams), ids)
  {
    map ls | ls in ids :: streams[ids[ls]].entries
  }

  lemma HasLabelIff(r: Interner, ls: LabelSet, name: string, value: string)
    requires r.Valid() && KnownSet(r, ls)
    ensures HasLabel(r, ls, name, value)
       <==> r.Get(name).Some? && r.Get(value).Some? && (r.Get(name).value, r.Get(value).value) in ls
  {
    if HasLabel(r, ls, name, value) {
      var i :| 0 <= i < |ls| && r.Resolve(ls[i].0) == name && r.Resolve(ls[i].1) == value;
      r.GetResolve(ls[i].0, name);
      r.GetResolve(ls[i].1, value);
      assert ls[i] == (r.Get(name).value, r.Get(value).value);
    }
  }

  /** The stream map's share of an ingest: the batch goes in, time order is kept. */
  method AppendTo<T>(streams: Streams<T>, id: nat, ls: LabelSet, entries: seq<T>, key: T -> int) returns (streams': Streams<T>)
    requires AllSorted(streams, key)
    ensures streams' == Appended(streams, id, ls, entries, key)
    ensures AllSorted(streams', key) && Total(streams') == Total(streams) + |entries|
    ensures LabelsOf(streams') == LabelsOf(streams)[id := ls]
  {
    var before := if id in streams then streams[id].entries else [];
    var sorted := AppendBatch(before, entries, key);
    TotalPut(streams, id, Stream(ls, sorted));
    AppendedLabels(streams, id, ls, entries, key);
    streams' := streams[id := Stream(ls, sorted)];
  }

  lemma NewIdUnused<T>(streams: Streams<T>, ids: map<LabelSet, nat>, next: nat, ls: LabelSet)
    requires IdsInverse(LabelsOf(streams), ids) && Below(LabelsOf(streams), next)
    ensures ls !in ids ==> next !in streams
    ensures ls in ids ==> ids[ls] in streams
  {
    assert forall id :: id in streams ==> id in LabelsOf(streams);
  }

  lemma AppendedLabels<T>(streams: Streams<T>, id: nat, ls: LabelSet, entries: seq<T>, key: T -> int)
    ensures LabelsOf(Appended(streams, id, ls, entries, key)) == LabelsOf(streams)[id := ls]
  {
  }

  lemma OtherStreamKept<T>(streams: Streams<T>, ids: map<LabelSet, nat>, id: nat, ls: LabelSet, entries: seq<T>, key: T -> int, k: LabelSet)
    requires IdsInverse(LabelsOf(streams), ids) && k in ids && k != ls
    requires if ls in ids then id == ids[ls] else id !in streams
    ensures ids[k] in streams && ids[k] != id && Appended(streams, id, ls, entries, key)[ids[k]] == streams[ids[k]]
  {
    hide StableSort;
    assert LabelsOf(streams)[ids[k]] == k;
  }

  lemma AppendedContents<T>(streams: Streams<T>, ids: map<LabelSet, nat>, id: nat, ls: LabelSet, entries: seq<T>, key: T -> int)
    requires IdsInverse(LabelsOf(streams), ids)
    requires IdsInverse(LabelsOf(Appended(streams, id, ls, entries, key)), ids[ls := id])
    requires if ls in ids then id == ids[ls] else id !in streams
    ensures ContentsOf(Appended(streams, id, ls, entries, key), ids[ls := id])
         == ContentsAfterIngest(ContentsOf(streams, ids), ls, entries, key)
  {
    hide StableSort, LabelsOf;
    var after, ids' := Appended(streams, id, ls, entries, key), ids[ls := id];
    var c, c' := ContentsOf(streams, ids), ContentsOf(after, ids');
    InverseIds(streams, ids);
    forall k | k in ids && k != ls ensures c'[k] == c[k] {
      OtherStreamKept(streams, ids, id, ls, entries, key, k);
    }
    assert c'.Keys == ids'.Keys && c.Keys == ids.Keys;
    IsUpdate(c, c', ls, after[id].entries);
  }

  lemma IsUpdate<T>(c: Contents<T>, c': Contents<T>, ls: LabelSet, entries: seq<T>)
    requires c'.Keys == c.Keys + {ls} && c'[ls] == entries
    requires forall k :: k in c && k != ls ==> c'[k] == c[k]
    ensures c' == c[ls := entries]
  {
  }

  lemma InverseIds<T>(streams: Streams<T>, ids: map<LabelSet, nat>)
    requires IdsInverse(LabelsOf(streams), ids)
    ensures forall ls :: ls in ids ==> ids[ls] in streams
  {
    assert forall ls :: ls in ids ==> ids[ls] in LabelsOf(streams);
  }

  // ---------------------------------------------------------- eviction helpers

  /** Cuts one stream at the cutoff. */
  method TrimStream<T>(streams: Streams<T>, id: nat, cutoff: int, key: T -> int) returns (cut: Streams<T>, removed: nat)
    requires id in streams && SortedBy(streams[id].entries, key)
    ensures cut == streams[id := Cut(streams[id], cutoff, key)]
    ensures removed + Total(cut) == Total(streams)
  {
    var stream := streams[id];
    var kept := DrainBefore(stream.entries, cutoff, key);
    TotalPut(streams, id, Cut(stream, cutoff, key));
    removed := |stream.entries| - |kept|;
    cut := streams[id := stream.(entries := kept)];
  }

  /** Cuts every stream at the cutoff. */
  method TrimAll<T>(streams: Streams<T>, cutoff: int, key: T -> int) returns (cut: Streams<T>, removed: nat)
    requires AllSorted(streams, key)
    ensures cut == map id | id in streams :: Cut(streams[id], cutoff, key)
    ensures removed + Total(cut) == Total(streams)
  {
    cut, removed := streams, 0;
    var todo := streams.Keys;
    while todo != {}
      invariant todo <= streams.Keys == cut.Keys
      invariant forall id :: id in todo ==> cut[id] == streams[id]
      invariant forall id :: id in streams && id !in todo ==> cut[id] == Cut(streams[id], cutoff, key)
      invariant removed + Total(cut) == Total(streams)
      decreases todo
    {
      var id :| id in todo;
      var gone;
      cut, gone := TrimStream(cut, id, cutoff, key);
      removed := removed + gone;
      todo := todo - {id};
    }
  }

  method EmptyStreams<T>(streams: Streams<T>) returns (empty: seq<nat>)
    ensures Distinct(empty)
    ensures forall id :: id in empty <==> id in streams && streams[id].entries == []
  {
    empty := SomeOrder(set id | id in streams && |streams[id].entries| == 0);
  }

  function EntriesIn<T>(streams: Streams<T>, ids: seq<nat>): nat {
    if ids == [] then 0 else EntriesIn(streams, ids[..|ids| - 1]) + Left(streams, ids[|ids| - 1])
  }

  lemma {:induction false} TotalWithout<T>(streams: Streams<T>, ids: seq<nat>)
    requires Distinct(ids) && forall i :: 0 <= i < |ids| ==> ids[i] in streams
    ensures Total(Without(streams, ids)) + EntriesIn(streams, ids) == Total(streams)
  {
    if ids == [] {
      assert Without(streams, ids) == streams;
    } else {
      var n := |ids| - 1;
      TotalWithout(streams, ids[..n]);
      assert ids[..n + 1] == ids && ids[n] !in ids[..n];
      WithoutNext(streams, ids, n);
      TotalDrop(Without(streams, ids[..n]), ids[n]);
    }
  }

  lemma {:induction false} NothingInEmpty<T>(streams: Streams<T>, ids: seq<nat>)
    requires forall i :: 0 <= i < |ids| ==> Left(streams, ids[i]) == 0
    ensures EntriesIn(streams, ids) == 0
  {
    if ids != [] { NothingInEmpty(streams, ids[..|ids| - 1]); }
  }

  lemma LabelsWithout<T>(streams: Streams<T>, ids: seq<nat>)
    ensures LabelsOf(Without(streams, ids)) == Omit(LabelsOf(streams), ids)
  {
  }

  /** Takes the listed streams out of the stream map and of every label index. */
  method RemoveStreams<T>(ghost r: Interner, streams: Streams<T>, index: Postings, values: Values, ids: map<LabelSet, nat>, ghost next: nat, drop: seq<nat>)
    returns (index': Postings, values': Values, ids': map<LabelSet, nat>, streams': Streams<T>)
    requires Indexed(LabelsOf(streams), index, values, ids, next) && AllKnown(r, LabelsOf(streams))
    requires Distinct(drop) && forall i :: 0 <= i < |drop| ==> drop[i] in streams
    ensures Indexed(LabelsOf(streams'), index', values', ids', next) && AllKnown(r, LabelsOf(streams'))
    ensures streams' == Without(streams, drop)
  {
    index', values', ids' := UnlinkAll(LabelsOf(streams), index, values, ids, next, drop);
    streams' := Without(streams, drop);
    LabelsWithout(streams, drop);
  }

  /** After cutting every stream, dropping the empty ones leaves what is retained. */
  lemma CutFacts<T>(streams: Streams<T>, cut: Streams<T>, cutoff: int, empty: seq<nat>, key: T -> int)
    requires AllSorted(streams, key)
    requires cut == map id | id in streams :: Cut(streams[id], cutoff, key)
    requires Distinct(empty) && forall id :: id in empty <==> id in cut && cut[id].entries == []
    ensures LabelsOf(cut) == LabelsOf(streams)
    ensures Without(cut, empty) == Retained(streams, cutoff, key) && AllSorted(Retained(streams, cutoff, key), key)
    ensures Total(Retained(streams, cutoff, key)) == Total(cut)
    ensures forall i :: 0 <= i < |empty| ==> empty[i] in cut
  {
    forall i | 0 <= i < |empty| ensures empty[i] in cut && Left(cut, empty[i]) == 0 { assert empty[i] in empty; }
    NothingInEmpty(cut, empty);
    TotalWithout(cut, empty);
    forall id | id in streams ensures SortedBy(Cut(streams[id], cutoff, key).entries, key) {
      AtLeastOfSorted(streams[id].entries, key, cutoff);
    }
  }

  lemma RetainedContents<T>(before: Streams<T>, ids: map<LabelSet, nat>, ids': map<LabelSet, nat>, cutoff: int, key: T -> int)
    requires IdsInverse(LabelsOf(before), ids) && IdsInverse(LabelsOf(Retained(before, cutoff, key)), ids')
    ensures ContentsOf(Retained(before, cutoff, key), ids') == ContentsAfterEvictBefore(ContentsOf(before, ids), cutoff, key)
  {
    var after := Retained(before, cutoff, key);
    forall ls ensures ls in ids' <==> ls in ids && AtLeast(before[ids[ls]].entries, key, cutoff) != [] {
      if ls in ids' {
        assert LabelsOf(after)[ids'[ls]] == ls;
        assert LabelsOf(before)[ids'[ls]] == ls;
      }
      if ls in ids && AtLeast(before[ids[ls]].entries, key, cutoff) != [] {
        assert LabelsOf(before)[ids[ls]] == ls;
        assert LabelsOf(after)[ids[ls]] == ls;
      }
    }
    forall ls | ls in ids' ensures ids'[ls] == ids[ls] {
      assert LabelsOf(after)[ids'[ls]] == ls;
      assert LabelsOf(before)[ids'[ls]] == ls;
    }
  }

  function FirstKey<T>(streams: Streams<T>, key: T -> int): nat -> int {
    (id: nat) => FirstTs(streams, id, key)
  }

  function WithoutLabel<T>(r: Interner, streams: Streams<T>, name: string, value: string): Streams<T>
    requires AllKnown(r, LabelsOf(streams))
  {
    map id | id in streams && !LabelledWith(r, LabelsOf(streams), id, name, value) :: streams[id]
  }

  predicate LabelledWith(r: Interner, labels: map<nat, LabelSet>, id: nat, name: string, value: string)
    requires AllKnown(r, labels) && id in labels
  {
    HasLabel(r, labels[id], name, value)
  }

  /** The posting list of the pair `name=value` is the list of streams so labelled. */
  lemma LabelledStreams<T>(r: Interner, streams: Streams<T>, index: Postings, name: string, value: string)
    requires r.Valid() && AllKnown(r, LabelsOf(streams)) && IndexExact(LabelsOf(streams), index)
    ensures r.Get(name).Some? && r.Get(value).Some? && (r.Get(name).value, r.Get(value).value) in index
        ==> WithoutLabel(r, streams, name, value) == Without(streams, index[(r.Get(name).value, r.Get(value).value)])
    ensures !(r.Get(name).Some? && r.Get(value).Some? && (r.Get(name).value, r.Get(value).value) in index)
        ==> WithoutLabel(r, streams, name, value) == streams
  {
    var labels := LabelsOf(streams);
    forall id | id in streams
      ensures LabelledWith(r, labels, id, name, value) <==>
        r.Get(name).Some? && r.Get(value).Some? && Posted(index, (r.Get(name).value, r.Get(value).value), id)
    {
      HasLabelIff(r, labels[id], name, value);
      if r.Get(name).Some? && r.Get(value).Some? {
        assert Posted(index, (r.Get(name).value, r.Get(value).value), id)
          <==> Carries(labels, (r.Get(name).value, r.Get(value).value), id);
      }
    }
  }

  lemma PostedStreams<T>(streams: Streams<T>, index: Postings, p: LabelPair)
    requires IndexExact(LabelsOf(streams), index) && p in index
    ensures index[p] != [] && Distinct(index[p]) && forall i :: 0 <= i < |index[p]| ==> index[p][i] in streams
  {
    forall i | 0 <= i < |index[p]| ensures index[p][i] in streams {
      assert Posted(index, p, index[p][i]);
      assert Carries(LabelsOf(streams), p, index[p][i]);
    }
  }

  /** The known values of a label name. */
  function LabelValues(r: Interner, values: Values, name: string): set<string> {
    match r.Get(name)
    case None => {}
    case Some(k) => set v | k in values && v in values[k] && r.Knows(v) :: r.Resolve(v)
  }

  /** The index knows exactly the values some stream carries. */
  lemma LabelValuesExact<T>(r: Interner, streams: Streams<T>, index: Postings, values: Values, name: string, value: string)
    requires r.Valid() && AllKnown(r, LabelsOf(streams)) && IndexExact(LabelsOf(streams), index) && ValuesExact(index, values)
    ensures value in LabelValues(r, values, name)
       <==> exists id :: id in streams && LabelledWith(r, LabelsOf(streams), id, name, value)
  {
    var labels := LabelsOf(streams);
    if value in LabelValues(r, values, name) {
      var k := r.Get(name).value;
      var v :| v in values[k] && r.Knows(v) && r.Resolve(v) == value;
      assert HasValue(values, k, v);
      var id := index[(k, v)][0];
      assert Posted(index, (k, v), id);
      assert Carries(labels, (k, v), id);
      r.GetResolve(v, value);
      HasLabelIff(r, labels[id], name, value);
      assert LabelledWith(r, labels, id, name, value);
    }
    if id :| id in streams && LabelledWith(r, labels, id, name, value) {
      HasLabelIff(r, labels[id], name, value);
      var k, v := r.Get(name).value, r.Get(value).value;
      assert Carries(labels, (k, v), id);
      assert Posted(index, (k, v), id);
      assert HasValue(values, k, v);
      assert r.Resolve(v) in LabelValues(r, values, name);
    }
  }

  /** Appends a batch to the stream of a label set, creating the stream on first sight. */
  method IngestInto<T>(ghost r: Interner, r': Interner, streams: Streams<T>, index: Postings, values: Values,
                       ids: map<LabelSet, nat>, next: nat, ls: LabelSet, batch: seq<T>, key: T -> int)
    returns (id: nat, streams': Streams<T>, index': Postings, values': Values, ids': map<LabelSet, nat>, next': nat)
    requires Indexed(LabelsOf(streams), index, values, ids, next) && IdsInverse(LabelsOf(streams), ids)
    requires AllKnown(r, LabelsOf(streams)) && r'.GrownFrom(r) && KnownSet(r', ls)
    requires AllSorted(streams, key)
    ensures id == if ls in ids then ids[ls] else next
    ensures streams' == Appended(streams, id, ls, batch, key)
    ensures ids' == ids[ls := id] && next' == if ls in ids then next else next + 1
    ensures Indexed(LabelsOf(streams'), index', values', ids', next') && IdsInverse(LabelsOf(streams'), ids')
    ensures AllKnown(r', LabelsOf(streams')) && AllSorted(streams', key)
    ensures Total(streams') == Total(streams) + |batch|
    ensures ContentsOf(streams', ids') == ContentsAfterIngest(ContentsOf(streams, ids), ls, batch, key)
  {
    hide Indexed, IdsInverse, Below, AllKnown, AllSorted, Total, ContentsOf, ContentsAfterIngest, KnownSet, LabelsOf, Appended;
    hide Interner.GrownFrom;
    IndexedParts(LabelsOf(streams), index, values, ids, next);
    NewIdUnused(streams, ids, next, ls);
    id, index', values', ids', next' := Identify(LabelsOf(streams), index, values, ids, next, ls);
    KnownGrown(r, r', LabelsOf(streams), id, ls);
    streams' := AppendTo(streams, id, ls, batch, key);
    IndexedParts(LabelsOf(streams'), index', values', ids', next');
    AppendedContents(streams, ids, id, ls, batch, key);
  }
}
