/**
  OTLP log ingestion stores each batch of equally labelled records with one
  append.  Seen through label vectors, this leaves the same streams as storing
  the records one by one, unless equal-time entries of one stream were sent
  under differently ordered label vectors.
 */
module IngestLogs {
  import opened Options
  import opened Interning
  import opened LabelIndexing
  import opened LabelIdentity
  import opened LogGrouping
  import opened LogStore
  import opened SentLogs
  import opened StableSorting
  import opened StreamMaps

  // -------------------------------------------------------------- interning

  function AttributeStrings(attributes: seq<(string, LogAttribute)>): seq<string> {
    if attributes == [] then []
    else
      [attributes[0].0]
      + (match attributes[0].1 case StringAttr(s) => [s] case _ => [])
      + AttributeStrings(attributes[1..])
  }

  function EntryStrings(e: LogEntry): seq<string> {
    AttributeStrings(e.attributes) + match e.severityText case Some(text) => [text] case None => []
  }

  /** The strings a batch interns before its labels, in order. */
  function BatchStrings(entries: seq<LogEntry>): seq<string> {
    if entries == [] then [] else BatchStrings(entries[..|entries| - 1]) + EntryStrings(entries[|entries| - 1])
  }

  function InternStrings(r: Interner, strings: seq<string>): Interner {
    if strings == [] then r else InternStrings(r, strings[..|strings| - 1]).Intern(strings[|strings| - 1])
  }

  lemma {:induction false} InternStringsCorrect(r: Interner, strings: seq<string>)
    requires r.Valid()
    ensures InternStrings(r, strings).Valid() && InternStrings(r, strings).GrownFrom(r)
  {
    if strings != [] {
      InternStringsCorrect(r, strings[..|strings| - 1]);
      InternStrings(r, strings[..|strings| - 1]).InternCorrect(strings[|strings| - 1]);
    }
  }

  lemma {:induction false} InternedAfter(r: Interner, strings: seq<string>, s: string)
    requires r.Valid() && s in strings
    ensures InternStrings(r, strings).Get(s).Some?
  {
    var front, last := strings[..|strings| - 1], strings[|strings| - 1];
    InternStringsCorrect(r, front);
    InternStrings(r, front).InternCorrect(last);
    if s != last {
      assert strings == front + [last];
      InternedAfter(r, front, s);
      InternStrings(r, strings).GetStable(InternStrings(r, front), s);
    }
  }

  /** Keys, string values and severity texts of a batch are known to the store. */
  ghost predicate EntryInterned(r: Interner, e: LogEntry) {
    && (e.severityText.Some? ==> r.Get(e.severityText.value).Some?)
    && forall i :: 0 <= i < |e.attributes| ==>
         r.Get(e.attributes[i].0).Some? && (e.attributes[i].1.StringAttr? ==> r.Get(e.attributes[i].1.s).Some?)
  }

  lemma {:induction false} AttributeStringsHold(attributes: seq<(string, LogAttribute)>, i: nat)
    requires i < |attributes|
    ensures attributes[i].0 in AttributeStrings(attributes)
    ensures attributes[i].1.StringAttr? ==> attributes[i].1.s in AttributeStrings(attributes)
  {
    if i > 0 { AttributeStringsHold(attributes[1..], i - 1); }
  }

  lemma {:induction false} EntryStringsIn(entries: seq<LogEntry>, k: nat, s: string)
    requires k < |entries| && s in EntryStrings(entries[k])
    ensures s in BatchStrings(entries)
  {
    if k < |entries| - 1 { EntryStringsIn(entries[..|entries| - 1], k, s); }
  }

  lemma BatchInterned(r: Interner, entries: seq<LogEntry>)
    requires r.Valid()
    ensures forall k :: 0 <= k < |entries| ==> EntryInterned(InternStrings(r, BatchStrings(entries)), entries[k])
  {
    forall k, s | 0 <= k < |entries| && s in EntryStrings(entries[k]) ensures InternStrings(r, BatchStrings(entries)).Get(s).Some? {
      EntryStringsIn(entries, k, s);
      InternedAfter(r, BatchStrings(entries), s);
    }
    forall k, i | 0 <= k < |entries| && 0 <= i < |entries[k].attributes|
      ensures entries[k].attributes[i].0 in EntryStrings(entries[k])
      ensures entries[k].attributes[i].1.StringAttr? ==> entries[k].attributes[i].1.s in EntryStrings(entries[k])
    {
      AttributeStringsHold(entries[k].attributes, i);
    }
  }

  lemma {:induction false} InternStringsAppend(r: Interner, a: seq<string>, b: seq<string>)
    ensures InternStrings(r, a + b) == InternStrings(InternStrings(r, a), b)
  {
    if b == [] {
      assert a + b == a;
    } else {
      var n := |b| - 1;
      assert (a + b)[..|a + b| - 1] == a + b[..n];
      InternStringsAppend(r, a, b[..n]);
    }
  }

  // ------------------------------------------------------- states and views

  /** What ingestion reads and writes of a log store. */
  datatype LogState = LogState(interner: Interner, streams: LogStreams, ids: map<LabelSet, nat>, next: nat)

  ghost predicate WellFormed(s: LogState) {
    && s.interner.Valid()
    && AllKnown(s.interner, LabelsOf(s.streams))
    && IdsInverse(LabelsOf(s.streams), s.ids)
    && Below(LabelsOf(s.streams), s.next)
    && AllSorted(s.streams, Ts)
  }

  /** `ingest_stream` as a function. */
  function Ingest(s: LogState, labels: seq<Label>, entries: seq<LogEntry>): LogState
    requires Interned(InternAll(s.interner, labels), labels)
  {
    var r := InternAll(s.interner, labels);
    var ls := LabelSetOf(r, labels);
    var id := if ls in s.ids then s.ids[ls] else s.next;
    LogState(r, Appended(s.streams, id, ls, entries, Ts), s.ids[ls := id], if ls in s.ids then s.next else s.next + 1)
  }

  /** Storing one batch: its strings are interned first, then the stream is extended. */
  ghost function Store(s: LogState, b: Batch): LogState
    requires s.interner.Valid()
  {
    var r := InternStrings(s.interner, BatchStrings(b.entries));
    InternStringsCorrect(s.interner, BatchStrings(b.entries));
    InternAllCorrect(r, b.labels);
    Ingest(s.(interner := r), b.labels, b.entries)
  }

  ghost function StoreAll(s: LogState, batches: seq<Batch>): (s': LogState)
    requires WellFormed(s)
    ensures WellFormed(s')
  {
    if batches == [] then s
    else
      var before := StoreAll(s, batches[..|batches| - 1]);
      StoreWellFormed(before, batches[|batches| - 1]);
      Store(before, batches[|batches| - 1])
  }

  /** The stream of a label vector: its id and entries, if there is one. */
  ghost function View(s: LogState, labels: seq<Label>): Option<(nat, seq<LogEntry>)>
    requires WellFormed(s)
  {
    if Interned(s.interner, labels) && LabelSetOf(s.interner, labels) in s.ids then
      var id := s.ids[LabelSetOf(s.interner, labels)];
      Some((id, s.streams[id].entries))
    else None
  }

  // ---------------------------------------------- one batch, seen by vectors

  lemma GrownWellFormed(s: LogState, r: Interner)
    requires WellFormed(s) && r.Valid() && r.GrownFrom(s.interner)
    ensures WellFormed(s.(interner := r))
  {
  }

  lemma KnownPairsInterned(earlier: Interner, later: Interner, labels: seq<Label>)
    requires later.Valid() && later.GrownFrom(earlier) && earlier.Valid() && Interned(later, labels)
    requires KnownSet(earlier, LabelSetOf(later, labels))
    ensures Interned(earlier, labels)
  {
    var ps := Pairs(later, labels);
    var ls := LabelSetOf(later, labels);
    StableSortElements<LabelPair>(ps, PairKey);
    forall i | 0 <= i < |labels| ensures earlier.Get(labels[i].0).Some? && earlier.Get(labels[i].1).Some? {
      assert ps[i] in ps && ps[i] in ls;
      var j :| 0 <= j < |ls| && ls[j] == ps[i];
      assert earlier.Resolve(ps[i].0) == labels[i].0 && earlier.Resolve(ps[i].1) == labels[i].1;
    }
  }

  /** Interning more strings moves no stream. */
  lemma ViewGrown(s: LogState, r: Interner, q: seq<Label>)
    requires WellFormed(s) && r.Valid() && r.GrownFrom(s.interner)
    ensures WellFormed(s.(interner := r)) && View(s.(interner := r), q) == View(s, q)
  {
    if Interned(s.interner, q) {
      PairsStable(s.interner, r, q);
    } else if Interned(r, q) && LabelSetOf(r, q) in s.ids {
      var id := s.ids[LabelSetOf(r, q)];
      assert LabelsOf(s.streams)[id] == LabelSetOf(r, q);
      KnownPairsInterned(s.interner, r, q);
    }
  }

  lemma {:induction false} InValues(labels: seq<Label>, i: nat)
    requires i < |labels|
    ensures labels[i].1 in ValuesOf(labels, labels[i].0)
  {
    if i > 0 { InValues(labels[1..], i - 1); }
  }

  lemma {:induction false} ValueSource(labels: seq<Label>, name: string, value: string)
    requires value in ValuesOf(labels, name)
    ensures exists i :: 0 <= i < |labels| && labels[i] == (name, value)
  {
    if labels[0] != (name, value) {
      ValueSource(labels[1..], name, value);
      var i :| 0 <= i < |labels| - 1 && labels[1..][i] == (name, value);
      assert labels[i + 1] == (name, value);
    }
  }

  lemma SameLabelsInterned(r: Interner, a: seq<Label>, b: seq<Label>)
    requires SameLabels(a, b) && Interned(r, a)
    ensures Interned(r, b)
  {
    forall i | 0 <= i < |b| ensures r.Get(b[i].0).Some? && r.Get(b[i].1).Some? {
      InValues(b, i);
      assert ValuesOf(a, b[i].0) == ValuesOf(b, b[i].0);
      ValueSource(a, b[i].0, b[i].1);
    }
  }

  ghost function IdOf(v: Option<(nat, seq<LogEntry>)>): Option<nat> {
    match v case Some(found) => Some(found.0) case None => None
  }

  ghost function EntriesOf(v: Option<(nat, seq<LogEntry>)>): seq<LogEntry> {
    match v case Some(found) => found.1 case None => []
  }

  ghost function IdFor(s: LogState, labels: seq<Label>): nat
    requires WellFormed(s)
  {
    match View(s, labels) case Some(found) => found.0 case None => s.next
  }

  /** Equivalent vectors see the same stream. */
  lemma ViewSame(s: LogState, a: seq<Label>, b: seq<Label>)
    requires WellFormed(s) && SameLabels(a, b)
    ensures View(s, a) == View(s, b)
  {
    if Interned(s.interner, a) || Interned(s.interner, b) {
      if Interned(s.interner, a) { SameLabelsInterned(s.interner, a, b); } else { SameLabelsInterned(s.interner, b, a); }
      SameLabelSetIff(s.interner, a, b);
    }
  }

  lemma IdsInverseSet(labels: map<nat, LabelSet>, ids: map<LabelSet, nat>, next: nat, id: nat, ls: LabelSet)
    requires IdsInverse(labels, ids) && Below(labels, next)
    requires id == if ls in ids then ids[ls] else next
    ensures IdsInverse(labels[id := ls], ids[ls := id])
    ensures Below(labels[id := ls], if ls in ids then next else next + 1)
  {
  }

  lemma AppendedSorted(streams: LogStreams, id: nat, ls: LabelSet, entries: seq<LogEntry>)
    requires AllSorted(streams, Ts)
    ensures AllSorted(Appended(streams, id, ls, entries, Ts), Ts)
  {
    StableSortSorts((if id in streams then streams[id].entries else []) + entries, Ts);
  }

  lemma SameKnown(r: Interner, labels: map<nat, LabelSet>, id: nat, ls: LabelSet)
    requires AllKnown(r, labels) && KnownSet(r, ls)
    ensures AllKnown(r, labels[id := ls])
  {
  }

  lemma IngestWellFormed(s: LogState, labels: seq<Label>, entries: seq<LogEntry>)
    requires WellFormed(s) && Interned(s.interner, labels)
    ensures InternAll(s.interner, labels) == s.interner
    ensures WellFormed(Ingest(s, labels, entries))
  {
    hide AllKnown, IdsInverse, Below, AllSorted, LabelsOf, Interned, InternAll, LabelSetOf, Appended, Interner.Valid;
    InternAllKnown(s.interner, labels);
    var ls := LabelSetOf(s.interner, labels);
    var id := if ls in s.ids then s.ids[ls] else s.next;
    LabelSetKnown(s.interner, labels);
    AppendedLabels(s.streams, id, ls, entries, Ts);
    IdsInverseSet(LabelsOf(s.streams), s.ids, s.next, id, ls);
    AppendedSorted(s.streams, id, ls, entries);
    SameKnown(s.interner, LabelsOf(s.streams), id, ls);
  }

  /** Ingesting under interned labels changes the view of exactly the equivalent vectors. */
  lemma ViewIngest(s: LogState, labels: seq<Label>, entries: seq<LogEntry>, q: seq<Label>)
    requires WellFormed(s) && Interned(s.interner, labels)
    ensures InternAll(s.interner, labels) == s.interner && WellFormed(Ingest(s, labels, entries))
    ensures Ingest(s, labels, entries).next == if View(s, labels).Some? then s.next else s.next + 1
    ensures View(Ingest(s, labels, entries), q)
         == if SameLabels(q, labels) then Some((IdFor(s, labels), StableSort(EntriesOf(View(s, labels)) + entries, Ts)))
            else View(s, q)
  {
    IngestWellFormed(s, labels, entries);
    hide StableSort, AllSorted, AllKnown, InternAll;
    var ls := LabelSetOf(s.interner, labels);
    var id := if ls in s.ids then s.ids[ls] else s.next;
    NewIdUnused(s.streams, s.ids, s.next, ls);
    if Interned(s.interner, q) {
      SameLabelSetIff(s.interner, q, labels);
    } else if SameLabels(q, labels) {
      SameLabelsInterned(s.interner, labels, q);
    }
  }

  lemma StoreIsIngest(s: LogState, b: Batch)
    requires WellFormed(s)
    ensures var r := InternAll(InternStrings(s.interner, BatchStrings(b.entries)), b.labels);
            && r.Valid() && r.GrownFrom(s.interner) && Interned(r, b.labels) && InternAll(r, b.labels) == r
            && Store(s, b) == Ingest(s.(interner := r), b.labels, b.entries)
  {
    var r1 := InternStrings(s.interner, BatchStrings(b.entries));
    InternStringsCorrect(s.interner, BatchStrings(b.entries));
    InternAllCorrect(r1, b.labels);
    InternAllKnown(InternAll(r1, b.labels), b.labels);
  }

  lemma StoreWellFormed(s: LogState, b: Batch)
    requires WellFormed(s)
    ensures WellFormed(Store(s, b))
  {
    StoreIsIngest(s, b);
    var r := InternAll(InternStrings(s.interner, BatchStrings(b.entries)), b.labels);
    GrownWellFormed(s, r);
    IngestWellFormed(s.(interner := r), b.labels, b.entries);
  }

  /** Storing a batch, seen through any label vector. */
  lemma ViewStore(s: LogState, b: Batch, q: seq<Label>)
    requires WellFormed(s)
    ensures WellFormed(Store(s, b))
    ensures Store(s, b).next == if View(s, b.labels).Some? then s.next else s.next + 1
    ensures View(Store(s, b), q)
         == if SameLabels(q, b.labels) then Some((IdFor(s, b.labels), StableSort(EntriesOf(View(s, b.labels)) + b.entries, Ts)))
            else View(s, q)
  {
    StoreIsIngest(s, b);
    var r := InternAll(InternStrings(s.interner, BatchStrings(b.entries)), b.labels);
    GrownWellFormed(s, r);
    ViewIngest(s.(interner := r), b.labels, b.entries, q);
    ViewGrown(s, r, q);
    ViewGrown(s, r, b.labels);
  }

  // -------------------------------------------------------- ids over a run

  function VectorsOf(batches: seq<Batch>): (vs: seq<seq<Label>>)
    ensures |vs| == |batches|
    ensures forall i :: 0 <= i < |vs| ==> vs[i] == batches[i].labels
  {
    if batches == [] then [] else VectorsOf(batches[..|batches| - 1]) + [batches[|batches| - 1].labels]
  }

  /** The id a vector's stream has after batches with these vectors, and the next free id. */
  ghost function IdAfter(s: LogState, vectors: seq<seq<Label>>, q: seq<Label>): Option<nat>
    requires WellFormed(s)
    decreases |vectors|, 0
  {
    if vectors == [] then IdOf(View(s, q))
    else
      var before, last := vectors[..|vectors| - 1], vectors[|vectors| - 1];
      if !SameLabels(q, last) then IdAfter(s, before, q)
      else if IdAfter(s, before, last).Some? then IdAfter(s, before, last)
      else Some(NextAfter(s, before))
  }

  ghost function NextAfter(s: LogState, vectors: seq<seq<Label>>): nat
    requires WellFormed(s)
    decreases |vectors|, 1
  {
    if vectors == [] then s.next
    else
      var before, last := vectors[..|vectors| - 1], vectors[|vectors| - 1];
      NextAfter(s, before) + if IdAfter(s, before, last).Some? then 0 else 1
  }

  lemma {:induction false} StoreAllIds(s: LogState, batches: seq<Batch>, q: seq<Label>)
    requires WellFormed(s)
    ensures IdOf(View(StoreAll(s, batches), q)) == IdAfter(s, VectorsOf(batches), q)
    ensures StoreAll(s, batches).next == NextAfter(s, VectorsOf(batches))
  {
    if batches != [] {
      var n := |batches| - 1;
      var vs := VectorsOf(batches);
      assert vs[..n] == VectorsOf(batches[..n]);
      StoreAllIds(s, batches[..n], q);
      StoreAllIds(s, batches[..n], batches[n].labels);
      ViewStore(StoreAll(s, batches[..n]), batches[n], q);
    }
  }

  lemma {:induction false} IdAfterSame(s: LogState, vectors: seq<seq<Label>>, a: seq<Label>, b: seq<Label>)
    requires WellFormed(s) && SameLabels(a, b)
    ensures IdAfter(s, vectors, a) == IdAfter(s, vectors, b)
  {
    if vectors == [] {
      ViewSame(s, a, b);
    } else {
      IdAfterSame(s, vectors[..|vectors| - 1], a, b);
      var last := vectors[|vectors| - 1];
      assert SameLabels(a, last) <==> SameLabels(b, last) by { SameLabelsTrans(a, b, last); }
    }
  }

  lemma SameLabelsTrans(a: seq<Label>, b: seq<Label>, c: seq<Label>)
    requires SameLabels(a, b)
    ensures SameLabels(a, c) <==> SameLabels(b, c)
  {
    forall name ensures ValuesOf(a, name) == ValuesOf(b, name) {}
  }

  /** A vector already seen gets no second id. */
  lemma {:induction false} SeenHasId(s: LogState, vectors: seq<seq<Label>>, i: nat)
    requires WellFormed(s) && i < |vectors|
    ensures IdAfter(s, vectors, vectors[i]).Some?
  {
    var n := |vectors| - 1;
    if i < n { SeenHasId(s, vectors[..n], i); }
  }

  lemma SeenAgainChangesNothing(s: LogState, vectors: seq<seq<Label>>, v: seq<Label>, q: seq<Label>)
    requires WellFormed(s) && IdAfter(s, vectors, v).Some?
    ensures IdAfter(s, vectors + [v], q) == IdAfter(s, vectors, q)
    ensures NextAfter(s, vectors + [v]) == NextAfter(s, vectors)
  {
    assert (vectors + [v])[..|vectors|] == vectors;
    if SameLabels(q, v) { IdAfterSame(s, vectors, q, v); }
  }

  function VectorsOfRecords(recs: seq<LogRecord>): (vs: seq<seq<Label>>)
    ensures |vs| == |recs|
    ensures forall i :: 0 <= i < |vs| ==> vs[i] == recs[i].labels
  {
    if recs == [] then [] else VectorsOfRecords(recs[..|recs| - 1]) + [recs[|recs| - 1].labels]
  }

  /** Grouping hands out the same ids as storing the records one by one. */
  lemma {:induction false} GroupedIds(s: LogState, recs: seq<LogRecord>, q: seq<Label>)
    requires WellFormed(s)
    ensures IdAfter(s, VectorsOf(Grouped(recs)), q) == IdAfter(s, VectorsOfRecords(recs), q)
    ensures NextAfter(s, VectorsOf(Grouped(recs))) == NextAfter(s, VectorsOfRecords(recs))
  {
    if recs != [] {
      hide WellFormed, View, SameLabels, AddRecord;
      var n := |recs| - 1;
      var rec, groups := recs[n], Grouped(recs[..n]);
      GroupedIds(s, recs[..n], q);
      GroupedIds(s, recs[..n], rec.labels);
      var vs, ws := VectorsOf(groups), VectorsOfRecords(recs[..n]);
      AddedVector(groups, rec);
      if BatchOf(groups, rec.labels).Some? {
        SeenHasId(s, vs, BatchOf(groups, rec.labels).value);
        SeenAgainChangesNothing(s, ws, rec.labels, q);
      } else {
        assert (vs + [rec.labels])[..|vs|] == vs && (ws + [rec.labels])[..|ws|] == ws;
      }
    }
  }

  lemma AddedVector(groups: seq<Batch>, rec: LogRecord)
    ensures VectorsOf(AddRecord(groups, rec))
         == if BatchOf(groups, rec.labels).Some? then VectorsOf(groups) else VectorsOf(groups) + [rec.labels]
  {
  }

  // ---------------------------------------------------- entries over a run

  /** The entries of all batches whose vector is equivalent to `q`, in storage order. */
  ghost function Picked(batches: seq<Batch>, q: seq<Label>): seq<LogEntry> {
    if batches == [] then []
    else
      var n := |batches| - 1;
      Picked(batches[..n], q) + if SameLabels(q, batches[n].labels) then batches[n].entries else []
  }

  lemma ViewSorted(s: LogState, q: seq<Label>)
    requires WellFormed(s)
    ensures SortedBy(EntriesOf(View(s, q)), Ts)
  {
  }

  lemma {:induction false} StoreAllEntries(s: LogState, batches: seq<Batch>, q: seq<Label>)
    requires WellFormed(s)
    ensures EntriesOf(View(StoreAll(s, batches), q)) == StableSort(EntriesOf(View(s, q)) + Picked(batches, q), Ts)
  {
    hide WellFormed, View, Store, SortedBy, StableSort, KeyFilter, SameLabels;
    var had := EntriesOf(View(s, q));
    if batches == [] {
      ViewSorted(s, q);
      assert had + [] == had;
      SortIsIdentityIffSorted(had, Ts);
    } else {
      var n := |batches| - 1;
      var before := StoreAll(s, batches[..n]);
      StoreAllEntries(s, batches[..n], q);
      ViewStore(before, batches[n], q);
      var picked := Picked(batches[..n], q);
      if SameLabels(q, batches[n].labels) {
        ViewSame(before, q, batches[n].labels);
        SortAppendSorted(had + picked, batches[n].entries, Ts);
        assert (had + picked) + batches[n].entries == had + (picked + batches[n].entries);
      } else {
        assert picked + [] == picked;
      }
    }
  }

  ghost function OfStreamAt(q: seq<Label>, t: int): LogRecord -> bool {
    (rec: LogRecord) => SameLabels(q, rec.labels) && Ts(rec.entry) == t
  }

  function Entries(recs: seq<LogRecord>): (es: seq<LogEntry>)
    ensures |es| == |recs|
    ensures forall i :: 0 <= i < |es| ==> es[i] == recs[i].entry
  {
    if recs == [] then [] else [recs[0].entry] + Entries(recs[1..])
  }

  lemma {:induction false} BatchAt(recs: seq<LogRecord>, labels: seq<Label>, q: seq<Label>, t: int)
    requires forall i :: 0 <= i < |recs| ==> recs[i].labels == labels
    ensures Entries(Filter(recs, OfStreamAt(q, t))) == if SameLabels(q, labels) then KeyFilter(Entries(recs), Ts, t) else []
  {
    if recs != [] {
      var p, rest := OfStreamAt(q, t), recs[1..];
      assert p(recs[0]) <==> SameLabels(q, labels) && Ts(recs[0].entry) == t;
      hide SameLabels, Ts, OfStreamAt;
      BatchAt(rest, labels, q, t);
      assert Entries(recs)[1..] == Entries(rest) && Entries(recs)[0] == recs[0].entry;
      assert Filter(recs, p) == (if p(recs[0]) then [recs[0]] else []) + Filter(rest, p);
      EntriesAppend(if p(recs[0]) then [recs[0]] else [], Filter(rest, p));
    }
  }

  lemma EntriesAppend(a: seq<LogRecord>, b: seq<LogRecord>)
    ensures Entries(a + b) == Entries(a) + Entries(b)
  {
  }

  /** The entries of one stream and one time, read off the flattened batches. */
  lemma {:induction false} PickedAt(batches: seq<Batch>, q: seq<Label>, t: int)
    ensures KeyFilter(Picked(batches, q), Ts, t) == Entries(Filter(Flatten(batches), OfStreamAt(q, t)))
  {
    if batches != [] {
      var n := |batches| - 1;
      var last := batches[n];
      PickedAt(batches[..n], q, t);
      var same := SameLabels(q, last.labels);
      KeyFilterAppend(Picked(batches[..n], q), if same then last.entries else [], Ts, t);
      FilterAppend(Flatten(batches[..n]), Labelled(last), OfStreamAt(q, t));
      EntriesAppend(Filter(Flatten(batches[..n]), OfStreamAt(q, t)), Filter(Labelled(last), OfStreamAt(q, t)));
      BatchAt(Labelled(last), last.labels, q, t);
      assert Entries(Labelled(last)) == last.entries;
    }
  }

  /** One batch per record. */
  function Singles(recs: seq<LogRecord>): seq<Batch> {
    if recs == [] then []
    else Singles(recs[..|recs| - 1]) + [Batch(recs[|recs| - 1].labels, [recs[|recs| - 1].entry])]
  }

  lemma {:induction false} FlattenSingles(recs: seq<LogRecord>)
    ensures Flatten(Singles(recs)) == recs && VectorsOf(Singles(recs)) == VectorsOfRecords(recs)
  {
    if recs != [] {
      var n := |recs| - 1;
      FlattenSingles(recs[..n]);
      var last := Batch(recs[n].labels, [recs[n].entry]);
      assert Singles(recs)[..|Singles(recs)| - 1] == Singles(recs[..n]);
      assert Labelled(last) == [recs[n]];
    }
  }

  // ------------------------------------------------------ batched or one by one

  /**
    Record `i` precedes record `j`, both at the same time and for the same stream,
    but the label vector of `j` was seen before that of `i`.
   */
  ghost predicate OutOfTurn(recs: seq<LogRecord>, i: nat, j: nat) {
    && i < j < |recs|
    && SameLabels(recs[i].labels, recs[j].labels)
    && Ts(recs[i].entry) == Ts(recs[j].entry)
    && FirstAt(recs, recs[j].labels) < FirstAt(recs, recs[i].labels)
  }

  ghost predicate DistinctNumbers(recs: seq<LogRecord>) {
    forall i, j :: 0 <= i < j < |recs| ==> recs[i].entry.ingestSeq != recs[j].entry.ingestSeq
  }

  ghost predicate AgreeAt(recs: seq<LogRecord>, q: seq<Label>, t: int) {
    KeyFilter(Picked(Grouped(recs), q), Ts, t) == KeyFilter(Picked(Singles(recs), q), Ts, t)
  }

  lemma EntriesInjective(recs: seq<LogRecord>, a: seq<LogRecord>, b: seq<LogRecord>)
    requires DistinctNumbers(recs)
    requires forall x :: x in a || x in b ==> x in recs
    requires Entries(a) == Entries(b)
    ensures a == b
  {
    assert |a| == |Entries(a)| == |Entries(b)| == |b|;
    forall i | 0 <= i < |a| ensures a[i] == b[i] {
      assert a[i] in recs && b[i] in recs;
      var j :| 0 <= j < |recs| && recs[j] == a[i];
      var k :| 0 <= k < |recs| && recs[k] == b[i];
      assert a[i].entry == Entries(a)[i] == Entries(b)[i] == b[i].entry;
      assert recs[j].entry.ingestSeq == recs[k].entry.ingestSeq;
    }
  }

  /** For one stream and one time, batching keeps the order iff arrivals ascend. */
  lemma AgreeAtIff(recs: seq<LogRecord>, q: seq<Label>, t: int)
    requires DistinctNumbers(recs)
    ensures AgreeAt(recs, q, t) <==> AscendsWhere(recs, OfStreamAt(q, t), Arrival(recs))
  {
    var p, key := OfStreamAt(q, t), Arrival(recs);
    PickedAt(Grouped(recs), q, t);
    PickedAt(Singles(recs), q, t);
    FlattenIsStableSort(recs);
    FlattenSingles(recs);
    SortFilter(recs, p, key);
    SortIsIdentityIffSorted(Filter(recs, p), key);
    FilterSortedIff(recs, p, key);
    var plain, sorted := Filter(recs, p), StableSort(Filter(recs, p), key);
    if Entries(sorted) == Entries(plain) {
      StableSortElements(plain, key);
      forall x | x in sorted || x in plain ensures x in recs { FilterElement(recs, p, x); }
      EntriesInjective(recs, sorted, plain);
    }
  }

  /** The streams of both runs hold the same entries iff they agree at every time. */
  lemma EntriesAgreeIff(s: LogState, recs: seq<LogRecord>, q: seq<Label>)
    requires WellFormed(s)
    ensures EntriesOf(View(StoreAll(s, Grouped(recs)), q)) == EntriesOf(View(StoreAll(s, Singles(recs)), q))
       <==> forall t :: AgreeAt(recs, q, t)
  {
    var had, g, p := EntriesOf(View(s, q)), Picked(Grouped(recs), q), Picked(Singles(recs), q);
    StoreAllEntries(s, Grouped(recs), q);
    StoreAllEntries(s, Singles(recs), q);
    SortsAlikeIff(had + g, had + p, Ts);
    forall t ensures KeyFilter(had + g, Ts, t) == KeyFilter(had + p, Ts, t) <==> AgreeAt(recs, q, t) {
      KeyFilterAppend(had, g, Ts, t);
      KeyFilterAppend(had, p, Ts, t);
      var h := KeyFilter(had, Ts, t);
      assert (h + KeyFilter(g, Ts, t))[|h|..] == KeyFilter(g, Ts, t);
      assert (h + KeyFilter(p, Ts, t))[|h|..] == KeyFilter(p, Ts, t);
    }
  }

  ghost predicate SameViews(s: LogState, recs: seq<LogRecord>) {
    && WellFormed(s)
    && forall q :: View(StoreAll(s, Grouped(recs)), q) == View(StoreAll(s, Singles(recs)), q)
  }

  /** Batching never changes which streams there are or what ids they and later streams get. */
  lemma BatchingKeepsIds(s: LogState, recs: seq<LogRecord>, q: seq<Label>)
    requires WellFormed(s)
    ensures IdOf(View(StoreAll(s, Grouped(recs)), q)) == IdOf(View(StoreAll(s, Singles(recs)), q))
    ensures StoreAll(s, Grouped(recs)).next == StoreAll(s, Singles(recs)).next
  {
    StoreAllIds(s, Grouped(recs), q);
    StoreAllIds(s, Singles(recs), q);
    FlattenSingles(recs);
    GroupedIds(s, recs, q);
  }

  lemma OutOfTurnDisagrees(recs: seq<LogRecord>, i: nat, j: nat)
    requires DistinctNumbers(recs) && OutOfTurn(recs, i, j)
    ensures !AgreeAt(recs, recs[j].labels, Ts(recs[j].entry))
  {
    var p := OfStreamAt(recs[j].labels, Ts(recs[j].entry));
    AgreeAtIff(recs, recs[j].labels, Ts(recs[j].entry));
    SameLabelsTrans(recs[i].labels, recs[j].labels, recs[i].labels);
    assert p(recs[i]) && p(recs[j]) && Arrival(recs)(recs[i]) > Arrival(recs)(recs[j]);
  }

  /**
    Batched and record-by-record ingestion leave the same streams exactly when no
    record was sent out of turn.
   */
  lemma BatchingAgreesIff(s: LogState, recs: seq<LogRecord>)
    requires WellFormed(s) && DistinctNumbers(recs)
    ensures SameViews(s, recs) <==> !exists i, j :: OutOfTurn(recs, i, j)
  {
    if i: nat, j: nat :| OutOfTurn(recs, i, j) {
      OutOfTurnDisagrees(recs, i, j);
      EntriesAgreeIff(s, recs, recs[j].labels);
    }
    if !exists i, j :: OutOfTurn(recs, i, j) {
      forall q ensures View(StoreAll(s, Grouped(recs)), q) == View(StoreAll(s, Singles(recs)), q) {
        forall t ensures AgreeAt(recs, q, t) {
          AgreeAtIff(recs, q, t);
          forall i, j | 0 <= i < j < |recs| && OfStreamAt(q, t)(recs[i]) && OfStreamAt(q, t)(recs[j])
            ensures Arrival(recs)(recs[i]) <= Arrival(recs)(recs[j])
          {
            SameLabelsTrans(q, recs[i].labels, recs[j].labels);
            assert !OutOfTurn(recs, i, j);
          }
        }
        EntriesAgreeIff(s, recs, q);
        BatchingKeepsIds(s, recs, q);
      }
    }
  }

  /** When different vectors of a request mean different streams, batching is invisible. */
  lemma BatchingInvisible(s: LogState, recs: seq<LogRecord>)
    requires WellFormed(s) && DistinctNumbers(recs)
    requires forall i, j :: 0 <= i < j < |recs| && SameLabels(recs[i].labels, recs[j].labels) ==> recs[i].labels == recs[j].labels
    ensures SameViews(s, recs)
  {
    BatchingAgreesIff(s, recs);
  }

  /** So it is for every request: its records are numbered one by one. */
  lemma RequestBatchingAgreesIff(s: LogState, request: seq<ResourceLogs>, next: nat, clock: nat -> I64)
    requires WellFormed(s)
    ensures SameViews(s, RequestRecords(request, next, clock))
       <==> !exists i, j :: OutOfTurn(RequestRecords(request, next, clock), i, j)
  {
    RequestNumbered(request, next, clock);
    BatchingAgreesIff(s, RequestRecords(request, next, clock));
  }

  const AB: seq<Label> := [("a", "1"), ("b", "2")]
  const BA: seq<Label> := [("b", "2"), ("a", "1")]
  const OneRecord := SentRecord(1, 9, "", "", None, None, [])

  // Three resources with one record each, all at one time; the middle one lists its attributes the other way round.
  const Interleaved := [ResourceLogs(AB, [[OneRecord]]), ResourceLogs(BA, [[OneRecord]]), ResourceLogs(AB, [[OneRecord]])]

  function InfoRecord(labels: seq<Label>, n: nat): LogRecord {
    LogRecord(labels + [("level", "info")], LogEntry(1, "", n, None, None, 9, None, []))
  }

  /** A resource without a service name and with one record prepares that record alone. */
  lemma OneResource(labels: seq<Label>, n: nat, clock: nat -> I64)
    requires labels == AB || labels == BA
    ensures ResourceRecords(PromoteServiceName(labels), [[OneRecord]], n, clock) == [InfoRecord(labels, n)]
  {
    assert |"service.name"| == 12 && |labels[0].0| == 1 && |labels[1].0| == 1;
    assert PositionOf(labels, "service.name").None?;
    var scopes := [[OneRecord]];
    assert scopes[..0] == [] && scopes[0][..0] == [];
    assert ScopeRecords(labels, scopes[0], n, clock) == [InfoRecord(labels, n)];
  }

  lemma InterleavedRecords(next: nat, clock: nat -> I64)
    ensures RequestRecords(Interleaved, next, clock) == [InfoRecord(AB, next), InfoRecord(BA, next + 1), InfoRecord(AB, next + 2)]
  {
    hide ResourceRecords, PromoteServiceName;
    var q := Interleaved;
    assert q[..3] == q && q[..3][..2] == q[..2] && q[..2][..1] == q[..1] && q[..1][..0] == [];
    OneResource(AB, next, clock);
    OneResource(BA, next + 1, clock);
    OneResource(AB, next + 2, clock);
    assert RequestRecords([], next, clock) == [];
    assert RequestRecords(q[..1], next, clock) == [InfoRecord(AB, next)];
    assert RequestRecords(q[..2], next, clock) == [InfoRecord(AB, next), InfoRecord(BA, next + 1)];
  }

  lemma SwappedLabelsSame()
    ensures SameLabels(InfoRecord(AB, 0).labels, InfoRecord(BA, 0).labels)
  {
    forall name ensures ValuesOf(AB + [("level", "info")], name) == ValuesOf(BA + [("level", "info")], name) {
      ValuesOfAppend(AB, [("level", "info")], name);
      ValuesOfAppend(BA, [("level", "info")], name);
      assert AB[1..] == [("b", "2")] && BA[1..] == [("a", "1")] && AB[1..][1..] == [] && BA[1..][1..] == [];
    }
  }

  /** Sending two attribute orders of one stream at one time, interleaved, does reorder the stream. */
  lemma InterleavedRequestReorders(s: LogState, next: nat, clock: nat -> I64)
    requires WellFormed(s)
    ensures !SameViews(s, RequestRecords(Interleaved, next, clock))
  {
    hide WellFormed, SameViews, RequestRecords, ValuesOf;
    var recs := RequestRecords(Interleaved, next, clock);
    InterleavedRecords(next, clock);
    SwappedLabelsSame();
    var l1, l2 := AB + [("level", "info")], BA + [("level", "info")];
    assert l1[0] != l2[0];
    SameLabelsTrans(l1, l2, l1);
    assert recs[0].labels == l1 && recs[1].labels == l2 && recs[2].labels == l1;
    assert FirstAt(recs, l1) == 0 && FirstAt(recs, l2) > 0;
    assert OutOfTurn(recs, 1, 2);
    RequestBatchingAgreesIff(s, Interleaved, next, clock);
  }

  // ------------------------------------------------- what the streams gain

  /** The entries of the records meant for the stream of `q`, in order. */
  ghost function MeantFor(recs: seq<LogRecord>, q: seq<Label>): seq<LogEntry> {
    if recs == [] then []
    else MeantFor(recs[..|recs| - 1], q) + if SameLabels(q, recs[|recs| - 1].labels) then [recs[|recs| - 1].entry] else []
  }

  lemma {:induction false} MeantForHas(recs: seq<LogRecord>, q: seq<Label>, k: nat)
    requires k < |recs| && SameLabels(q, recs[k].labels)
    ensures recs[k].entry in MeantFor(recs, q)
  {
    if k < |recs| - 1 { MeantForHas(recs[..|recs| - 1], q, k); }
  }

  ghost function PickedFrom(b: Batch, q: seq<Label>): multiset<LogEntry> {
    if SameLabels(q, b.labels) then multiset(b.entries) else multiset{}
  }

  lemma PickedSnoc(groups: seq<Batch>, b: Batch, q: seq<Label>)
    ensures multiset(Picked(groups + [b], q)) == multiset(Picked(groups, q)) + PickedFrom(b, q)
  {
    hide SameLabels;
    assert (groups + [b])[..|groups|] == groups;
    assert multiset(Picked(groups, q) + []) == multiset(Picked(groups, q)) + multiset{};
  }

  lemma AddedToBoth<T>(a: multiset<T>, b: multiset<T>, c: multiset<T>, d: multiset<T>, x: multiset<T>)
    requires a + c == b + d
    ensures (a + x) + c == (b + x) + d
  {
    assert (a + x) + c == (a + c) + x && (b + x) + d == (b + d) + x;
  }

  lemma TakenFromBoth<T>(a: multiset<T>, b: multiset<T>, c: multiset<T>, d: multiset<T>)
    requires a + c == b + (c + d)
    ensures a == b + d
  {
    assert b + (c + d) == (b + d) + c;
    assert a == (a + c) - c && b + d == ((b + d) + c) - c;
  }

  lemma {:induction false} PickedUpdate(groups: seq<Batch>, g: nat, b: Batch, q: seq<Label>)
    requires g < |groups|
    ensures multiset(Picked(groups[g := b], q)) + PickedFrom(groups[g], q) == multiset(Picked(groups, q)) + PickedFrom(b, q)
  {
    hide Picked, PickedFrom;
    var front, last := groups[..|groups| - 1], groups[|groups| - 1];
    assert groups == front + [last];
    PickedSnoc(front, last, q);
    if g < |front| {
      assert groups[g := b] == front[g := b] + [last];
      PickedSnoc(front[g := b], last, q);
      PickedUpdate(front, g, b, q);
      AddedToBoth(multiset(Picked(front[g := b], q)), multiset(Picked(front, q)), PickedFrom(front[g], q), PickedFrom(b, q), PickedFrom(last, q));
    } else {
      assert groups[g := b] == front + [b];
      PickedSnoc(front, b, q);
    }
  }

  lemma PickedFromAdded(b: Batch, e: LogEntry, q: seq<Label>)
    ensures PickedFrom(Batch(b.labels, b.entries + [e]), q) == PickedFrom(b, q) + PickedFrom(Batch(b.labels, [e]), q)
  {
  }

  lemma AddedGain(groups: seq<Batch>, rec: LogRecord, q: seq<Label>)
    ensures multiset(Picked(AddRecord(groups, rec), q)) == multiset(Picked(groups, q)) + PickedFrom(Batch(rec.labels, [rec.entry]), q)
  {
    hide Picked, PickedFrom;
    match BatchOf(groups, rec.labels)
    case Some(g) =>
      PickedUpdate(groups, g, Batch(rec.labels, groups[g].entries + [rec.entry]), q);
      PickedFromAdded(groups[g], rec.entry, q);
      TakenFromBoth(multiset(Picked(AddRecord(groups, rec), q)), multiset(Picked(groups, q)), PickedFrom(groups[g], q),
                    PickedFrom(Batch(rec.labels, [rec.entry]), q));
    case None =>
      PickedSnoc(groups, Batch(rec.labels, [rec.entry]), q);
  }

  /** Grouping hands every stream the records meant for it. */
  lemma {:induction false} GroupedGain(recs: seq<LogRecord>, q: seq<Label>)
    ensures multiset(Picked(Grouped(recs), q)) == multiset(MeantFor(recs, q))
  {
    hide SameLabels, AddRecord, Picked;
    if recs == [] {
      NothingPicked(q);
    } else {
      var front, rec := recs[..|recs| - 1], recs[|recs| - 1];
      GroupedGain(front, q);
      AddedGain(Grouped(front), rec, q);
      assert multiset(MeantFor(front, q) + []) == multiset(MeantFor(front, q));
    }
  }

  lemma NothingPicked(q: seq<Label>)
    ensures Picked([], q) == []
  {
  }

  /** The stream of `q` holds its old entries and those of the records meant for it, in time order. */
  ghost predicate StreamGains(before: LogState, after: LogState, recs: seq<LogRecord>, q: seq<Label>) {
    && WellFormed(before) && WellFormed(after)
    && multiset(EntriesOf(View(after, q))) == multiset(EntriesOf(View(before, q))) + multiset(MeantFor(recs, q))
    && SortedBy(EntriesOf(View(after, q)), Ts)
  }

  lemma StoringGains(s: LogState, recs: seq<LogRecord>, q: seq<Label>)
    requires WellFormed(s)
    ensures StreamGains(s, StoreAll(s, Grouped(recs)), recs, q)
  {
    hide WellFormed, View, Picked, MeantFor, Grouped, StableSort, SortedBy;
    StoreAllEntries(s, Grouped(recs), q);
    GroupedGain(recs, q);
    StableSortSorts(EntriesOf(View(s, q)) + Picked(Grouped(recs), q), Ts);
  }

  /** Each record is found under its own labels afterwards. */
  lemma RecordIsStored(before: LogState, after: LogState, recs: seq<LogRecord>, k: nat)
    requires k < |recs| && StreamGains(before, after, recs, recs[k].labels)
    ensures recs[k].entry in EntriesOf(View(after, recs[k].labels))
  {
    MeantForHas(recs, recs[k].labels, k);
    assert recs[k].entry in multiset(EntriesOf(View(after, recs[k].labels)));
  }

  /** Records that are what the request sent, one for one, and that the streams have gained. */
  ghost predicate Gained(before: LogState, after: LogState, request: seq<ResourceLogs>, next: nat, clock: nat -> I64, recs: seq<LogRecord>) {
    && AllFit(recs, SentLines(request), next, clock)
    && (forall q :: StreamGains(before, after, recs, q))
    && forall k :: 0 <= k < |recs| ==> WellFormed(after) && recs[k].entry in EntriesOf(View(after, recs[k].labels))
  }

  lemma RequestGains(s: LogState, request: seq<ResourceLogs>, next: nat, clock: nat -> I64)
    requires WellFormed(s)
    ensures |RequestRecords(request, next, clock)| == |SentLines(request)|
    ensures Gained(s, StoreAll(s, Grouped(RequestRecords(request, next, clock))), request, next, clock, RequestRecords(request, next, clock))
  {
    hide WellFormed, View, StreamGains, RecordFits, Grouped;
    var recs := RequestRecords(request, next, clock);
    RequestFits(request, next, clock);
    forall q ensures StreamGains(s, StoreAll(s, Grouped(recs)), recs, q) { StoringGains(s, recs, q); }
    forall k | 0 <= k < |recs| ensures recs[k].entry in EntriesOf(View(StoreAll(s, Grouped(recs)), recs[k].labels)) {
      RecordIsStored(s, StoreAll(s, Grouped(recs)), recs, k);
    }
  }

  // -------------------------------------------------------------- the method

  ghost function StateOf(store: LogStore): LogState
    reads store
  {
    LogState(store.interner, store.streams, store.streamIds, store.nextStreamId)
  }

  lemma ValidIsWellFormed(store: LogStore)
    requires store.Valid()
    ensures WellFormed(StateOf(store))
  {
  }

  /** Interns what the entries of a batch need. */
  method InternEntries(interner: Interner, entries: seq<LogEntry>) returns (r: Interner)
    requires interner.Valid()
    ensures r == InternStrings(interner, BatchStrings(entries)) && r.Valid() && r.GrownFrom(interner)
    ensures forall k :: 0 <= k < |entries| ==> EntryInterned(r, entries[k])
  {
    r := interner;
    for i := 0 to |entries|
      invariant r == InternStrings(interner, BatchStrings(entries[..i]))
    {
      assert entries[..i + 1][..i] == entries[..i];
      InternStringsAppend(interner, BatchStrings(entries[..i]), EntryStrings(entries[i]));
      r := InternStrings(r, EntryStrings(entries[i]));
    }
    assert entries[..|entries|] == entries;
    InternStringsCorrect(interner, BatchStrings(entries));
    BatchInterned(interner, entries);
  }

  /** Interns a batch's strings and extends its stream. */
  method StoreBatch(store: LogStore, b: Batch, ghost start: LogState)
    requires store.Valid() && start == StateOf(store) && WellFormed(start)
    modifies store
    ensures store.Valid() && StateOf(store) == Store(start, b)
    ensures store.totalEntries == old(store.totalEntries) + |b.entries|
  {
    hide Indexed, AllKnown, AllSorted, TraceCovered, Total, Appended, LabelSetOf, Interned, InternAll, WellFormed, LabelsOf;
    hide InternStrings, BatchStrings;
    StoreIsIngest(start, b);
    var r := InternEntries(store.interner, b.entries);
    KnownLater(store.interner, r, LabelsOf(store.streams));
    store.interner := r;
    store.IngestStream(b.labels, b.entries);
  }

  function BatchedCount(batches: seq<Batch>): nat {
    if batches == [] then 0 else BatchedCount(batches[..|batches| - 1]) + |batches[|batches| - 1].entries|
  }

  lemma {:induction false} BatchedCountIsLength(batches: seq<Batch>)
    ensures BatchedCount(batches) == |Flatten(batches)|
  {
    if batches != [] { BatchedCountIsLength(batches[..|batches| - 1]); }
  }

  /** Groups a request outside the lock, then stores batch after batch. */
  method IngestRequest(store: LogStore, request: seq<ResourceLogs>, ingestSeq: nat, clock: nat -> I64)
    returns (count: nat, ingestSeq': nat)
    requires store.Valid()
    modifies store
    ensures store.Valid() && WellFormed(old(StateOf(store)))
    ensures StateOf(store) == StoreAll(old(StateOf(store)), Grouped(RequestRecords(request, ingestSeq, clock)))
    ensures count == |RequestRecords(request, ingestSeq, clock)| && ingestSeq' == ingestSeq + count
    ensures store.totalEntries == old(store.totalEntries) + count
    ensures count == |SentLines(request)|
    ensures exists recs :: Gained(old(StateOf(store)), StateOf(store), request, ingestSeq, clock, recs)
  {
    hide Grouped, RequestRecords, Store, WellFormed, LogStore.Valid, StableSort, Flatten, SortedBy, SameByKey, Gained;
    ghost var start := StateOf(store);
    ValidIsWellFormed(store);
    var groups;
    groups, ingestSeq' := GroupRequest(request, ingestSeq, clock);
    count := 0;
    for n := 0 to |groups|
      invariant store.Valid() && count == BatchedCount(groups[..n])
      invariant StateOf(store) == StoreAll(start, groups[..n])
      invariant store.totalEntries == old(store.totalEntries) + count
    {
      assert groups[..n + 1][..n] == groups[..n];
      StoreBatch(store, groups[n], StoreAll(start, groups[..n]));
      count := count + |groups[n].entries|;
    }
    assert groups[..|groups|] == groups;
    var recs := RequestRecords(request, ingestSeq, clock);
    BatchedCountIsLength(groups);
    FlattenIsStableSort(recs);
    StableSortSorts(recs, Arrival(recs));
    RequestGains(start, request, ingestSeq, clock);
  }
}
