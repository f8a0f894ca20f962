/**
  Which stored entries a log query matches, what it shows of them, and what
  choosing the newest of them means.
 */
module LogMatching {
  import opened Enumeration
  import opened Interning
  import opened LabelIndexing
  import opened LogStore
  import opened Options
  import opened Positions
  import opened StableSorting
  import opened StreamMaps
  import opened TimeOrdered
  import opened TraceIds

  datatype ResolvedEntry = ResolvedEntry(
    timestampNs: I64, line: string, traceId: Option<TraceId>, spanId: Option<SpanId>, attributes: seq<(string, string)>)

  datatype StreamResult = StreamResult(labels: seq<Label>, entries: seq<ResolvedEntry>)

  /** The pipeline stages as a test of a line under its stream labels, and how attribute values are displayed. */
  datatype Pipeline = Pipeline(passes: (string, seq<Label>) -> bool, show: LogAttribute -> string)

  function When(e: ResolvedEntry): int { e.timestampNs }

  // -------------------------------------------------------------- specification

  function ResolveLabels(r: Interner, ls: LabelSet): seq<Label>
    requires KnownSet(r, ls)
  {
    seq(|ls|, i requires 0 <= i < |ls| => (r.Resolve(ls[i].0), r.Resolve(ls[i].1)))
  }

  function ShowAttributes(attributes: seq<(string, LogAttribute)>, show: LogAttribute -> string): seq<(string, string)> {
    seq(|attributes|, i requires 0 <= i < |attributes| => (attributes[i].0, show(attributes[i].1)))
  }

  function Resolve(e: LogEntry, show: LogAttribute -> string): (x: ResolvedEntry)
    ensures x.timestampNs == e.timestampNs
  {
    ResolvedEntry(e.timestampNs, e.line, e.traceId, e.spanId,
      ShowAttributes(e.attributes, show)
      + (if e.severityNumber != 0 then [("severity_number", show(IntAttr(e.severityNumber)))] else [])
      + (match e.severityText case Some(text) => [("severity_text", text)] case None => []))
  }

  function Passing(entries: seq<LogEntry>, labels: seq<Label>, p: Pipeline): seq<ResolvedEntry> {
    if entries == [] then []
    else
      Passing(entries[..|entries| - 1], labels, p)
      + (var e := entries[|entries| - 1]; if p.passes(e.line, labels) then [Resolve(e, p.show)] else [])
  }

  function LabelsFor(r: Interner, streams: LogStreams, id: nat): seq<Label>
    requires AllKnown(r, LabelsOf(streams))
  {
    if id in streams then LabelsResolved(r, LabelsOf(streams), id) else []
  }

  function LabelsResolved(r: Interner, labels: map<nat, LabelSet>, id: nat): seq<Label>
    requires AllKnown(r, labels) && id in labels
  {
    ResolveLabels(r, labels[id])
  }

  /** The entries of one stream within the window that pass the pipeline. */
  function Matches(r: Interner, streams: LogStreams, id: nat, p: Pipeline, start: I64, end: I64): seq<ResolvedEntry>
    requires AllKnown(r, LabelsOf(streams))
  {
    if id in streams then Passing(Window(streams[id].entries, Ts, start, end), LabelsFor(r, streams, id), p) else []
  }

  type Tagged = (nat, ResolvedEntry)

  function Tag(id: nat, entries: seq<ResolvedEntry>): seq<Tagged> {
    if entries == [] then [] else Tag(id, entries[..|entries| - 1]) + [(id, entries[|entries| - 1])]
  }

  /** All matching entries of the listed streams, each tagged with its stream. */
  function AllMatches(r: Interner, streams: LogStreams, ids: seq<nat>, p: Pipeline, start: I64, end: I64): seq<Tagged>
    requires AllKnown(r, LabelsOf(streams))
  {
    if ids == [] then []
    else
      AllMatches(r, streams, ids[..|ids| - 1], p, start, end)
      + Tag(ids[|ids| - 1], Matches(r, streams, ids[|ids| - 1], p, start, end))
  }

  /** The entries of a result, tagged with the streams they came from. */
  function Flatten(ids: seq<nat>, results: seq<StreamResult>): seq<Tagged>
    requires |ids| == |results|
  {
    if ids == [] then []
    else Flatten(ids[..|ids| - 1], results[..|ids| - 1]) + Tag(ids[|ids| - 1], results[|ids| - 1].entries)
  }

  function CountEntries(results: seq<StreamResult>): nat {
    if results == [] then 0 else CountEntries(results[..|results| - 1]) + |results[|results| - 1].entries|
  }

  lemma {:induction false} TagLength(id: nat, entries: seq<ResolvedEntry>)
    ensures |Tag(id, entries)| == |entries|
    ensures forall i :: 0 <= i < |entries| ==> Tag(id, entries)[i] == (id, entries[i])
  {
    if entries != [] { TagLength(id, entries[..|entries| - 1]); }
  }

  lemma {:induction false} FlattenLength(ids: seq<nat>, results: seq<StreamResult>)
    requires |ids| == |results|
    ensures |Flatten(ids, results)| == CountEntries(results)
  {
    if ids != [] {
      FlattenLength(ids[..|ids| - 1], results[..|ids| - 1]);
      TagLength(ids[|ids| - 1], results[|ids| - 1].entries);
    }
  }

  function AtMost(limit: nat, n: nat): nat {
    if n <= limit then n else limit
  }

  /** `kept` is a largest-`limit` choice from `all`: nothing left out is newer than anything kept. */
  ghost predicate NewestOf(all: multiset<Tagged>, kept: multiset<Tagged>, limit: nat) {
    && kept <= all
    && |kept| == AtMost(limit, |all|)
    && forall x, y :: x in all - kept && y in kept ==> When(x.1) <= When(y.1)
  }

  // ------------------------------------------------- matches as stored entries

  /** An entry within the bounds that the pipeline passes. */
  ghost predicate Wanted(e: LogEntry, labels: seq<Label>, p: Pipeline, start: I64, end: I64) {
    start <= e.timestampNs <= end && p.passes(e.line, labels)
  }

  /** A result shows an entry as stored, its severity behind its attributes. */
  ghost predicate ShowsEntry(x: ResolvedEntry, e: LogEntry, show: LogAttribute -> string) {
    && x.timestampNs == e.timestampNs && x.line == e.line && x.traceId == e.traceId && x.spanId == e.spanId
    && var n := |e.attributes|;
    && |x.attributes| == n + (if e.severityNumber != 0 then 1 else 0) + (if e.severityText.Some? then 1 else 0)
    && (forall i :: 0 <= i < n ==> x.attributes[i] == (e.attributes[i].0, show(e.attributes[i].1)))
    && (e.severityNumber != 0 ==> x.attributes[n] == ("severity_number", show(IntAttr(e.severityNumber))))
    && (e.severityText.Some? ==> x.attributes[|x.attributes| - 1] == ("severity_text", e.severityText.value))
  }

  /** The labels of a label set, spelled out. */
  ghost predicate LabelsShown(labels: seq<Label>, r: Interner, ls: LabelSet) {
    |labels| == |ls| && forall i :: 0 <= i < |ls| ==>
      r.Knows(ls[i].0) && r.Knows(ls[i].1) && labels[i] == (r.Resolve(ls[i].0), r.Resolve(ls[i].1))
  }

  ghost function WantedUnder(labels: seq<Label>, p: Pipeline, start: I64, end: I64): LogEntry -> bool {
    (e: LogEntry) => Wanted(e, labels, p, start, end)
  }

  /** `xs` shows, in order, exactly the wanted entries. */
  ghost predicate ShowsWanted(xs: seq<ResolvedEntry>, entries: seq<LogEntry>, labels: seq<Label>, p: Pipeline, start: I64, end: I64, at: seq<nat>) {
    && PositionsOf(entries, WantedUnder(labels, p, start, end), at) && |at| == |xs|
    && forall k :: 0 <= k < |xs| ==> ShowsEntry(xs[k], entries[at[k]], p.show)
  }

  lemma ResolveShows(e: LogEntry, show: LogAttribute -> string)
    ensures ShowsEntry(Resolve(e, show), e, show)
  {
  }

  lemma {:induction false} PassingPositions(entries: seq<LogEntry>, labels: seq<Label>, p: Pipeline) returns (at: seq<nat>)
    ensures PositionsOf(entries, (e: LogEntry) => p.passes(e.line, labels), at)
    ensures |Passing(entries, labels, p)| == |at|
    ensures forall k :: 0 <= k < |at| ==> ShowsEntry(Passing(entries, labels, p)[k], entries[at[k]], p.show)
  {
    hide PositionsOf, ShowsEntry;
    var test := (e: LogEntry) => p.passes(e.line, labels);
    if entries == [] {
      PositionsInNothing(test);
      at := [];
    } else {
      var n := |entries| - 1;
      var front := PassingPositions(entries[..n], labels, p);
      PositionsSnoc(entries[..n], entries[n], test, front);
      PositionsInRange(entries[..n], test, front);
      assert entries == entries[..n] + [entries[n]];
      ResolveShows(entries[n], p.show);
      at := front + if test(entries[n]) then [n] else [];
    }
  }

  lemma PassingWindow(entries: seq<LogEntry>, labels: seq<Label>, p: Pipeline, start: I64, end: I64) returns (at: seq<nat>)
    ensures ShowsWanted(Passing(Window(entries, Ts, start, end), labels, p), entries, labels, p, start, end, at)
  {
    hide ShowsEntry;
    WindowIs(entries, Ts, start, end, (e: LogEntry) => start <= e.timestampNs <= end);
    var w: seq<nat> :| PositionsOf(entries, (e: LogEntry) => start <= e.timestampNs <= end, w) && TakenAt(entries, w, Window(entries, Ts, start, end));
    var q := PassingPositions(Window(entries, Ts, start, end), labels, p);
    at := PositionsWithin(entries, (e: LogEntry) => start <= e.timestampNs <= end, w, Window(entries, Ts, start, end),
                          (e: LogEntry) => p.passes(e.line, labels), q, WantedUnder(labels, p, start, end));
  }

  /** The labels a stream resolves to; there is only one way to spell them out. */
  lemma LabelsForShown(r: Interner, streams: LogStreams, id: nat)
    requires AllKnown(r, LabelsOf(streams)) && id in streams
    ensures LabelsShown(LabelsFor(r, streams, id), r, streams[id].labels)
    ensures forall labels :: LabelsShown(labels, r, streams[id].labels) ==> labels == LabelsFor(r, streams, id)
  {
    assert KnownSet(r, LabelsOf(streams)[id]);
  }

  /** What a stream contributes, as stored. */
  lemma MatchesShown(r: Interner, streams: LogStreams, id: nat, p: Pipeline, start: I64, end: I64) returns (at: seq<nat>)
    requires AllKnown(r, LabelsOf(streams)) && id in streams
    ensures ShowsWanted(Matches(r, streams, id, p, start, end), streams[id].entries, LabelsFor(r, streams, id), p, start, end, at)
  {
    at := PassingWindow(streams[id].entries, LabelsFor(r, streams, id), p, start, end);
  }

  // ------------------------------------------------------ answers to a query

  /** A result shows exactly the wanted entries of one stream, in order, under the stream's labels. */
  ghost predicate StreamShown(x: StreamResult, r: Interner, streams: LogStreams, id: nat, p: Pipeline, start: I64, end: I64) {
    && id in streams && LabelsShown(x.labels, r, streams[id].labels) && x.entries != []
    && exists at :: ShowsWanted(x.entries, streams[id].entries, x.labels, p, start, end, at)
  }

  /** Entry `i` of a selected stream is wanted. */
  ghost predicate WantedAt(r: Interner, streams: LogStreams, ids: seq<nat>, p: Pipeline, start: I64, end: I64, id: nat, i: nat) {
    && id in ids && id in streams && i < |streams[id].entries|
    && exists labels :: LabelsShown(labels, r, streams[id].labels) && Wanted(streams[id].entries[i], labels, p, start, end)
  }

  /** Every selected stream with a wanted entry is shown, once, and no other. */
  ghost predicate AnswersAll(results: seq<StreamResult>, sids: seq<nat>, r: Interner, streams: LogStreams, ids: seq<nat>, p: Pipeline, start: I64, end: I64) {
    && |sids| == |results| && Distinct(sids)
    && (forall n :: 0 <= n < |sids| ==> sids[n] in ids && StreamShown(results[n], r, streams, sids[n], p, start, end))
    && forall id, i: nat :: WantedAt(r, streams, ids, p, start, end, id, i) ==> id in sids
  }

  lemma WantedMatch(r: Interner, streams: LogStreams, ids: seq<nat>, p: Pipeline, start: I64, end: I64, id: nat, i: nat) returns (e: ResolvedEntry)
    requires AllKnown(r, LabelsOf(streams)) && WantedAt(r, streams, ids, p, start, end, id, i)
    ensures When(e) == streams[id].entries[i].timestampNs && e in Matches(r, streams, id, p, start, end)
  {
    LabelsForShown(r, streams, id);
    var at := MatchesShown(r, streams, id, p, start, end);
    var labels :| LabelsShown(labels, r, streams[id].labels) && Wanted(streams[id].entries[i], labels, p, start, end);
    assert WantedUnder(LabelsFor(r, streams, id), p, start, end)(streams[id].entries[i]);
    var k :| 0 <= k < |at| && at[k] == i;
    e := Matches(r, streams, id, p, start, end)[k];
  }

  /** The matches of each stream that has any answer the query. */
  lemma MatchesAnswer(results: seq<StreamResult>, sids: seq<nat>, r: Interner, streams: LogStreams, ids: seq<nat>, p: Pipeline, start: I64, end: I64)
    requires AllKnown(r, LabelsOf(streams)) && |sids| == |results| && Distinct(sids)
    requires forall n :: 0 <= n < |sids| ==> sids[n] in ids && results[n].labels == LabelsFor(r, streams, sids[n])
    requires forall n :: 0 <= n < |sids| ==> results[n].entries == Matches(r, streams, sids[n], p, start, end) && results[n].entries != []
    requires forall id :: id in ids && Matches(r, streams, id, p, start, end) != [] ==> id in sids
    ensures AnswersAll(results, sids, r, streams, ids, p, start, end)
  {
    hide ShowsWanted, LabelsFor, LabelsShown, Wanted;
    forall n | 0 <= n < |sids| ensures StreamShown(results[n], r, streams, sids[n], p, start, end) {
      MatchesOnlyOfStreams(r, streams, sids[n], p, start, end);
      LabelsForShown(r, streams, sids[n]);
      var at := MatchesShown(r, streams, sids[n], p, start, end);
    }
    forall id, i | WantedAt(r, streams, ids, p, start, end, id, i) ensures id in sids {
      var e := WantedMatch(r, streams, ids, p, start, end, id, i);
    }
  }

  lemma MatchesOnlyOfStreams(r: Interner, streams: LogStreams, id: nat, p: Pipeline, start: I64, end: I64)
    requires AllKnown(r, LabelsOf(streams))
    ensures Matches(r, streams, id, p, start, end) != [] ==> id in streams
  {
  }

  // ------------------------------------------------------- the newest answers

  /** A result shows some of the wanted entries of one stream, none twice, in time order. */
  ghost predicate StreamPartlyShown(x: StreamResult, r: Interner, streams: LogStreams, id: nat, p: Pipeline, start: I64, end: I64, at: seq<nat>) {
    && id in streams && LabelsShown(x.labels, r, streams[id].labels) && x.entries != []
    && |at| == |x.entries| && Distinct(at)
    && (forall k :: 0 <= k < |at| ==>
          && at[k] < |streams[id].entries| && Wanted(streams[id].entries[at[k]], x.labels, p, start, end)
          && ShowsEntry(x.entries[k], streams[id].entries[at[k]], p.show))
    && forall j, k :: 0 <= j < k < |x.entries| ==> x.entries[j].timestampNs <= x.entries[k].timestampNs
  }

  /** Entry `i` of stream `id` is among those shown. */
  ghost predicate Kept(sids: seq<nat>, kept: seq<seq<nat>>, id: nat, i: nat) {
    exists n :: 0 <= n < |sids| && n < |kept| && sids[n] == id && i in kept[n]
  }

  /**
    At most `limit` wanted entries are shown.  One is left out only where `limit`
    entries are shown, none of them older.
   */
  ghost predicate AnswersNewest(results: seq<StreamResult>, sids: seq<nat>, kept: seq<seq<nat>>, r: Interner, streams: LogStreams, ids: seq<nat>,
                                p: Pipeline, start: I64, end: I64, limit: nat) {
    && |sids| == |results| == |kept| && Distinct(sids)
    && (forall n :: 0 <= n < |sids| ==> sids[n] in ids && StreamPartlyShown(results[n], r, streams, sids[n], p, start, end, kept[n]))
    && CountEntries(results) <= limit
    && forall id, i: nat :: WantedAt(r, streams, ids, p, start, end, id, i) && !Kept(sids, kept, id, i) ==>
         CountEntries(results) == limit && NoneOlder(results, streams[id].entries[i].timestampNs)
  }

  ghost predicate NoneOlder(results: seq<StreamResult>, t: int) {
    forall n, k :: 0 <= n < |results| && 0 <= k < |results[n].entries| ==> results[n].entries[k].timestampNs >= t
  }

  /** Where each element of `xs` is found in `ys`, no place used twice. */
  ghost predicate Places<T>(xs: seq<T>, ys: seq<T>, at: seq<nat>) {
    |at| == |xs| && Distinct(at) && forall k :: 0 <= k < |xs| ==> at[k] < |ys| && ys[at[k]] == xs[k]
  }

  lemma {:induction false} PlacesFit<T>(xs: seq<T>, ys: seq<T>, at: seq<nat>)
    requires Places(xs, ys, at)
    ensures multiset(xs) <= multiset(ys)
    decreases |xs|, 0
  {
    if xs != [] {
      var n := |xs| - 1;
      var j := at[n];
      assert xs == xs[..n] + [xs[n]];
      assert Places(xs[..n], ys, at[..n]);
      assert j !in at[..n];
      PlacesBut(xs[..n], ys, at[..n], j);
    }
  }

  lemma {:induction false} PlacesBut<T>(xs: seq<T>, ys: seq<T>, at: seq<nat>, j: nat)
    requires Places(xs, ys, at) && j < |ys| && j !in at
    ensures multiset(xs) + multiset{ys[j]} <= multiset(ys)
    decreases |xs|, 1
  {
    var rest := ys[..j] + ys[j + 1..];
    var moved := seq(|at|, k requires 0 <= k < |at| => if at[k] < j then at[k] else at[k] - 1);
    forall k | 0 <= k < |xs| ensures moved[k] < |rest| && rest[moved[k]] == xs[k] { assert at[k] in at; }
    PlacesFit(xs, rest, moved);
    assert ys == ys[..j] + [ys[j]] + ys[j + 1..];
    assert multiset(ys) == multiset(rest) + multiset{ys[j]};
  }

  /** A place not used belongs to a surplus element. */
  lemma UnusedPlace<T>(xs: seq<T>, ys: seq<T>, at: seq<nat>, j: nat)
    requires Places(xs, ys, at) && j < |ys| && j !in at
    ensures multiset(xs)[ys[j]] < multiset(ys)[ys[j]]
  {
    PlacesBut(xs, ys, at, j);
    assert (multiset(xs) + multiset{ys[j]})[ys[j]] == multiset(xs)[ys[j]] + 1;
  }

  lemma WithoutLast<T>(xs: seq<T>, ys: seq<T>, j: nat)
    requires xs != [] && multiset(xs) <= multiset(ys) && j < |ys| && ys[j] == xs[|xs| - 1]
    ensures multiset(xs[..|xs| - 1]) <= multiset(ys[..j] + ys[j + 1..])
  {
    var n, rest := |xs| - 1, ys[..j] + ys[j + 1..];
    assert xs == xs[..n] + [xs[n]];
    assert ys == ys[..j] + [ys[j]] + ys[j + 1..];
    assert multiset(ys) == multiset(rest) + multiset{ys[j]};
    assert multiset(xs) == multiset(xs[..n]) + multiset{xs[n]};
    forall e ensures multiset(xs[..n])[e] <= multiset(rest)[e] { assert multiset(xs)[e] <= multiset(ys)[e]; }
  }

  /** Places found beside position `j`, counted with it. */
  function PutBack(front: seq<nat>, j: nat): (at: seq<nat>)
    ensures |at| == |front| + 1 && at[|front|] == j
    ensures forall k :: 0 <= k < |front| ==> at[k] == if front[k] < j then front[k] else front[k] + 1
  {
    seq(|front|, k requires 0 <= k < |front| => if front[k] < j then front[k] else front[k] + 1) + [j]
  }

  lemma PlacesPutBack<T>(xs: seq<T>, ys: seq<T>, j: nat, front: seq<nat>)
    requires xs != [] && j < |ys| && ys[j] == xs[|xs| - 1]
    requires Places(xs[..|xs| - 1], ys[..j] + ys[j + 1..], front)
    ensures Places(xs, ys, PutBack(front, j))
  {
    var at := PutBack(front, j);
    forall k | 0 <= k < |xs| ensures at[k] < |ys| && ys[at[k]] == xs[k] {
      if k < |xs| - 1 { assert xs[..|xs| - 1][k] == xs[k]; }
    }
  }

  /** A sub-multiset can be placed. */
  lemma {:induction false} PlacesExist<T>(xs: seq<T>, ys: seq<T>) returns (at: seq<nat>)
    requires multiset(xs) <= multiset(ys)
    ensures Places(xs, ys, at)
  {
    at := [];
    if xs != [] {
      assert xs[|xs| - 1] in multiset(xs) && xs[|xs| - 1] in multiset(ys);
      var j: nat :| j < |ys| && ys[j] == xs[|xs| - 1];
      WithoutLast(xs, ys, j);
      var front := PlacesExist(xs[..|xs| - 1], ys[..j] + ys[j + 1..]);
      PlacesPutBack(xs, ys, j, front);
      at := PutBack(front, j);
    }
  }

  lemma {:induction false} TagCount(id: nat, entries: seq<ResolvedEntry>, t: Tagged)
    ensures multiset(Tag(id, entries))[t] == if t.0 == id then multiset(entries)[t.1] else 0
  {
    if entries != [] {
      var front, last := entries[..|entries| - 1], entries[|entries| - 1];
      assert entries == front + [last];
      TagCount(id, front, t);
    }
  }

  /** Each stream contributes exactly its own matches, once. */
  lemma {:induction false} AllMatchesCount(r: Interner, streams: LogStreams, ids: seq<nat>, p: Pipeline, start: I64, end: I64, t: Tagged)
    requires AllKnown(r, LabelsOf(streams)) && Distinct(ids)
    ensures multiset(AllMatches(r, streams, ids, p, start, end))[t]
         == if t.0 in ids then multiset(Matches(r, streams, t.0, p, start, end))[t.1] else 0
  {
    hide Matches, AllKnown;
    if ids != [] {
      var front, last := ids[..|ids| - 1], ids[|ids| - 1];
      assert ids == front + [last];
      AllMatchesCount(r, streams, front, p, start, end, t);
      TagCount(last, Matches(r, streams, last, p, start, end), t);
    }
  }

  /** The order in which streams are visited does not matter. */
  lemma SameSelection(r: Interner, streams: LogStreams, xs: seq<nat>, ys: seq<nat>, p: Pipeline, start: I64, end: I64)
    requires AllKnown(r, LabelsOf(streams)) && Distinct(xs) && Distinct(ys) && forall id :: id in xs <==> id in ys
    ensures multiset(AllMatches(r, streams, xs, p, start, end)) == multiset(AllMatches(r, streams, ys, p, start, end))
    ensures |AllMatches(r, streams, xs, p, start, end)| == |AllMatches(r, streams, ys, p, start, end)|
  {
    var all, all' := AllMatches(r, streams, xs, p, start, end), AllMatches(r, streams, ys, p, start, end);
    forall t ensures multiset(all)[t] == multiset(all')[t] {
      AllMatchesCount(r, streams, xs, p, start, end, t);
      AllMatchesCount(r, streams, ys, p, start, end, t);
    }
    assert |multiset(all)| == |all| && |multiset(all')| == |all'|;
  }

  lemma {:induction false} FlattenCountEach(sids: seq<nat>, results: seq<StreamResult>, t: Tagged)
    requires |sids| == |results| && Distinct(sids)
    ensures forall n :: 0 <= n < |sids| && sids[n] == t.0 ==> multiset(Flatten(sids, results))[t] == multiset(results[n].entries)[t.1]
    ensures t.0 !in sids ==> multiset(Flatten(sids, results))[t] == 0
  {
    if sids != [] {
      var n := |sids| - 1;
      var front := sids[..n];
      assert sids == front + [sids[n]];
      assert forall k :: 0 <= k < n ==> front[k] == sids[k] && results[..n][k] == results[k];
      FlattenCountEach(front, results[..n], t);
      TagCount(sids[n], results[n].entries, t);
      assert sids[n] !in front;
    }
  }

  /** What a newest selection keeps of one stream are some of its matches. */
  lemma KeptOfStream(r: Interner, streams: LogStreams, ids: seq<nat>, p: Pipeline, start: I64, end: I64, limit: nat,
                     results: seq<StreamResult>, sids: seq<nat>, n: nat)
    requires AllKnown(r, LabelsOf(streams)) && Distinct(ids) && Distinct(sids) && |sids| == |results| && n < |sids|
    requires NewestOf(multiset(AllMatches(r, streams, ids, p, start, end)), multiset(Flatten(sids, results)), limit)
    ensures multiset(results[n].entries) <= multiset(Matches(r, streams, sids[n], p, start, end))
    ensures results[n].entries != [] ==> sids[n] in ids
  {
    hide Matches, AllMatches, Flatten, AllKnown;
    var id := sids[n];
    forall e ensures multiset(results[n].entries)[e] <= if id in ids then multiset(Matches(r, streams, id, p, start, end))[e] else 0 {
      FlattenCountEach(sids, results, (id, e));
      AllMatchesCount(r, streams, ids, p, start, end, (id, e));
    }
    if results[n].entries != [] {
      assert results[n].entries[0] in multiset(results[n].entries);
    }
  }

  /** The positions of what is kept of one stream. */
  lemma PartlyShown(r: Interner, streams: LogStreams, id: nat, p: Pipeline, start: I64, end: I64, x: StreamResult) returns (at: seq<nat>)
    requires AllKnown(r, LabelsOf(streams)) && x.entries != [] && SortedBy(x.entries, When) && x.labels == LabelsFor(r, streams, id)
    requires multiset(x.entries) <= multiset(Matches(r, streams, id, p, start, end))
    ensures StreamPartlyShown(x, r, streams, id, p, start, end, at)
    ensures forall i :: 0 <= i < |streams[id].entries| && i !in at && Wanted(streams[id].entries[i], x.labels, p, start, end) ==>
      Surplus(x.entries, Matches(r, streams, id, p, start, end), streams[id].entries[i].timestampNs)
  {
    hide ShowsEntry, Wanted, LabelsShown, LabelsFor, AllKnown, Matches, LabelsOf, ShowsWanted, Places, Surplus, SortedBy, Distinct;
    var all := Matches(r, streams, id, p, start, end);
    assert x.entries[0] in multiset(x.entries);
    MatchesOnlyOfStreams(r, streams, id, p, start, end);
    LabelsForShown(r, streams, id);
    var shown := MatchesShown(r, streams, id, p, start, end);
    var places := PlacesExist(x.entries, all);
    at := WantedPlaces(streams[id].entries, x.labels, p, start, end, x.entries, all, shown, places);
    InTimeOrder(x.entries);
  }

  lemma InTimeOrder(xs: seq<ResolvedEntry>)
    requires SortedBy(xs, When)
    ensures forall j, k :: 0 <= j < k < |xs| ==> xs[j].timestampNs <= xs[k].timestampNs
  {
    forall j, k | 0 <= j < k < |xs| ensures xs[j].timestampNs <= xs[k].timestampNs { assert When(xs[j]) <= When(xs[k]); }
  }

  /** There is more of something from time `t` in `ys` than in `xs`. */
  ghost predicate Surplus(xs: seq<ResolvedEntry>, ys: seq<ResolvedEntry>, t: int) {
    exists e: ResolvedEntry :: e.timestampNs == t && multiset(xs)[e] < multiset(ys)[e]
  }

  lemma ShownTime(x: ResolvedEntry, e: LogEntry, show: LogAttribute -> string)
    requires ShowsEntry(x, e, show)
    ensures x.timestampNs == e.timestampNs
  {
  }

  lemma WantedPlaces(entries: seq<LogEntry>, labels: seq<Label>, p: Pipeline, start: I64, end: I64, xs: seq<ResolvedEntry>, all: seq<ResolvedEntry>,
                     shown: seq<nat>, places: seq<nat>) returns (at: seq<nat>)
    requires ShowsWanted(all, entries, labels, p, start, end, shown) && Places(xs, all, places)
    ensures |at| == |xs| && Distinct(at)
    ensures forall k :: 0 <= k < |at| ==>
      at[k] < |entries| && Wanted(entries[at[k]], labels, p, start, end) && ShowsEntry(xs[k], entries[at[k]], p.show)
    ensures forall i :: 0 <= i < |entries| && i !in at && Wanted(entries[i], labels, p, start, end) ==> Surplus(xs, all, entries[i].timestampNs)
  {
    hide ShowsEntry, Wanted;
    at := seq(|places|, k requires 0 <= k < |places| => shown[places[k]]);
    forall j, k | 0 <= j < k < |at| ensures at[j] != at[k] {
      assert places[j] < places[k] || places[k] < places[j];
    }
    forall k | 0 <= k < |at| ensures Wanted(entries[at[k]], labels, p, start, end) {
      assert WantedUnder(labels, p, start, end)(entries[shown[places[k]]]);
    }
    forall i | 0 <= i < |entries| && i !in at && Wanted(entries[i], labels, p, start, end) ensures Surplus(xs, all, entries[i].timestampNs) {
      assert WantedUnder(labels, p, start, end)(entries[i]);
      var q :| 0 <= q < |shown| && shown[q] == i;
      assert forall k :: 0 <= k < |places| ==> at[k] == shown[places[k]] && at[k] in at;
      UnusedPlace(xs, all, places, q);
      ShownTime(all[q], entries[i], p.show);
    }
  }

  /** The positions kept of every stream shown. */
  lemma KeptPositions(results: seq<StreamResult>, sids: seq<nat>, r: Interner, streams: LogStreams, ids: seq<nat>, p: Pipeline, start: I64, end: I64, limit: nat)
    returns (kept: seq<seq<nat>>)
    requires AllKnown(r, LabelsOf(streams)) && Distinct(ids) && Distinct(sids) && |sids| == |results|
    requires NewestOf(multiset(AllMatches(r, streams, ids, p, start, end)), multiset(Flatten(sids, results)), limit)
    requires forall n :: 0 <= n < |sids| ==>
      results[n].entries != [] && SortedBy(results[n].entries, When) && results[n].labels == LabelsFor(r, streams, sids[n])
    ensures |kept| == |sids|
    ensures forall n :: 0 <= n < |sids| ==> sids[n] in ids && StreamPartlyShown(results[n], r, streams, sids[n], p, start, end, kept[n])
    ensures forall n :: 0 <= n < |sids| ==> SurplusWhereLeft(results[n], r, streams, sids[n], p, start, end, kept[n])
  {
    hide StreamPartlyShown, SurplusWhereLeft, NewestOf, AllMatches, Matches, Flatten, SortedBy, LabelsFor, AllKnown, Distinct;
    kept := [];
    for n := 0 to |sids|
      invariant |kept| == n
      invariant forall k :: 0 <= k < n ==> sids[k] in ids && StreamPartlyShown(results[k], r, streams, sids[k], p, start, end, kept[k])
      invariant forall k :: 0 <= k < n ==> SurplusWhereLeft(results[k], r, streams, sids[k], p, start, end, kept[k])
    {
      KeptOfStream(r, streams, ids, p, start, end, limit, results, sids, n);
      var at := PartlyShown(r, streams, sids[n], p, start, end, results[n]);
      SurplusOf(results[n], r, streams, sids[n], p, start, end, at);
      kept := kept + [at];
    }
  }

  /** Where a wanted entry of the stream is not at a kept position, the stream matches more than is shown. */
  ghost predicate SurplusWhereLeft(x: StreamResult, r: Interner, streams: LogStreams, id: nat, p: Pipeline, start: I64, end: I64, at: seq<nat>) {
    && id in streams && AllKnown(r, LabelsOf(streams))
    && forall i :: 0 <= i < |streams[id].entries| && i !in at && Wanted(streams[id].entries[i], x.labels, p, start, end) ==>
         Surplus(x.entries, Matches(r, streams, id, p, start, end), streams[id].entries[i].timestampNs)
  }

  lemma SurplusOf(x: StreamResult, r: Interner, streams: LogStreams, id: nat, p: Pipeline, start: I64, end: I64, at: seq<nat>)
    requires AllKnown(r, LabelsOf(streams)) && StreamPartlyShown(x, r, streams, id, p, start, end, at)
    requires forall i :: 0 <= i < |streams[id].entries| && i !in at && Wanted(streams[id].entries[i], x.labels, p, start, end) ==>
      Surplus(x.entries, Matches(r, streams, id, p, start, end), streams[id].entries[i].timestampNs)
    ensures SurplusWhereLeft(x, r, streams, id, p, start, end, at)
  {
  }

  /** Something of time `t` was left out of a newest selection. */
  lemma LeftOut(all: seq<Tagged>, results: seq<StreamResult>, sids: seq<nat>, limit: nat, x: Tagged)
    requires |sids| == |results| && NewestOf(multiset(all), multiset(Flatten(sids, results)), limit)
    requires multiset(Flatten(sids, results))[x] < multiset(all)[x]
    ensures CountEntries(results) == limit && NoneOlder(results, When(x.1))
  {
    hide Flatten;
    var kept := Flatten(sids, results);
    assert x in multiset(all) - multiset(kept);
    FlattenLength(sids, results);
    assert |multiset(all) - multiset(kept)| == |multiset(all)| - |multiset(kept)|;
    forall n, k | 0 <= n < |results| && 0 <= k < |results[n].entries| ensures results[n].entries[k].timestampNs >= When(x.1) {
      InFlatten(sids, results, n, k);
      assert (sids[n], results[n].entries[k]) in multiset(kept);
    }
  }

  lemma {:induction false} InFlatten(sids: seq<nat>, results: seq<StreamResult>, n: nat, k: nat)
    requires |sids| == |results| && n < |results| && k < |results[n].entries|
    ensures (sids[n], results[n].entries[k]) in Flatten(sids, results)
  {
    var m := |sids| - 1;
    if n < m {
      InFlatten(sids[..m], results[..m], n, k);
    } else {
      TagLength(sids[n], results[n].entries);
      assert Tag(sids[n], results[n].entries)[k] == (sids[n], results[n].entries[k]);
    }
  }

  /** A newest selection of the matches answers the limited query. */
  lemma NewestAnswers(results: seq<StreamResult>, sids: seq<nat>, r: Interner, streams: LogStreams, ids: seq<nat>, p: Pipeline, start: I64, end: I64, limit: nat)
    requires AllKnown(r, LabelsOf(streams)) && Distinct(ids) && Distinct(sids) && |sids| == |results|
    requires NewestOf(multiset(AllMatches(r, streams, ids, p, start, end)), multiset(Flatten(sids, results)), limit)
    requires forall n :: 0 <= n < |sids| ==>
      results[n].entries != [] && SortedBy(results[n].entries, When) && results[n].labels == LabelsFor(r, streams, sids[n])
    ensures exists kept :: AnswersNewest(results, sids, kept, r, streams, ids, p, start, end, limit)
  {
    hide StreamPartlyShown, NewestOf, AllMatches, Matches, Flatten, SortedBy, LabelsFor, AllKnown, Kept, NoneOlder, SurplusWhereLeft, Distinct, Wanted, LabelsShown, LabelsOf;
    var kept := KeptPositions(results, sids, r, streams, ids, p, start, end, limit);
    KeptCount(results, sids, r, streams, ids, p, start, end, limit);
    forall id, i: nat | WantedAt(r, streams, ids, p, start, end, id, i) && !Kept(sids, kept, id, i)
      ensures CountEntries(results) == limit && NoneOlder(results, streams[id].entries[i].timestampNs)
    {
      LeftOutAt(results, sids, kept, r, streams, ids, p, start, end, limit, id, i);
    }
    assert AnswersNewest(results, sids, kept, r, streams, ids, p, start, end, limit);
  }

  lemma KeptCount(results: seq<StreamResult>, sids: seq<nat>, r: Interner, streams: LogStreams, ids: seq<nat>, p: Pipeline, start: I64, end: I64, limit: nat)
    requires AllKnown(r, LabelsOf(streams)) && |sids| == |results|
    requires NewestOf(multiset(AllMatches(r, streams, ids, p, start, end)), multiset(Flatten(sids, results)), limit)
    ensures CountEntries(results) <= limit
  {
    FlattenLength(sids, results);
  }

  lemma LeftOutAt(results: seq<StreamResult>, sids: seq<nat>, kept: seq<seq<nat>>, r: Interner, streams: LogStreams, ids: seq<nat>,
                  p: Pipeline, start: I64, end: I64, limit: nat, id: nat, i: nat)
    requires AllKnown(r, LabelsOf(streams)) && Distinct(ids) && Distinct(sids) && |sids| == |results| == |kept|
    requires NewestOf(multiset(AllMatches(r, streams, ids, p, start, end)), multiset(Flatten(sids, results)), limit)
    requires forall n :: 0 <= n < |sids| ==> StreamPartlyShown(results[n], r, streams, sids[n], p, start, end, kept[n])
    requires forall n :: 0 <= n < |sids| ==> SurplusWhereLeft(results[n], r, streams, sids[n], p, start, end, kept[n])
    requires WantedAt(r, streams, ids, p, start, end, id, i) && !Kept(sids, kept, id, i)
    ensures CountEntries(results) == limit && NoneOlder(results, streams[id].entries[i].timestampNs)
  {
    hide NewestOf, AllMatches, Matches, Flatten, AllKnown, NoneOlder, ShowsEntry, Wanted, LabelsShown, LabelsOf, Surplus, Distinct;
    var t := streams[id].entries[i].timestampNs;
    var all := AllMatches(r, streams, ids, p, start, end);
    var e: ResolvedEntry;
    if n :| 0 <= n < |sids| && sids[n] == id {
      LabelsForShown(r, streams, id);
      e := SurplusEntry(results[n].entries, Matches(r, streams, id, p, start, end), t);
      FlattenCountEach(sids, results, (id, e));
    } else {
      e := WantedMatch(r, streams, ids, p, start, end, id, i);
      FlattenCountEach(sids, results, (id, e));
    }
    AllMatchesCount(r, streams, ids, p, start, end, (id, e));
    LeftOut(all, results, sids, limit, (id, e));
  }

  lemma SurplusEntry(xs: seq<ResolvedEntry>, ys: seq<ResolvedEntry>, t: int) returns (e: ResolvedEntry)
    requires Surplus(xs, ys, t)
    ensures When(e) == t && multiset(xs)[e] < multiset(ys)[e]
  {
    e :| e.timestampNs == t && multiset(xs)[e] < multiset(ys)[e];
  }
}
