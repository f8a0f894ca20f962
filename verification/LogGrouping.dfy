/**
  Preparing an OTLP logs request: one labelled entry per log record, and the
  grouping of entries that share an identical label vector.
 */
module LogGrouping {
  import opened Options
  import opened LabelIndexing
  import opened LabelIdentity
  import opened LogStore
  import opened StableSorting
  import opened StreamMaps
  import opened TraceIds

  /** A log record as sent; a zero time means "not set", an empty severity text "none". */
  datatype SentRecord = SentRecord(
    timeUnixNano: nat, severityNumber: int, severityText: string, line: string,
    traceId: Option<TraceId>, spanId: Option<SpanId>, attributes: seq<(string, LogAttribute)>)

  datatype ResourceLogs = ResourceLogs(labels: seq<Label>, scopes: seq<seq<SentRecord>>)

  /** A log entry together with the labels of the stream it is meant for. */
  datatype LogRecord = LogRecord(labels: seq<Label>, entry: LogEntry)

  /** Entries sharing one label vector. */
  datatype Batch = Batch(labels: seq<Label>, entries: seq<LogEntry>)

  // ------------------------------------------------------------------ preparing

  function SeverityToLevel(severityNumber: int): string {
    if 1 <= severityNumber <= 4 then "trace"
    else if 5 <= severityNumber <= 8 then "debug"
    else if 9 <= severityNumber <= 12 then "info"
    else if 13 <= severityNumber <= 16 then "warn"
    else if 17 <= severityNumber <= 20 then "error"
    else if 21 <= severityNumber <= 24 then "fatal"
    else "unknown"
  }

  function PositionOf(labels: seq<Label>, name: string): (r: Option<nat>)
    ensures r.Some? ==> r.value < |labels| && labels[r.value].0 == name
    ensures r.Some? ==> forall i :: 0 <= i < r.value ==> labels[i].0 != name
    ensures r.None? ==> forall i :: 0 <= i < |labels| ==> labels[i].0 != name
  {
    if labels == [] then None
    else if labels[0].0 == name then Some(0)
    else
      match PositionOf(labels[1..], name)
      case Some(i) => Some(i + 1)
      case None => None
  }

  function PromoteServiceName(labels: seq<Label>): seq<Label> {
    match PositionOf(labels, "service.name")
    case None => labels
    case Some(pos) =>
      var value := labels[pos].1;
      var others := labels[..pos] + labels[pos + 1..];
      match PositionOf(others, "service")
      case Some(i) => others[i := ("service", value)]
      case None => others + [("service", value)]
  }

  lemma {:induction false} ValuesOfAppend(a: seq<Label>, b: seq<Label>, name: string)
    ensures ValuesOf(a + b, name) == ValuesOf(a, name) + ValuesOf(b, name)
  {
    if a == [] {
      assert a + b == b;
    } else {
      assert (a + b)[0] == a[0] && (a + b)[1..] == a[1..] + b;
      ValuesOfAppend(a[1..], b, name);
    }
  }

  lemma {:induction false} NoValues(a: seq<Label>, name: string)
    requires forall i :: 0 <= i < |a| ==> a[i].0 != name
    ensures ValuesOf(a, name) == []
  {
    if a != [] { NoValues(a[1..], name); }
  }

  /** The values of every name around one position. */
  lemma ValuesAround(a: seq<Label>, pos: nat, name: string)
    requires pos < |a|
    ensures ValuesOf(a, name)
         == ValuesOf(a[..pos], name) + (if a[pos].0 == name then [a[pos].1] else []) + ValuesOf(a[pos + 1..], name)
  {
    assert a == a[..pos] + ([a[pos]] + a[pos + 1..]);
    ValuesOfAppend(a[..pos], [a[pos]] + a[pos + 1..], name);
    ValuesOfAppend([a[pos]], a[pos + 1..], name);
    assert [a[pos]][1..] == [];
  }

  /** Taking out the first pair of a name drops that name's first value and nothing else. */
  lemma ValuesRemoved(a: seq<Label>, pos: nat, name: string)
    requires pos < |a| && forall i :: 0 <= i < pos ==> a[i].0 != a[pos].0
    ensures ValuesOf(a, a[pos].0) != [] && ValuesOf(a, a[pos].0)[0] == a[pos].1
    ensures ValuesOf(a[..pos] + a[pos + 1..], name) == if name == a[pos].0 then ValuesOf(a, name)[1..] else ValuesOf(a, name)
  {
    NoValues(a[..pos], a[pos].0);
    ValuesAround(a, pos, a[pos].0);
    ValuesAround(a, pos, name);
    ValuesOfAppend(a[..pos], a[pos + 1..], name);
  }

  /** Overwriting the first pair of a name replaces that name's first value and nothing else. */
  lemma ValuesReplaced(a: seq<Label>, pos: nat, value: string, name: string)
    requires pos < |a| && forall i :: 0 <= i < pos ==> a[i].0 != a[pos].0
    ensures ValuesOf(a, a[pos].0) != []
    ensures ValuesOf(a[pos := (a[pos].0, value)], name)
         == if name == a[pos].0 then [value] + ValuesOf(a, name)[1..] else ValuesOf(a, name)
  {
    var put := a[pos := (a[pos].0, value)];
    assert put[..pos] == a[..pos] && put[pos + 1..] == a[pos + 1..];
    ValuesRemoved(a, pos, name);
    NoValues(a[..pos], a[pos].0);
    ValuesAround(a, pos, name);
    ValuesAround(put, pos, name);
  }

  /**
    Promotion moves the first `service.name` value to the front of the `service`
    values, replacing the first of them, and leaves every other name alone.
   */
  lemma PromotedValues(labels: seq<Label>, name: string)
    ensures var was, now := ValuesOf(labels, name), ValuesOf(PromoteServiceName(labels), name);
            var names, services := ValuesOf(labels, "service.name"), ValuesOf(labels, "service");
            now == if names == [] then was
                   else if name == "service.name" then was[1..]
                   else if name == "service" then [names[0]] + (if services == [] then [] else services[1..])
                   else was
  {
    hide ValuesOf;
    assert "service.name" != "service" by { assert |"service.name"| != |"service"|; }
    match PositionOf(labels, "service.name")
    case None =>
      NoValues(labels, "service.name");
    case Some(pos) =>
      var value, others := labels[pos].1, labels[..pos] + labels[pos + 1..];
      ValuesRemoved(labels, pos, name);
      ValuesRemoved(labels, pos, "service");
      match PositionOf(others, "service") {
        case Some(i) =>
          ValuesReplaced(others, i, value, name);
        case None =>
          NoValues(others, "service");
          ValuesOfAppend(others, [("service", value)], name);
          ValuesOfOne(("service", value), name);
      }
  }

  lemma ValuesOfOne(pair: Label, name: string)
    ensures ValuesOf([pair], name) == if pair.0 == name then [pair.1] else []
  {
    assert [pair][1..] == [];
  }

  /** The stored form of one record; `clock` tells the time when the record carries none. */
  function PrepareRecord(resource: seq<Label>, sent: SentRecord, ingestSeq: nat, clock: nat -> I64): LogRecord {
    LogRecord(
      resource + [("level", SeverityToLevel(sent.severityNumber))],
      LogEntry(if sent.timeUnixNano == 0 then clock(ingestSeq) else SaturatingI64(sent.timeUnixNano),
               sent.line, ingestSeq, sent.traceId, sent.spanId, sent.severityNumber,
               if sent.severityText == "" then None else Some(sent.severityText), sent.attributes))
  }

  function ScopeRecords(resource: seq<Label>, sent: seq<SentRecord>, next: nat, clock: nat -> I64): seq<LogRecord> {
    if sent == [] then []
    else
      var n := |sent| - 1;
      ScopeRecords(resource, sent[..n], next, clock) + [PrepareRecord(resource, sent[n], next + n, clock)]
  }

  function ResourceRecords(resource: seq<Label>, scopes: seq<seq<SentRecord>>, next: nat, clock: nat -> I64): seq<LogRecord> {
    if scopes == [] then []
    else
      var before := ResourceRecords(resource, scopes[..|scopes| - 1], next, clock);
      before + ScopeRecords(resource, scopes[|scopes| - 1], next + |before|, clock)
  }

  /** All records of a request in order, numbered from `next` on. */
  function RequestRecords(request: seq<ResourceLogs>, next: nat, clock: nat -> I64): seq<LogRecord> {
    if request == [] then []
    else
      var before := RequestRecords(request[..|request| - 1], next, clock);
      var last := request[|request| - 1];
      before + ResourceRecords(PromoteServiceName(last.labels), last.scopes, next + |before|, clock)
  }

  ghost predicate NumberedFrom(recs: seq<LogRecord>, next: nat) {
    forall i :: 0 <= i < |recs| ==> recs[i].entry.ingestSeq == next + i
  }

  lemma {:induction false} ScopeNumbered(resource: seq<Label>, sent: seq<SentRecord>, next: nat, clock: nat -> I64)
    ensures |ScopeRecords(resource, sent, next, clock)| == |sent|
    ensures NumberedFrom(ScopeRecords(resource, sent, next, clock), next)
  {
    if sent != [] { ScopeNumbered(resource, sent[..|sent| - 1], next, clock); }
  }

  lemma {:induction false} ResourceNumbered(resource: seq<Label>, scopes: seq<seq<SentRecord>>, next: nat, clock: nat -> I64)
    ensures NumberedFrom(ResourceRecords(resource, scopes, next, clock), next)
  {
    if scopes != [] {
      ResourceNumbered(resource, scopes[..|scopes| - 1], next, clock);
      var before := ResourceRecords(resource, scopes[..|scopes| - 1], next, clock);
      ScopeNumbered(resource, scopes[|scopes| - 1], next + |before|, clock);
    }
  }

  /** Sequence numbers are handed out one by one, in request order. */
  lemma {:induction false} RequestNumbered(request: seq<ResourceLogs>, next: nat, clock: nat -> I64)
    ensures NumberedFrom(RequestRecords(request, next, clock), next)
  {
    if request != [] {
      RequestNumbered(request[..|request| - 1], next, clock);
      var before, last := RequestRecords(request[..|request| - 1], next, clock), request[|request| - 1];
      ResourceNumbered(PromoteServiceName(last.labels), last.scopes, next + |before|, clock);
    }
  }

  // ------------------------------------------------------------------- grouping

  function BatchOf(groups: seq<Batch>, labels: seq<Label>): (r: Option<nat>)
    ensures r.Some? ==> r.value < |groups| && groups[r.value].labels == labels
    ensures r.None? ==> forall g :: 0 <= g < |groups| ==> groups[g].labels != labels
  {
    if groups == [] then None
    else if groups[0].labels == labels then Some(0)
    else
      match BatchOf(groups[1..], labels)
      case Some(i) => Some(i + 1)
      case None => None
  }

  /** One more record: into the batch with exactly its labels, or into a new last batch. */
  function AddRecord(groups: seq<Batch>, rec: LogRecord): seq<Batch> {
    match BatchOf(groups, rec.labels)
    case Some(g) => groups[g := Batch(rec.labels, groups[g].entries + [rec.entry])]
    case None => groups + [Batch(rec.labels, [rec.entry])]
  }

  function Grouped(recs: seq<LogRecord>): seq<Batch> {
    if recs == [] then [] else AddRecord(Grouped(recs[..|recs| - 1]), recs[|recs| - 1])
  }

  /** The lookup table from a label vector to its batch. */
  ghost predicate KeyIndexExact(groups: seq<Batch>, keyIndex: map<seq<Label>, nat>) {
    && (forall l :: l in keyIndex ==> keyIndex[l] < |groups| && groups[keyIndex[l]].labels == l)
    && (forall g :: 0 <= g < |groups| ==> groups[g].labels in keyIndex && keyIndex[groups[g].labels] == g)
  }

  /** Files the records of one scope behind those already `done`. */
  method GroupScope(groups: seq<Batch>, keyIndex: map<seq<Label>, nat>, ghost done: seq<LogRecord>,
                    resource: seq<Label>, sent: seq<SentRecord>, ingestSeq: nat, clock: nat -> I64)
    returns (groups': seq<Batch>, keyIndex': map<seq<Label>, nat>, ingestSeq': nat)
    requires groups == Grouped(done) && KeyIndexExact(groups, keyIndex)
    ensures groups' == Grouped(done + ScopeRecords(resource, sent, ingestSeq, clock)) && KeyIndexExact(groups', keyIndex')
    ensures ingestSeq' == ingestSeq + |ScopeRecords(resource, sent, ingestSeq, clock)|
  {
    hide KeyIndexExact, AddRecord, PrepareRecord;
    groups', keyIndex', ingestSeq' := groups, keyIndex, ingestSeq;
    assert done + [] == done;
    for k := 0 to |sent|
      invariant groups' == Grouped(done + ScopeRecords(resource, sent[..k], ingestSeq, clock)) && KeyIndexExact(groups', keyIndex')
      invariant ingestSeq' == ingestSeq + k
    {
      ghost var before := done + ScopeRecords(resource, sent[..k], ingestSeq, clock);
      assert sent[..k + 1][..k] == sent[..k];
      var rec := PrepareRecord(resource, sent[k], ingestSeq', clock);
      ingestSeq' := ingestSeq' + 1;
      groups', keyIndex' := FileRecord(groups', keyIndex', rec);
      assert (before + [rec])[..|before|] == before;
      assert before + [rec] == done + ScopeRecords(resource, sent[..k + 1], ingestSeq, clock);
    }
    assert sent[..|sent|] == sent;
    ScopeNumbered(resource, sent, ingestSeq, clock);
  }

  method GroupResource(groups: seq<Batch>, keyIndex: map<seq<Label>, nat>, ghost done: seq<LogRecord>,
                       resource: seq<Label>, scopes: seq<seq<SentRecord>>, ingestSeq: nat, clock: nat -> I64)
    returns (groups': seq<Batch>, keyIndex': map<seq<Label>, nat>, ingestSeq': nat)
    requires groups == Grouped(done) && KeyIndexExact(groups, keyIndex)
    ensures groups' == Grouped(done + ResourceRecords(resource, scopes, ingestSeq, clock)) && KeyIndexExact(groups', keyIndex')
    ensures ingestSeq' == ingestSeq + |ResourceRecords(resource, scopes, ingestSeq, clock)|
  {
    hide KeyIndexExact, Grouped, ScopeRecords;
    groups', keyIndex', ingestSeq' := groups, keyIndex, ingestSeq;
    assert done + [] == done;
    for j := 0 to |scopes|
      invariant groups' == Grouped(done + ResourceRecords(resource, scopes[..j], ingestSeq, clock)) && KeyIndexExact(groups', keyIndex')
      invariant ingestSeq' == ingestSeq + |ResourceRecords(resource, scopes[..j], ingestSeq, clock)|
    {
      ghost var before := ResourceRecords(resource, scopes[..j], ingestSeq, clock);
      assert scopes[..j + 1][..j] == scopes[..j];
      ghost var more := ScopeRecords(resource, scopes[j], ingestSeq', clock);
      groups', keyIndex', ingestSeq' := GroupScope(groups', keyIndex', done + before, resource, scopes[j], ingestSeq', clock);
      assert done + before + more == done + (before + more);
    }
    assert scopes[..|scopes|] == scopes;
  }

  /** Groups the records of a request, numbering them as they come. */
  method GroupRequest(request: seq<ResourceLogs>, ingestSeq: nat, clock: nat -> I64) returns (groups: seq<Batch>, ingestSeq': nat)
    ensures groups == Grouped(RequestRecords(request, ingestSeq, clock))
    ensures ingestSeq' == ingestSeq + |RequestRecords(request, ingestSeq, clock)|
  {
    hide Grouped, ResourceRecords, PromoteServiceName;
    groups, ingestSeq' := [], ingestSeq;
    var keyIndex: map<seq<Label>, nat> := map[];
    NothingGrouped();
    for i := 0 to |request|
      invariant groups == Grouped(RequestRecords(request[..i], ingestSeq, clock)) && KeyIndexExact(groups, keyIndex)
      invariant ingestSeq' == ingestSeq + |RequestRecords(request[..i], ingestSeq, clock)|
    {
      ghost var before := RequestRecords(request[..i], ingestSeq, clock);
      assert request[..i + 1][..i] == request[..i];
      var resource := PromoteServiceName(request[i].labels);
      groups, keyIndex, ingestSeq' := GroupResource(groups, keyIndex, before, resource, request[i].scopes, ingestSeq', clock);
    }
    assert request[..|request|] == request;
  }

  lemma NothingGrouped()
    ensures Grouped([]) == [] && KeyIndexExact([], map[])
  {
  }

  method FileRecord(groups: seq<Batch>, keyIndex: map<seq<Label>, nat>, rec: LogRecord)
    returns (groups': seq<Batch>, keyIndex': map<seq<Label>, nat>)
    requires KeyIndexExact(groups, keyIndex)
    ensures groups' == AddRecord(groups, rec) && KeyIndexExact(groups', keyIndex')
  {
    if rec.labels in keyIndex {
      var g := keyIndex[rec.labels];
      groups', keyIndex' := groups[g := Batch(rec.labels, groups[g].entries + [rec.entry])], keyIndex;
    } else {
      groups', keyIndex' := groups + [Batch(rec.labels, [rec.entry])], keyIndex[rec.labels := |groups|];
    }
  }

  // ------------------------------------------- what grouping does to the order

  /** Position of the first record with these labels; the length if there is none. */
  function FirstAt(recs: seq<LogRecord>, labels: seq<Label>): (n: nat)
    ensures n <= |recs|
    ensures n < |recs| ==> recs[n].labels == labels
    ensures forall i :: 0 <= i < n ==> recs[i].labels != labels
  {
    if recs == [] || recs[0].labels == labels then 0 else 1 + FirstAt(recs[1..], labels)
  }

  function Arrival(recs: seq<LogRecord>): LogRecord -> int {
    (rec: LogRecord) => FirstAt(recs, rec.labels)
  }

  function Labelled(b: Batch): (recs: seq<LogRecord>)
    ensures |recs| == |b.entries|
  {
    seq(|b.entries|, i requires 0 <= i < |b.entries| => LogRecord(b.labels, b.entries[i]))
  }

  function Flatten(groups: seq<Batch>): seq<LogRecord> {
    if groups == [] then [] else Flatten(groups[..|groups| - 1]) + Labelled(groups[|groups| - 1])
  }

  function HasVector(labels: seq<Label>): LogRecord -> bool {
    (rec: LogRecord) => rec.labels == labels
  }

  /** Each batch holds exactly the records of its vector, batches in order of first arrival. */
  ghost predicate GroupsOf(groups: seq<Batch>, recs: seq<LogRecord>) {
    && (forall g :: 0 <= g < |groups| ==> Labelled(groups[g]) == Filter(recs, HasVector(groups[g].labels)))
    && (forall g :: 0 <= g < |groups| ==> FirstAt(recs, groups[g].labels) < |recs|)
    && (forall g, h :: 0 <= g < h < |groups| ==> FirstAt(recs, groups[g].labels) < FirstAt(recs, groups[h].labels))
    && (forall i :: 0 <= i < |recs| ==> HasBatch(groups, recs[i].labels))
  }

  ghost predicate HasBatch(groups: seq<Batch>, labels: seq<Label>) {
    exists g :: 0 <= g < |groups| && groups[g].labels == labels
  }

  lemma {:induction false} FirstAtSnoc(recs: seq<LogRecord>, rec: LogRecord, labels: seq<Label>)
    ensures FirstAt(recs + [rec], labels)
         == if FirstAt(recs, labels) < |recs| then FirstAt(recs, labels)
            else if rec.labels == labels then |recs| else |recs| + 1
  {
    var all := recs + [rec];
    if recs == [] {
      assert all == [rec];
    } else {
      assert all[0] == recs[0] && all[1..] == recs[1..] + [rec];
      FirstAtSnoc(recs[1..], rec, labels);
    }
  }

  lemma FilterSnoc(recs: seq<LogRecord>, rec: LogRecord, labels: seq<Label>)
    ensures Filter(recs + [rec], HasVector(labels))
         == Filter(recs, HasVector(labels)) + (if rec.labels == labels then [rec] else [])
  {
    FilterAppend(recs, [rec], HasVector(labels));
    assert [rec][1..] == [];
  }

  lemma {:induction false} GroupedMeaning(recs: seq<LogRecord>)
    ensures GroupsOf(Grouped(recs), recs)
  {
    if recs != [] {
      var before, rec := recs[..|recs| - 1], recs[|recs| - 1];
      assert recs == before + [rec];
      GroupedMeaning(before);
      AddRecordKeeps(Grouped(before), before, rec);
    }
  }

  lemma {:induction false} FilterAbsent(recs: seq<LogRecord>, labels: seq<Label>)
    requires FirstAt(recs, labels) == |recs|
    ensures Filter(recs, HasVector(labels)) == []
  {
    if recs != [] { FilterAbsent(recs[1..], labels); }
  }

  /** What one more record does to an existing batch. */
  lemma AddToBatch(groups: seq<Batch>, recs: seq<LogRecord>, rec: LogRecord, g: nat)
    requires GroupsOf(groups, recs) && g < |groups|
    ensures var groups', all := AddRecord(groups, rec), recs + [rec];
            && |groups'| >= |groups| && groups'[g].labels == groups[g].labels
            && Labelled(groups'[g]) == Filter(all, HasVector(groups[g].labels))
            && FirstAt(all, groups[g].labels) == FirstAt(recs, groups[g].labels)
  {
    var labels := groups[g].labels;
    FilterSnoc(recs, rec, labels);
    FirstAtSnoc(recs, rec, labels);
    if rec.labels == labels {
      OneBatchEach(groups, recs, BatchOf(groups, labels).value, g);
      assert Labelled(Batch(labels, groups[g].entries + [rec.entry])) == Labelled(groups[g]) + [rec];
    }
  }

  /** A record with a new label vector opens the last batch. */
  lemma NewBatch(groups: seq<Batch>, recs: seq<LogRecord>, rec: LogRecord)
    requires GroupsOf(groups, recs) && BatchOf(groups, rec.labels).None?
    ensures Labelled(Batch(rec.labels, [rec.entry])) == Filter(recs + [rec], HasVector(rec.labels))
    ensures FirstAt(recs + [rec], rec.labels) == |recs|
  {
    FilterSnoc(recs, rec, rec.labels);
    FirstAtSnoc(recs, rec, rec.labels);
    assert !HasBatch(groups, rec.labels);
    FilterAbsent(recs, rec.labels);
    assert Labelled(Batch(rec.labels, [rec.entry])) == [rec];
  }

  lemma HasBatchKept(groups: seq<Batch>, rec: LogRecord, labels: seq<Label>)
    requires HasBatch(groups, labels) || labels == rec.labels
    ensures HasBatch(AddRecord(groups, rec), labels)
  {
    var groups' := AddRecord(groups, rec);
    if HasBatch(groups, labels) {
      var g :| 0 <= g < |groups| && groups[g].labels == labels;
      assert groups'[g].labels == labels;
    } else {
      assert groups'[|groups|].labels == labels;
    }
  }

  lemma AddRecordKeeps(groups: seq<Batch>, recs: seq<LogRecord>, rec: LogRecord)
    requires GroupsOf(groups, recs)
    ensures GroupsOf(AddRecord(groups, rec), recs + [rec])
  {
    hide Labelled, Filter, HasVector, HasBatch;
    var groups', all := AddRecord(groups, rec), recs + [rec];
    forall g | 0 <= g < |groups'|
      ensures Labelled(groups'[g]) == Filter(all, HasVector(groups'[g].labels))
      ensures FirstAt(all, groups'[g].labels) == if g < |groups| then FirstAt(recs, groups[g].labels) else |recs|
    {
      if g < |groups| { AddToBatch(groups, recs, rec, g); } else { NewBatch(groups, recs, rec); }
    }
    forall i | 0 <= i < |all| ensures HasBatch(groups', all[i].labels) {
      HasBatchKept(groups, rec, all[i].labels);
    }
  }

  lemma OneBatchEach(groups: seq<Batch>, recs: seq<LogRecord>, g: nat, h: nat)
    requires GroupsOf(groups, recs) && g < |groups| && h < |groups| && groups[g].labels == groups[h].labels
    ensures g == h
  {
  }

  // Flattened batches, arrival number by arrival number.

  lemma {:induction false} FlattenElement(groups: seq<Batch>, x: LogRecord)
    requires x in Flatten(groups)
    ensures HasBatch(groups, x.labels)
  {
    if groups != [] {
      var n := |groups| - 1;
      if x in Flatten(groups[..n]) {
        FlattenElement(groups[..n], x);
        var g :| 0 <= g < n && groups[..n][g].labels == x.labels;
        assert groups[g].labels == x.labels;
      } else {
        assert x in Labelled(groups[n]);
      }
    }
  }

  lemma {:induction false} LabelledByKey(xs: seq<LogRecord>, key: LogRecord -> int, k: int, at: int)
    requires forall i :: 0 <= i < |xs| ==> key(xs[i]) == at
    ensures KeyFilter(xs, key, k) == if k == at then xs else []
  {
    if xs != [] {
      LabelledByKey(xs[1..], key, k, at);
      assert xs == [xs[0]] + xs[1..];
    }
  }

  lemma LaterBatchArrives(groups: seq<Batch>, recs: seq<LogRecord>, m: nat, x: LogRecord)
    requires GroupsOf(groups, recs) && m < |groups| && x in Flatten(groups[..m])
    ensures FirstAt(recs, x.labels) < FirstAt(recs, groups[m].labels)
  {
    FlattenElement(groups[..m], x);
    var g :| 0 <= g < m && groups[..m][g].labels == x.labels;
    assert groups[g].labels == x.labels;
  }

  lemma SortedJoin<T>(xs: seq<T>, ys: seq<T>, key: T -> int, at: int)
    requires SortedBy(xs, key) && forall i :: 0 <= i < |xs| ==> key(xs[i]) <= at
    requires forall i :: 0 <= i < |ys| ==> key(ys[i]) == at
    ensures SortedBy(xs + ys, key)
  {
  }

  /** The first `n` batches laid end to end ascend in arrival. */
  lemma {:induction false} FlattenSorted(groups: seq<Batch>, recs: seq<LogRecord>, n: nat)
    requires GroupsOf(groups, recs) && n <= |groups|
    ensures SortedBy(Flatten(groups[..n]), Arrival(recs))
  {
    if n > 0 {
      hide GroupsOf;
      FlattenSorted(groups, recs, n - 1);
      assert groups[..n][..n - 1] == groups[..n - 1];
      var front, last, at := Flatten(groups[..n - 1]), Labelled(groups[n - 1]), FirstAt(recs, groups[n - 1].labels);
      forall i | 0 <= i < |front| ensures Arrival(recs)(front[i]) <= at {
        LaterBatchArrives(groups, recs, n - 1, front[i]);
      }
      SortedJoin(front, last, Arrival(recs), at);
    }
  }

  /** The records of one arrival number are those of at most one batch. */
  lemma {:induction false} FlattenByKey(groups: seq<Batch>, recs: seq<LogRecord>, n: nat, k: int)
    requires n <= |groups|
    ensures KeyFilter(Flatten(groups[..n]), Arrival(recs), k) == PiecesAt(groups[..n], recs, k)
  {
    if n > 0 {
      FlattenByKey(groups, recs, n - 1, k);
      assert groups[..n][..n - 1] == groups[..n - 1];
      KeyFilterAppend(Flatten(groups[..n - 1]), Labelled(groups[n - 1]), Arrival(recs), k);
      LabelledByKey(Labelled(groups[n - 1]), Arrival(recs), k, FirstAt(recs, groups[n - 1].labels));
    }
  }

  ghost function PiecesAt(groups: seq<Batch>, recs: seq<LogRecord>, k: int): seq<LogRecord> {
    if groups == [] then []
    else
      var n := |groups| - 1;
      PiecesAt(groups[..n], recs, k) + if FirstAt(recs, groups[n].labels) == k then Labelled(groups[n]) else []
  }

  ghost predicate ArrivesAt(groups: seq<Batch>, recs: seq<LogRecord>, g: nat, k: int) {
    g < |groups| && FirstAt(recs, groups[g].labels) == k
  }

  lemma {:induction false} PiecesOfNone(groups: seq<Batch>, recs: seq<LogRecord>, k: int)
    requires forall g :: !ArrivesAt(groups, recs, g, k)
    ensures PiecesAt(groups, recs, k) == []
  {
    if groups != [] {
      var n := |groups| - 1;
      assert forall g :: ArrivesAt(groups[..n], recs, g, k) ==> ArrivesAt(groups, recs, g, k);
      PiecesOfNone(groups[..n], recs, k);
      assert !ArrivesAt(groups, recs, n, k);
    }
  }

  lemma {:induction false} PiecesOfOne(groups: seq<Batch>, recs: seq<LogRecord>, g: nat, k: int)
    requires ArrivesAt(groups, recs, g, k) && forall h :: ArrivesAt(groups, recs, h, k) ==> h == g
    ensures PiecesAt(groups, recs, k) == Labelled(groups[g])
  {
    var n := |groups| - 1;
    assert forall h :: ArrivesAt(groups[..n], recs, h, k) ==> ArrivesAt(groups, recs, h, k);
    if g == n {
      PiecesOfNone(groups[..n], recs, k);
    } else {
      assert !ArrivesAt(groups, recs, n, k);
      PiecesOfOne(groups[..n], recs, g, k);
    }
  }

  lemma {:induction false} ArrivalIsVector(xs: seq<LogRecord>, recs: seq<LogRecord>, labels: seq<Label>)
    requires forall x :: x in xs ==> x in recs
    requires FirstAt(recs, labels) < |recs|
    ensures KeyFilter(xs, Arrival(recs), FirstAt(recs, labels)) == Filter(xs, HasVector(labels))
  {
    if xs != [] {
      ArrivalIsVector(xs[1..], recs, labels);
      assert xs[0] in recs;
      assert FirstAt(recs, xs[0].labels) == FirstAt(recs, labels) <==> xs[0].labels == labels;
    }
  }

  lemma {:induction false} NoSuchKey(xs: seq<LogRecord>, key: LogRecord -> int, k: int)
    requires forall i :: 0 <= i < |xs| ==> key(xs[i]) != k
    ensures KeyFilter(xs, key, k) == []
  {
    if xs != [] { NoSuchKey(xs[1..], key, k); }
  }

  /** Laid end to end, the batches are the records stably sorted by the first arrival of their labels. */
  lemma FlattenIsStableSort(recs: seq<LogRecord>)
    ensures Flatten(Grouped(recs)) == StableSort(recs, Arrival(recs))
  {
    var groups, key := Grouped(recs), Arrival(recs);
    GroupedMeaning(recs);
    FlattenSorted(groups, recs, |groups|);
    assert groups[..|groups|] == groups;
    StableSortSorts(recs, key);
    forall k ensures KeyFilter(Flatten(groups), key, k) == KeyFilter(recs, key, k) {
      FlattenByKey(groups, recs, |groups|, k);
      if g: nat :| ArrivesAt(groups, recs, g, k) {
        PiecesOfOne(groups, recs, g, k);
        ArrivalIsVector(recs, recs, groups[g].labels);
      } else {
        forall i | 0 <= i < |recs| ensures FirstAt(recs, recs[i].labels) != k {
          assert HasBatch(groups, recs[i].labels);
          var g :| 0 <= g < |groups| && groups[g].labels == recs[i].labels;
          assert !ArrivesAt(groups, recs, g, k);
        }
        PiecesOfNone(groups, recs, k);
        NoSuchKey(recs, key, k);
      }
    }
    forall k ensures KeyFilter(Flatten(groups), key, k) == KeyFilter(StableSort(recs, key), key, k) {
      assert KeyFilter(Flatten(groups), key, k) == KeyFilter(recs, key, k);
    }
    SortedUnique(Flatten(groups), StableSort(recs, key), key);
  }
}
