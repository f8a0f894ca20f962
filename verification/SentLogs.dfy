/** What a logs request sends, record by record, and what each record is stored as. */
module SentLogs {
  import opened LabelIdentity
  import opened LabelIndexing
  import opened LogGrouping
  import opened LogStore
  import opened Options
  import opened StreamMaps

  /** One record as sent, with the labels of its resource. */
  datatype SentLine = SentLine(resource: seq<Label>, sent: SentRecord)

  function LinesOf(resource: seq<Label>, sent: seq<SentRecord>): (lines: seq<SentLine>)
    ensures |lines| == |sent| && forall i :: 0 <= i < |sent| ==> lines[i] == SentLine(resource, sent[i])
  {
    seq(|sent|, i requires 0 <= i < |sent| => SentLine(resource, sent[i]))
  }

  function LinesOfScopes(resource: seq<Label>, scopes: seq<seq<SentRecord>>): seq<SentLine> {
    if scopes == [] then [] else LinesOfScopes(resource, scopes[..|scopes| - 1]) + LinesOf(resource, scopes[|scopes| - 1])
  }

  /** Everything a request sends, in order. */
  function SentLines(request: seq<ResourceLogs>): seq<SentLine> {
    if request == [] then []
    else SentLines(request[..|request| - 1]) + LinesOfScopes(request[|request| - 1].labels, request[|request| - 1].scopes)
  }

  /** The level a severity number stands for. */
  ghost predicate LevelIs(severity: int, level: string) {
    && (level == "trace" <==> 1 <= severity <= 4)
    && (level == "debug" <==> 5 <= severity <= 8)
    && (level == "info" <==> 9 <= severity <= 12)
    && (level == "warn" <==> 13 <= severity <= 16)
    && (level == "error" <==> 17 <= severity <= 20)
    && (level == "fatal" <==> 21 <= severity <= 24)
    && (level == "unknown" <==> severity < 1 || severity > 24)
  }

  /** The values a stream's labels give a name: those of the resource with its service name promoted, then the level. */
  ghost predicate LabelsFit(labels: seq<Label>, resource: seq<Label>, level: string) {
    forall name :: ValuesOf(labels, name) == PromotedTo(resource, name) + if name == "level" then [level] else []
  }

  /** The first `service.name` takes the place of the first `service`. */
  ghost function PromotedTo(resource: seq<Label>, name: string): seq<string> {
    var values, names := ValuesOf(resource, name), ValuesOf(resource, "service.name");
    if names == [] then values
    else if name == "service.name" then names[1..]
    else if name == "service" then [names[0]] + (if values == [] then [] else values[1..])
    else values
  }

  /** The entry holds what was sent; `now` is the time it gets if it was sent without one. */
  ghost predicate EntryFits(e: LogEntry, sent: SentRecord, n: nat, now: I64) {
    && e.line == sent.line && e.traceId == sent.traceId && e.spanId == sent.spanId
    && e.severityNumber == sent.severityNumber && e.attributes == sent.attributes && e.ingestSeq == n
    && (sent.severityText == "" ==> e.severityText.None?)
    && (sent.severityText != "" ==> e.severityText == Some(sent.severityText))
    && (sent.timeUnixNano == 0 ==> e.timestampNs == now)
    && (0 < sent.timeUnixNano <= 0x7FFF_FFFF_FFFF_FFFF ==> e.timestampNs == sent.timeUnixNano)
    && (sent.timeUnixNano > 0x7FFF_FFFF_FFFF_FFFF ==> e.timestampNs == 0x7FFF_FFFF_FFFF_FFFF)
  }

  ghost predicate RecordFits(rec: LogRecord, line: SentLine, n: nat, clock: nat -> I64) {
    && EntryFits(rec.entry, line.sent, n, clock(n))
    && exists level :: LevelIs(line.sent.severityNumber, level) && LabelsFit(rec.labels, line.resource, level)
  }

  ghost predicate AllFit(recs: seq<LogRecord>, lines: seq<SentLine>, next: nat, clock: nat -> I64) {
    |recs| == |lines| && forall k :: 0 <= k < |recs| ==> RecordFits(recs[k], lines[k], next + k, clock)
  }

  lemma AllFitAppend(xs: seq<LogRecord>, ys: seq<LogRecord>, a: seq<SentLine>, b: seq<SentLine>, next: nat, clock: nat -> I64)
    requires AllFit(xs, a, next, clock) && AllFit(ys, b, next + |xs|, clock)
    ensures AllFit(xs + ys, a + b, next, clock)
  {
  }

  lemma SeverityLevel(severity: int)
    ensures LevelIs(severity, SeverityToLevel(severity))
  {
    assert |"trace"| == 5 && |"debug"| == 5 && |"info"| == 4 && |"warn"| == 4 && |"error"| == 5 && |"fatal"| == 5 && |"unknown"| == 7;
    assert "trace"[0] == 't' && "debug"[0] == 'd' && "info"[0] == 'i' && "warn"[0] == 'w' && "error"[0] == 'e' && "fatal"[0] == 'f';
  }

  lemma PreparedFits(resource: seq<Label>, sent: SentRecord, n: nat, clock: nat -> I64)
    ensures RecordFits(PrepareRecord(PromoteServiceName(resource), sent, n, clock), SentLine(resource, sent), n, clock)
  {
    var rec := PrepareRecord(PromoteServiceName(resource), sent, n, clock);
    var level := SeverityToLevel(sent.severityNumber);
    SeverityLevel(sent.severityNumber);
    forall name ensures ValuesOf(rec.labels, name) == PromotedTo(resource, name) + if name == "level" then [level] else [] {
      PromotedValues(resource, name);
      ValuesOfAppend(PromoteServiceName(resource), [("level", level)], name);
      ValuesOfOne(("level", level), name);
    }
    assert LabelsFit(rec.labels, resource, level);
  }

  lemma {:induction false} ScopeFits(resource: seq<Label>, sent: seq<SentRecord>, next: nat, clock: nat -> I64)
    ensures AllFit(ScopeRecords(PromoteServiceName(resource), sent, next, clock), LinesOf(resource, sent), next, clock)
  {
    hide RecordFits, PrepareRecord, PromoteServiceName;
    if sent != [] {
      var n := |sent| - 1;
      ScopeFits(resource, sent[..n], next, clock);
      PreparedFits(resource, sent[n], next + n, clock);
      assert LinesOf(resource, sent) == LinesOf(resource, sent[..n]) + [SentLine(resource, sent[n])];
    }
  }

  lemma {:induction false} ResourceFits(resource: seq<Label>, scopes: seq<seq<SentRecord>>, next: nat, clock: nat -> I64)
    ensures AllFit(ResourceRecords(PromoteServiceName(resource), scopes, next, clock), LinesOfScopes(resource, scopes), next, clock)
  {
    hide RecordFits, PromoteServiceName;
    if scopes != [] {
      var before := ResourceRecords(PromoteServiceName(resource), scopes[..|scopes| - 1], next, clock);
      ResourceFits(resource, scopes[..|scopes| - 1], next, clock);
      ScopeFits(resource, scopes[|scopes| - 1], next + |before|, clock);
      AllFitAppend(before, ScopeRecords(PromoteServiceName(resource), scopes[|scopes| - 1], next + |before|, clock),
                   LinesOfScopes(resource, scopes[..|scopes| - 1]), LinesOf(resource, scopes[|scopes| - 1]), next, clock);
    }
  }

  /** Every record sent is prepared, in order, none twice, each as what was sent. */
  lemma {:induction false} RequestFits(request: seq<ResourceLogs>, next: nat, clock: nat -> I64)
    ensures AllFit(RequestRecords(request, next, clock), SentLines(request), next, clock)
  {
    hide RecordFits, PromoteServiceName;
    if request != [] {
      var front, last := request[..|request| - 1], request[|request| - 1];
      var before := RequestRecords(front, next, clock);
      RequestFits(front, next, clock);
      ResourceFits(last.labels, last.scopes, next + |before|, clock);
      AllFitAppend(before, ResourceRecords(PromoteServiceName(last.labels), last.scopes, next + |before|, clock),
                   SentLines(front), LinesOfScopes(last.labels, last.scopes), next, clock);
    }
  }
}
