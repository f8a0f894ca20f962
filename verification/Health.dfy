/**
  The global health overview gathers per-service facts in one pass per store;
  the activity summary of one service asks the indexes for its streams and
  traces.  Both see the same spans; they count the same error logs exactly when
  every non-empty error stream names only one service.
 */
module Health {
  import opened Enumeration
  import opened HealthScoring
  import opened Interning
  import opened LabelIndexing
  import opened LogStore
  import opened MapSums
  import opened MetricStore
  import opened Options
  import opened Positions
  import opened StreamMaps
  import opened TimeOrdered
  import opened TraceIds
  import opened TraceIndexing
  import opened TraceStore

  // --------------------------------------------------------------- log weights

  ghost predicate IsError(r: Interner, s: LogStream) {
    KnownSet(r, s.labels) && HasLabel(r, s.labels, "level", "error")
  }

  ghost predicate OfService(r: Interner, s: LogStream, service: string) {
    KnownSet(r, s.labels) && HasLabel(r, s.labels, "service", service)
  }

  /** The service a stream is credited to: the first value under `service`. */
  function FirstService(r: Interner, ls: LabelSet): Option<string>
    requires KnownSet(r, ls)
  {
    match r.Get("service")
    case None => None
    case Some(k) =>
      match FirstValue(ls, k)
      case None => None
      case Some(v) => if r.Knows(v) then Some(r.Resolve(v)) else None
  }

  predicate Keep(since: Option<nat>, ingestSeq: nat) {
    since.Some? ==> ingestSeq >= since.value
  }

  /** Number of entries ingested at or after `since`. */
  function KeptEntries(entries: seq<LogEntry>, since: Option<nat>): (n: nat)
    ensures n <= |entries| && (since.None? ==> n == |entries|)
  {
    if entries == [] then 0
    else KeptEntries(entries[..|entries| - 1], since) + if Keep(since, entries[|entries| - 1].ingestSeq) then 1 else 0
  }

  /** All entries of a service. */
  ghost function Logged(r: Interner, service: string, since: Option<nat>): LogStream -> nat {
    (s: LogStream) => if OfService(r, s, service) then KeptEntries(s.entries, since) else 0
  }

  /** Error entries of every stream that names the service. */
  ghost function AnyErrors(r: Interner, service: string, since: Option<nat>): LogStream -> nat {
    (s: LogStream) => if OfService(r, s, service) && IsError(r, s) then KeptEntries(s.entries, since) else 0
  }

  /** Error entries of every stream that is credited to the service. */
  ghost function FirstErrors(r: Interner, service: string): LogStream -> nat {
    (s: LogStream) => if IsError(r, s) && FirstService(r, s.labels) == Some(service) then |s.entries| else 0
  }

  // ------------------------------------------------------------- trace weights

  predicate Serves(r: Interner, spans: seq<Span>, service: string) {
    exists i :: 0 <= i < |spans| && r.Knows(spans[i].serviceName) && r.Resolve(spans[i].serviceName) == service
  }

  function KeptSpans(spans: seq<Span>, since: Option<nat>): (n: nat)
    ensures n <= |spans| && (since.None? ==> n == |spans|)
  {
    if spans == [] then 0
    else KeptSpans(spans[..|spans| - 1], since) + if Keep(since, spans[|spans| - 1].ingestSeq) then 1 else 0
  }

  function KeptErrors(spans: seq<Span>, since: Option<nat>): (n: nat)
    ensures n <= KeptSpans(spans, since)
  {
    if spans == [] then 0
    else
      var last := spans[|spans| - 1];
      KeptErrors(spans[..|spans| - 1], since) + if Keep(since, last.ingestSeq) && last.status == SpanStatus.Error then 1 else 0
  }

  /** A service is credited with every span of every trace it appears in. */
  ghost function SpanWeight(r: Interner, service: string, since: Option<nat>): seq<Span> -> nat {
    (spans: seq<Span>) => if Serves(r, spans, service) then KeptSpans(spans, since) else 0
  }

  ghost function ErrorWeight(r: Interner, service: string, since: Option<nat>): seq<Span> -> nat {
    (spans: seq<Span>) => if Serves(r, spans, service) then KeptErrors(spans, since) else 0
  }

  ghost function FailingWeight(r: Interner, service: string, since: Option<nat>): seq<Span> -> nat {
    (spans: seq<Span>) => if Serves(r, spans, service) && KeptErrors(spans, since) > 0 then 1 else 0
  }

  ghost function ActiveWeight(r: Interner, service: string, since: Option<nat>): seq<Span> -> nat {
    (spans: seq<Span>) => if Serves(r, spans, service) && KeptSpans(spans, since) > 0 then 1 else 0
  }

  // --------------------------------------------------------------------- facts

  datatype SpanFacts = SpanFacts(spans: nat, errors: nat, failing: nat)

  /** What is known about a service's traces. */
  ghost function SpanFactsOf(r: Interner, traces: Traces, service: string, since: Option<nat>): SpanFacts {
    SpanFacts(Tally(traces, SpanWeight(r, service, since)), Tally(traces, ErrorWeight(r, service, since)),
              Tally(traces, FailingWeight(r, service, since)))
  }

  datatype TopIssue = ErrorLogs(n: nat) | FailingTraces(n: nat) | NoIssues

  datatype ServiceHealth = ServiceHealth(service: string, score: real, issue: TopIssue)

  datatype Activity = Activity(service: string, score: real, errorLogs: nat, logs: nat, failingTraces: nat, traces: nat)

  function HealthOf(service: string, errorLogs: nat, f: SpanFacts): ServiceHealth {
    ServiceHealth(service, HealthScore(errorLogs, f.spans, f.errors),
                  if errorLogs > 0 then ErrorLogs(errorLogs)
                  else if f.failing > 0 then FailingTraces(f.failing)
                  else NoIssues)
  }

  /** What the overview reports about a service. */
  ghost function PassHealth(lr: Interner, streams: LogStreams, tr: Interner, traces: Traces, service: string): ServiceHealth {
    HealthOf(service, Tally(streams, FirstErrors(lr, service)), SpanFactsOf(tr, traces, service, None))
  }

  /** What the summary of one service reports. */
  ghost function ActivityOf(lr: Interner, streams: LogStreams, tr: Interner, traces: Traces, service: string, since: Option<nat>): Activity {
    var errorLogs, f := Tally(streams, AnyErrors(lr, service, since)), SpanFactsOf(tr, traces, service, since);
    Activity(service, HealthScore(errorLogs, f.spans, f.errors), errorLogs, Tally(streams, Logged(lr, service, since)),
             f.failing, Tally(traces, ActiveWeight(tr, service, since)))
  }

  /** The overview's line for a service, read off its summary. */
  function HealthFromActivity(a: Activity): ServiceHealth {
    ServiceHealth(a.service, a.score,
                  if a.errorLogs > 0 then ErrorLogs(a.errorLogs)
                  else if a.failingTraces > 0 then FailingTraces(a.failingTraces)
                  else NoIssues)
  }

  /** What a line of the overview says, given the service's error logs and span facts. */
  ghost predicate LineSays(line: ServiceHealth, errorLogs: nat, f: SpanFacts) {
    && f.errors <= f.spans && ScoreIs(line.score, errorLogs, f.spans, f.errors)
    && (errorLogs > 0 ==> line.issue == ErrorLogs(errorLogs))
    && (errorLogs == 0 && f.failing > 0 ==> line.issue == FailingTraces(f.failing))
    && (errorLogs == 0 && f.failing == 0 ==> line.issue == NoIssues)
  }

  lemma ErrorsAmongSpans(r: Interner, traces: Traces, service: string, since: Option<nat>)
    ensures SpanFactsOf(r, traces, service, since).errors <= SpanFactsOf(r, traces, service, since).spans
  {
    TallyAtMost(traces, ErrorWeight(r, service, since), SpanWeight(r, service, since));
  }

  lemma OverviewLine(lr: Interner, streams: LogStreams, tr: Interner, traces: Traces, service: string)
    ensures LineSays(PassHealth(lr, streams, tr, traces, service), Tally(streams, FirstErrors(lr, service)), SpanFactsOf(tr, traces, service, None))
  {
    var e, f := Tally(streams, FirstErrors(lr, service)), SpanFactsOf(tr, traces, service, None);
    ErrorsAmongSpans(tr, traces, service, None);
    ScoreFormula(e, f.spans, f.errors);
  }

  /** Of two lines the one with more errors of either kind stands first, unless the difference does not count. */
  lemma WorstFirst(services: seq<ServiceHealth>, i: nat, j: nat, e: nat, f: SpanFacts, e': nat, f': SpanFacts)
    requires ByScore(services) && i < |services| && j < |services|
    requires LineSays(services[i], e, f) && LineSays(services[j], e', f')
    requires e <= e' && ShareAtMost(f.errors, f.spans, f'.errors, f'.spans)
    ensures services[j].score <= services[i].score
    ensures (e < e' && e < 40) || !ShareAtMost(f'.errors, f'.spans, f.errors, f.spans) ==> j < i
  {
    MoreErrorsScoreWorse(services[i].score, services[j].score, e, f.spans, f.errors, e', f'.spans, f'.errors);
  }

  // ---------------------------------------------------- what is in scope of a token

  /** The entries counted are those ingested at or after the token, all without one. */
  lemma {:induction false} KeptEntriesAre(entries: seq<LogEntry>, since: Option<nat>) returns (at: seq<nat>)
    ensures PositionsOf(entries, (e: LogEntry) => since.Some? ==> since.value <= e.ingestSeq, at) && |at| == KeptEntries(entries, since)
  {
    hide PositionsOf;
    var test := (e: LogEntry) => since.Some? ==> since.value <= e.ingestSeq;
    if entries == [] {
      PositionsInNothing(test);
      at := [];
    } else {
      var n := |entries| - 1;
      var front := KeptEntriesAre(entries[..n], since);
      PositionsSnoc(entries[..n], entries[n], test, front);
      assert entries == entries[..n] + [entries[n]];
      at := front + if test(entries[n]) then [n] else [];
    }
  }

  /** So are the spans counted. */
  lemma {:induction false} KeptSpansAre(spans: seq<Span>, since: Option<nat>) returns (at: seq<nat>)
    ensures PositionsOf(spans, (s: Span) => since.Some? ==> since.value <= s.ingestSeq, at) && |at| == KeptSpans(spans, since)
  {
    hide PositionsOf;
    var test := (s: Span) => since.Some? ==> since.value <= s.ingestSeq;
    if spans == [] {
      PositionsInNothing(test);
      at := [];
    } else {
      var n := |spans| - 1;
      var front := KeptSpansAre(spans[..n], since);
      PositionsSnoc(spans[..n], spans[n], test, front);
      assert spans == spans[..n] + [spans[n]];
      at := front + if test(spans[n]) then [n] else [];
    }
  }

  /** The error spans are those among them with status error. */
  lemma {:induction false} KeptErrorsAre(spans: seq<Span>, since: Option<nat>) returns (at: seq<nat>)
    ensures PositionsOf(spans, (s: Span) => (since.Some? ==> since.value <= s.ingestSeq) && s.status == SpanStatus.Error, at)
    ensures |at| == KeptErrors(spans, since)
  {
    hide PositionsOf;
    var test := (s: Span) => (since.Some? ==> since.value <= s.ingestSeq) && s.status == SpanStatus.Error;
    if spans == [] {
      PositionsInNothing(test);
      at := [];
    } else {
      var n := |spans| - 1;
      var front := KeptErrorsAre(spans[..n], since);
      PositionsSnoc(spans[..n], spans[n], test, front);
      assert spans == spans[..n] + [spans[n]];
      at := front + if test(spans[n]) then [n] else [];
    }
  }

  /** A span in scope of the token. */
  ghost predicate InScope(s: Span, since: Option<nat>) {
    since.Some? ==> since.value <= s.ingestSeq
  }

  /** The traces of a service with an error span in scope. */
  ghost function TracesWithError(r: Interner, traces: Traces, service: string, since: Option<nat>): set<TraceId> {
    set t | t in traces && Serves(r, traces[t], service)
      && exists i :: 0 <= i < |traces[t]| && InScope(traces[t][i], since) && traces[t][i].status == SpanStatus.Error
  }

  /** The traces of a service with any span in scope. */
  ghost function TracesInScope(r: Interner, traces: Traces, service: string, since: Option<nat>): set<TraceId> {
    set t | t in traces && Serves(r, traces[t], service) && exists i :: 0 <= i < |traces[t]| && InScope(traces[t][i], since)
  }

  /** These are the failing and the active traces counted. */
  lemma TracesCounted(r: Interner, traces: Traces, service: string, since: Option<nat>)
    ensures SpanFactsOf(r, traces, service, since).failing == |TracesWithError(r, traces, service, since)|
    ensures Tally(traces, ActiveWeight(r, service, since)) == |TracesInScope(r, traces, service, since)|
  {
    hide Serves, Tally, KeptErrors, KeptSpans;
    var failing, active := FailingWeight(r, service, since), ActiveWeight(r, service, since);
    TallyCounts(traces, failing);
    TallyCounts(traces, active);
    forall t | t in traces
      ensures failing(traces[t]) == 1 <==> t in TracesWithError(r, traces, service, since)
      ensures active(traces[t]) == 1 <==> t in TracesInScope(r, traces, service, since)
    {
      SomeKept(traces[t], since);
    }
    assert Ones(traces, failing) == TracesWithError(r, traces, service, since);
    assert Ones(traces, active) == TracesInScope(r, traces, service, since);
  }

  lemma SomeKept(spans: seq<Span>, since: Option<nat>)
    ensures KeptErrors(spans, since) > 0 <==> exists i :: 0 <= i < |spans| && InScope(spans[i], since) && spans[i].status == SpanStatus.Error
    ensures KeptSpans(spans, since) > 0 <==> exists i :: 0 <= i < |spans| && InScope(spans[i], since)
  {
    hide KeptErrors, KeptSpans;
    var errors := KeptErrorsAre(spans, since);
    var kept := KeptSpansAre(spans, since);
    assert |errors| > 0 ==> InScope(spans[errors[0]], since);
    assert |kept| > 0 ==> InScope(spans[kept[0]], since);
  }

  /** A stream is credited to the text of its first `service` label. */
  lemma FirstServiceIsFirst(r: Interner, ls: LabelSet)
    requires r.Valid() && KnownSet(r, ls)
    ensures FirstService(r, ls).Some? <==> exists i :: 0 <= i < |ls| && r.Resolve(ls[i].0) == "service"
    ensures forall i :: 0 <= i < |ls| && r.Resolve(ls[i].0) == "service" && (forall j :: 0 <= j < i ==> r.Resolve(ls[j].0) != "service") ==>
      FirstService(r, ls) == Some(r.Resolve(ls[i].1))
  {
    forall i | 0 <= i < |ls| ensures r.Resolve(ls[i].0) == "service" <==> r.Get("service") == Some(ls[i].0) { r.GetResolve(ls[i].0, "service"); }
    if r.Get("service").Some? { FirstValueFound(ls, r.Get("service").value); FirstValueIsFirst(ls, r.Get("service").value); }
  }

  lemma {:induction false} FirstValueIsFirst(ls: LabelSet, k: Spur)
    ensures forall i :: 0 <= i < |ls| && ls[i].0 == k && (forall j :: 0 <= j < i ==> ls[j].0 != k) ==> FirstValue(ls, k) == Some(ls[i].1)
  {
    if ls != [] && ls[0].0 != k {
      FirstValueIsFirst(ls[1..], k);
      forall i | 0 <= i < |ls| && ls[i].0 == k && (forall j :: 0 <= j < i ==> ls[j].0 != k) ensures FirstValue(ls, k) == Some(ls[i].1) {
        assert ls[1..][i - 1] == ls[i];
        assert forall j :: 0 <= j < i - 1 ==> ls[1..][j] == ls[j + 1];
      }
    }
  }

  // ------------------------------------------------------- overview = summaries

  /** A stream names no service besides the one it is credited to. */
  ghost predicate NamesOneService(r: Interner, s: LogStream) {
    forall service :: OfService(r, s, service) ==> FirstService(r, s.labels) == Some(service)
  }

  ghost predicate ErrorStreamsNameOneService(r: Interner, streams: LogStreams) {
    forall id :: id in streams && IsError(r, streams[id]) && streams[id].entries != [] ==> NamesOneService(r, streams[id])
  }

  lemma {:induction false} FirstValueFound(ls: LabelSet, k: Spur)
    ensures FirstValue(ls, k).Some? ==> exists i :: 0 <= i < |ls| && ls[i] == (k, FirstValue(ls, k).value)
    ensures FirstValue(ls, k).None? ==> forall i :: 0 <= i < |ls| ==> ls[i].0 != k
  {
    if ls != [] && ls[0].0 != k {
      FirstValueFound(ls[1..], k);
      if FirstValue(ls, k).Some? {
        var i :| 0 <= i < |ls| - 1 && ls[1..][i] == (k, FirstValue(ls, k).value);
        assert ls[i + 1] == (k, FirstValue(ls, k).value);
      }
    }
  }

  lemma CreditedIsNamed(r: Interner, s: LogStream, service: string)
    requires r.Valid() && KnownSet(r, s.labels) && FirstService(r, s.labels) == Some(service)
    ensures OfService(r, s, service)
  {
    var k := r.Get("service").value;
    FirstValueFound(s.labels, k);
    var i :| 0 <= i < |s.labels| && s.labels[i] == (k, FirstValue(s.labels, k).value);
    assert r.Resolve(s.labels[i].0) == "service" && r.Resolve(s.labels[i].1) == service;
  }

  /** If the service is named by an error stream with entries, the stream is credited to it. */
  ghost predicate CreditedIfNamed(r: Interner, s: LogStream, service: string) {
    IsError(r, s) && s.entries != [] && OfService(r, s, service) ==> FirstService(r, s.labels) == Some(service)
  }

  lemma FirstErrorsAtMostAny(r: Interner, s: LogStream, service: string)
    requires r.Valid() && KnownSet(r, s.labels)
    ensures FirstErrors(r, service)(s) <= AnyErrors(r, service, None)(s)
    ensures FirstErrors(r, service)(s) == AnyErrors(r, service, None)(s) <==> CreditedIfNamed(r, s, service)
  {
    if FirstService(r, s.labels) == Some(service) { CreditedIsNamed(r, s, service); }
  }

  lemma StreamsKnown(r: Interner, streams: LogStreams)
    requires AllKnown(r, LabelsOf(streams))
    ensures forall id :: id in streams ==> KnownSet(r, streams[id].labels)
  {
    forall id | id in streams ensures KnownSet(r, streams[id].labels) { assert KnownSet(r, LabelsOf(streams)[id]); }
  }

  /** For one service both counts agree iff no error stream naming it is credited elsewhere. */
  lemma ErrorLogsAgreeIff(r: Interner, streams: LogStreams, service: string)
    requires r.Valid() && AllKnown(r, LabelsOf(streams))
    ensures Tally(streams, FirstErrors(r, service)) <= Tally(streams, AnyErrors(r, service, None))
    ensures Tally(streams, FirstErrors(r, service)) == Tally(streams, AnyErrors(r, service, None))
       <==> forall id :: id in streams ==> CreditedIfNamed(r, streams[id], service)
  {
    StreamsKnown(r, streams);
    var first, any := FirstErrors(r, service), AnyErrors(r, service, None);
    forall id | id in streams
      ensures first(streams[id]) <= any(streams[id])
      ensures first(streams[id]) == any(streams[id]) <==> CreditedIfNamed(r, streams[id], service)
    {
      FirstErrorsAtMostAny(r, streams[id], service);
    }
    TallyAtMost(streams, first, any);
  }

  /** The overview reports what the summaries report iff each non-empty error stream names one service. */
  lemma OverviewMatchesSummariesIff(lr: Interner, streams: LogStreams, tr: Interner, traces: Traces)
    requires lr.Valid() && AllKnown(lr, LabelsOf(streams))
    ensures (forall service :: OverviewMatches(lr, streams, tr, traces, service)) <==> ErrorStreamsNameOneService(lr, streams)
  {
    StreamsKnown(lr, streams);
    forall service
      ensures OverviewMatches(lr, streams, tr, traces, service) <==> forall id :: id in streams ==> CreditedIfNamed(lr, streams[id], service)
    {
      ErrorLogsAgreeIff(lr, streams, service);
    }
    if ErrorStreamsNameOneService(lr, streams) {
      forall service, id | id in streams ensures CreditedIfNamed(lr, streams[id], service) {}
    }
    if forall service :: OverviewMatches(lr, streams, tr, traces, service) {
      forall id | id in streams && IsError(lr, streams[id]) && streams[id].entries != [] ensures NamesOneService(lr, streams[id]) {
        forall service | OfService(lr, streams[id], service) ensures FirstService(lr, streams[id].labels) == Some(service) {
          assert OverviewMatches(lr, streams, tr, traces, service);
          assert CreditedIfNamed(lr, streams[id], service);
        }
      }
    }
  }

  ghost predicate OverviewMatches(lr: Interner, streams: LogStreams, tr: Interner, traces: Traces, service: string) {
    PassHealth(lr, streams, tr, traces, service) == HealthFromActivity(ActivityOf(lr, streams, tr, traces, service, None))
  }

  // One error stream carrying two services; it is credited to the first.
  const TwoServices := Interner(["service", "a", "b", "level", "error"])
  const Shared: LogStreams := map[0 := Stream([(0, 1), (0, 2), (3, 4)], [LogEntry(0, "", 0, None, None, 0, None, [])])]

  lemma TwoServicesDistinct()
    ensures TwoServices.Valid()
    ensures TwoServices.Get("service") == Some(0)
  {
    var names := TwoServices.strings;
    assert |names[0]| == 7 && |names[1]| == 1 && |names[2]| == 1 && |names[3]| == 5 && |names[4]| == 5;
    assert names[1][0] != names[2][0] && names[3][0] != names[4][0];
    TwoServices.GetResolve(0, "service");
  }

  lemma SharedNotCredited()
    ensures !CreditedIfNamed(TwoServices, Shared[0], "b")
  {
    hide Interner.Get;
    var r, s := TwoServices, Shared[0];
    TwoServicesDistinct();
    assert r.Resolve(s.labels[1].0) == "service" && r.Resolve(s.labels[1].1) == "b";
    assert r.Resolve(s.labels[2].0) == "level" && r.Resolve(s.labels[2].1) == "error";
    assert FirstService(r, s.labels) == Some("a");
    assert "a"[0] != "b"[0];
  }

  /** A second `service` label does make the two disagree. */
  lemma SecondServiceIsOverlooked(tr: Interner, traces: Traces)
    ensures TwoServices.Valid() && AllKnown(TwoServices, LabelsOf(Shared))
    ensures !OverviewMatches(TwoServices, Shared, tr, traces, "b")
  {
    hide CreditedIfNamed, HealthScore, Tally, SpanFactsOf, Interner.Valid;
    TwoServicesDistinct();
    SharedNotCredited();
    ErrorLogsAgreeIff(TwoServices, Shared, "b");
  }

  // ----------------------------------------------------------- the single pass

  function Found<V>(m: map<string, V>, name: string, none: V): V {
    if name in m then m[name] else none
  }

  /** Credits the entries of an error stream to its first service. */
  method CreditStream(r: Interner, logErrors: map<string, nat>, stream: LogStream) returns (logErrors': map<string, nat>)
    requires r.Valid() && KnownSet(r, stream.labels)
    ensures forall service :: Found(logErrors', service, 0) == Found(logErrors, service, 0) + FirstErrors(r, service)(stream)
  {
    logErrors' := logErrors;
    var serviceKey, levelKey, errorValue := r.Get("service"), r.Get("level"), r.Get("error");
    HasLabelIff(r, stream.labels, "level", "error");
    hide HasLabel;
    if serviceKey.None? { return; }
    FirstValueFound(stream.labels, serviceKey.value);
    var service := FirstValue(stream.labels, serviceKey.value);
    if service.Some? && levelKey.Some? && errorValue.Some? && (levelKey.value, errorValue.value) in stream.labels {
      var name := r.Resolve(service.value);
      logErrors' := logErrors[name := Found(logErrors, name, 0) + |stream.entries|];
    }
  }

  /** Error entries by the service each stream is credited to. */
  method CountLogErrors(r: Interner, streams: LogStreams) returns (logErrors: map<string, nat>)
    requires r.Valid() && AllKnown(r, LabelsOf(streams))
    ensures forall service :: Found(logErrors, service, 0) == Tally(streams, FirstErrors(r, service))
  {
    hide FirstErrors, Tally;
    logErrors := map[];
    StreamsKnown(r, streams);
    ghost var done: set<nat> := {};
    forall service { TallyNothing(streams, FirstErrors(r, service)); }
    var todo := streams.Keys;
    while todo != {}
      invariant done + todo == streams.Keys && done !! todo
      invariant forall service :: Found(logErrors, service, 0) == Tally(Restrict(streams, done), FirstErrors(r, service))
      decreases todo
    {
      var id :| id in todo;
      forall service { TallyNext(streams, done, id, FirstErrors(r, service)); }
      logErrors := CreditStream(r, logErrors, streams[id]);
      done := done + {id};
      todo := todo - {id};
    }
    assert Restrict(streams, done) == streams;
  }

  function StatsOf(stats: map<string, SpanFacts>, service: string): SpanFacts {
    Found(stats, service, SpanFacts(0, 0, 0))
  }

  function Plus(a: SpanFacts, b: SpanFacts): SpanFacts {
    SpanFacts(a.spans + b.spans, a.errors + b.errors, a.failing + b.failing)
  }

  /** What one trace adds to every service it serves. */
  function TraceFacts(spans: seq<Span>, since: Option<nat>): SpanFacts {
    SpanFacts(KeptSpans(spans, since), KeptErrors(spans, since), if KeptErrors(spans, since) > 0 then 1 else 0)
  }

  function Credited(had: SpanFacts, spans: seq<Span>, serves: bool): SpanFacts {
    if serves then Plus(had, TraceFacts(spans, None)) else had
  }

  method CountErrors(spans: seq<Span>) returns (errors: nat)
    ensures errors == KeptErrors(spans, None)
  {
    errors := 0;
    for i := 0 to |spans|
      invariant errors == KeptErrors(spans[..i], None)
    {
      assert spans[..i + 1][..i] == spans[..i];
      if spans[i].status == SpanStatus.Error { errors := errors + 1; }
    }
    assert spans[..|spans|] == spans;
  }

  lemma ServesByName(r: Interner, spans: seq<Span>, name: Spur)
    requires r.Valid() && r.Knows(name)
    ensures Serves(r, spans, r.Resolve(name)) <==> SomeSpan(spans, ServiceOf, name)
  {
    if Serves(r, spans, r.Resolve(name)) {
      var i :| 0 <= i < |spans| && r.Knows(spans[i].serviceName) && r.Resolve(spans[i].serviceName) == r.Resolve(name);
      assert ServiceOf(spans[i]) == name;
    }
    if SomeSpan(spans, ServiceOf, name) {
      var i :| 0 <= i < |spans| && ServiceOf(spans[i]) == name;
      assert r.Resolve(spans[i].serviceName) == r.Resolve(name);
    }
  }

  /** Credits one trace to each of its distinct services once. */
  method CreditTrace(r: Interner, stats: map<string, SpanFacts>, spans: seq<Span>) returns (stats': map<string, SpanFacts>)
    requires r.Valid() && forall i :: 0 <= i < |spans| ==> r.Knows(spans[i].serviceName)
    ensures forall service :: StatsOf(stats', service) == Credited(StatsOf(stats, service), spans, Serves(r, spans, service))
  {
    var errors := CountErrors(spans);
    var services := set i | 0 <= i < |spans| :: spans[i].serviceName;
    stats' := stats;
    var todo := services;
    while todo != {}
      invariant todo <= services
      invariant forall service :: StatsOf(stats', service) == Credited(StatsOf(stats, service), spans, Among(r, services - todo, service))
      decreases todo
    {
      var spur :| spur in todo;
      var name := r.Resolve(spur);
      forall service ensures Among(r, services - (todo - {spur}), service) <==> Among(r, services - todo, service) || service == name {
        AmongNext(r, services - todo, spur, service);
        assert services - (todo - {spur}) == (services - todo) + {spur};
      }
      assert !Among(r, services - todo, name);
      var had := StatsOf(stats', name);
      stats' := stats'[name := Plus(had, SpanFacts(|spans|, errors, if errors > 0 then 1 else 0))];
      todo := todo - {spur};
    }
    forall service ensures Among(r, services - todo, service) <==> Serves(r, spans, service) {
      if Serves(r, spans, service) {
        var i :| 0 <= i < |spans| && r.Knows(spans[i].serviceName) && r.Resolve(spans[i].serviceName) == service;
        assert spans[i].serviceName in services - todo;
      }
    }
  }

  predicate Among(r: Interner, names: set<Spur>, service: string) {
    exists spur :: spur in names && r.Knows(spur) && r.Resolve(spur) == service
  }

  lemma AmongNext(r: Interner, names: set<Spur>, spur: Spur, service: string)
    requires r.Knows(spur)
    ensures Among(r, names + {spur}, service) <==> Among(r, names, service) || service == r.Resolve(spur)
  {
    assert spur in names + {spur};
    if Among(r, names, service) {
      var other :| other in names && r.Knows(other) && r.Resolve(other) == service;
      assert other in names + {spur};
    }
  }

  method CountSpans(r: Interner, traces: Traces) returns (stats: map<string, SpanFacts>)
    requires r.Valid() && WellFiled(r, traces)
    ensures forall service :: StatsOf(stats, service) == SpanFactsOf(r, traces, service, None)
  {
    stats := map[];
    ghost var done: set<TraceId> := {};
    forall service { NoSpanFacts(r, traces, service, None); }
    var todo := traces.Keys;
    while todo != {}
      invariant done + todo == traces.Keys && done !! todo
      invariant forall service :: StatsOf(stats, service) == SpanFactsOf(r, Restrict(traces, done), service, None)
      decreases todo
    {
      var t :| t in todo;
      forall i | 0 <= i < |traces[t]| ensures r.Knows(traces[t][i].serviceName) { assert SpanKnown(r, traces[t][i]); }
      forall service { NextSpanFacts(r, traces, done, t, service, None); }
      stats := CreditTrace(r, stats, traces[t]);
      done := done + {t};
      todo := todo - {t};
    }
    assert Restrict(traces, done) == traces;
  }

  lemma NoSpanFacts(r: Interner, traces: Traces, service: string, since: Option<nat>)
    ensures SpanFactsOf(r, Restrict(traces, {}), service, since) == SpanFacts(0, 0, 0)
  {
    TallyNothing(traces, SpanWeight(r, service, since));
    TallyNothing(traces, ErrorWeight(r, service, since));
    TallyNothing(traces, FailingWeight(r, service, since));
  }

  lemma NextSpanFacts(r: Interner, traces: Traces, done: set<TraceId>, t: TraceId, service: string, since: Option<nat>)
    requires t in traces && t !in done
    ensures SpanFactsOf(r, Restrict(traces, done + {t}), service, since)
         == if Serves(r, traces[t], service) then Plus(SpanFactsOf(r, Restrict(traces, done), service, since), TraceFacts(traces[t], since))
            else SpanFactsOf(r, Restrict(traces, done), service, since)
  {
    hide Tally;
    TallyNext(traces, done, t, SpanWeight(r, service, since));
    TallyNext(traces, done, t, ErrorWeight(r, service, since));
    TallyNext(traces, done, t, FailingWeight(r, service, since));
  }

  predicate ByScore(xs: seq<ServiceHealth>) {
    forall i, j :: 0 <= i < j < |xs| ==> xs[i].score <= xs[j].score
  }

  /** Places one line behind those with at most its score. */
  function Ranked(xs: seq<ServiceHealth>, x: ServiceHealth): (ys: seq<ServiceHealth>)
    ensures multiset(ys) == multiset(xs) + multiset{x}
  {
    if xs == [] || xs[|xs| - 1].score <= x.score then xs + [x]
    else
      assert xs == xs[..|xs| - 1] + [xs[|xs| - 1]];
      Ranked(xs[..|xs| - 1], x) + [xs[|xs| - 1]]
  }

  lemma {:induction false} RankedByScore(xs: seq<ServiceHealth>, x: ServiceHealth)
    requires ByScore(xs)
    ensures ByScore(Ranked(xs, x))
  {
    if xs == [] || xs[|xs| - 1].score <= x.score {
    } else {
      var front, last := xs[..|xs| - 1], xs[|xs| - 1];
      RankedByScore(front, x);
      var ys := Ranked(front, x);
      forall i | 0 <= i < |ys| ensures ys[i].score <= last.score {
        assert ys[i] in multiset(front) + multiset{x};
        if ys[i] != x { assert ys[i] in multiset(front); }
      }
    }
  }

  /** A service is listed when a log stream, a trace or a metric series names it. */
  ghost predicate KnownService(logs: LogStore, traces: TraceStore, metrics: MetricStore, service: string)
    requires logs.Valid() && metrics.Valid()
    reads logs, traces, metrics
  {
    || (exists id :: id in logs.streams && LabelledWith(logs.interner, LabelsOf(logs.streams), id, "service", service))
    || (exists t :: t in traces.traces && Serves(traces.interner, traces.traces[t], service))
    || (exists id :: id in metrics.series && LabelledWith(metrics.interner, LabelsOf(metrics.series), id, "service", service))
  }

  function ServiceNames(r: Interner, index: KeyIndex<Spur>): set<string> {
    set spur | spur in index && r.Knows(spur) :: r.Resolve(spur)
  }

  lemma ServiceNamesExact(r: Interner, traces: Traces, index: KeyIndex<Spur>, service: string)
    requires r.Valid() && Exact(index, traces, ServiceOf)
    ensures service in ServiceNames(r, index) <==> exists t :: t in traces && Serves(r, traces[t], service)
  {
    if service in ServiceNames(r, index) {
      var spur :| spur in index && r.Knows(spur) && r.Resolve(spur) == service;
      var t :| t in index[spur];
      assert In(index, spur, t);
      assert HasKey(traces, ServiceOf, spur, t);
      ServesByName(r, traces[t], spur);
    }
    if t :| t in traces && Serves(r, traces[t], service) {
      var i :| 0 <= i < |traces[t]| && r.Knows(traces[t][i].serviceName) && r.Resolve(traces[t][i].serviceName) == service;
      var spur := traces[t][i].serviceName;
      assert ServiceOf(traces[t][i]) == spur;
      assert HasKey(traces, ServiceOf, spur, t);
      assert In(index, spur, t);
    }
  }

  /** Every known service once, worst first. */
  method CheckHealth(logs: LogStore, traces: TraceStore, metrics: MetricStore) returns (services: seq<ServiceHealth>)
    requires logs.Valid() && traces.Valid() && metrics.Valid()
    ensures ByScore(services)
    ensures forall i, j :: 0 <= i < j < |services| ==> services[i].service != services[j].service
    ensures forall service :: KnownService(logs, traces, metrics, service) <==> Lists(services, service)
    ensures forall i :: 0 <= i < |services| ==>
      services[i] == PassHealth(logs.interner, logs.streams, traces.interner, traces.traces, services[i].service)
    ensures forall i :: 0 <= i < |services| ==>
      LineSays(services[i], Tally(logs.streams, FirstErrors(logs.interner, services[i].service)),
               SpanFactsOf(traces.interner, traces.traces, services[i].service, None))
  {
    hide PassHealth, LineSays, ByScore, KnownService, Lists, Tally, FirstErrors, SpanFactsOf, Indexed, Exact, AttrExact;
    var logErrors := CountLogErrors(logs.interner, logs.streams);
    var stats := CountSpans(traces.interner, traces.traces);
    var names := LabelValues(logs.interner, logs.labelValues, "service")
               + ServiceNames(traces.interner, traces.serviceIndex)
               + LabelValues(metrics.interner, metrics.labelValues, "service");
    NamesKnown(logs, traces, metrics);
    services := Rank(names, logErrors, stats);
    LinesPass(services, logErrors, stats, logs.interner, logs.streams, traces.interner, traces.traces);
  }

  /** The values of the label and service indexes are the known services. */
  lemma NamesKnown(logs: LogStore, traces: TraceStore, metrics: MetricStore)
    requires logs.Valid() && traces.Valid() && metrics.Valid()
    ensures forall service :: KnownService(logs, traces, metrics, service) <==>
      || service in LabelValues(logs.interner, logs.labelValues, "service")
      || service in ServiceNames(traces.interner, traces.serviceIndex)
      || service in LabelValues(metrics.interner, metrics.labelValues, "service")
  {
    forall service
      ensures KnownService(logs, traces, metrics, service) <==>
        || service in LabelValues(logs.interner, logs.labelValues, "service")
        || service in ServiceNames(traces.interner, traces.serviceIndex)
        || service in LabelValues(metrics.interner, metrics.labelValues, "service")
    {
      LabelValuesExact(logs.interner, logs.streams, logs.labelIndex, logs.labelValues, "service", service);
      ServiceNamesExact(traces.interner, traces.traces, traces.serviceIndex, service);
      LabelValuesExact(metrics.interner, metrics.series, metrics.labelIndex, metrics.labelValues, "service", service);
    }
  }

  /** Lines made from exact counts are those of the overview. */
  lemma LinesPass(services: seq<ServiceHealth>, logErrors: map<string, nat>, stats: map<string, SpanFacts>,
                  lr: Interner, streams: LogStreams, tr: Interner, traces: Traces)
    requires forall i :: 0 <= i < |services| ==> services[i] == Line(logErrors, stats, services[i].service)
    requires forall service :: Found(logErrors, service, 0) == Tally(streams, FirstErrors(lr, service))
    requires forall service :: StatsOf(stats, service) == SpanFactsOf(tr, traces, service, None)
    ensures forall i :: 0 <= i < |services| ==>
      && services[i] == PassHealth(lr, streams, tr, traces, services[i].service)
      && LineSays(services[i], Tally(streams, FirstErrors(lr, services[i].service)), SpanFactsOf(tr, traces, services[i].service, None))
  {
    hide LineSays, Tally, FirstErrors, SpanFactsOf, HealthOf;
    forall i | 0 <= i < |services|
      ensures services[i] == PassHealth(lr, streams, tr, traces, services[i].service)
      ensures LineSays(services[i], Tally(streams, FirstErrors(lr, services[i].service)), SpanFactsOf(tr, traces, services[i].service, None))
    {
      OverviewLine(lr, streams, tr, traces, services[i].service);
    }
  }

  ghost predicate Lists(services: seq<ServiceHealth>, service: string) {
    exists i :: 0 <= i < |services| && services[i].service == service
  }

  function Line(logErrors: map<string, nat>, stats: map<string, SpanFacts>, name: string): (line: ServiceHealth)
    ensures line.service == name
  {
    HealthOf(name, Found(logErrors, name, 0), StatsOf(stats, name))
  }

  ghost predicate LinesFor(services: seq<ServiceHealth>, names: set<string>, logErrors: map<string, nat>, stats: map<string, SpanFacts>) {
    && (forall x :: x in services ==> x.service in names && x == Line(logErrors, stats, x.service))
    && (forall name :: name in names ==> Line(logErrors, stats, name) in services)
    && Distinct(services)
  }

  /** The lines of all names in ascending order of score. */
  method Rank(names: set<string>, logErrors: map<string, nat>, stats: map<string, SpanFacts>) returns (services: seq<ServiceHealth>)
    ensures ByScore(services)
    ensures forall i, j :: 0 <= i < j < |services| ==> services[i].service != services[j].service
    ensures forall name :: name in names <==> Lists(services, name)
    ensures forall i :: 0 <= i < |services| ==> services[i] == Line(logErrors, stats, services[i].service)
  {
    hide HealthOf;
    services := [];
    var todo := names;
    while todo != {}
      invariant todo <= names
      invariant ByScore(services) && LinesFor(services, names - todo, logErrors, stats)
      decreases todo
    {
      var name :| name in todo;
      var line := Line(logErrors, stats, name);
      RankedByScore(services, line);
      RankedLines(services, names - todo, logErrors, stats, name);
      assert names - (todo - {name}) == (names - todo) + {name};
      services := Ranked(services, line);
      todo := todo - {name};
    }
    forall i, j | 0 <= i < j < |services| ensures services[i].service != services[j].service {
      assert services[i] in services && services[j] in services;
    }
    forall name ensures name in names <==> Lists(services, name) {
      if name in names {
        var line := Line(logErrors, stats, name);
        var i :| 0 <= i < |services| && services[i] == line;
        assert services[i].service == name;
      }
    }
  }

  lemma RankedLines(services: seq<ServiceHealth>, names: set<string>, logErrors: map<string, nat>, stats: map<string, SpanFacts>, name: string)
    requires LinesFor(services, names, logErrors, stats) && name !in names
    ensures LinesFor(Ranked(services, Line(logErrors, stats, name)), names + {name}, logErrors, stats)
  {
    hide HealthOf;
    var line := Line(logErrors, stats, name);
    var ranked := Ranked(services, line);
    forall x ensures x in ranked <==> x in services || x == line {
      assert x in ranked <==> x in multiset(ranked);
      assert x in services <==> x in multiset(services);
    }
    assert line !in services;
    var appended := services + [line];
    assert multiset(appended) == multiset(services) + multiset{line};
    assert Distinct(appended);
    DistinctByMultiset(appended, ranked);
  }

  // ---------------------------------------------------- one service's summary

  function Matcher(name: string, value: string): LabelMatcher { LabelMatcher(name, MatchOp.Eq, value) }

  ghost function KeptWeight(since: Option<nat>): LogStream -> nat {
    (s: LogStream) => KeptEntries(s.entries, since)
  }

  /** The window over all times is everything. */
  lemma {:induction false} WholeWindow(entries: seq<LogEntry>)
    ensures Window(entries, Ts, I64_MIN, I64_MAX) == entries
  {
    if entries != [] { WholeWindow(entries[1..]); }
  }

  method CountKept(entries: seq<LogEntry>, since: Option<nat>) returns (n: nat)
    ensures n == KeptEntries(entries, since)
  {
    n := 0;
    for i := 0 to |entries|
      invariant n == KeptEntries(entries[..i], since)
    {
      assert entries[..i + 1][..i] == entries[..i];
      if Keep(since, entries[i].ingestSeq) { n := n + 1; }
    }
    assert entries[..|entries|] == entries;
  }

  ghost function Members(ids: seq<nat>): set<nat> {
    set id | id in ids
  }

  /** Entries in scope of the listed streams. */
  method CountIn(logs: LogStore, ids: seq<nat>, since: Option<nat>) returns (total: nat)
    requires logs.Valid() && Distinct(ids) && forall i :: 0 <= i < |ids| ==> ids[i] in logs.streams
    ensures total == Tally(Restrict(logs.streams, Members(ids)), KeptWeight(since))
  {
    hide LogStore.Valid, Tally, Distinct, Selects;
    total := 0;
    TallyNothing(logs.streams, KeptWeight(since));
    ghost var done: set<nat> := {};
    for n := 0 to |ids|
      invariant forall id :: id in done <==> id in ids[..n]
      invariant total == Tally(Restrict(logs.streams, done), KeptWeight(since))
    {
      NotYet(ids, n);
      WholeWindow(logs.streams[ids[n]].entries);
      var kept := CountKept(logs.GetEntries(ids[n], I64_MIN, I64_MAX).value, since);
      TallyNext(logs.streams, done, ids[n], KeptWeight(since));
      total := total + kept;
      done := done + {ids[n]};
    }
    assert ids[..|ids|] == ids;
    assert done == Members(ids);
  }

  lemma NotYet(ids: seq<nat>, n: nat)
    requires Distinct(ids) && n < |ids|
    ensures ids[n] !in ids[..n]
    ensures forall id :: id in ids[..n + 1] <==> id in ids[..n] || id == ids[n]
  {
    assert ids[..n + 1] == ids[..n] + [ids[n]];
  }

  /** Entries in scope of all streams matching every matcher. */
  method CountMatching(logs: LogStore, ms: seq<LabelMatcher>, rx: RegexEngine, since: Option<nat>, ghost w: LogStream -> nat)
    returns (total: nat)
    requires logs.Valid()
    requires forall s: LogStream :: KnownSet(logs.interner, s.labels) ==>
      w(s) == if SatisfiesAll(logs.interner, s.labels, ms, rx) then KeptWeight(since)(s) else 0
    ensures total == Tally(logs.streams, w)
  {
    StreamsKnown(logs.interner, logs.streams);
    hide LogStore.Valid, SatisfiesAll, KnownSet, Tally, Distinct;
    var ids := logs.QueryStreams(ms, rx);
    forall i | 0 <= i < |ids| ensures ids[i] in logs.streams { assert ids[i] in ids; }
    total := CountIn(logs, ids, since);
    TallySelected(logs.streams, Members(ids), KeptWeight(since), w);
  }

  lemma MatchersMean(r: Interner, s: LogStream, service: string, rx: RegexEngine)
    requires KnownSet(r, s.labels)
    ensures SatisfiesAll(r, s.labels, [Matcher("service", service)], rx) <==> OfService(r, s, service)
    ensures SatisfiesAll(r, s.labels, [Matcher("service", service), Matcher("level", "error")], rx)
       <==> OfService(r, s, service) && IsError(r, s)
  {
    var a, b := Matcher("service", service), Matcher("level", "error");
    assert Satisfies(r, s.labels, a, rx) <==> OfService(r, s, service);
    assert Satisfies(r, s.labels, b, rx) <==> IsError(r, s);
    assert [a][0] == a && [a, b][0] == a && [a, b][1] == b;
  }

  function TracesForService(r: Interner, index: KeyIndex<Spur>, service: string): set<TraceId> {
    match r.Get(service)
    case None => {}
    case Some(spur) => if spur in index then index[spur] else {}
  }

  lemma TracesForServiceExact(r: Interner, traces: Traces, index: KeyIndex<Spur>, service: string)
    requires r.Valid() && Exact(index, traces, ServiceOf)
    ensures forall t :: t in TracesForService(r, index, service) <==> t in traces && Serves(r, traces[t], service)
  {
    forall t ensures t in TracesForService(r, index, service) <==> t in traces && Serves(r, traces[t], service) {
      if r.Get(service).Some? {
        var spur := r.Get(service).value;
        assert In(index, spur, t) <==> HasKey(traces, ServiceOf, spur, t);
        if t in traces { ServesByName(r, traces[t], spur); }
      }
    }
  }

  method CountKeptSpans(spans: seq<Span>, since: Option<nat>) returns (kept: nat, errors: nat)
    ensures kept == KeptSpans(spans, since) && errors == KeptErrors(spans, since)
  {
    kept, errors := 0, 0;
    for i := 0 to |spans|
      invariant kept == KeptSpans(spans[..i], since) && errors == KeptErrors(spans[..i], since)
    {
      assert spans[..i + 1][..i] == spans[..i];
      if Keep(since, spans[i].ingestSeq) {
        kept := kept + 1;
        if spans[i].status == SpanStatus.Error { errors := errors + 1; }
      }
    }
    assert spans[..|spans|] == spans;
  }

  /** Adds one trace of the service, unless none of its spans is in scope. */
  method AddTrace(f: SpanFacts, active: nat, spans: seq<Span>, since: Option<nat>) returns (f': SpanFacts, active': nat)
    ensures f' == Plus(f, TraceFacts(spans, since))
    ensures active' == active + if KeptSpans(spans, since) > 0 then 1 else 0
  {
    var inWindow, errors := CountKeptSpans(spans, since);
    f', active' := f, active;
    if inWindow != 0 {
      active' := active + 1;
      f' := Plus(f, SpanFacts(inWindow, errors, if errors > 0 then 1 else 0));
    }
  }

  /** Facts about one service's traces, found through the service index. */
  method CountServiceSpans(r: Interner, traces: Traces, index: KeyIndex<Spur>, service: string, since: Option<nat>)
    returns (f: SpanFacts, active: nat)
    requires r.Valid() && Exact(index, traces, ServiceOf)
    ensures f == SpanFactsOf(r, traces, service, since) && active == Tally(traces, ActiveWeight(r, service, since))
  {
    hide Exact, TracesForService, Serves, SpanFactsOf, Tally, KeptSpans, TraceFacts, Plus, Restrict, Interner.Valid;
    TracesForServiceExact(r, traces, index, service);
    var tids := TracesForService(r, index, service);
    f, active := SpanFacts(0, 0, 0), 0;
    ghost var done: set<TraceId> := {};
    NoSpanFacts(r, traces, service, since);
    TallyNothing(traces, ActiveWeight(r, service, since));
    var todo := tids;
    while todo != {}
      invariant done + todo == tids && done !! todo
      invariant f == SpanFactsOf(r, Restrict(traces, done), service, since)
      invariant active == Tally(Restrict(traces, done), ActiveWeight(r, service, since))
      decreases todo
    {
      var t :| t in todo;
      NextSpanFacts(r, traces, done, t, service, since);
      TallyNext(traces, done, t, ActiveWeight(r, service, since));
      f, active := AddTrace(f, active, traces[t], since);
      done := done + {t};
      todo := todo - {t};
    }
    AllOfService(r, traces, done, service, since);
  }

  /** Traces that do not serve the service add nothing to its facts. */
  lemma AllOfService(r: Interner, traces: Traces, tids: set<TraceId>, service: string, since: Option<nat>)
    requires forall t :: t in tids <==> t in traces && Serves(r, traces[t], service)
    ensures SpanFactsOf(r, Restrict(traces, tids), service, since) == SpanFactsOf(r, traces, service, since)
    ensures Tally(Restrict(traces, tids), ActiveWeight(r, service, since)) == Tally(traces, ActiveWeight(r, service, since))
  {
    hide Tally, Serves;
    TallyRestrict(traces, tids, SpanWeight(r, service, since));
    TallyRestrict(traces, tids, ErrorWeight(r, service, since));
    TallyRestrict(traces, tids, FailingWeight(r, service, since));
    TallyRestrict(traces, tids, ActiveWeight(r, service, since));
  }

  /** The activity of one service, optionally only of what was ingested since a token. */
  method SummarizeActivity(logs: LogStore, traces: TraceStore, rx: RegexEngine, service: string, since: Option<nat>) returns (a: Activity)
    requires logs.Valid() && traces.Valid()
    ensures a == ActivityOf(logs.interner, logs.streams, traces.interner, traces.traces, service, since)
    ensures ScoreIs(a.score, a.errorLogs, Tally(traces.traces, SpanWeight(traces.interner, service, since)),
                    Tally(traces.traces, ErrorWeight(traces.interner, service, since)))
  {
    forall s: LogStream | KnownSet(logs.interner, s.labels) { MatchersMean(logs.interner, s, service, rx); }
    var total := CountMatching(logs, [Matcher("service", service)], rx, since, Logged(logs.interner, service, since));
    var errorLogs := CountMatching(logs, [Matcher("service", service), Matcher("level", "error")], rx, since,
                                   AnyErrors(logs.interner, service, since));
    var f, active := CountServiceSpans(traces.interner, traces.traces, traces.serviceIndex, service, since);
    a := Activity(service, HealthScore(errorLogs, f.spans, f.errors), errorLogs, total, f.failing, active);
    ErrorsAmongSpans(traces.interner, traces.traces, service, since);
    ScoreFormula(errorLogs, f.spans, f.errors);
  }
}
