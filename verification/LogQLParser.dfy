/** The LogQL grammar: stream selectors, pipeline stages and metric queries. */
module LogQLParser {
  import opened LabelIndexing
  import opened Options

  /** A parser consumes a prefix, fails softly (another alternative may be tried), or fails for good. */
  datatype Parse<+T> = Done(rest: string, value: T) | Error | Failure {
    predicate IsFailure() { !Done? }

    function PropagateFailure<U>(): Parse<U>
      requires IsFailure()
    {
      if Error? then Error else Failure
    }

    function Extract(): (string, T)
      requires !IsFailure()
    {
      (rest, value)
    }
  }

  /** What the parser takes from elsewhere: Unicode classes, regexes, numbers and durations. */
  datatype Tables = Tables(alphanumeric: char -> bool, whitespace: char -> bool, compiles: string -> bool,
                           number: string -> Option<real>, duration: string -> Option<nat>)

  predicate AsciiLetterOrDigit(c: char) {
    'a' <= c <= 'z' || 'A' <= c <= 'Z' || '0' <= c <= '9'
  }

  predicate AsciiSpace(c: char) {
    '\t' <= c <= '\r' || c == ' '
  }

  /** On ASCII the Unicode classes are the familiar ones. */
  ghost predicate Sane(t: Tables) {
    forall c: char :: c < 128 as char ==> (t.alphanumeric(c) <==> AsciiLetterOrDigit(c)) && (t.whitespace(c) <==> AsciiSpace(c))
  }

  datatype CompareOp = Gt | Gte | Lt | Lte

  datatype Stage =
    | LineContains(text: string)
    | LineNotContains(text: string)
    | LineRegex(pattern: string)
    | LineNotRegex(pattern: string)
    | JsonExtract
    | LogfmtExtract
    | Unwrap(field: string)
    | RegexpExtract(pattern: string)
    | LabelFilter(key: string, op: MatchOp, value: string)
    | CompareFilter(key: string, cmp: CompareOp, bound: real)

  datatype MetricFunc = CountOverTime | BytesOverTime | SumOverTime | AvgOverTime | MinOverTime | MaxOverTime | Rate

  datatype Selection = Selection(matchers: seq<LabelMatcher>, stages: seq<Stage>)

  datatype LogQLExpr = StreamQuery(selection: Selection) | MetricQuery(func: MetricFunc, inner: Selection, range: nat)

  datatype ParseError = TrailingInput | SyntaxError

  datatype ParseOutcome = Parsed(expr: LogQLExpr) | Rejected(error: ParseError)

  // ------------------------------------------------------------------ scanning

  predicate IsBlank(c: char) { c == ' ' || c == '\t' || c == '\r' || c == '\n' }

  function SkipBlanks(s: string): (r: string)
    ensures |r| <= |s|
  {
    if s != "" && IsBlank(s[0]) then SkipBlanks(s[1..]) else s
  }

  function TrimStart(t: Tables, s: string): (r: string)
    ensures |r| <= |s|
  {
    if s != "" && t.whitespace(s[0]) then TrimStart(t, s[1..]) else s
  }

  function TrimEnd(t: Tables, s: string): string {
    if s != "" && t.whitespace(s[|s| - 1]) then TrimEnd(t, s[..|s| - 1]) else s
  }

  /** Length of the longest prefix of characters passing the test. */
  function SpanOf(s: string, test: char -> bool): (n: nat)
    ensures n <= |s|
    ensures forall i :: 0 <= i < n ==> test(s[i])
    ensures n < |s| ==> !test(s[n])
  {
    if s != "" && test(s[0]) then 1 + SpanOf(s[1..], test) else 0
  }

  function TakeWhile1(s: string, test: char -> bool): (r: Parse<string>)
    ensures r.Done? ==> |r.rest| < |s|
  {
    var n := SpanOf(s, test);
    if n == 0 then Error else Done(s[n..], s[..n])
  }

  function Tag(s: string, tag: string): (r: Parse<()>)
    ensures r.Done? ==> |r.rest| + |tag| == |s|
  {
    if tag <= s then Done(s[|tag|..], ()) else Error
  }

  function Cut<T>(p: Parse<T>): Parse<T> {
    if p.Error? then Failure else p
  }

  predicate KeywordBoundary(t: Tables, rest: string) {
    rest == "" || !(t.alphanumeric(rest[0]) || rest[0] == '_')
  }

  // ------------------------------------------------------------ quoted strings

  /** What one escaped character stands for; unknown escapes keep their backslash. */
  function Unescape(c: char): string {
    match c
    case 'n' => "\n"
    case 't' => "\t"
    case '\\' => "\\"
    case '\"' => "\""
    case _ => ['\\', c]
  }

  /** A string up to its closing quote. */
  function QuotedBody(s: string): (r: Parse<string>)
    ensures !r.Error? && (r.Done? ==> |r.rest| < |s|)
    decreases |s|
  {
    if s == "" then Failure
    else if s[0] == '\"' then Done(s[1..], "")
    else if s[0] == '\\' then
      if |s| == 1 then Failure else Prepended(Unescape(s[1]), QuotedBody(s[2..]))
    else Prepended([s[0]], QuotedBody(s[1..]))
  }

  /** What an escape reads as: newline, tab, the character itself, or both characters for an unknown one. */
  lemma EscapesRead(c: char, s: string)
    ensures QuotedBody("").Failure? && QuotedBody("\\").Failure?
    ensures !QuotedBody(s).Done? ==> QuotedBody(['\\', c] + s) == QuotedBody(s)
    ensures QuotedBody(s).Done? ==> var r := QuotedBody(['\\', c] + s);
            && r.Done? && r.rest == QuotedBody(s).rest
            && (c == 'n' ==> r.value == [10 as char] + QuotedBody(s).value)
            && (c == 't' ==> r.value == [9 as char] + QuotedBody(s).value)
            && (c == '\\' || c == '\"' ==> r.value == [c] + QuotedBody(s).value)
            && (c != 'n' && c != 't' && c != '\\' && c != '\"' ==> r.value == ['\\', c] + QuotedBody(s).value)
  {
    assert (['\\', c] + s)[2..] == s;
  }

  function Prepended(front: string, p: Parse<string>): Parse<string> {
    if p.Done? then Done(p.rest, front + p.value) else p
  }

  function QuotedString(s: string): (r: Parse<string>)
    ensures r.Done? ==> |r.rest| < |s|
  {
    var (s, _) :- Tag(s, "\"");
    QuotedBody(s)
  }

  lemma PrependedTwice(a: string, b: string, p: Parse<string>)
    ensures Prepended(a, Prepended(b, p)) == Prepended(a + b, p)
  {
    if p.Done? { assert a + (b + p.value) == (a + b) + p.value; }
  }

  lemma PrependedNothing(p: Parse<string>)
    ensures Prepended("", p) == p
  {
    if p.Done? { assert "" + p.value == p.value; }
  }

  /** Collects characters until the closing quote, undoing escapes on the way. */
  method ParseQuotedString(input: string) returns (r: Parse<string>)
    ensures r == QuotedString(input)
  {
    if !("\"" <= input) { return Error; }
    var s := input[1..];
    var result, i := "", 0;
    PrependedNothing(QuotedBody(s));
    while i < |s|
      invariant 0 <= i <= |s|
      invariant QuotedBody(s) == Prepended(result, QuotedBody(s[i..]))
      decreases |s| - i
    {
      assert s[i..][1..] == s[i + 1..];
      if s[i] == '\"' {
        assert result + "" == result;
        return Done(s[i + 1..], result);
      } else if s[i] == '\\' {
        i := i + 1;
        if i < |s| {
          assert s[i - 1..][2..] == s[i + 1..];
          PrependedTwice(result, Unescape(s[i]), QuotedBody(s[i + 1..]));
          result := result + Unescape(s[i]);
          i := i + 1;
        }
      } else {
        PrependedTwice(result, [s[i]], QuotedBody(s[i + 1..]));
        result := result + [s[i]];
        i := i + 1;
      }
    }
    return Failure;
  }

  // ------------------------------------------------------------------ selector

  function NameChar(t: Tables): char -> bool {
    (c: char) => t.alphanumeric(c) || c == '_' || c == '.'
  }

  function KeyChar(t: Tables): char -> bool {
    (c: char) => t.alphanumeric(c) || c == '_'
  }

  function ParseOp(s: string): (r: Parse<MatchOp>)
    ensures r.Done? ==> |r.rest| < |s|
  {
    if Tag(s, "=~").Done? then Done(s[2..], Regex)
    else if Tag(s, "!~").Done? then Done(s[2..], NotRegex)
    else if Tag(s, "!=").Done? then Done(s[2..], Neq)
    else if Tag(s, "=").Done? then Done(s[1..], Eq)
    else Error
  }

  function ParseMatcher(t: Tables, s: string): (r: Parse<LabelMatcher>)
    ensures r.Done? ==> |r.rest| < |s|
  {
    var (s, name) :- TakeWhile1(SkipBlanks(s), NameChar(t));
    var (s, op) :- ParseOp(SkipBlanks(s));
    var (s, value) :- Cut(QuotedString(SkipBlanks(s)));
    Done(s, LabelMatcher(name, op, value))
  }

  /** Further `, matcher` items; a comma not followed by a matcher is left unread. */
  function MoreMatchers(t: Tables, s: string): (r: Parse<seq<LabelMatcher>>)
    ensures r.Done? ==> |r.rest| <= |s|
    decreases |s|
  {
    var comma := Tag(s, ",");
    if !comma.Done? then Done(s, [])
    else
      match ParseMatcher(t, comma.rest)
      case Error => Done(s, [])
      case Failure => Failure
      case Done(rest, m) =>
        var (rest, ms) :- MoreMatchers(t, rest);
        Done(rest, [m] + ms)
  }

  function MatcherList(t: Tables, s: string): (r: Parse<seq<LabelMatcher>>)
    ensures r.Done? ==> |r.rest| <= |s|
  {
    match ParseMatcher(t, s)
    case Error => Done(s, [])
    case Failure => Failure
    case Done(rest, m) =>
      var (rest, ms) :- MoreMatchers(t, rest);
      Done(rest, [m] + ms)
  }

  function ParseSelector(t: Tables, s: string): (r: Parse<seq<LabelMatcher>>)
    ensures r.Done? ==> |r.rest| < |s|
  {
    var (s, _) :- Tag(SkipBlanks(s), "{");
    var (s, matchers) :- MatcherList(t, SkipBlanks(s));
    var (s, _) :- Tag(SkipBlanks(s), "}");
    Done(s, matchers)
  }

  // -------------------------------------------------------------------- stages

  /** `sign "text"`. */
  function LineFilter(s: string, sign: string): (r: Parse<string>)
    ensures r.Done? ==> |r.rest| < |s|
  {
    var (s, _) :- Tag(s, sign);
    QuotedString(SkipBlanks(s))
  }

  function Compiled(t: Tables, p: Parse<string>): Parse<string> {
    if p.Done? && !t.compiles(p.value) then Failure else p
  }

  function Keyword(t: Tables, s: string, word: string): Parse<()> {
    var p := Tag(s, word);
    if p.Done? && KeywordBoundary(t, p.rest) then p else Error
  }

  function ParseCompareOp(s: string): Parse<CompareOp> {
    if ">=" <= s then Done(s[2..], Gte)
    else if "<=" <= s then Done(s[2..], Lte)
    else if ">" <= s then Done(s[1..], Gt)
    else if "<" <= s then Done(s[1..], Lt)
    else Error
  }

  predicate NumberChar(c: char) {
    '0' <= c <= '9' || c == '.' || c == '-' || c == '+'
  }

  function ParseComparison(t: Tables, key: string, cmp: CompareOp, s: string): (r: Parse<Stage>)
    ensures r.Done? ==> |r.rest| < |s|
  {
    var (s, digits) :- TakeWhile1(SkipBlanks(s), NumberChar);
    match t.number(digits)
    case Some(bound) => Done(s, CompareFilter(key, cmp, bound))
    case None => Failure
  }

  function ParseLabelFilter(t: Tables, s: string): (r: Parse<Stage>)
    ensures r.Done? ==> |r.rest| < |s|
  {
    var (s, key) :- TakeWhile1(s, KeyChar(t));
    var s := SkipBlanks(s);
    match ParseCompareOp(s)
    case Done(rest, cmp) => ParseComparison(t, key, cmp, rest)
    case _ =>
      var (s, op) :- ParseOp(s);
      var (s, value) :- Cut(QuotedString(SkipBlanks(s)));
      if (op == Regex || op == NotRegex) && !t.compiles(value) then Failure else Done(s, LabelFilter(key, op, value))
  }

  function ParseExtraction(t: Tables, s: string): (r: Parse<Stage>)
    ensures r.Done? ==> |r.rest| < |s|
  {
    var (s, _) :- Tag(s, "|");
    var s := SkipBlanks(s);
    if Keyword(t, s, "json").Done? then Done(Keyword(t, s, "json").rest, JsonExtract)
    else if Keyword(t, s, "logfmt").Done? then Done(Keyword(t, s, "logfmt").rest, LogfmtExtract)
    else if Keyword(t, s, "unwrap").Done? then
      var (s, field) :- TakeWhile1(SkipBlanks(Keyword(t, s, "unwrap").rest), KeyChar(t));
      Done(s, Unwrap(field))
    else if Keyword(t, s, "regexp").Done? then
      var (s, pattern) :- Compiled(t, Cut(QuotedString(SkipBlanks(Keyword(t, s, "regexp").rest))));
      Done(s, RegexpExtract(pattern))
    else ParseLabelFilter(t, s)
  }

  function AsStage(p: Parse<string>, make: string -> Stage): Parse<Stage> {
    match p
    case Done(rest, text) => Done(rest, make(text))
    case Error => Error
    case Failure => Failure
  }

  /** The alternatives in order; the first that does not fail softly decides. */
  function ParseStage(t: Tables, s: string): (r: Parse<Stage>)
    ensures r.Done? ==> |r.rest| < |s|
  {
    var contains := AsStage(LineFilter(s, "|="), (text: string) => LineContains(text));
    if !contains.Error? then contains
    else
      var lacks := AsStage(LineFilter(s, "!="), (text: string) => LineNotContains(text));
      if !lacks.Error? then lacks
      else
        var matches := AsStage(Compiled(t, LineFilter(s, "|~")), (text: string) => LineRegex(text));
        if !matches.Error? then matches
        else
          var mismatches := AsStage(Compiled(t, LineFilter(s, "!~")), (text: string) => LineNotRegex(text));
          if !mismatches.Error? then mismatches else ParseExtraction(t, s)
  }

  /** Stages as long as there are any; a hard failure inside one is final. */
  function Stages(t: Tables, s: string): (r: Parse<seq<Stage>>)
    ensures !r.Error? && (r.Done? ==> |r.rest| <= |s|)
    decreases |s|
  {
    match ParseStage(t, TrimStart(t, s))
    case Error => Done(s, [])
    case Failure => Failure
    case Done(rest, stage) =>
      match Stages(t, rest)
      case Done(end, more) => Done(end, [stage] + more)
      case _ => Failure
  }

  function StagesAfter(earlier: seq<Stage>, p: Parse<seq<Stage>>): Parse<seq<Stage>> {
    match p
    case Done(rest, more) => Done(rest, earlier + more)
    case _ => p
  }

  method ParseStages(t: Tables, input: string) returns (r: Parse<seq<Stage>>)
    ensures r == Stages(t, input)
  {
    var stages: seq<Stage>, remaining := [], input;
    if Stages(t, input).Done? { assert [] + Stages(t, input).value == Stages(t, input).value; }
    while true
      invariant Stages(t, input) == StagesAfter(stages, Stages(t, remaining))
      decreases |remaining|
    {
      var p := ParseStage(t, TrimStart(t, remaining));
      if p.Failure? { return Failure; }
      if p.Error? {
        assert stages + [] == stages;
        return Done(remaining, stages);
      }
      ghost var later := Stages(t, p.rest);
      if later.Done? { assert stages + ([p.value] + later.value) == (stages + [p.value]) + later.value; }
      stages := stages + [p.value];
      remaining := p.rest;
    }
  }

  function ParseSelection(t: Tables, s: string): Parse<Selection> {
    var (s, matchers) :- ParseSelector(t, s);
    var (s, stages) :- Stages(t, SkipBlanks(s));
    Done(s, Selection(matchers, stages))
  }

  // ------------------------------------------------------------------- queries

  function ParseMetricFunc(s: string): Parse<MetricFunc> {
    if Tag(s, "count_over_time").Done? then Done(Tag(s, "count_over_time").rest, CountOverTime)
    else if Tag(s, "bytes_over_time").Done? then Done(Tag(s, "bytes_over_time").rest, BytesOverTime)
    else if Tag(s, "sum_over_time").Done? then Done(Tag(s, "sum_over_time").rest, SumOverTime)
    else if Tag(s, "avg_over_time").Done? then Done(Tag(s, "avg_over_time").rest, AvgOverTime)
    else if Tag(s, "min_over_time").Done? then Done(Tag(s, "min_over_time").rest, MinOverTime)
    else if Tag(s, "max_over_time").Done? then Done(Tag(s, "max_over_time").rest, MaxOverTime)
    else if Tag(s, "rate").Done? then Done(Tag(s, "rate").rest, Rate)
    else Error
  }

  function ParseRange(t: Tables, s: string): Parse<nat> {
    var (s, _) :- Tag(s, "[");
    var (s, text) :- TakeWhile1(s, t.alphanumeric);
    var (s, _) :- Tag(s, "]");
    match t.duration(text)
    case Some(d) => Done(s, d)
    case None => Failure
  }

  function ParseMetricQuery(t: Tables, s: string): Parse<LogQLExpr> {
    var (s, func) :- ParseMetricFunc(s);
    var (s, _) :- Tag(s, "(");
    var (s, inner) :- ParseSelection(t, SkipBlanks(s));
    var (s, range) :- ParseRange(t, SkipBlanks(s));
    var (s, _) :- Tag(SkipBlanks(s), ")");
    Done(s, MetricQuery(func, inner, range))
  }

  function Complete(t: Tables, rest: string, e: LogQLExpr): ParseOutcome {
    if TrimStart(t, rest) == "" then Parsed(e) else Rejected(TrailingInput)
  }

  function ParseLogQL(t: Tables, input: string): ParseOutcome {
    var trimmed := TrimEnd(t, TrimStart(t, input));
    match ParseMetricQuery(t, trimmed)
    case Done(rest, e) => Complete(t, rest, e)
    case _ =>
      match ParseSelection(t, trimmed)
      case Done(rest, selection) => Complete(t, rest, StreamQuery(selection))
      case _ => Rejected(SyntaxError)
  }
}
