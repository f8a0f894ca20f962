/**
  Structured log filters are printed as LogQL and parsed again: whatever strings
  are asked for, the parser reads back exactly those filters.
 */
module LogQLPrinting {
  import opened LabelIndexing
  import opened LogQLParser
  import opened Options

  function ReplaceChar(s: string, c: char, with: string): string {
    if s == "" then "" else (if s[0] == c then with else [s[0]]) + ReplaceChar(s[1..], c, with)
  }

  function EscapeQuoted(value: string): string {
    ReplaceChar(ReplaceChar(value, '\\', "\\\\"), '\"', "\\\"")
  }

  lemma {:induction false} ReplaceAppend(a: string, b: string, c: char, with: string)
    ensures ReplaceChar(a + b, c, with) == ReplaceChar(a, c, with) + ReplaceChar(b, c, with)
  {
    if a == "" {
      assert a + b == b;
    } else {
      assert (a + b)[0] == a[0] && (a + b)[1..] == a[1..] + b;
      ReplaceAppend(a[1..], b, c, with);
    }
  }

  /** Escaping works character by character. */
  lemma EscapeStep(value: string)
    requires value != ""
    ensures EscapeQuoted(value)
         == (if value[0] == '\\' then "\\\\" else if value[0] == '\"' then "\\\"" else [value[0]]) + EscapeQuoted(value[1..])
  {
    var rest := ReplaceChar(value[1..], '\\', "\\\\");
    var first := if value[0] == '\\' then "\\\\" else [value[0]];
    ReplaceAppend(first, rest, '\"', "\\\"");
    assert "\\\\"[1..] == "\\" && "\\"[1..] == "" && [value[0]][1..] == "";
    assert ReplaceChar("", '\"', "\\\"") == "";
    assert ReplaceChar("\\", '\"', "\\\"") == "\\";
    assert ReplaceChar("\\\\", '\"', "\\\"") == "\\\\";
    assert ReplaceChar([value[0]], '\"', "\\\"") == if value[0] == '\"' then "\\\"" else [value[0]];
  }

  /** Reading back an escaped string, whatever follows its closing quote. */
  lemma {:induction false} QuotedBodyUndoesEscape(value: string, rest: string)
    ensures QuotedBody(EscapeQuoted(value) + "\"" + rest) == Done(rest, value)
    decreases |value|
  {
    if value == "" {
      assert EscapeQuoted(value) == "";
      var s := EscapeQuoted(value) + "\"" + rest;
      assert s[0] == '\"' && s[1..] == rest;
    } else {
      var more := EscapeQuoted(value[1..]) + "\"" + rest;
      var s := EscapeQuoted(value) + "\"" + rest;
      EscapeStep(value);
      QuotedBodyUndoesEscape(value[1..], rest);
      assert value == [value[0]] + value[1..];
      if value[0] == '\\' || value[0] == '\"' {
        assert s == ['\\', value[0]] + more;
        assert s[0] == '\\' && s[1] == value[0] && s[2..] == more;
      } else {
        assert s == [value[0]] + more;
        assert s[0] == value[0] && s[1..] == more;
      }
    }
  }

  function Quoted(value: string): string {
    "\"" + EscapeQuoted(value) + "\""
  }

  /** The parser undoes the printer for every string and every following input. */
  lemma QuotedStringUndoesQuoted(value: string, rest: string)
    ensures QuotedString(Quoted(value) + rest) == Done(rest, value)
  {
    var s := Quoted(value) + rest;
    assert s == "\"" + (EscapeQuoted(value) + "\"" + rest);
    assert s[1..] == EscapeQuoted(value) + "\"" + rest;
    QuotedBodyUndoesEscape(value, rest);
  }

  /** Distinct strings print differently. */
  lemma EscapeInjective(a: string, b: string)
    requires EscapeQuoted(a) == EscapeQuoted(b)
    ensures a == b
  {
    QuotedBodyUndoesEscape(a, "");
    QuotedBodyUndoesEscape(b, "");
  }

  // ------------------------------------------------------------------ printing

  /** A label the filters use: nonempty, of letters, digits, `_` and `.`. */
  predicate PlainName(name: string) {
    name != "" && forall i :: 0 <= i < |name| ==> AsciiLetterOrDigit(name[i]) || name[i] == '_' || name[i] == '.'
  }

  function EqMatcher(name: string, value: string): LabelMatcher {
    LabelMatcher(name, Eq, value)
  }

  function OpText(op: MatchOp): string {
    match op
    case Eq => "="
    case Neq => "!="
    case Regex => "=~"
    case NotRegex => "!~"
  }

  function PrintMatcher(m: LabelMatcher): string {
    m.name + OpText(m.op) + Quoted(m.value)
  }

  /** The printed matchers after the first, each behind a comma and a space. */
  function PrintMore(ms: seq<LabelMatcher>): string {
    if ms == [] then "" else ", " + PrintMatcher(ms[0]) + PrintMore(ms[1..])
  }

  function PrintSelector(ms: seq<LabelMatcher>): string {
    if ms == [] then "{}" else "{" + PrintMatcher(ms[0]) + PrintMore(ms[1..]) + "}"
  }

  predicate AllPlain(ms: seq<LabelMatcher>) {
    forall i :: 0 <= i < |ms| ==> PlainName(ms[i].name)
  }

  lemma {:induction false} SpanOfPrefix(name: string, rest: string, test: char -> bool)
    requires forall i :: 0 <= i < |name| ==> test(name[i])
    requires rest == "" || !test(rest[0])
    ensures SpanOf(name + rest, test) == |name|
  {
    if name == "" {
      assert name + rest == rest;
    } else {
      assert (name + rest)[0] == name[0] && (name + rest)[1..] == name[1..] + rest;
      SpanOfPrefix(name[1..], rest, test);
    }
  }

  lemma NameReadBack(t: Tables, name: string, blank: string, tail: string)
    requires Sane(t) && PlainName(name) && (blank == "" || blank == " ") && tail != "" && (tail[0] == '=' || tail[0] == '!')
    ensures TakeWhile1(SkipBlanks(blank + (name + tail)), NameChar(t)) == Done(tail, name)
  {
    var body := name + tail;
    assert body[0] == name[0] && !IsBlank(body[0]);
    SkipsBlank(blank, body);
    SpanOfPrefix(name, tail, NameChar(t));
    assert body[|name|..] == tail && body[..|name|] == name;
  }

  lemma OpReadBack(op: MatchOp, quoted: string)
    requires quoted != "" && quoted[0] == '\"'
    ensures ParseOp(SkipBlanks(OpText(op) + quoted)) == Done(quoted, op)
    ensures SkipBlanks(quoted) == quoted
  {
    var tail := OpText(op) + quoted;
    assert tail[0] == OpText(op)[0] && tail[|OpText(op)|..] == quoted;
    assert tail[1] == if |OpText(op)| == 1 then '\"' else OpText(op)[1];
  }

  /** A printed matcher, possibly behind a space, is read back. */
  lemma MatcherReadBack(t: Tables, m: LabelMatcher, blank: string, rest: string)
    requires Sane(t) && PlainName(m.name) && (blank == "" || blank == " ")
    ensures ParseMatcher(t, blank + PrintMatcher(m) + rest) == Done(rest, m)
  {
    hide TakeWhile1, SkipBlanks, ParseOp, QuotedString, Sane, PlainName, EscapeQuoted;
    var quoted := Quoted(m.value) + rest;
    assert blank + PrintMatcher(m) + rest == blank + (m.name + (OpText(m.op) + quoted));
    NameReadBack(t, m.name, blank, OpText(m.op) + quoted);
    OpReadBack(m.op, quoted);
    QuotedStringUndoesQuoted(m.value, rest);
  }

  lemma SkipsBlank(blank: string, body: string)
    requires (blank == "" || blank == " ") && (body == "" || !IsBlank(body[0]))
    ensures SkipBlanks(blank + body) == body
  {
    if blank == " " {
      assert (blank + body)[0] == ' ' && (blank + body)[1..] == body;
    } else {
      assert blank + body == body;
    }
  }

  lemma CommaRead(s: string, list: string)
    requires s == "," + list
    ensures Tag(s, ",") == Done(list, ())
  {
    assert s[0] == ',' && s[1..] == list;
  }

  lemma {:induction false} MoreReadBack(t: Tables, ms: seq<LabelMatcher>, rest: string)
    requires Sane(t) && AllPlain(ms)
    requires rest != "" && rest[0] == '}'
    ensures MoreMatchers(t, PrintMore(ms) + rest) == Done(rest, ms)
  {
    hide Sane, PlainName, ParseMatcher, PrintMatcher;
    var s := PrintMore(ms) + rest;
    if ms == [] {
      assert s == rest;
    } else {
      var later := PrintMore(ms[1..]) + rest;
      var list := " " + PrintMatcher(ms[0]) + later;
      assert s == "," + list;
      CommaRead(s, list);
      MatcherReadBack(t, ms[0], " ", later);
      MoreReadBack(t, ms[1..], rest);
      assert ms == [ms[0]] + ms[1..];
    }
  }

  lemma ListReadBack(t: Tables, ms: seq<LabelMatcher>, close: string)
    requires Sane(t) && ms != [] && AllPlain(ms)
    requires close != "" && close[0] == '}'
    ensures MatcherList(t, PrintMatcher(ms[0]) + PrintMore(ms[1..]) + close) == Done(close, ms)
  {
    hide Sane, PlainName, ParseMatcher, PrintMatcher;
    var more := PrintMore(ms[1..]) + close;
    assert PrintMatcher(ms[0]) + PrintMore(ms[1..]) + close == "" + PrintMatcher(ms[0]) + more;
    MatcherReadBack(t, ms[0], "", more);
    MoreReadBack(t, ms[1..], close);
    assert ms == [ms[0]] + ms[1..];
  }

  /** Reading one bracket. */
  lemma BracketRead(s: string, bracket: char, rest: string)
    requires s == [bracket] + rest && !IsBlank(bracket)
    ensures Tag(SkipBlanks(s), [bracket]) == Done(rest, ())
  {
    assert s[0] == bracket && s[1..] == rest;
  }

  /** No matcher starts with a closing brace. */
  lemma NoMatchers(t: Tables, close: string)
    requires Sane(t) && close != "" && close[0] == '}'
    ensures MatcherList(t, close) == Done(close, [])
  {
    assert SpanOf(close, NameChar(t)) == 0;
  }

  lemma EmptySelectorReadBack(t: Tables, rest: string)
    requires Sane(t)
    ensures ParseSelector(t, "{}" + rest) == Done(rest, [])
  {
    hide Sane, MatcherList, Tag;
    var close := "}" + rest;
    assert "{}" + rest == "{" + close && close[0] == '}';
    BracketRead("{" + close, '{', close);
    NoMatchers(t, close);
    BracketRead(close, '}', rest);
  }

  /** A printed selector is read back, whatever follows it. */
  lemma SelectorReadBack(t: Tables, ms: seq<LabelMatcher>, rest: string)
    requires Sane(t) && AllPlain(ms)
    ensures ParseSelector(t, PrintSelector(ms) + rest) == Done(rest, ms)
  {
    hide Sane, PlainName, MatcherList, PrintMatcher, SkipBlanks, Tag;
    if ms == [] {
      EmptySelectorReadBack(t, rest);
      return;
    }
    var s := PrintSelector(ms) + rest;
    var close := "}" + rest;
    var list := PrintMatcher(ms[0]) + PrintMore(ms[1..]) + close;
    assert s == "{" + list;
    BracketRead(s, '{', list);
    NoLeadingBlank(ms[0], list);
    ListReadBack(t, ms, close);
    BracketRead(close, '}', rest);
  }

  lemma NoLeadingBlank(m: LabelMatcher, s: string)
    requires PlainName(m.name) && PrintMatcher(m) <= s
    ensures SkipBlanks(s) == s
  {
    assert s[0] == PrintMatcher(m)[0] == m.name[0];
  }

  // --------------------------------------------------------- structured filters

  /** The matchers the filters stand for. */
  function Filters(service: Option<string>, level: Option<string>): seq<LabelMatcher> {
    (match service case Some(s) => [EqMatcher("service", s)] case None => [])
    + (match level case Some(l) => [EqMatcher("level", l)] case None => [])
  }

  function LineFilters(contains: Option<string>): seq<Stage> {
    match contains case Some(c) => [LineContains(c)] case None => []
  }

  function PrintContains(contains: Option<string>): string {
    match contains case Some(c) => " |= " + Quoted(c) case None => ""
  }

  lemma NothingLeft(t: Tables)
    ensures Stages(t, "") == Done("", [])
  {
  }

  /** The printed line filter is read back as the only stage. */
  lemma ContainsReadBack(t: Tables, contains: Option<string>)
    requires Sane(t)
    ensures Stages(t, SkipBlanks(PrintContains(contains))) == Done("", LineFilters(contains))
  {
    NothingLeft(t);
    if contains.Some? {
      var quoted := Quoted(contains.value);
      var body := "|= " + quoted;
      assert PrintContains(contains) == " " + body;
      assert body[0] == '|' && body[1] == '=' && body[2..] == " " + quoted;
      SkipsBlank(" ", body);
      assert !t.whitespace('|');
      assert TrimStart(t, body) == body;
      assert quoted[0] == '\"';
      SkipsBlank(" ", quoted);
      assert quoted + "" == quoted;
      QuotedStringUndoesQuoted(contains.value, "");
      assert "|=" <= body;
      assert LineFilter(body, "|=") == Done("", contains.value);
      assert ParseStage(t, body) == Done("", LineContains(contains.value));
      assert [LineContains(contains.value)] + [] == [LineContains(contains.value)];
    }
  }

  /** A query starting with a brace and ending in a quote or brace is no metric query and has nothing to trim. */
  lemma BracedQuery(t: Tables, q: string)
    requires Sane(t) && q != "" && q[0] == '{' && (q[|q| - 1] == '}' || q[|q| - 1] == '\"')
    ensures TrimEnd(t, TrimStart(t, q)) == q && ParseMetricQuery(t, q).Error?
  {
    assert !t.whitespace(q[0]) && !t.whitespace(q[|q| - 1]);
    assert ParseMetricFunc(q).Error?;
  }

  /** Printing then parsing is the identity on filters. */
  lemma PrintedFiltersReadBack(t: Tables, ms: seq<LabelMatcher>, contains: Option<string>)
    requires Sane(t) && AllPlain(ms)
    ensures ParseLogQL(t, PrintSelector(ms) + PrintContains(contains))
         == Parsed(StreamQuery(Selection(ms, LineFilters(contains))))
  {
    var q := PrintSelector(ms) + PrintContains(contains);
    assert q[0] == '{';
    if contains.Some? { assert q[|q| - 1] == Quoted(contains.value)[|Quoted(contains.value)| - 1] == '\"'; }
    BracedQuery(t, q);
    SelectorReadBack(t, ms, PrintContains(contains));
    ContainsReadBack(t, contains);
  }

  function Joined(parts: seq<string>): string {
    if parts == [] then "" else parts[0] + JoinedMore(parts[1..])
  }

  function JoinedMore(parts: seq<string>): string {
    if parts == [] then "" else ", " + parts[0] + JoinedMore(parts[1..])
  }

  lemma PartsArePrinted(service: Option<string>, level: Option<string>)
    ensures |Parts(service, level)| == |Filters(service, level)| <= 2
    ensures forall i :: 0 <= i < |Parts(service, level)| ==> Parts(service, level)[i] == PrintMatcher(Filters(service, level)[i])
  {
    hide PrintMatcher, EscapeQuoted;
    if service.Some? { PartIsPrinted("service", service.value); }
    if level.Some? { PartIsPrinted("level", level.value); }
  }

  lemma PartIsPrinted(name: string, value: string)
    ensures PrintMatcher(EqMatcher(name, value)) == name + "=\"" + EscapeQuoted(value) + "\""
  {
  }

  lemma {:induction false} JoinedMoreIsPrinted(parts: seq<string>, ms: seq<LabelMatcher>)
    requires |parts| == |ms| && forall i :: 0 <= i < |parts| ==> parts[i] == PrintMatcher(ms[i])
    ensures JoinedMore(parts) == PrintMore(ms)
  {
    if parts != [] { JoinedMoreIsPrinted(parts[1..], ms[1..]); }
  }

  /** Joining the parts and bracing them prints the filters' matchers. */
  lemma JoinedIsPrinted(service: Option<string>, level: Option<string>)
    requires service.Some? || level.Some?
    ensures Filters(service, level) != [] && "{" + Joined(Parts(service, level)) + "}" == PrintSelector(Filters(service, level))
  {
    hide PrintMatcher, EscapeQuoted;
    PartsArePrinted(service, level);
    var parts, ms := Parts(service, level), Filters(service, level);
    assert ms != [];
    JoinedMoreIsPrinted(parts[1..], ms[1..]);
  }

  lemma FiltersArePlain(service: Option<string>, level: Option<string>)
    ensures AllPlain(Filters(service, level))
  {
    assert PlainName("service") && PlainName("level");
  }

  function Parts(service: Option<string>, level: Option<string>): seq<string> {
    (match service case Some(s) => ["service=\"" + EscapeQuoted(s) + "\""] case None => [])
    + (match level case Some(l) => ["level=\"" + EscapeQuoted(l) + "\""] case None => [])
  }

  /** Builds the query of the structured filters, `None` when neither service nor level is given. */
  method BuildQuery(service: Option<string>, level: Option<string>, contains: Option<string>) returns (query: Option<string>)
    ensures query.None? <==> service.None? && level.None?
    ensures query.Some? ==> forall t :: Sane(t) ==>
      ParseLogQL(t, query.value) == Parsed(StreamQuery(Selection(Filters(service, level), LineFilters(contains))))
  {
    hide EscapeQuoted, Joined, ParseLogQL, AllPlain, PrintSelector, Sane;
    var sel: seq<string> := [];
    if service.Some? { sel := sel + ["service=\"" + EscapeQuoted(service.value) + "\""]; }
    if level.Some? { sel := sel + ["level=\"" + EscapeQuoted(level.value) + "\""]; }
    if sel == [] { return None; }
    assert sel == Parts(service, level);
    var q := "{" + Joined(sel) + "}";
    JoinedIsPrinted(service, level);
    ContainsIsPrinted(q, contains);
    if contains.Some? { q := q + (" |= \"" + EscapeQuoted(contains.value) + "\""); }
    ghost var ms := Filters(service, level);
    FiltersArePlain(service, level);
    forall t | Sane(t) ensures ParseLogQL(t, q) == Parsed(StreamQuery(Selection(ms, LineFilters(contains)))) {
      PrintedFiltersReadBack(t, ms, contains);
    }
    query := Some(q);
  }

  lemma ContainsIsPrinted(q: string, contains: Option<string>)
    ensures contains.Some? ==> q + (" |= \"" + EscapeQuoted(contains.value) + "\"") == q + PrintContains(contains)
    ensures contains.None? ==> q == q + PrintContains(contains)
  {
    if contains.Some? { assert " |= \"" + EscapeQuoted(contains.value) + "\"" == PrintContains(contains); }
  }
}
