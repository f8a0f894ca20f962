/**
  Whole LogQL expressions, printed and parsed again: selectors with any matchers,
  every kind of stage, and metric queries.
 */
module LogQLRoundTrip {
  import opened LabelIndexing
  import opened LogQLParser
  import opened LogQLPrinting
  import opened Options

  /** How numbers and durations are spelled. */
  datatype Spelling = Spelling(number: real -> string, duration: nat -> string)

  // ------------------------------------------------------------------ printing

  function CompareText(cmp: CompareOp): string {
    match cmp
    case Gt => ">"
    case Gte => ">="
    case Lt => "<"
    case Lte => "<="
  }

  function FuncText(func: MetricFunc): string {
    match func
    case CountOverTime => "count_over_time"
    case BytesOverTime => "bytes_over_time"
    case SumOverTime => "sum_over_time"
    case AvgOverTime => "avg_over_time"
    case MinOverTime => "min_over_time"
    case MaxOverTime => "max_over_time"
    case Rate => "rate"
  }

  function PrintStage(sp: Spelling, stage: Stage): string {
    match stage
    case LineContains(text) => "|=" + Quoted(text)
    case LineNotContains(text) => "!=" + Quoted(text)
    case LineRegex(pattern) => "|~" + Quoted(pattern)
    case LineNotRegex(pattern) => "!~" + Quoted(pattern)
    case JsonExtract => "|" + "json"
    case LogfmtExtract => "|" + "logfmt"
    case Unwrap(field) => "|" + ("unwrap" + " " + field)
    case RegexpExtract(pattern) => "|" + ("regexp" + Quoted(pattern))
    case LabelFilter(key, op, value) => "|" + (key + (OpText(op) + Quoted(value)))
    case CompareFilter(key, cmp, bound) => "|" + (key + (CompareText(cmp) + sp.number(bound)))
  }

  /** Each stage behind a space. */
  function PrintStages(sp: Spelling, stages: seq<Stage>): string {
    if stages == [] then "" else " " + PrintStage(sp, stages[0]) + PrintStages(sp, stages[1..])
  }

  function PrintSelection(sp: Spelling, s: Selection): string {
    PrintSelector(s.matchers) + PrintStages(sp, s.stages)
  }

  function PrintExpr(sp: Spelling, e: LogQLExpr): string {
    match e
    case StreamQuery(selection) => PrintSelection(sp, selection)
    case MetricQuery(func, inner, range) => FuncText(func) + ("(" + (PrintSelection(sp, inner) + ("[" + (sp.duration(range) + "])"))))
  }

  // --------------------------------------------------------- what can be printed

  predicate PlainKey(key: string) {
    key != "" && forall i :: 0 <= i < |key| ==> AsciiLetterOrDigit(key[i]) || key[i] == '_'
  }

  /** The words that name a stage, and so cannot be compared as a label. */
  predicate IsKeyword(key: string) {
    key == "json" || key == "logfmt" || key == "unwrap" || key == "regexp"
  }

  /** Patterns compile, keys are plain and no keywords, numbers are spelled so that they read back. */
  predicate PrintableStage(t: Tables, sp: Spelling, stage: Stage) {
    match stage
    case LineRegex(pattern) => t.compiles(pattern)
    case LineNotRegex(pattern) => t.compiles(pattern)
    case Unwrap(field) => PlainKey(field)
    case RegexpExtract(pattern) => t.compiles(pattern)
    case LabelFilter(key, op, value) => PlainKey(key) && !IsKeyword(key) && (op == Regex || op == NotRegex ==> t.compiles(value))
    case CompareFilter(key, _, bound) =>
      && PlainKey(key) && !IsKeyword(key)
      && var digits := sp.number(bound);
         digits != "" && (forall i :: 0 <= i < |digits| ==> NumberChar(digits[i])) && t.number(digits) == Some(bound)
    case _ => true
  }

  predicate PrintableSelection(t: Tables, sp: Spelling, s: Selection) {
    AllPlain(s.matchers) && forall i :: 0 <= i < |s.stages| ==> PrintableStage(t, sp, s.stages[i])
  }

  predicate PrintableRange(t: Tables, sp: Spelling, range: nat) {
    var text := sp.duration(range);
    text != "" && (forall i :: 0 <= i < |text| ==> AsciiLetterOrDigit(text[i])) && t.duration(text) == Some(range)
  }

  predicate Printable(t: Tables, sp: Spelling, e: LogQLExpr) {
    match e
    case StreamQuery(selection) => PrintableSelection(t, sp, selection)
    case MetricQuery(_, inner, range) => PrintableSelection(t, sp, inner) && PrintableRange(t, sp, range)
  }

  // ------------------------------------------------------------------ tokens

  /** A text that ends what comes before it: the end, a space, a bracket. */
  predicate Stops(rest: string) {
    rest == "" || rest[0] == ' ' || rest[0] == '['
  }

  lemma TagRead(tag: string, rest: string)
    ensures Tag(tag + rest, tag) == Done(rest, ())
  {
    assert (tag + rest)[|tag|..] == rest;
  }

  lemma WordRead(word: string, rest: string, test: char -> bool)
    requires word != "" && (forall i :: 0 <= i < |word| ==> test(word[i])) && (rest == "" || !test(rest[0]))
    ensures TakeWhile1(word + rest, test) == Done(rest, word)
  {
    SpanOfPrefix(word, rest, test);
    assert (word + rest)[..|word|] == word && (word + rest)[|word|..] == rest;
  }

  lemma NoBlank(s: string)
    requires s == "" || !IsBlank(s[0])
    ensures SkipBlanks(s) == s
  {
  }

  /** A keyword followed by something that cannot continue it. */
  lemma KeywordRead(t: Tables, word: string, rest: string)
    requires Sane(t) && (rest == "" || rest[0] in {' ', '[', '\"', '=', '!'})
    ensures Keyword(t, word + rest, word) == Done(rest, ())
  {
    TagRead(word, rest);
  }

  /** Text starting differently is no such keyword. */
  lemma NotKeyword(t: Tables, word: string, s: string)
    requires s == "" || word == "" || s[0] != word[0]
    requires word != ""
    ensures Keyword(t, s, word).Error?
  {
  }

  /** A key that is not the keyword does not read as it. */
  lemma KeyIsNoKeyword(t: Tables, word: string, key: string, rest: string)
    requires Sane(t) && PlainKey(word) && PlainKey(key) && key != word
    requires rest != "" && !KeyChar(t)(rest[0])
    ensures Keyword(t, key + rest, word).Error?
  {
    var s := key + rest;
    assert s[|key|] == rest[0] && s[..|key|] == key;
    if |word| < |key| { assert s[|word|..][0] == key[|word|]; }
    assert word <= s ==> forall i :: 0 <= i < |word| ==> s[i] == word[i];
  }

  // ------------------------------------------------------------------- stages

  lemma QuotedRead(value: string, rest: string)
    ensures SkipBlanks(Quoted(value) + rest) == Quoted(value) + rest
    ensures QuotedString(SkipBlanks(Quoted(value) + rest)) == Done(rest, value)
  {
    hide EscapeQuoted;
    assert (Quoted(value) + rest)[0] == '\"';
    QuotedStringUndoesQuoted(value, rest);
  }

  /** A line filter, and that the signs are told apart. */
  lemma LineFilterRead(sign: string, value: string, rest: string)
    requires sign == "|=" || sign == "!=" || sign == "|~" || sign == "!~"
    ensures LineFilter(sign + Quoted(value) + rest, sign) == Done(rest, value)
    ensures forall other :: other in {"|=", "!=", "|~", "!~"} && other != sign ==> LineFilter(sign + Quoted(value) + rest, other).Error?
  {
    hide EscapeQuoted, QuotedString, SkipBlanks;
    var s := sign + Quoted(value) + rest;
    assert s == sign + (Quoted(value) + rest);
    TagRead(sign, Quoted(value) + rest);
    QuotedRead(value, rest);
    assert s[0] == sign[0] && s[1] == sign[1];
  }

  lemma LineStageRead(t: Tables, sp: Spelling, stage: Stage, rest: string)
    requires stage.LineContains? || stage.LineNotContains? || stage.LineRegex? || stage.LineNotRegex?
    requires PrintableStage(t, sp, stage)
    ensures ParseStage(t, PrintStage(sp, stage) + rest) == Done(rest, stage)
  {
    hide Quoted, LineFilter, ParseExtraction;
    match stage
    case LineContains(text) => LineFilterRead("|=", text, rest);
    case LineNotContains(text) => LineFilterRead("!=", text, rest);
    case LineRegex(pattern) => LineFilterRead("|~", pattern, rest);
    case LineNotRegex(pattern) => LineFilterRead("!~", pattern, rest);
  }

  /** Behind a bar and a word no line filter is read. */
  lemma BarredStage(t: Tables, body: string)
    requires body != "" && body[0] != '=' && body[0] != '~' && !IsBlank(body[0])
    ensures ParseStage(t, "|" + body) == ParseExtraction(t, "|" + body)
    ensures Tag("|" + body, "|") == Done(body, ()) && SkipBlanks(body) == body
  {
    var s := "|" + body;
    assert s[0] == '|' && s[1] == body[0] && s[1..] == body;
    assert LineFilter(s, "|=").Error? && LineFilter(s, "!=").Error? && LineFilter(s, "|~").Error? && LineFilter(s, "!~").Error?;
  }

  lemma JsonRead(t: Tables, rest: string)
    requires Sane(t) && Stops(rest)
    ensures ParseExtraction(t, "|" + ("json" + rest)) == Done(rest, JsonExtract)
  {
    BarredStage(t, "json" + rest);
    KeywordRead(t, "json", rest);
  }

  lemma LogfmtRead(t: Tables, rest: string)
    requires Sane(t) && Stops(rest)
    ensures ParseExtraction(t, "|" + ("logfmt" + rest)) == Done(rest, LogfmtExtract)
  {
    var body := "logfmt" + rest;
    BarredStage(t, body);
    NotKeyword(t, "json", body);
    KeywordRead(t, "logfmt", rest);
  }

  /** A key stands before anything that is no key character. */
  lemma KeyRead(t: Tables, key: string, tail: string)
    requires Sane(t) && PlainKey(key) && (Stops(tail) || tail[0] in {'=', '!', '<', '>'})
    ensures TakeWhile1(key + tail, KeyChar(t)) == Done(tail, key)
    ensures !IsBlank((key + tail)[0]) && (key + tail)[0] != '=' && (key + tail)[0] != '~'
  {
    assert (key + tail)[0] == key[0];
    WordRead(key, tail, KeyChar(t));
  }

  lemma UnwrapRead(t: Tables, field: string, rest: string)
    requires Sane(t) && Stops(rest) && PlainKey(field)
    ensures ParseExtraction(t, "|" + ("unwrap" + (" " + field + rest))) == Done(rest, Unwrap(field))
  {
    hide Sane, PlainKey, Keyword, TakeWhile1, ParseStage;
    var tail := " " + field + rest;
    var body := "unwrap" + tail;
    BarredStage(t, body);
    NotKeyword(t, "json", body);
    NotKeyword(t, "logfmt", body);
    KeywordRead(t, "unwrap", tail);
    assert tail == " " + (field + rest);
    KeyRead(t, field, rest);
    SkipsBlank(" ", field + rest);
  }

  lemma RegexpRead(t: Tables, pattern: string, rest: string)
    requires Sane(t) && t.compiles(pattern)
    ensures ParseExtraction(t, "|" + ("regexp" + (Quoted(pattern) + rest))) == Done(rest, RegexpExtract(pattern))
  {
    hide EscapeQuoted, QuotedString;
    var tail := Quoted(pattern) + rest;
    var body := "regexp" + tail;
    BarredStage(t, body);
    NotKeyword(t, "json", body);
    NotKeyword(t, "logfmt", body);
    NotKeyword(t, "unwrap", body);
    KeywordRead(t, "regexp", tail);
    QuotedRead(pattern, rest);
  }

  /** Behind a bar and a key that is no keyword stands a label filter. */
  lemma KeyStage(t: Tables, key: string, tail: string)
    requires Sane(t) && PlainKey(key) && !IsKeyword(key)
    requires tail != "" && tail[0] in {'=', '!', '<', '>'}
    ensures ParseExtraction(t, "|" + (key + tail)) == ParseLabelFilter(t, key + tail)
    ensures TakeWhile1(key + tail, KeyChar(t)) == Done(tail, key) && SkipBlanks(tail) == tail
  {
    hide Sane, PlainKey, Keyword, TakeWhile1, ParseStage, ParseLabelFilter;
    var body := key + tail;
    KeyRead(t, key, tail);
    BarredStage(t, body);
    NotAnyKeyword(t, key, tail);
    NoBlank(tail);
  }

  lemma NotAnyKeyword(t: Tables, key: string, tail: string)
    requires Sane(t) && PlainKey(key) && !IsKeyword(key)
    requires tail != "" && tail[0] in {'=', '!', '<', '>'}
    ensures forall word :: word in {"json", "logfmt", "unwrap", "regexp"} ==> Keyword(t, key + tail, word).Error?
  {
    KeyIsNoKeyword(t, "json", key, tail);
    KeyIsNoKeyword(t, "logfmt", key, tail);
    KeyIsNoKeyword(t, "unwrap", key, tail);
    KeyIsNoKeyword(t, "regexp", key, tail);
  }

  lemma NoCompareOp(tail: string)
    requires tail != "" && (tail[0] == '=' || tail[0] == '!')
    ensures ParseCompareOp(tail).Error?
  {
  }

  lemma QuotedStarts(value: string, rest: string)
    ensures Quoted(value) + rest != "" && (Quoted(value) + rest)[0] == '\"'
  {
    hide EscapeQuoted;
  }

  lemma LabelFilterRead(t: Tables, key: string, op: MatchOp, value: string, rest: string)
    requires Sane(t) && PlainKey(key) && !IsKeyword(key) && (op == Regex || op == NotRegex ==> t.compiles(value))
    ensures ParseExtraction(t, "|" + (key + (OpText(op) + (Quoted(value) + rest)))) == Done(rest, LabelFilter(key, op, value))
  {
    hide Quoted, QuotedString, ParseExtraction, Sane, PlainKey, KeyChar, TakeWhile1, ParseOp, ParseCompareOp, ParseComparison, SkipBlanks;
    var tail := OpText(op) + (Quoted(value) + rest);
    assert tail[0] == OpText(op)[0];
    KeyStage(t, key, tail);
    NoCompareOp(tail);
    QuotedStarts(value, rest);
    OpReadBack(op, Quoted(value) + rest);
    QuotedRead(value, rest);
  }

  lemma CompareOpRead(cmp: CompareOp, tail: string)
    requires tail != "" && tail[0] != '='
    ensures ParseCompareOp(CompareText(cmp) + tail) == Done(tail, cmp)
  {
    var s := CompareText(cmp) + tail;
    assert s[0] == CompareText(cmp)[0] && s[|CompareText(cmp)|..] == tail;
    assert s[1] == if |CompareText(cmp)| == 1 then tail[0] else '=';
  }

  lemma CompareFilterRead(t: Tables, key: string, cmp: CompareOp, digits: string, bound: real, rest: string)
    requires Sane(t) && Stops(rest) && PlainKey(key) && !IsKeyword(key)
    requires digits != "" && (forall i :: 0 <= i < |digits| ==> NumberChar(digits[i])) && t.number(digits) == Some(bound)
    ensures ParseExtraction(t, "|" + (key + (CompareText(cmp) + (digits + rest)))) == Done(rest, CompareFilter(key, cmp, bound))
  {
    hide ParseExtraction, Sane, PlainKey;
    var tail := CompareText(cmp) + (digits + rest);
    assert tail[0] == CompareText(cmp)[0] && (digits + rest)[0] == digits[0];
    KeyStage(t, key, tail);
    CompareOpRead(cmp, digits + rest);
    NoBlank(digits + rest);
    WordRead(digits, rest, NumberChar);
  }

  /** A printed stage is read back. */
  lemma StageReadBack(t: Tables, sp: Spelling, stage: Stage, rest: string)
    requires Sane(t) && PrintableStage(t, sp, stage) && Stops(rest)
    ensures ParseStage(t, PrintStage(sp, stage) + rest) == Done(rest, stage)
  {
    hide Quoted, OpText, CompareText, ParseExtraction, ParseStage, Sane, PlainKey, IsKeyword, Stops, NumberChar;
    var s := PrintStage(sp, stage) + rest;
    match stage
    case JsonExtract =>
      assert s == "|" + ("json" + rest);
      BarredStage(t, "json" + rest);
      JsonRead(t, rest);
    case LogfmtExtract =>
      assert s == "|" + ("logfmt" + rest);
      BarredStage(t, "logfmt" + rest);
      LogfmtRead(t, rest);
    case Unwrap(field) =>
      assert s == "|" + ("unwrap" + (" " + field + rest));
      BarredStage(t, "unwrap" + (" " + field + rest));
      UnwrapRead(t, field, rest);
    case RegexpExtract(pattern) =>
      assert s == "|" + ("regexp" + (Quoted(pattern) + rest));
      BarredStage(t, "regexp" + (Quoted(pattern) + rest));
      RegexpRead(t, pattern, rest);
    case LabelFilter(key, op, value) =>
      assert s == "|" + (key + (OpText(op) + (Quoted(value) + rest)));
      KeyStarts(t, key, OpText(op) + (Quoted(value) + rest));
      LabelFilterRead(t, key, op, value, rest);
    case CompareFilter(key, cmp, bound) =>
      assert s == "|" + (key + (CompareText(cmp) + (sp.number(bound) + rest)));
      KeyStarts(t, key, CompareText(cmp) + (sp.number(bound) + rest));
      CompareFilterRead(t, key, cmp, sp.number(bound), bound, rest);
    case _ =>
      LineStageRead(t, sp, stage, rest);
  }

  lemma KeyStarts(t: Tables, key: string, tail: string)
    requires PlainKey(key)
    ensures ParseStage(t, "|" + (key + tail)) == ParseExtraction(t, "|" + (key + tail))
  {
    assert (key + tail)[0] == key[0];
    BarredStage(t, key + tail);
  }

  /** A keyword is read as one even where a label of that name is meant. */
  lemma KeywordTaken(t: Tables, key: string, tail: string)
    requires Sane(t) && IsKeyword(key) && tail != "" && (tail[0] == '=' || tail[0] == '!')
    ensures var p := ParseExtraction(t, "|" + (key + tail)); p.Done? ==> !p.value.LabelFilter?
  {
    hide Sane, Keyword, TakeWhile1, QuotedString, ParseStage, ParseLabelFilter;
    var body := key + tail;
    assert body[0] == key[0];
    BarredStage(t, body);
    KeywordRead(t, key, tail);
    if key != "json" { NotKeyword(t, "json", body); }
    if key == "unwrap" || key == "regexp" { NotKeyword(t, "logfmt", body); }
    if key == "regexp" { NotKeyword(t, "unwrap", body); }
    NoBlank(tail);
    NoKeyNorQuote(t, tail);
  }

  lemma NoKeyNorQuote(t: Tables, tail: string)
    requires Sane(t) && tail != "" && (tail[0] == '=' || tail[0] == '!')
    ensures TakeWhile1(tail, KeyChar(t)).Error? && QuotedString(tail).Error?
  {
    assert SpanOf(tail, KeyChar(t)) == 0;
  }

  /** A filter on a label is read back iff the label is not named like a stage. */
  lemma LabelFilterReadIff(t: Tables, key: string, op: MatchOp, value: string, rest: string)
    requires Sane(t) && PlainKey(key) && (op == Regex || op == NotRegex ==> t.compiles(value))
    ensures ParseStage(t, "|" + (key + (OpText(op) + (Quoted(value) + rest)))) == Done(rest, LabelFilter(key, op, value)) <==> !IsKeyword(key)
  {
    hide ParseExtraction, ParseStage, Quoted, Sane;
    var tail := OpText(op) + (Quoted(value) + rest);
    assert tail[0] == OpText(op)[0];
    KeyStarts(t, key, tail);
    if IsKeyword(key) { KeywordTaken(t, key, tail); } else { LabelFilterRead(t, key, op, value, rest); }
  }

  // ------------------------------------------------------------ whole queries

  /** The character a printed stage starts with is no space. */
  lemma StageStarts(t: Tables, sp: Spelling, stage: Stage, rest: string)
    requires Sane(t)
    ensures PrintStage(sp, stage) != ""
    ensures var s := PrintStage(sp, stage) + rest;
            TrimStart(t, " " + s) == s && TrimStart(t, s) == s && SkipBlanks(" " + s) == s
  {
    hide Quoted;
    var s := PrintStage(sp, stage) + rest;
    assert s[0] == '|' || s[0] == '!';
    assert (" " + s)[0] == ' ' && (" " + s)[1..] == s;
  }

  /** Where no stage follows: the end or a range. */
  predicate EndsStages(rest: string) { rest == "" || rest[0] == '[' }

  lemma NoStage(t: Tables, rest: string)
    requires Sane(t) && EndsStages(rest)
    ensures TrimStart(t, rest) == rest && SkipBlanks(rest) == rest && ParseStage(t, rest).Error?
  {
  }

  lemma {:induction false} StagesReadBack(t: Tables, sp: Spelling, stages: seq<Stage>, rest: string)
    requires Sane(t) && (forall i :: 0 <= i < |stages| ==> PrintableStage(t, sp, stages[i])) && EndsStages(rest)
    ensures Stages(t, PrintStages(sp, stages) + rest) == Done(rest, stages)
    ensures Stages(t, SkipBlanks(PrintStages(sp, stages) + rest)) == Done(rest, stages)
  {
    hide Sane, PrintableStage, PrintStage, ParseStage, SkipBlanks, TrimStart;
    if stages == [] {
      NoStage(t, rest);
      assert PrintStages(sp, stages) + rest == rest;
    } else {
      var more := PrintStages(sp, stages[1..]) + rest;
      var s := PrintStage(sp, stages[0]) + more;
      assert PrintStages(sp, stages) + rest == " " + s;
      StagesReadBack(t, sp, stages[1..], rest);
      StageStarts(t, sp, stages[0], more);
      StageReadBack(t, sp, stages[0], more);
      assert [stages[0]] + stages[1..] == stages;
    }
  }

  lemma SelectionReadBack(t: Tables, sp: Spelling, x: Selection, rest: string)
    requires Sane(t) && PrintableSelection(t, sp, x) && EndsStages(rest)
    ensures ParseSelection(t, PrintSelection(sp, x) + rest) == Done(rest, x)
  {
    hide Sane, AllPlain, PrintableStage, ParseSelector, Stages, SkipBlanks, PrintSelector, PrintStages;
    var tail := PrintStages(sp, x.stages) + rest;
    assert PrintSelection(sp, x) + rest == PrintSelector(x.matchers) + tail;
    SelectorReadBack(t, x.matchers, tail);
    StagesReadBack(t, sp, x.stages, rest);
  }

  lemma SelectionStarts(sp: Spelling, x: Selection)
    ensures PrintSelection(sp, x) != "" && PrintSelection(sp, x)[0] == '{'
  {
    assert PrintSelector(x.matchers)[0] == '{';
  }

  lemma FuncRead(func: MetricFunc, rest: string)
    ensures ParseMetricFunc(FuncText(func) + rest) == Done(rest, func)
  {
    var s, word := FuncText(func) + rest, FuncText(func);
    TagRead(word, rest);
    assert s[0] == word[0] && s[1] == word[1] && s[2] == word[2];
  }

  lemma RangeRead(t: Tables, sp: Spelling, range: nat, rest: string)
    requires Sane(t) && PrintableRange(t, sp, range)
    ensures ParseRange(t, "[" + (sp.duration(range) + ("]" + rest))) == Done(rest, range)
  {
    var text := sp.duration(range);
    var tail := "]" + rest;
    TagRead("[", text + tail);
    assert tail[0] == ']';
    WordRead(text, tail, t.alphanumeric);
    TagRead("]", rest);
  }

  lemma MetricReadBack(t: Tables, sp: Spelling, func: MetricFunc, inner: Selection, range: nat)
    requires Sane(t) && PrintableSelection(t, sp, inner) && PrintableRange(t, sp, range)
    ensures ParseMetricQuery(t, PrintExpr(sp, MetricQuery(func, inner, range))) == Done("", MetricQuery(func, inner, range))
  {
    hide Sane, PrintableSelection, PrintableRange, ParseSelection, ParseRange, ParseMetricFunc, PrintSelection, FuncText;
    var close := "[" + (sp.duration(range) + "])");
    var body := PrintSelection(sp, inner) + close;
    FuncRead(func, "(" + body);
    TagRead("(", body);
    SelectionStarts(sp, inner);
    NoBlank(body);
    SelectionReadBack(t, sp, inner, close);
    NoBlank(close);
    assert "])" == "]" + ")";
    RangeRead(t, sp, range, ")");
    assert ")" + "" == ")";
    TagRead(")", "");
  }

  /** Ends in a character that trimming leaves alone. */
  predicate EndsSolid(s: string) {
    s != "" && s[|s| - 1] < 128 as char && !AsciiSpace(s[|s| - 1])
  }

  lemma SolidAppend(a: string, b: string)
    requires EndsSolid(b)
    ensures EndsSolid(a + b)
  {
    assert (a + b)[|a + b| - 1] == b[|b| - 1];
  }

  lemma QuotedEndsSolid(before: string, value: string)
    ensures EndsSolid(before + Quoted(value))
  {
    hide EscapeQuoted;
    var s := before + Quoted(value);
    assert s[|s| - 1] == Quoted(value)[|Quoted(value)| - 1] == '\"';
  }

  lemma PlainEndsSolid(before: string, word: string)
    requires word != "" && (PlainKey(word) || forall i :: 0 <= i < |word| ==> NumberChar(word[i]))
    ensures EndsSolid(before + word)
  {
    var s := before + word;
    assert s[|s| - 1] == word[|word| - 1];
  }

  lemma StageEndsSolid(t: Tables, sp: Spelling, stage: Stage)
    requires PrintableStage(t, sp, stage)
    ensures EndsSolid(PrintStage(sp, stage))
  {
    hide Quoted, EndsSolid, PlainKey, IsKeyword;
    var s := PrintStage(sp, stage);
    match stage
    case LineContains(text) => QuotedEndsSolid("|=", text);
    case LineNotContains(text) => QuotedEndsSolid("!=", text);
    case LineRegex(pattern) => QuotedEndsSolid("|~", pattern);
    case LineNotRegex(pattern) => QuotedEndsSolid("!~", pattern);
    case JsonExtract => WordEndsSolid("|", "json");
    case LogfmtExtract => WordEndsSolid("|", "logfmt");
    case Unwrap(field) =>
      KeyNotEmpty(field);
      PlainEndsSolid("|unwrap ", field);
      assert s == "|unwrap " + field;
    case RegexpExtract(pattern) =>
      QuotedEndsSolid("|regexp", pattern);
      assert s == "|regexp" + Quoted(pattern);
    case LabelFilter(key, op, value) =>
      QuotedEndsSolid("|" + (key + OpText(op)), value);
      assert s == "|" + (key + OpText(op)) + Quoted(value);
    case CompareFilter(key, cmp, bound) =>
      PlainEndsSolid("|" + (key + CompareText(cmp)), sp.number(bound));
      assert s == "|" + (key + CompareText(cmp)) + sp.number(bound);
  }

  lemma KeyNotEmpty(key: string)
    requires PlainKey(key)
    ensures key != ""
  {
  }

  lemma WordEndsSolid(before: string, word: string)
    requires word == "json" || word == "logfmt"
    ensures EndsSolid(before + word)
  {
    SolidAppend(before, word);
  }

  lemma {:induction false} StagesEndSolid(t: Tables, sp: Spelling, stages: seq<Stage>)
    requires stages != [] && forall i :: 0 <= i < |stages| ==> PrintableStage(t, sp, stages[i])
    ensures EndsSolid(PrintStages(sp, stages))
  {
    hide PrintableStage, PrintStage, EndsSolid;
    StageEndsSolid(t, sp, stages[0]);
    SolidAppend(" ", PrintStage(sp, stages[0]));
    var first := " " + PrintStage(sp, stages[0]);
    if |stages| == 1 {
      assert PrintStages(sp, stages) == first + "" == first;
    } else {
      StagesEndSolid(t, sp, stages[1..]);
      SolidAppend(first, PrintStages(sp, stages[1..]));
    }
  }

  lemma ExprEndsSolid(t: Tables, sp: Spelling, e: LogQLExpr)
    requires Printable(t, sp, e)
    ensures EndsSolid(PrintExpr(sp, e))
  {
    hide PrintSelector, PrintStage, PrintableStage;
    match e
    case StreamQuery(x) =>
      if x.stages == [] {
        assert PrintSelection(sp, x) == PrintSelector(x.matchers);
        SelectorEndsSolid(x.matchers);
      } else {
        StagesEndSolid(t, sp, x.stages);
        SolidAppend(PrintSelector(x.matchers), PrintStages(sp, x.stages));
      }
    case MetricQuery(func, inner, range) =>
      SolidAppend(FuncText(func) + ("(" + (PrintSelection(sp, inner) + ("[" + sp.duration(range)))), "])");
      assert PrintExpr(sp, e) == (FuncText(func) + ("(" + (PrintSelection(sp, inner) + ("[" + sp.duration(range))))) + "])";
  }

  lemma SelectorEndsSolid(ms: seq<LabelMatcher>)
    ensures EndsSolid(PrintSelector(ms))
  {
    hide PrintMatcher;
    assert PrintSelector(ms)[|PrintSelector(ms)| - 1] == '}';
  }

  lemma ExprStarts(sp: Spelling, e: LogQLExpr)
    ensures PrintExpr(sp, e) != "" && (PrintExpr(sp, e)[0] == '{' || 'a' <= PrintExpr(sp, e)[0] <= 'z')
  {
    match e
    case StreamQuery(x) => SelectionStarts(sp, x);
    case MetricQuery(func, _, _) => assert PrintExpr(sp, e)[0] == FuncText(func)[0];
  }

  lemma NothingToTrim(t: Tables, s: string)
    requires Sane(t) && EndsSolid(s) && (s[0] == '{' || 'a' <= s[0] <= 'z')
    ensures TrimEnd(t, TrimStart(t, s)) == s
  {
  }

  /** Printing then parsing is the identity on every printable expression. */
  lemma ExprReadBack(t: Tables, sp: Spelling, e: LogQLExpr)
    requires Sane(t) && Printable(t, sp, e)
    ensures ParseLogQL(t, PrintExpr(sp, e)) == Parsed(e)
  {
    hide Sane, PrintableSelection, PrintableRange, ParseSelection, PrintSelection, ParseMetricQuery, TrimStart, TrimEnd, FuncText, EndsSolid;
    var s := PrintExpr(sp, e);
    ExprEndsSolid(t, sp, e);
    ExprStarts(sp, e);
    NothingToTrim(t, s);
    NoStage(t, "");
    match e
    case StreamQuery(x) =>
      NoMetricQuery(t, sp, x);
      SelectionReadBack(t, sp, x, "");
      assert PrintSelection(sp, x) + "" == s;
    case MetricQuery(func, inner, range) =>
      MetricReadBack(t, sp, func, inner, range);
  }

  lemma NoMetricQuery(t: Tables, sp: Spelling, x: Selection)
    ensures ParseMetricQuery(t, PrintSelection(sp, x)).Error?
  {
    hide PrintSelection, ParseMetricFunc, ParseSelection, ParseRange;
    SelectionStarts(sp, x);
    NoFunc(PrintSelection(sp, x));
  }

  lemma NoFunc(s: string)
    requires s != "" && s[0] == '{'
    ensures ParseMetricFunc(s).Error?
  {
  }

  /** So different expressions are printed differently. */
  lemma PrintInjective(t: Tables, sp: Spelling, a: LogQLExpr, b: LogQLExpr)
    requires Sane(t) && Printable(t, sp, a) && Printable(t, sp, b) && PrintExpr(sp, a) == PrintExpr(sp, b)
    ensures a == b
  {
    ExprReadBack(t, sp, a);
    ExprReadBack(t, sp, b);
  }
}
