/** TraceQL span conditions and what they mean for one span. */
module SpanConditions {
  import opened Options
  import opened Interning
  import opened TraceIndexing
  import opened TraceStore

  datatype CompareOp = Eq | Neq | Gt | Lt | Gte | Lte | Regex
  datatype AttrScope = ResourceScope | SpanScope
  datatype SpanValue = StringVal(s: string) | IntVal(i: int) | FloatVal(f: real) | BoolVal(b: bool)

  datatype SpanCondition =
    | Attribute(scope: AttrScope, attr: string, op: CompareOp, value: SpanValue)
    | Duration(op: CompareOp, nanos: nat)
    | Status(op: CompareOp, status: SpanStatus)
    | Kind(op: CompareOp, kind: SpanKind)
    | Name(op: CompareOp, name: string)
    | EventName(op: CompareOp, name: string)
    | EventAttribute(attr: string, op: CompareOp, value: SpanValue)

  datatype LogicalOp = And | Or

  /** The regex engine and the string-to-integer parser. */
  datatype Engine = Engine(compiles: string -> bool, isMatch: (string, string) -> bool, parseInt: string -> Option<int>)

  const F64_EPSILON: real := 0.0000000000000002220446049250313080847263336181640625

  // -------------------------------------------------------------- comparisons

  function CompareInt(a: int, op: CompareOp, b: int): bool {
    match op
    case Eq => a == b
    case Neq => a != b
    case Gt => a > b
    case Lt => a < b
    case Gte => a >= b
    case Lte => a <= b
    case Regex => false
  }

  function CompareReal(a: real, op: CompareOp, b: real): bool {
    var distance := if a >= b then a - b else b - a;
    match op
    case Eq => distance < F64_EPSILON
    case Neq => distance >= F64_EPSILON
    case Gt => a > b
    case Lt => a < b
    case Gte => a >= b
    case Lte => a <= b
    case Regex => false
  }

  /** Lexicographic order by code point. */
  predicate StringLess(a: string, b: string) {
    if b == "" then false
    else if a == "" then true
    else a[0] < b[0] || (a[0] == b[0] && StringLess(a[1..], b[1..]))
  }

  predicate CompareString(actual: string, op: CompareOp, expected: string, pattern: Option<string>, eng: Engine) {
    match op
    case Eq => actual == expected
    case Neq => actual != expected
    case Regex => pattern.Some? && eng.isMatch(pattern.value, actual)
    case Gt => StringLess(expected, actual)
    case Lt => StringLess(actual, expected)
    case Gte => actual == expected || StringLess(expected, actual)
    case Lte => actual == expected || StringLess(actual, expected)
  }

  predicate CompareAttribute(r: Interner, v: AttributeValue, op: CompareOp, target: SpanValue, pattern: Option<string>, eng: Engine)
    requires v.StringValue? ==> r.Knows(v.s)
  {
    match (v, target)
    case (StringValue(s), StringVal(t)) => CompareString(r.Resolve(s), op, t, pattern, eng)
    case (IntValue(i), IntVal(t)) => CompareInt(i, op, t)
    case (IntValue(i), FloatVal(t)) => CompareReal(i as real, op, t)
    case (FloatValue(f), FloatVal(t)) => CompareReal(f, op, t)
    case (FloatValue(f), IntVal(t)) => CompareReal(f, op, t as real)
    case (StringValue(s), IntVal(t)) =>
      var parsed := eng.parseInt(r.Resolve(s));
      parsed.Some? && CompareInt(parsed.value, op, t)
    case (BoolValue(b), BoolVal(t)) => if op == Eq then b == t else if op == Neq then b != t else false
    case _ => false
  }

  /** The compiled pattern a condition carries: only attribute and name conditions get one. */
  function PatternOf(c: SpanCondition, eng: Engine): Option<string> {
    match c
    case Attribute(_, _, Regex, StringVal(s)) => if eng.compiles(s) then Some(s) else None
    case Name(Regex, s) => if eng.compiles(s) then Some(s) else None
    case _ => None
  }

  // ------------------------------------------------------------ one condition

  /** The keys under which an attribute condition finds its attribute. */
  predicate IsKeyFor(scope: AttrScope, attr: string, key: string) {
    match scope
    case ResourceScope => key == "resource." + attr || key == attr
    case SpanScope => key == "span." + attr
  }

  /** Attribute `i` is the first whose key fits. */
  predicate FirstAnswering(r: Interner, attributes: seq<Attribute>, scope: AttrScope, attr: string, i: nat)
    requires AttributesKnown(r, attributes)
  {
    && i < |attributes| && IsKeyFor(scope, attr, r.Resolve(attributes[i].0))
    && forall j :: 0 <= j < i ==> !IsKeyFor(scope, attr, r.Resolve(attributes[j].0))
  }

  /** The value of the first attribute whose key fits. */
  function FindAttribute(r: Interner, attributes: seq<Attribute>, scope: AttrScope, attr: string): (v: Option<AttributeValue>)
    requires AttributesKnown(r, attributes)
    ensures v.Some? ==> exists i: nat :: FirstAnswering(r, attributes, scope, attr, i) && attributes[i].1 == v.value
    ensures v.None? ==> forall i :: 0 <= i < |attributes| ==> !IsKeyFor(scope, attr, r.Resolve(attributes[i].0))
  {
    if attributes == [] then None
    else if IsKeyFor(scope, attr, r.Resolve(attributes[0].0)) then
      assert FirstAnswering(r, attributes, scope, attr, 0);
      Some(attributes[0].1)
    else
      assert AttributesKnown(r, attributes[1..]);
      var found := FindAttribute(r, attributes[1..], scope, attr);
      assert found.Some? ==> exists i: nat :: FirstAnswering(r, attributes, scope, attr, i) && attributes[i].1 == found.value by {
        if found.Some? {
          var i: nat :| FirstAnswering(r, attributes[1..], scope, attr, i) && attributes[1..][i].1 == found.value;
          assert FirstAnswering(r, attributes, scope, attr, i + 1);
        }
      }
      found
  }

  predicate EventCarries(r: Interner, e: SpanEvent, attr: string)
    requires AttributesKnown(r, e.attributes)
  {
    exists i :: 0 <= i < |e.attributes| && r.Resolve(e.attributes[i].0) == attr
  }

  predicate EventMatches(r: Interner, e: SpanEvent, attr: string, op: CompareOp, value: SpanValue, eng: Engine)
    requires AttributesKnown(r, e.attributes)
  {
    exists i :: 0 <= i < |e.attributes| && r.Resolve(e.attributes[i].0) == attr
             && CompareAttribute(r, e.attributes[i].1, op, value, None, eng)
  }

  predicate SpanMatches(r: Interner, s: Span, c: SpanCondition, eng: Engine)
    requires SpanKnown(r, s)
  {
    match c
    case Duration(op, nanos) => CompareInt(if s.durationNs < 0 then 0 else s.durationNs, op, nanos)
    case Status(op, status) => if op == Eq then s.status == status else if op == Neq then s.status != status else false
    case Name(op, name) => CompareString(r.Resolve(s.name), op, name, PatternOf(c, eng), eng)
    case Kind(op, kind) => if op == Eq then s.kind == kind else if op == Neq then s.kind != kind else false
    case EventName(op, name) =>
      exists i :: 0 <= i < |s.events| && CompareString(r.Resolve(s.events[i].name), op, name, None, eng)
    case EventAttribute(attr, op, value) =>
      || (exists i :: 0 <= i < |s.events| && EventMatches(r, s.events[i], attr, op, value, eng))
      || (op == Neq && forall i :: 0 <= i < |s.events| ==> !EventCarries(r, s.events[i], attr))
    case Attribute(scope, attr, op, value) =>
      match FindAttribute(r, s.attributes, scope, attr)
      case Some(v) =>
        assert v.StringValue? ==> r.Knows(v.s);
        CompareAttribute(r, v, op, value, PatternOf(c, eng), eng)
      case None => op == Neq
  }

  // ---------------------------------------------------- conditions in a selector

  /** `ops[i]` stands between `conds[i]` and `conds[i + 1]`. */
  predicate WellFormed(conds: seq<SpanCondition>, ops: seq<LogicalOp>) {
    if conds == [] then ops == [] else |ops| + 1 == |conds|
  }

  /** The and-groups of a selector, split at every `||`. */
  function Groups(conds: seq<SpanCondition>, ops: seq<LogicalOp>): (gs: seq<seq<SpanCondition>>)
    requires |ops| + 1 == |conds|
    ensures |gs| > 0 && |gs[0]| > 0 && gs[0][0] == conds[0]
  {
    if ops == [] then [conds]
    else
      var rest := Groups(conds[1..], ops[1..]);
      if ops[0] == And then [[conds[0]] + rest[0]] + rest[1..] else [[conds[0]]] + rest
  }

  predicate AllMatch(r: Interner, s: Span, group: seq<SpanCondition>, eng: Engine)
    requires SpanKnown(r, s)
  {
    forall i :: 0 <= i < |group| ==> SpanMatches(r, s, group[i], eng)
  }

  predicate AnyGroupMatches(r: Interner, s: Span, gs: seq<seq<SpanCondition>>, eng: Engine)
    requires SpanKnown(r, s)
  {
    exists i :: 0 <= i < |gs| && AllMatch(r, s, gs[i], eng)
  }

  /** A span satisfies a selector iff it is empty or one of its and-groups holds throughout. */
  predicate Selected(r: Interner, s: Span, conds: seq<SpanCondition>, ops: seq<LogicalOp>, eng: Engine)
    requires SpanKnown(r, s) && WellFormed(conds, ops)
  {
    conds == [] || AnyGroupMatches(r, s, Groups(conds, ops), eng)
  }

  lemma AnyGroupCons(r: Interner, s: Span, gs: seq<seq<SpanCondition>>, eng: Engine)
    requires SpanKnown(r, s) && gs != []
    ensures AnyGroupMatches(r, s, gs, eng) <==> AllMatch(r, s, gs[0], eng) || AnyGroupMatches(r, s, gs[1..], eng)
  {
    if AnyGroupMatches(r, s, gs, eng) {
      var i :| 0 <= i < |gs| && AllMatch(r, s, gs[i], eng);
      if i > 0 { assert gs[1..][i - 1] == gs[i]; }
    }
    if AnyGroupMatches(r, s, gs[1..], eng) {
      var i :| 0 <= i < |gs| - 1 && AllMatch(r, s, gs[1..][i], eng);
      assert gs[i + 1] == gs[1..][i];
    }
  }

  lemma AllMatchCons(r: Interner, s: Span, group: seq<SpanCondition>, eng: Engine)
    requires SpanKnown(r, s) && group != []
    ensures AllMatch(r, s, group, eng) <==> SpanMatches(r, s, group[0], eng) && AllMatch(r, s, group[1..], eng)
  {
    if AllMatch(r, s, group[1..], eng) && SpanMatches(r, s, group[0], eng) {
      forall i | 0 <= i < |group| ensures SpanMatches(r, s, group[i], eng) {
        if i > 0 { assert group[1..][i - 1] == group[i]; }
      }
    }
  }

  /** The verdict still open when the and-group before `conds` has come out as `current`. */
  ghost predicate Pending(r: Interner, s: Span, current: bool, conds: seq<SpanCondition>, ops: seq<LogicalOp>, eng: Engine)
    requires SpanKnown(r, s) && |ops| + 1 == |conds|
  {
    var gs := Groups(conds, ops);
    (current && AllMatch(r, s, gs[0][1..], eng)) || AnyGroupMatches(r, s, gs[1..], eng)
  }

  lemma PendingStep(r: Interner, s: Span, current: bool, conds: seq<SpanCondition>, ops: seq<LogicalOp>, eng: Engine)
    requires SpanKnown(r, s) && |ops| + 1 == |conds| && ops != []
    ensures Pending(r, s, current, conds, ops, eng) <==>
      var next := SpanMatches(r, s, conds[1], eng);
      if ops[0] == And then Pending(r, s, current && next, conds[1..], ops[1..], eng)
      else current || Pending(r, s, next, conds[1..], ops[1..], eng)
  {
    var gs, rest := Groups(conds, ops), Groups(conds[1..], ops[1..]);
    AllMatchCons(r, s, rest[0], eng);
    if ops[0] == And {
      assert gs[0][1..] == rest[0] && gs[1..] == rest[1..];
    } else {
      assert gs[0][1..] == [] && gs[1..] == rest;
      AnyGroupCons(r, s, rest, eng);
    }
  }

  /** Left to right, `&&` binding tighter than `||`, stopping at the first group that holds. */
  method SpanMatchesConditions(r: Interner, s: Span, conds: seq<SpanCondition>, ops: seq<LogicalOp>, eng: Engine)
    returns (matches: bool)
    requires SpanKnown(r, s) && WellFormed(conds, ops)
    ensures matches == Selected(r, s, conds, ops, eng)
  {
    if conds == [] { return true; }
    var current := SpanMatches(r, s, conds[0], eng);
    AnyGroupCons(r, s, Groups(conds, ops), eng);
    AllMatchCons(r, s, Groups(conds, ops)[0], eng);
    assert conds[0..] == conds && ops[0..] == ops;
    for i := 0 to |ops|
      invariant Selected(r, s, conds, ops, eng) <==> Pending(r, s, current, conds[i..], ops[i..], eng)
    {
      PendingStep(r, s, current, conds[i..], ops[i..], eng);
      assert conds[i..][1..] == conds[i + 1..] && ops[i..][1..] == ops[i + 1..];
      var next := SpanMatches(r, s, conds[i + 1], eng);
      if ops[i] == And {
        current := current && next;
      } else {
        if current { return true; }
        current := next;
      }
    }
    matches := current;
  }

  /** Without `||` there is a single group: every condition. */
  lemma {:induction false} NoOrSingleGroup(conds: seq<SpanCondition>, ops: seq<LogicalOp>)
    requires |ops| + 1 == |conds| && Or !in ops
    ensures Groups(conds, ops) == [conds]
  {
    if ops != [] {
      assert ops[0] == And;
      NoOrSingleGroup(conds[1..], ops[1..]);
      assert [conds[0]] + conds[1..] == conds;
    }
  }
}
