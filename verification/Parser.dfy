/** Parsing by a compiled plan: one loop over the plan, with and without the fast paths. */
module Parsers {
  import opened FastPaths
  import opened Strings
  import opened StrictParsers
  import opened StructuralIndex
  import opened Text
  import opened Validation

  const SCHEME_VERB: byte := 0x74
  const HOST_VERB: byte := 0x68
  const PORT_VERB: byte := 0x64
  const USER_VERB: byte := 0x75
  const PASSWORD_VERB: byte := 0x70
  const NO_PLAN_INDEX: int := -1

  datatype DelimiterClass = NoClass | SchemeSeparator | Classed(class_: Class)

  /** A literal (`field` 0), or a verb with the first literal after it. */
  datatype Op = Op(
    delimiterStart: nat,
    delimiterLength: nat,
    credentialEnd: int,
    field: byte,
    delimiterByte: byte,
    delimiterClass: DelimiterClass,
    consumeDelimiter: bool)

  datatype Kind = Generic | StrictSchemeHostPort | StrictFullCredentials

  datatype Parser = Parser(format: seq<byte>, plan: seq<Op>, strict: bool, hasScheme: bool, kind: Kind) {
    /** What `New` guarantees of a plan and the parser relies on. */
    ghost predicate Valid() {
      forall i :: 0 <= i < |plan| ==> OpOk(i)
    }

    ghost predicate OpOk(i: int)
      requires 0 <= i < |plan|
    {
      var op := plan[i];
      && op.delimiterStart + op.delimiterLength <= |format|
      && (op.delimiterLength == 1 ==> op.delimiterByte == format[op.delimiterStart])
      && (op.delimiterLength != 1 ==> op.delimiterByte == 0)
      && (op.delimiterClass.Classed? ==>
            op.delimiterLength == 1 && forall x :: InClass(op.delimiterClass.class_, x) <==> x == op.delimiterByte)
      && (op.delimiterClass.SchemeSeparator? ==> Delimiter(op) == SEPARATOR)
      && (op.field == 0 ==> op.delimiterLength >= 1)
      && (op.field != 0 ==> op.credentialEnd == NO_PLAN_INDEX || i < op.credentialEnd < |plan|)
      && (op.field != 0 && op.consumeDelimiter ==> i + 1 < |plan|)
    }

    function Delimiter(op: Op): seq<byte>
      requires op.delimiterStart + op.delimiterLength <= |format|
    {
      format[op.delimiterStart..op.delimiterStart + op.delimiterLength]
    }
  }

  /** The local variables of the parsing loop; `alias` is where the host lies in the input, or -1. */
  datatype State = State(
    proxy: Proxy,
    inputPos: nat,
    hostStart: int,
    hostEnd: nat,
    hostParsed: bool,
    schemeParsed: bool,
    emptyHost: bool,
    emptyPort: bool,
    alias: int)

  ghost predicate StateOk(s: State, input: seq<byte>) {
    && s.inputPos <= |input|
    && (s.hostStart >= 0 ==> s.hostStart <= s.hostEnd <= |input| && s.hostEnd <= s.inputPos)
    && AliasOk(s.proxy.host, s.alias, input)
  }

  const START := State(NO_PROXY, 0, -1, 0, false, false, false, false, -1)

  // ----- assigning fields -----

  /** `assignField`, with `canonical` the canonical form of a scheme value. */
  function Assigned(s: State, field: byte, value: seq<byte>, canonical: seq<byte>, start: nat): State {
    if field == SCHEME_VERB then s.(proxy := s.proxy.(scheme := canonical))
    else if field == HOST_VERB || field == PORT_VERB then
      if s.proxy.host == [] then s.(proxy := s.proxy.(host := value), alias := start)
      else if value != [] then s.(proxy := s.proxy.(host := s.proxy.host + [COLON] + value), alias := -1)
      else s
    else if field == USER_VERB then s.(proxy := s.proxy.(username := value))
    else if field == PASSWORD_VERB then s.(proxy := s.proxy.(password := value))
    else s
  }

  /** A captured value, `input[start..end]`. */
  function Captured(s: State, field: byte, input: seq<byte>, start: nat, end: nat, canonical: seq<byte>): State
    requires start <= end <= |input| && StateOk(s, input) && s.inputPos == start
  {
    var value := input[start..end];
    if field == HOST_VERB then
      s.(proxy := s.proxy.(host := value), inputPos := end, hostStart := start, hostEnd := end,
         hostParsed := value != [],
         emptyHost := s.emptyHost || value == [], alias := start)
    else if field == PORT_VERB then
      var t := s.(emptyPort := s.emptyPort || value == [], inputPos := end);
      if s.hostStart >= 0 && s.hostEnd + 1 == start && input[s.hostEnd] == COLON then
        t.(proxy := s.proxy.(host := input[s.hostStart..end]), alias := s.hostStart)
      else Assigned(t, PORT_VERB, value, canonical, start)
    else
      var t := Assigned(s, field, value, canonical, start).(inputPos := end);
      if field == SCHEME_VERB && value != [] then t.(schemeParsed := true) else t
  }

  /** Lenient parsing when the delimiter is missing; `at` is the distance to the next at sign, or -1. */
  function Missing(s: State, op: Op, input: seq<byte>, start: nat, at: int, canonical: seq<byte>): State
    requires start <= |input| && StateOk(s, input) && s.inputPos == start && (at >= 0 ==> start + at <= |input|)
  {
    if op.field == HOST_VERB then
      Assigned(s, HOST_VERB, input[start..], canonical, start).(
        hostStart := start, hostEnd := |input|, hostParsed := s.hostParsed || start < |input|, inputPos := |input|)
    else if op.field == USER_VERB then
      if at >= 0 then Assigned(s, USER_VERB, input[start..start + at], canonical, start).(inputPos := start + at)
      else if op.delimiterLength == 1 && op.delimiterByte == COLON then
        Assigned(s, USER_VERB, input[start..], canonical, start).(inputPos := |input|)
      else s
    else if op.field == PASSWORD_VERB then
      if at >= 0 then Assigned(s, PASSWORD_VERB, input[start..start + at], canonical, start).(inputPos := start + at)
      else s
    else Assigned(s, op.field, input[start..], canonical, start).(inputPos := |input|)
  }

  /** `username@` in the place of `username:password@`. */
  function UserOnly(s: State, input: seq<byte>, start: nat, credentialAt: nat): State
    requires start + credentialAt < |input|
  {
    s.(proxy := s.proxy.(username := input[start..start + credentialAt], password := []),
       inputPos := start + credentialAt + 1)
  }

  ghost predicate AliasOk(host: seq<byte>, alias: int, input: seq<byte>) {
    alias >= 0 ==> alias + |host| <= |input| && input[alias..alias + |host|] == host
  }

  lemma SliceAlias(input: seq<byte>, a: nat, b: nat)
    requires a <= b <= |input|
    ensures AliasOk(input[a..b], a, input)
  {
  }

  lemma AssignedOk(s: State, field: byte, input: seq<byte>, start: nat, end: nat, canonical: seq<byte>)
    requires start <= end <= |input| && AliasOk(s.proxy.host, s.alias, input)
    ensures var t := Assigned(s, field, input[start..end], canonical, start);
      && AliasOk(t.proxy.host, t.alias, input) && t.inputPos == s.inputPos
      && t.hostStart == s.hostStart && t.hostEnd == s.hostEnd
  {
    SliceAlias(input, start, end);
    hide AliasOk;
    if s.proxy.host != [] && (field == HOST_VERB || field == PORT_VERB) {
      NoAlias(s.proxy.host + [COLON] + input[start..end], input);
    }
  }

  lemma NoAlias(host: seq<byte>, input: seq<byte>)
    ensures AliasOk(host, -1, input)
  {
  }

  lemma CapturedOk(s: State, field: byte, input: seq<byte>, start: nat, end: nat, canonical: seq<byte>)
    requires start <= end <= |input| && StateOk(s, input) && s.inputPos == start
    ensures StateOk(Captured(s, field, input, start, end, canonical), input)
    ensures Captured(s, field, input, start, end, canonical).inputPos == end
  {
    hide AliasOk;
    hide Assigned;
    SliceAlias(input, start, end);
    AssignedOk(s, field, input, start, end, canonical);
    AssignedOk(s.(emptyPort := s.emptyPort || input[start..end] == [], inputPos := end), PORT_VERB, input, start,
      end, canonical);
    if s.hostStart >= 0 && s.hostEnd + 1 == start {
      SliceAlias(input, s.hostStart, end);
    }
  }

  lemma MissingOk(s: State, op: Op, input: seq<byte>, start: nat, at: int, canonical: seq<byte>)
    requires start <= |input| && StateOk(s, input) && s.inputPos == start && (at >= 0 ==> start + at <= |input|)
    ensures StateOk(Missing(s, op, input, start, at, canonical), input)
  {
    hide AliasOk;
    hide Assigned;
    assert input[start..] == input[start..|input|];
    AssignedOk(s, op.field, input, start, |input|, canonical);
    if at >= 0 {
      AssignedOk(s, op.field, input, start, start + at, canonical);
    }
  }

  // ----- one operation -----

  datatype Step = Go(state: State, next: nat) | Stop(proxy: Proxy, error: ParseError)

  /** A bracketed host is captured at least through its closing bracket. */
  function AfterBracket(input: seq<byte>, start: nat): (p: nat)
    requires start <= |input|
    ensures start <= p <= |input|
  {
    var close := IndexByte(input, RIGHT_BRACKET, start);
    if close < 0 then start else close + 1
  }

  /** Where the delimiter after a field lies, counted from the field's start, or -1. */
  function DelimiterAt(parser: Parser, op: Op, input: seq<byte>, start: nat): int
    requires op.delimiterStart + op.delimiterLength <= |parser.format| && start <= |input|
  {
    if op.delimiterLength == 0 then -1
    else if op.field == HOST_VERB && start < |input| && input[start] == LEFT_BRACKET then
      Relative(Find(input, parser.Delimiter(op), AfterBracket(input, start)), start)
    else if op.delimiterLength == 1 then Relative(IndexByte(input, op.delimiterByte, start), start)
    else Relative(Find(input, parser.Delimiter(op), start), start)
  }

  /** The field is optional because the credentials it belongs to are. */
  predicate IsOptional(parser: Parser, op: Op) {
    !parser.strict && (op.field == USER_VERB || op.field == PASSWORD_VERB) && op.credentialEnd != NO_PLAN_INDEX
  }

  /** A username that an at sign ends before any colon: `later` is the distance to an at sign after the colon, or -1. */
  predicate IsUserOnly(parser: Parser, i: nat, credentialAt: int, idx: int, later: int)
    requires i < |parser.plan|
  {
    var op := parser.plan[i];
    && credentialAt >= 0 && op.field == USER_VERB && op.delimiterByte == COLON && op.credentialEnd == i + 3
    && i + 2 < |parser.plan| && parser.plan[i + 2].field == PASSWORD_VERB && idx > credentialAt && later < 0
  }

  /** A literal: it must match when strict, and is skipped when it matches. */
  function Literal(parser: Parser, op: Op, i: nat, s: State, input: seq<byte>): Step
    requires op.delimiterStart + op.delimiterLength <= |parser.format|
  {
    if Matches(input, parser.Delimiter(op), s.inputPos) then Go(s.(inputPos := s.inputPos + op.delimiterLength), i + 1)
    else if parser.strict then Stop(s.proxy, Mismatch(parser.Delimiter(op), s.inputPos))
    else Go(s, i + 1)
  }

  /** A field whose end is known. */
  function Field(op: Op, i: nat, s: State, input: seq<byte>, end: nat, canonical: seq<byte>): Step
    requires StateOk(s, input) && s.inputPos <= end <= |input|
  {
    var t := Captured(s, op.field, input, s.inputPos, end, canonical);
    if op.consumeDelimiter then Go(t.(inputPos := t.inputPos + op.delimiterLength), i + 2) else Go(t, i + 1)
  }

  ghost function StepOf(parser: Parser, i: nat, s: State, input: seq<byte>): Step
    requires parser.Valid() && i < |parser.plan| && StateOk(s, input)
  {
    var op, start := parser.plan[i], s.inputPos;
    assert parser.OpOk(i);
    if op.field == 0 then Literal(parser, op, i, s, input)
    else
      var at := Relative(IndexByte(input, AT, start), start);
      var credentialAt := if IsOptional(parser, op) then at else -1;
      if IsOptional(parser, op) && credentialAt < 0 then Go(s, op.credentialEnd + 1)
      else
        var idx := DelimiterAt(parser, op, input, start);
        DelimiterFits(parser, op, input, start);
        var later := if 0 <= idx && start + idx < |input| then IndexByte(input, AT, start + idx + 1) else -1;
        if IsUserOnly(parser, i, credentialAt, idx, later)
          then Go(UserOnly(s, input, start, credentialAt), op.credentialEnd + 1)
        else FieldStep(parser, i, s, input)
  }

  /** The end of the field is found, or its delimiter is missing. */
  ghost function FieldStep(parser: Parser, i: nat, s: State, input: seq<byte>): Step
    requires parser.Valid() && i < |parser.plan| && StateOk(s, input)
  {
    var op, start := parser.plan[i], s.inputPos;
    assert parser.OpOk(i);
    var idx := DelimiterAt(parser, op, input, start);
    DelimiterFits(parser, op, input, start);
    FieldEnds(op, parser.strict, parser.Delimiter(op), i, s, input, idx)
  }

  ghost function FieldEnds(op: Op, strict: bool, delimiter: seq<byte>, i: nat, s: State, input: seq<byte>,
                           idx: int): Step
    requires StateOk(s, input) && -1 <= idx && (idx >= 0 ==> s.inputPos + idx + op.delimiterLength <= |input|)
  {
    var start := s.inputPos;
    if op.delimiterLength != 0 && idx == -1 then
      if strict then Stop(s.proxy, NotFound(delimiter))
      else
        var at := Relative(IndexByte(input, AT, start), start);
        Go(Missing(s, op, input, start, at, SchemeOf(input[start..])), i + 1)
    else
      var end := if op.delimiterLength != 0 then start + idx else |input|;
      Field(op, i, s, input, end, SchemeOf(input[start..end]))
  }

  lemma DelimiterFits(parser: Parser, op: Op, input: seq<byte>, start: nat)
    requires op.delimiterStart + op.delimiterLength <= |parser.format| && start <= |input|
    ensures var idx := DelimiterAt(parser, op, input, start);
      && idx >= -1 && (idx >= 0 ==> start + idx + (if op.delimiterLength == 0 then 0 else 1) <= |input|)
      && (idx >= 0 ==> start + idx + op.delimiterLength <= |input|)
  {
  }

  lemma FieldOk(op: Op, i: nat, s: State, input: seq<byte>, end: nat, canonical: seq<byte>)
    requires StateOk(s, input) && s.inputPos <= end <= |input|
    requires op.consumeDelimiter ==> end + op.delimiterLength <= |input|
    ensures var step := Field(op, i, s, input, end, canonical);
      step.Go? && StateOk(step.state, input) && step.next == if op.consumeDelimiter then i + 2 else i + 1
  {
    CapturedOk(s, op.field, input, s.inputPos, end, canonical);
    hide Captured;
    hide AliasOk;
  }

  ghost predicate Onward(step: Step, parser: Parser, i: nat, input: seq<byte>) {
    step.Go? ==> StateOk(step.state, input) && i < step.next <= |parser.plan|
  }

  lemma FieldEndsOk(op: Op, strict: bool, delimiter: seq<byte>, i: nat, s: State, input: seq<byte>, idx: int, size: nat)
    requires StateOk(s, input) && -1 <= idx && (idx >= 0 ==> s.inputPos + idx + op.delimiterLength <= |input|)
    requires i < size && (op.consumeDelimiter ==> i + 1 < size)
    ensures var step := FieldEnds(op, strict, delimiter, i, s, input, idx);
      step.Go? ==> StateOk(step.state, input) && i < step.next <= size
  {
    hide AliasOk;
    hide Captured;
    hide Missing;
    hide Field;
    hide IndexByte;
    hide SchemeOf;
    var start := s.inputPos;
    if op.delimiterLength != 0 && idx == -1 {
      MissingOk(s, op, input, start, Relative(IndexByte(input, AT, start), start), SchemeOf(input[start..]));
    } else {
      var end := if op.delimiterLength != 0 then start + idx else |input|;
      FieldOk(op, i, s, input, end, SchemeOf(input[start..end]));
    }
  }

  lemma FieldStepOk(parser: Parser, i: nat, s: State, input: seq<byte>)
    requires parser.Valid() && i < |parser.plan| && StateOk(s, input) && parser.plan[i].field != 0
    ensures Onward(FieldStep(parser, i, s, input), parser, i, input)
  {
    assert parser.OpOk(i);
    hide AliasOk;
    hide FieldEnds;
    hide DelimiterAt;
    var op := parser.plan[i];
    DelimiterFits(parser, op, input, s.inputPos);
    FieldEndsOk(op, parser.strict, parser.Delimiter(op), i, s, input, DelimiterAt(parser, op, input, s.inputPos),
      |parser.plan|);
  }

  lemma StepOk(parser: Parser, i: nat, s: State, input: seq<byte>)
    requires parser.Valid() && i < |parser.plan| && StateOk(s, input)
    ensures Onward(StepOf(parser, i, s, input), parser, i, input)
  {
    var op, start := parser.plan[i], s.inputPos;
    assert parser.OpOk(i);
    DelimiterFits(parser, op, input, start);
    hide Parser.OpOk;
    hide AliasOk;
    hide DelimiterAt;
    hide FieldStep;
    hide IndexByte;
    if op.field != 0 {
      FieldStepOk(parser, i, s, input);
    }
  }

  // ----- the whole parse -----

  /** What is checked once the plan is done. */
  ghost function Finished(parser: Parser, s: State, input: seq<byte>, v6: Ipv6): Outcome
    requires s.inputPos <= |input|
  {
    if parser.strict && s.inputPos < |input| then Failed(s.proxy, Trail(input[s.inputPos..]))
    else if parser.strict && (s.emptyHost || s.emptyPort) then Failed(s.proxy, InvalidProxy(EmptyFailure(s)))
    else if !parser.strict && !s.schemeParsed && s.proxy.scheme == [] then Failed(s.proxy, SchemeNotParsed)
    else if !parser.strict && (!s.hostParsed || s.proxy.host == []) then Failed(s.proxy, HostNotParsed)
    else match ProxyVerdict(s.proxy, v6)
      case Accepted => Parsed(s.proxy)
      case Rejected(failure) => Failed(s.proxy, InvalidProxy(failure))
  }

  /** An empty capture is reported as the field that validation would name first. */
  function EmptyFailure(s: State): Failure {
    if !IsScheme(s.proxy.scheme) then BadScheme
    else if s.proxy.host == [] then BadHost
    else if s.emptyPort then BadPort
    else BadHost
  }

  ghost function Run(parser: Parser, i: nat, s: State, input: seq<byte>, v6: Ipv6): Outcome
    requires parser.Valid() && i <= |parser.plan| && StateOk(s, input)
    decreases |parser.plan| - i
  {
    if i == |parser.plan| then Finished(parser, s, input, v6)
    else
      StepOk(parser, i, s, input);
      match StepOf(parser, i, s, input)
      case Stop(proxy, error) => Failed(proxy, error)
      case Go(state, next) => Run(parser, next, state, input, v6)
  }

  /** A lenient format without a scheme verb reads the scheme up to the first separator. */
  ghost function GenericOutcome(parser: Parser, input: seq<byte>, v6: Ipv6): Outcome
    requires parser.Valid()
  {
    if !parser.strict && !parser.hasScheme then
      var cut := Find(input, SEPARATOR, 0);
      if cut < 0 then Failed(NO_PROXY, SchemeNotParsed)
      else Run(parser, 0, AfterScheme(SchemeOf(input[..cut]), cut), input, v6)
    else Run(parser, 0, START, input, v6)
  }

  function AfterScheme(scheme: seq<byte>, cut: nat): State {
    START.(proxy := NO_PROXY.(scheme := scheme), schemeParsed := scheme != [], inputPos := cut + 3)
  }

  /** What parsing gives, whether or not the fast paths are on and an index is built. */
  ghost function ParseOutcome(parser: Parser, input: seq<byte>, v6: Ipv6): Outcome
    requires parser.Valid()
  {
    match parser.kind
    case StrictSchemeHostPort => HostPortOutcome(input, v6)
    case StrictFullCredentials => CredentialsOutcome(input, v6)
    case Generic => GenericOutcome(parser, input, v6)
  }

  // ----- the code -----

  /** The search for the delimiter after a field. */
  method FindDelimiter(parser: Parser, ix: Index, indexed: bool, op: Op, input: seq<byte>,
                       start: nat) returns (idx: int)
    requires indexed ==> ix.Describes(input)
    requires op.delimiterStart + op.delimiterLength <= |parser.format| && start <= |input|
    requires op.delimiterClass.Classed? ==>
      op.delimiterLength == 1 && forall x :: InClass(op.delimiterClass.class_, x) <==> x == op.delimiterByte
    requires op.delimiterClass.SchemeSeparator? ==> parser.Delimiter(op) == SEPARATOR
    ensures idx == DelimiterAt(parser, op, input, start)
  {
    hide Find;
    hide IndexByte;
    idx := -1;
    if op.delimiterLength != 0 {
      if op.field == HOST_VERB && start < |input| && input[start] == LEFT_BRACKET {
        idx := Relative(Find(input, parser.Delimiter(op), AfterBracket(input, start)), start);
      } else if op.delimiterLength == 1 {
        var classed := op.delimiterClass.Classed?;
        idx := IndexByteFrom(ix, indexed, input, start, op.delimiterByte, if classed then op.delimiterClass.class_
          else Colon, classed);
      } else if op.delimiterClass.SchemeSeparator? {
        idx := IndexSchemeSeparator(ix, indexed, input, start);
      } else {
        idx := Relative(Find(input, parser.Delimiter(op), start), start);
      }
    }
  }

  method FindAt(ix: Index, indexed: bool, input: seq<byte>, start: nat) returns (at: int)
    requires indexed ==> ix.Describes(input)
    requires start <= |input|
    ensures at == Relative(IndexByte(input, AT, start), start)
  {
    at := IndexByteFrom(ix, indexed, input, start, AT, At, true);
  }

  /** The canonical form of a scheme value; other fields have no use for it. */
  method Canonical(op: Op, value: seq<byte>) returns (canonical: seq<byte>)
    ensures op.field == SCHEME_VERB ==> canonical == SchemeOf(value)
  {
    canonical := [];
    if op.field == SCHEME_VERB {
      canonical := ReadScheme(value);
    }
  }

  lemma CanonicalIrrelevant(s: State, op: Op, i: nat, input: seq<byte>, end: nat, at: int, a: seq<byte>, b: seq<byte>)
    requires op.field != SCHEME_VERB && StateOk(s, input) && s.inputPos <= end <= |input|
    requires at >= 0 ==> s.inputPos + at <= |input|
    ensures Field(op, i, s, input, end, a) == Field(op, i, s, input, end, b)
    ensures Missing(s, op, input, s.inputPos, at, a) == Missing(s, op, input, s.inputPos, at, b)
  {
  }

  /** One turn of the loop over the plan. */
  method TakeStep(parser: Parser, ix: Index, indexed: bool, i: nat, s: State, input: seq<byte>) returns (step: Step)
    requires indexed ==> ix.Describes(input)
    requires parser.Valid() && i < |parser.plan| && StateOk(s, input)
    ensures step == StepOf(parser, i, s, input)
  {
    hide IndexByte;
    hide Captured;
    hide Missing;
    hide AliasOk;
    hide SchemeOf;
    hide DelimiterAt;
    var op, start := parser.plan[i], s.inputPos;
    assert parser.OpOk(i);
    if op.field == 0 {
      return Literal(parser, op, i, s, input);
    }
    var credentialAt := -1;
    if IsOptional(parser, op) {
      credentialAt := FindAt(ix, indexed, input, start);
      if credentialAt < 0 {
        return Go(s, op.credentialEnd + 1);
      }
    }
    var idx := FindDelimiter(parser, ix, indexed, op, input, start);
    DelimiterFits(parser, op, input, start);
    if IsUserOnly(parser, i, credentialAt, idx, -1) {
      var later := FindAt(ix, indexed, input, start + idx + 1);
      if later < 0 {
        return Go(UserOnly(s, input, start, credentialAt), op.credentialEnd + 1);
      }
    }
    step := TakeField(parser, ix, indexed, i, s, input, idx);
  }

  /** The end of the field is found, or its delimiter is missing. */
  method TakeField(parser: Parser, ix: Index, indexed: bool, i: nat, s: State, input: seq<byte>,
                   idx: int) returns (step: Step)
    requires indexed ==> ix.Describes(input)
    requires parser.Valid() && i < |parser.plan| && StateOk(s, input) && parser.OpOk(i)
    requires idx == DelimiterAt(parser, parser.plan[i], input, s.inputPos)
    ensures step == FieldStep(parser, i, s, input)
  {
    hide IndexByte;
    hide Captured;
    hide Missing;
    hide AliasOk;
    hide SchemeOf;
    hide DelimiterAt;
    hide Field;
    var op, start := parser.plan[i], s.inputPos;
    DelimiterFits(parser, op, input, start);
    if op.delimiterLength != 0 && idx == -1 {
      if parser.strict {
        return Stop(s.proxy, NotFound(parser.Delimiter(op)));
      }
      var at := FindAt(ix, indexed, input, start);
      var canonical := Canonical(op, input[start..]);
      if op.field != SCHEME_VERB {
        CanonicalIrrelevant(s, op, i, input, start, at, canonical, SchemeOf(input[start..]));
      }
      return Go(Missing(s, op, input, start, at, canonical), i + 1);
    }
    var end := if op.delimiterLength != 0 then start + idx else |input|;
    var canonical := Canonical(op, input[start..end]);
    if op.field != SCHEME_VERB {
      CanonicalIrrelevant(s, op, i, input, end, -1, canonical, SchemeOf(input[start..end]));
    }
    return Field(op, i, s, input, end, canonical);
  }

  /** What follows the loop. */
  method Finish(parser: Parser, ix: Index, indexed: bool, fast: bool, s: State, input: seq<byte>,
                v6: Ipv6) returns (outcome: Outcome)
    requires indexed ==> ix.Describes(input)
    requires StateOk(s, input)
    ensures outcome == Finished(parser, s, input, v6)
  {
    if parser.strict {
      if s.inputPos < |input| {
        return Failed(s.proxy, Trail(input[s.inputPos..]));
      }
      if s.emptyHost || s.emptyPort {
        return Failed(s.proxy, InvalidProxy(EmptyFailure(s)));
      }
    } else {
      if !s.schemeParsed && s.proxy.scheme == [] {
        return Failed(s.proxy, SchemeNotParsed);
      }
      if !s.hostParsed || s.proxy.host == [] {
        return Failed(s.proxy, HostNotParsed);
      }
    }
    if fast {
      var ok := IsValidFast(ix, indexed, input, s.proxy, s.alias, v6);
      if ok {
        return Parsed(s.proxy);
      }
    }
    var verdict := Validate(s.proxy, v6);
    return if verdict.Accepted? then Parsed(s.proxy) else Failed(s.proxy, InvalidProxy(verdict.failure));
  }

  /** Where the loop starts, or the error of a lenient input without a scheme. */
  method Begin(parser: Parser, ix: Index, indexed: bool, input: seq<byte>) returns (s: State, found: bool)
    requires indexed ==> ix.Describes(input)
    ensures found ==> StateOk(s, input)
    ensures !parser.strict && !parser.hasScheme ==> (found <==> Find(input, SEPARATOR, 0) >= 0)
    ensures !parser.strict && !parser.hasScheme && found ==>
      s == AfterScheme(SchemeOf(input[..Find(input, SEPARATOR, 0)]), Find(input, SEPARATOR, 0))
    ensures parser.strict || parser.hasScheme ==> found && s == START
  {
    hide SchemeOf;
    s, found := START, true;
    if !parser.strict && !parser.hasScheme {
      var cut := IndexSchemeSeparator(ix, indexed, input, 0);
      if cut < 0 {
        return s, false;
      }
      var scheme := ReadScheme(input[..cut]);
      s := AfterScheme(scheme, cut);
    }
  }

  method ParseGeneric(parser: Parser, input: seq<byte>, fast: bool, v6: Ipv6) returns (outcome: Outcome)
    requires parser.Valid()
    ensures outcome == GenericOutcome(parser, input, v6)
  {
    hide Parser.Valid;
    hide StepOf;
    hide StateOk;
    hide Finished;
    hide SchemeOf;
    hide Find;
    var ix, indexed := NoIndex(), false;
    if fast {
      ix, indexed := Build(input);
    }
    var s, found := Begin(parser, ix, indexed, input);
    if !found {
      return Failed(NO_PROXY, SchemeNotParsed);
    }
    var i := 0;
    while i < |parser.plan|
      invariant i <= |parser.plan| && StateOk(s, input)
      invariant Run(parser, i, s, input, v6) == GenericOutcome(parser, input, v6)
    {
      StepOk(parser, i, s, input);
      var step := TakeStep(parser, ix, indexed, i, s, input);
      match step
      case Stop(proxy, error) => return Failed(proxy, error);
      case Go(state, next) => s, i := state, next;
    }
    outcome := Finish(parser, ix, indexed, fast, s, input, v6);
  }

  function NoIndex(): Index {
    Index(0, 0, 0, 0, 0, 0)
  }

  /**
   `parseInto`. For every parser and every input the outcome, proxy and error, does not depend on `fast`,
   nor on whether an index could be built.
   */
  method ParseInto(parser: Parser, input: seq<byte>, fast: bool, v6: Ipv6) returns (outcome: Outcome)
    requires parser.Valid()
    ensures outcome == ParseOutcome(parser, input, v6)
  {
    hide Parser.Valid;
    hide GenericOutcome;
    hide HostPortOutcome;
    hide CredentialsOutcome;
    if parser.kind.Generic? {
      outcome := ParseGeneric(parser, input, fast, v6);
      return;
    }
    var credentials := parser.kind.StrictFullCredentials?;
    if fast {
      var handled;
      handled, outcome := ParseStrictFast(input, credentials, v6);
      if handled {
        return;
      }
    }
    if credentials {
      outcome := ParseFullCredentials(input, v6);
    } else {
      outcome := ParseSchemeHostPort(input, v6);
    }
  }
}
