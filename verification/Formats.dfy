/** Compiling a format into a plan, and what a strict parse by such a plan says about its input. */
module Formats {
  import opened Parsers
  import opened Strings
  import opened StrictParsers
  import opened StructuralIndex
  import opened Swar
  import opened Text
  import opened Validation

  const NO_FORMAT: seq<byte> := []
  const HOST_PORT_FORMAT: seq<byte> := [0x25, 0x74, 0x3a, 0x2f, 0x2f, 0x25, 0x68, 0x3a, 0x25, 0x64]
  const CREDENTIALS_FORMAT: seq<byte> :=
    [0x25, 0x74, 0x3a, 0x2f, 0x2f, 0x25, 0x75, 0x3a, 0x25, 0x70, 0x40, 0x25, 0x68, 0x3a, 0x25, 0x64]

  datatype FormatError = TooLong | EndsInPercent | InvalidVerb(verb: byte)

  datatype Compiled = Ok(parser: Parser) | Bad(error: FormatError)

  datatype FormatCheck = Fine | Faulty(error: FormatError)

  /** A format read from left to right: literal text, or a verb. */
  datatype Token = Text(start: nat, end: nat) | Verb(verb: byte)

  predicate IsVerb(b: byte) {
    b == SCHEME_VERB || b == HOST_VERB || b == PORT_VERB || b == USER_VERB || b == PASSWORD_VERB
  }

  function NextPercent(format: seq<byte>, from: nat): (p: nat)
    requires from <= |format|
    ensures from <= p <= |format| && (p < |format| ==> format[p] == PERCENT)
    ensures forall i :: from <= i < p ==> format[i] != PERCENT
  {
    var p := IndexByte(format, PERCENT, from);
    if p < 0 then |format| else p
  }

  lemma NextPercentIs(format: seq<byte>, from: nat, p: nat)
    requires from <= p <= |format| && (p < |format| ==> format[p] == PERCENT)
    requires forall i :: from <= i < p ==> format[i] != PERCENT
    ensures NextPercent(format, from) == p
  {
  }

  /** The first fault of a format: an incomplete verb at its end, or an unknown one. */
  ghost function FirstFault(format: seq<byte>, i: nat): FormatCheck
    requires i <= |format|
    decreases |format| - i
  {
    if i == |format| then Fine
    else if format[i] != PERCENT then FirstFault(format, NextPercent(format, i))
    else if i + 1 == |format| then Faulty(EndsInPercent)
    else if format[i + 1] == PERCENT || IsVerb(format[i + 1]) then FirstFault(format, i + 2)
    else Faulty(InvalidVerb(format[i + 1]))
  }

  ghost function Tokens(format: seq<byte>, i: nat): seq<Token>
    requires i <= |format| && FirstFault(format, i).Fine?
    decreases |format| - i
  {
    if i == |format| then []
    else if format[i] != PERCENT then [Text(i, NextPercent(format, i))] + Tokens(format, NextPercent(format, i))
    else if format[i + 1] == PERCENT then [Text(i, i + 1)] + Tokens(format, i + 2)
    else [Verb(format[i + 1])] + Tokens(format, i + 2)
  }

  // ----- counting -----

  method CountFormatOps(format: seq<byte>) returns (count: nat, check: FormatCheck)
    ensures check == FirstFault(format, 0)
    ensures check.Fine? ==> count == |Tokens(format, 0)|
  {
    count := 0;
    var i := 0;
    while i < |format|
      invariant i <= |format| && FirstFault(format, i) == FirstFault(format, 0)
      invariant FirstFault(format, 0).Fine? ==> count + |Tokens(format, i)| == |Tokens(format, 0)|
    {
      count := count + 1;
      if format[i] == PERCENT {
        i := i + 1;
        if i == |format| {
          return 0, Faulty(EndsInPercent);
        }
        if format[i] != PERCENT && !IsVerb(format[i]) {
          return 0, Faulty(InvalidVerb(format[i]));
        }
        i := i + 1;
        continue;
      }
      var j := i;
      while j + 1 < |format| && format[j + 1] != PERCENT
        invariant i <= j < |format| && forall k :: i <= k <= j ==> format[k] != PERCENT
      {
        j := j + 1;
      }
      NextPercentIs(format, i, j + 1);
      i := j + 1;
    }
    return count, Fine;
  }

  // ----- the plan, declaratively -----

  function ClassOf(b: byte): DelimiterClass {
    if b == COLON then Classed(Colon)
    else if b == AT then Classed(At)
    else if b == DOT then Classed(Dot)
    else if b == HYPHEN then Classed(Hyphen)
    else NoClass
  }

  /** A literal as an operation. */
  function TextOp(format: seq<byte>, start: nat, end: nat): Op
    requires start < end <= |format|
  {
    var length := end - start;
    Op(start, length, 0, 0, if length == 1 then format[start] else 0,
       if length == 1 then ClassOf(format[start]) else if format[start..end] == SEPARATOR then SchemeSeparator
         else NoClass, false)
  }

  function RawOp(format: seq<byte>, t: Token): Op
    requires TokenOk(format, t)
  {
    match t
    case Text(start, end) => TextOp(format, start, end)
    case Verb(verb) => Op(0, 0, NO_PLAN_INDEX, verb, 0, NoClass, false)
  }

  predicate TokenOk(format: seq<byte>, t: Token) {
    match t
    case Text(start, end) => start < end <= |format|
    case Verb(verb) => IsVerb(verb)
  }

  ghost predicate TokensOk(format: seq<byte>, tokens: seq<Token>) {
    forall k :: 0 <= k < |tokens| ==> TokenOk(format, tokens[k])
  }

  lemma {:induction false} TokensAreOk(format: seq<byte>, i: nat)
    requires i <= |format| && FirstFault(format, i).Fine?
    ensures TokensOk(format, Tokens(format, i))
    decreases |format| - i
  {
    if i < |format| {
      if format[i] != PERCENT {
        TokensAreOk(format, NextPercent(format, i));
      } else {
        TokensAreOk(format, i + 2);
      }
    }
  }

  /** The first literal at or after a token. */
  ghost function NextText(tokens: seq<Token>, k: nat): (j: nat)
    requires k <= |tokens|
    ensures k <= j <= |tokens| && (j < |tokens| ==> tokens[j].Text?) && forall m :: k <= m < j ==> tokens[m].Verb?
    decreases |tokens| - k
  {
    if k == |tokens| || tokens[k].Text? then k else NextText(tokens, k + 1)
  }

  predicate IsAt(format: seq<byte>, t: Token) {
    t.Text? && t.end == t.start + 1 && t.start < |format| && format[t.start] == AT
  }

  /** The first literal at sign at or after a token. */
  ghost function NextAt(format: seq<byte>, tokens: seq<Token>, k: nat): (j: nat)
    requires k <= |tokens|
    ensures k <= j <= |tokens|
    decreases |tokens| - k
  {
    if k == |tokens| || IsAt(format, tokens[k]) then k else NextAt(format, tokens, k + 1)
  }

  const NO_DELIMITER := Op(0, 0, 0, 0, 0, NoClass, false)

  /** A verb with what the plan looks up for it: the literals that follow it in the format. */
  ghost function PlannedOp(format: seq<byte>, tokens: seq<Token>, k: nat): Op
    requires TokensOk(format, tokens) && k < |tokens|
  {
    match tokens[k]
    case Text(start, end) => TextOp(format, start, end)
    case Verb(verb) =>
      var j, at := NextText(tokens, k + 1), NextAt(format, tokens, k + 1);
      var d := if j < |tokens| then RawOp(format, tokens[j]) else NO_DELIMITER;
      Op(d.delimiterStart, d.delimiterLength, if at < |tokens| then at else NO_PLAN_INDEX, verb,
         d.delimiterByte, d.delimiterClass, j == k + 1 && j < |tokens|)
  }

  ghost predicate IsPlan(format: seq<byte>, tokens: seq<Token>, plan: seq<Op>) {
    && TokensOk(format, tokens) && |plan| == |tokens|
    && forall k :: 0 <= k < |plan| ==> plan[k] == PlannedOp(format, tokens, k)
  }

  lemma ClassOfIs(b: byte)
    ensures ClassOf(b).Classed? ==> forall x :: InClass(ClassOf(b).class_, x) <==> x == b
  {
  }

  /** A plan compiled from a format meets what the parser relies on. */
  lemma PlanIsValid(parser: Parser, tokens: seq<Token>)
    requires IsPlan(parser.format, tokens, parser.plan)
    ensures parser.Valid()
  {
    forall i | 0 <= i < |parser.plan|
      ensures parser.OpOk(i)
    {
      var j := NextText(tokens, i + 1);
      assert parser.plan[i] == PlannedOp(parser.format, tokens, i);
      if tokens[i].Text? {
        ClassOfIs(parser.format[tokens[i].start]);
      } else if j < |tokens| {
        assert TokenOk(parser.format, tokens[j]);
        ClassOfIs(parser.format[tokens[j].start]);
      }
    }
  }

  // ----- compiling -----

  /** What stands at a place of the format is the token that the pass reads there. */
  lemma NextToken(format: seq<byte>, tokens: seq<Token>, k: nat, i: nat)
    requires i < |format| && FirstFault(format, i).Fine? && k <= |tokens| && tokens[k..] == Tokens(format, i)
      && TokensOk(format, tokens)
    ensures k < |tokens| && TokenOk(format, tokens[k])
    ensures format[i] != PERCENT ==>
      var p := NextPercent(format, i);
      tokens[k] == Text(i, p) && FirstFault(format, p).Fine? && tokens[k + 1..] == Tokens(format, p)
    ensures format[i] == PERCENT ==>
      && i + 2 <= |format| && FirstFault(format, i + 2).Fine? && tokens[k + 1..] == Tokens(format, i + 2)
      && tokens[k] == (if format[i + 1] == PERCENT then Text(i, i + 1) else Verb(format[i + 1]))
  {
    assert tokens[k..][0] == tokens[k] && tokens[k..][1..] == tokens[k + 1..];
  }

  lemma PercentOp(format: seq<byte>, i: nat)
    requires i < |format| && format[i] == PERCENT
    ensures TextOp(format, i, i + 1) == Op(i, 1, 0, 0, PERCENT, NoClass, false)
  {
  }

  /** The forward pass: one operation per literal or verb. */
  method ReadOps(format: seq<byte>, count: nat) returns (plan: seq<Op>, hasScheme: bool)
    requires FirstFault(format, 0).Fine? && count == |Tokens(format, 0)|
    ensures |plan| == count && TokensOk(format, Tokens(format, 0))
    ensures forall k :: 0 <= k < |plan| ==> plan[k] == RawOp(format, Tokens(format, 0)[k])
    ensures hasScheme <==> Verb(SCHEME_VERB) in Tokens(format, 0)
  {
    ghost var tokens := Tokens(format, 0);
    TokensAreOk(format, 0);
    hide Tokens;
    hide FirstFault;
    hide NextPercent;
    hide TextOp;
    plan, hasScheme := [], false;
    var i := 0;
    while i < |format|
      invariant i <= |format| && FirstFault(format, i).Fine? && |plan| <= |tokens|
      invariant tokens[|plan|..] == Tokens(format, i)
      invariant forall k :: 0 <= k < |plan| ==> plan[k] == RawOp(format, tokens[k])
      invariant hasScheme <==> Verb(SCHEME_VERB) in tokens[..|plan|]
      decreases |format| - i
    {
      NextToken(format, tokens, |plan|, i);
      ghost var read := tokens[..|plan|];
      assert tokens[..|plan| + 1] == read + [tokens[|plan|]];
      if format[i] != PERCENT {
        var start := i;
        while i < |format| && format[i] != PERCENT
          invariant start <= i <= |format| && forall k :: start <= k < i ==> format[k] != PERCENT
        {
          i := i + 1;
        }
        NextPercentIs(format, start, i);
        plan := plan + [TextOp(format, start, i)];
        continue;
      }
      var verb := format[i + 1];
      if verb == PERCENT {
        PercentOp(format, i);
        plan := plan + [Op(i, 1, 0, 0, PERCENT, NoClass, false)];
      } else {
        plan := plan + [Op(0, 0, NO_PLAN_INDEX, verb, 0, NoClass, false)];
        if verb == SCHEME_VERB {
          hasScheme := true;
        }
      }
      i := i + 2;
    }
    assert tokens[..|plan|] == tokens;
  }

  /** What the backward pass looks at in a token tells whether it is a literal, and whether it is an at sign. */
  lemma LinkStep(format: seq<byte>, tokens: seq<Token>, i: nat)
    requires TokensOk(format, tokens) && i < |tokens|
    ensures var op := RawOp(format, tokens[i]);
      && (op.field == 0 <==> tokens[i].Text?)
      && NextText(tokens, i) == (if op.field == 0 then i else NextText(tokens, i + 1))
      && NextAt(format, tokens, i) ==
        if op.field == 0 && op.delimiterLength == 1 && op.delimiterByte == AT then i else NextAt(format, tokens, i + 1)
  {
    hide ClassOf;
    assert TokenOk(format, tokens[i]);
  }

  /** The backward pass: every verb learns of the first literal and the first at sign after it. */
  method LinkOps(format: seq<byte>, raw: seq<Op>, ghost tokens: seq<Token>) returns (plan: seq<Op>)
    requires TokensOk(format, tokens) && |raw| == |tokens|
    requires forall k :: 0 <= k < |raw| ==> raw[k] == RawOp(format, tokens[k])
    ensures IsPlan(format, tokens, plan)
  {
    hide NextText;
    hide NextAt;
    hide TextOp;
    plan := raw;
    var next, nextDelimiter, credentialEnd := NO_DELIMITER, NO_PLAN_INDEX, NO_PLAN_INDEX;
    var i := |plan| - 1;
    while i >= 0
      invariant -1 <= i < |plan| == |tokens|
      invariant forall k :: 0 <= k <= i ==> plan[k] == RawOp(format, tokens[k])
      invariant forall k :: i < k < |plan| ==> plan[k] == PlannedOp(format, tokens, k)
      invariant nextDelimiter == if NextText(tokens, i + 1) < |tokens| then NextText(tokens, i + 1) else NO_PLAN_INDEX
      invariant credentialEnd == if NextAt(format, tokens, i + 1) < |tokens| then NextAt(format, tokens, i + 1)
        else NO_PLAN_INDEX
      invariant next == if NextText(tokens, i + 1) < |tokens| then RawOp(format, tokens[NextText(tokens, i + 1)])
        else NO_DELIMITER
    {
      var op := plan[i];
      LinkStep(format, tokens, i);
      if op.field == 0 {
        nextDelimiter, next := i, op;
        if op.delimiterLength == 1 && op.delimiterByte == AT {
          credentialEnd := i;
        }
      } else {
        plan := plan[i := Op(next.delimiterStart, next.delimiterLength, credentialEnd, op.field,
                             next.delimiterByte, next.delimiterClass, nextDelimiter == i + 1)];
      }
      i := i - 1;
    }
  }

  function DetectKind(format: seq<byte>, strict: bool): Kind {
    if !strict then Generic
    else if format == HOST_PORT_FORMAT then StrictSchemeHostPort
    else if format == CREDENTIALS_FORMAT then StrictFullCredentials
    else Generic
  }

  /** `New`: the two common strict formats need no plan; the others are checked and compiled. */
  method New(format: seq<byte>, strict: bool) returns (compiled: Compiled)
    ensures compiled.Bad? <==> |format| > 0xffff_ffff || FirstFault(format, 0).Faulty?
    ensures compiled.Bad? && |format| > 0xffff_ffff ==> compiled.error == TooLong
    ensures compiled.Bad? && |format| <= 0xffff_ffff ==> compiled.error == FirstFault(format, 0).error
    ensures compiled.Ok? ==> compiled.parser.Valid() && compiled.parser.kind == DetectKind(format, strict)
    ensures compiled.Ok? && compiled.parser.kind.Generic? ==>
      && compiled.parser.strict == strict && compiled.parser.format == format
      && IsPlan(format, Tokens(format, 0), compiled.parser.plan)
      && (compiled.parser.hasScheme <==> Verb(SCHEME_VERB) in Tokens(format, 0))
  {
    hide IsPlan;
    hide TokensOk;
    if |format| > 0xffff_ffff {
      return Bad(TooLong);
    }
    var kind := DetectKind(format, strict);
    if !kind.Generic? {
      CommonFormatsAreFine();
      return Ok(Parser(NO_FORMAT, [], true, true, kind));
    }
    var count, check := CountFormatOps(format);
    if check.Faulty? {
      return Bad(check.error);
    }
    var raw, hasScheme := ReadOps(format, count);
    var plan := LinkOps(format, raw, Tokens(format, 0));
    var parser := Parser(format, plan, strict, hasScheme, kind);
    PlanIsValid(parser, Tokens(format, 0));
    return Ok(parser);
  }

  lemma CommonFormatsAreFine()
    ensures FirstFault(HOST_PORT_FORMAT, 0).Fine? && FirstFault(CREDENTIALS_FORMAT, 0).Fine?
  {
    var f, g := HOST_PORT_FORMAT, CREDENTIALS_FORMAT;
    NextPercentIs(f, 2, 5);
    NextPercentIs(f, 7, 8);
    assert FirstFault(f, 8) == FirstFault(f, 10) == Fine;
    assert FirstFault(f, 5) == FirstFault(f, 7) == FirstFault(f, 8);
    assert FirstFault(f, 0) == FirstFault(f, 2) == FirstFault(f, 5);
    NextPercentIs(g, 2, 5);
    NextPercentIs(g, 7, 8);
    NextPercentIs(g, 10, 11);
    NextPercentIs(g, 13, 14);
    assert FirstFault(g, 14) == FirstFault(g, 16) == Fine;
    assert FirstFault(g, 11) == FirstFault(g, 13) == FirstFault(g, 14);
    assert FirstFault(g, 8) == FirstFault(g, 10) == FirstFault(g, 11);
    assert FirstFault(g, 5) == FirstFault(g, 7) == FirstFault(g, 8);
    assert FirstFault(g, 0) == FirstFault(g, 2) == FirstFault(g, 5);
  }

  // ----- a strict parse reads its input as the format is written -----

  ghost function Concat(pieces: seq<seq<byte>>): seq<byte> {
    if pieces == [] then [] else pieces[0] + Concat(pieces[1..])
  }

  /** The pieces, in order, make up the text, and literals stand for themselves. */
  ghost predicate Spells(format: seq<byte>, tokens: seq<Token>, pieces: seq<seq<byte>>, text: seq<byte>) {
    && TokensOk(format, tokens) && |pieces| == |tokens| && Concat(pieces) == text
    && forall k :: 0 <= k < |tokens| && tokens[k].Text? ==> pieces[k] == format[tokens[k].start..tokens[k].end]
  }

  /** The last capture of a verb. */
  ghost function LastCapture(tokens: seq<Token>, pieces: seq<seq<byte>>, verb: byte, before: seq<byte>): seq<byte>
    requires |pieces| == |tokens|
    decreases |tokens|
  {
    if tokens == [] then before
    else LastCapture(tokens[1..], pieces[1..], verb, if tokens[0] == Verb(verb) then pieces[0] else before)
  }

  function WithPort(host: seq<byte>, port: seq<byte>): seq<byte> {
    if host == [] then port else host + [COLON] + port
  }

  /** What a piece does to the host: a host replaces it, a port follows it after a colon. */
  function HostStep(t: Token, piece: seq<byte>, before: seq<byte>): seq<byte> {
    if t == Verb(HOST_VERB) then piece else if t == Verb(PORT_VERB) then WithPort(before, piece) else before
  }

  ghost function HostOf(tokens: seq<Token>, pieces: seq<seq<byte>>, before: seq<byte>): seq<byte>
    requires |pieces| == |tokens|
    decreases |tokens|
  {
    if tokens == [] then before else HostOf(tokens[1..], pieces[1..], HostStep(tokens[0], pieces[0], before))
  }

  predicate NeedsText(t: Token) {
    t == Verb(HOST_VERB) || t == Verb(PORT_VERB)
  }

  /** The proxy's fields come from the pieces of the verbs; hosts and ports are not empty. */
  ghost predicate Fields(proxy: Proxy, tokens: seq<Token>, pieces: seq<seq<byte>>, scheme: seq<byte>, before: Proxy)
    requires |pieces| == |tokens|
  {
    && proxy.scheme == SchemeOf(LastCapture(tokens, pieces, SCHEME_VERB, scheme))
    && proxy.username == LastCapture(tokens, pieces, USER_VERB, before.username)
    && proxy.password == LastCapture(tokens, pieces, PASSWORD_VERB, before.password)
    && proxy.host == HostOf(tokens, pieces, before.host)
    && forall k :: 0 <= k < |tokens| && NeedsText(tokens[k]) ==> pieces[k] != []
  }

  lemma SpellsMore(format: seq<byte>, tokens: seq<Token>, pieces: seq<seq<byte>>, text: seq<byte>, t: Token,
                   piece: seq<byte>)
    requires Spells(format, tokens, pieces, text) && TokenOk(format, t)
    requires t.Text? ==> piece == format[t.start..t.end]
    ensures Spells(format, [t] + tokens, [piece] + pieces, piece + text)
  {
    assert ([piece] + pieces)[1..] == pieces;
  }

  lemma FieldsMore(proxy: Proxy, tokens: seq<Token>, pieces: seq<seq<byte>>, t: Token, piece: seq<byte>,
                   scheme: seq<byte>, before: Proxy, scheme': seq<byte>, after: Proxy)
    requires |pieces| == |tokens| && Fields(proxy, tokens, pieces, scheme', after)
    requires scheme' == if t == Verb(SCHEME_VERB) then piece else scheme
    requires after.username == if t == Verb(USER_VERB) then piece else before.username
    requires after.password == if t == Verb(PASSWORD_VERB) then piece else before.password
    requires after.host == HostStep(t, piece, before.host) && (NeedsText(t) ==> piece != [])
    ensures Fields(proxy, [t] + tokens, [piece] + pieces, scheme, before)
  {
    assert ([t] + tokens)[1..] == tokens && ([piece] + pieces)[1..] == pieces;
  }

  // ----- the host of a strict run -----

  /** Until something follows the colon after a captured host, the proxy's host is what was captured. */
  ghost predicate HostKnown(s: State, input: seq<byte>)
    requires StateOk(s, input)
  {
    s.hostStart >= 0 && s.inputPos <= s.hostEnd + 1 ==>
      s.hostStart < s.hostEnd && s.proxy.host == input[s.hostStart..s.hostEnd]
  }

  /** Where a host was captured to the end of its field, the next literal of the format stands, or the input ends. */
  ghost predicate HostEnds(format: seq<byte>, tokens: seq<Token>, i: nat, s: State, input: seq<byte>)
    requires TokensOk(format, tokens) && i <= |tokens|
  {
    s.hostStart >= 0 && s.inputPos == s.hostEnd ==> NextStands(format, tokens, i, input, s.inputPos)
  }

  ghost predicate NextStands(format: seq<byte>, tokens: seq<Token>, i: nat, input: seq<byte>, at: nat)
    requires TokensOk(format, tokens) && i <= |tokens|
  {
    var j := NextText(tokens, i);
    if j < |tokens| then TokenOk(format, tokens[j]) && Matches(input, format[tokens[j].start..tokens[j].end], at)
      else at == |input|
  }

  /** A captured value and the host: a host, or a port that does not begin where a host ends. */
  lemma HostCaptured(s: State, field: byte, input: seq<byte>, end: nat)
    requires StateOk(s, input) && s.inputPos <= end <= |input| && HostKnown(s, input)
    requires NeedsText(Verb(field)) ==> s.inputPos < end
    requires field == PORT_VERB && s.hostStart >= 0 ==> s.inputPos > s.hostEnd
    ensures var value := input[s.inputPos..end];
      var t := Captured(s, field, input, s.inputPos, end, SchemeOf(value));
      && StateOk(t, input) && HostKnown(t, input) && t.proxy.host == HostStep(Verb(field), value, s.proxy.host)
  {
    hide SchemeOf;
    var value := input[s.inputPos..end];
    CapturedOk(s, field, input, s.inputPos, end, SchemeOf(value));
    hide AliasOk;
    if field == PORT_VERB && s.hostStart >= 0 && s.hostEnd + 1 == s.inputPos && input[s.hostEnd] == COLON {
      assert input[s.hostStart..end] == input[s.hostStart..s.hostEnd] + [COLON] + value;
    }
  }

  /** An empty capture is remembered. */
  lemma EmptyKept(parser: Parser, i: nat, s: State, input: seq<byte>)
    requires parser.strict && parser.Valid() && i < |parser.plan| && StateOk(s, input)
      && StepOf(parser, i, s, input).Go?
    ensures var step := StepOf(parser, i, s, input);
      (s.emptyHost ==> step.state.emptyHost) && (s.emptyPort ==> step.state.emptyPort)
  {
    hide SchemeOf;
    hide DelimiterAt;
    hide AliasOk;
    hide IndexByte;
    hide FieldEnds;
    var op := parser.plan[i];
    assert parser.OpOk(i);
    if op.field != 0 {
      StrictField(parser, i, s, input);
      hide StepOf;
      DelimiterFits(parser, op, input, s.inputPos);
      EmptyKeptByField(op, parser.Delimiter(op), i, s, input, DelimiterAt(parser, op, input, s.inputPos));
    }
  }

  lemma EmptyKeptByField(op: Op, delimiter: seq<byte>, i: nat, s: State, input: seq<byte>, idx: int)
    requires StateOk(s, input) && -1 <= idx && (idx >= 0 ==> s.inputPos + idx + op.delimiterLength <= |input|)
    requires FieldEnds(op, true, delimiter, i, s, input, idx).Go?
    ensures var step := FieldEnds(op, true, delimiter, i, s, input, idx);
      (s.emptyHost ==> step.state.emptyHost) && (s.emptyPort ==> step.state.emptyPort)
  {
    hide SchemeOf;
    hide AliasOk;
  }

  /** A strict run that succeeds captures no empty host and no empty port. */
  lemma {:induction false} NothingEmpty(parser: Parser, i: nat, s: State, input: seq<byte>, v6: Ipv6)
    requires parser.strict && parser.Valid() && i <= |parser.plan| && StateOk(s, input)
      && Run(parser, i, s, input, v6).Parsed?
    ensures !s.emptyHost && !s.emptyPort
    decreases |parser.plan| - i
  {
    hide StepOf;
    hide AliasOk;
    if i < |parser.plan| {
      RunStep(parser, i, s, input, v6);
      EmptyKept(parser, i, s, input);
      var step := StepOf(parser, i, s, input);
      NothingEmpty(parser, step.next, step.state, input, v6);
    }
  }

  /** The delimiter is where the search says it is. */
  lemma DelimiterIsThere(parser: Parser, op: Op, input: seq<byte>, start: nat)
    requires op.delimiterStart + op.delimiterLength <= |parser.format| && start <= |input|
    requires op.delimiterLength == 1 ==> op.delimiterByte == parser.format[op.delimiterStart]
    ensures var idx := DelimiterAt(parser, op, input, start);
      && (idx >= 0 ==> op.delimiterLength > 0 && Matches(input, parser.Delimiter(op), start + idx))
      && (op.field != HOST_VERB && op.delimiterLength > 0 && Matches(input, parser.Delimiter(op), start) ==> idx == 0)
  {
    if op.field != HOST_VERB && op.delimiterLength > 0 && Matches(input, parser.Delimiter(op), start) {
      if op.delimiterLength == 1 {
        assert input[start..start + 1][0] == parser.Delimiter(op)[0];
        IndexByteIs(input, op.delimiterByte, start, start);
      } else {
        FindIs(input, parser.Delimiter(op), start, start);
      }
    }
  }

  /** What a field captures goes into the proxy. */
  lemma CapturedFields(s: State, field: byte, input: seq<byte>, end: nat)
    requires StateOk(s, input) && s.inputPos <= end <= |input|
    ensures var value := input[s.inputPos..end];
      var t := Captured(s, field, input, s.inputPos, end, SchemeOf(value));
      && t.proxy.scheme == (if field == SCHEME_VERB then SchemeOf(value) else s.proxy.scheme)
      && t.proxy.username == (if field == USER_VERB then value else s.proxy.username)
      && t.proxy.password == (if field == PASSWORD_VERB then value else s.proxy.password)
  {
  }

  lemma RunStep(parser: Parser, i: nat, s: State, input: seq<byte>, v6: Ipv6)
    requires parser.Valid() && i < |parser.plan| && StateOk(s, input) && Run(parser, i, s, input, v6).Parsed?
    ensures var step := StepOf(parser, i, s, input);
      && step.Go? && StateOk(step.state, input) && i < step.next <= |parser.plan|
      && Run(parser, i, s, input, v6) == Run(parser, step.next, step.state, input, v6)
  {
    hide StepOf;
    hide StateOk;
    hide Finished;
    StepOk(parser, i, s, input);
  }

  /** A literal of a strict plan was matched. */
  lemma TextStep(parser: Parser, tokens: seq<Token>, i: nat, s: State, input: seq<byte>)
    requires parser.strict && parser.Valid() && IsPlan(parser.format, tokens, parser.plan) && i < |tokens|
      && tokens[i].Text?
    requires StateOk(s, input) && StepOf(parser, i, s, input).Go?
    ensures var text := parser.format[tokens[i].start..tokens[i].end];
      && TokenOk(parser.format, tokens[i]) && Matches(input, text, s.inputPos)
      && s.inputPos < s.inputPos + (tokens[i].end - tokens[i].start) <= |input|
      && StepOf(parser, i, s, input) == Go(s.(inputPos := s.inputPos + (tokens[i].end - tokens[i].start)), i + 1)
  {
    assert parser.plan[i] == PlannedOp(parser.format, tokens, i);
    assert TokenOk(parser.format, tokens[i]);
    hide AliasOk;
    hide Parser.Valid;
  }

  lemma PlannedVerb(parser: Parser, tokens: seq<Token>, i: nat)
    requires IsPlan(parser.format, tokens, parser.plan) && i < |tokens| && tokens[i].Verb?
    ensures var op := parser.plan[i];
      && op.field == tokens[i].verb && op.field != 0 && TokenOk(parser.format, tokens[i])
      && (op.consumeDelimiter ==>
            i + 1 < |tokens| && tokens[i + 1].Text? && TokenOk(parser.format, tokens[i + 1])
            && op.delimiterStart == tokens[i + 1].start && op.delimiterStart + op.delimiterLength == tokens[i + 1].end
            && op.delimiterLength > 0)
    ensures var op, j := parser.plan[i], NextText(tokens, i + 1);
      if j < |tokens| then
        && TokenOk(parser.format, tokens[j]) && op.delimiterLength > 0
        && op.delimiterStart == tokens[j].start && op.delimiterStart + op.delimiterLength == tokens[j].end
      else op.delimiterLength == 0
  {
    assert parser.plan[i] == PlannedOp(parser.format, tokens, i);
    assert TokenOk(parser.format, tokens[i]);
    var j := NextText(tokens, i + 1);
    if j < |tokens| {
      assert TokenOk(parser.format, tokens[j]);
    }
  }

  /** Nothing is optional in strict parsing. */
  lemma StrictField(parser: Parser, i: nat, s: State, input: seq<byte>)
    requires parser.strict && parser.Valid() && i < |parser.plan| && parser.plan[i].field != 0 && StateOk(s, input)
    ensures StepOf(parser, i, s, input) == FieldStep(parser, i, s, input)
  {
    hide FieldStep;
    hide DelimiterAt;
    hide IndexByte;
    hide Parser.OpOk;
    hide AliasOk;
  }

  /** Strict parsing goes on past a verb only with its end found. */
  lemma EndFound(op: Op, delimiter: seq<byte>, i: nat, s: State, input: seq<byte>, idx: int) returns (end: nat)
    requires StateOk(s, input) && -1 <= idx && (idx >= 0 ==> s.inputPos + idx + op.delimiterLength <= |input|)
    requires FieldEnds(op, true, delimiter, i, s, input, idx).Go?
    ensures s.inputPos <= end <= |input| && (op.delimiterLength > 0 ==> idx >= 0 && end == s.inputPos + idx)
    ensures op.delimiterLength == 0 ==> end == |input|
    ensures FieldEnds(op, true, delimiter, i, s, input, idx) == Field(op, i, s, input, end,
      SchemeOf(input[s.inputPos..end]))
  {
    hide AliasOk;
    hide Field;
    hide SchemeOf;
    end := if op.delimiterLength != 0 then s.inputPos + idx else |input|;
  }

  lemma VerbGoes(parser: Parser, i: nat, s: State, input: seq<byte>) returns (end: nat)
    requires parser.strict && parser.Valid() && i < |parser.plan| && parser.plan[i].field != 0
    requires StateOk(s, input) && StepOf(parser, i, s, input).Go? && parser.OpOk(i)
    ensures s.inputPos <= end <= |input|
    ensures StepOf(parser, i, s, input) == Field(parser.plan[i], i, s, input, end, SchemeOf(input[s.inputPos..end]))
    ensures parser.plan[i].delimiterLength > 0 ==> Matches(input, parser.Delimiter(parser.plan[i]), end)
    ensures parser.plan[i].delimiterLength == 0 ==> end == |input|
    ensures var op := parser.plan[i];
      op.delimiterLength > 0 && op.field != HOST_VERB && Matches(input, parser.Delimiter(op), s.inputPos) ==>
        end == s.inputPos
  {
    hide StepOf;
    hide AliasOk;
    hide DelimiterAt;
    hide FieldEnds;
    hide Field;
    hide SchemeOf;
    hide Matches;
    var op := parser.plan[i];
    StrictField(parser, i, s, input);
    DelimiterFits(parser, op, input, s.inputPos);
    DelimiterIsThere(parser, op, input, s.inputPos);
    end := EndFound(op, parser.Delimiter(op), i, s, input, DelimiterAt(parser, op, input, s.inputPos));
  }

  /** A verb of a strict plan captured up to its delimiter, and took the delimiter if it comes next. */
  lemma VerbStep(parser: Parser, tokens: seq<Token>, i: nat, s: State, input: seq<byte>) returns (end: nat)
    requires parser.strict && parser.Valid() && IsPlan(parser.format, tokens, parser.plan) && i < |tokens|
      && tokens[i].Verb?
    requires StateOk(s, input) && StepOf(parser, i, s, input).Go?
    ensures s.inputPos <= end <= |input|
    ensures StepOf(parser, i, s, input) == Field(parser.plan[i], i, s, input, end, SchemeOf(input[s.inputPos..end]))
    ensures parser.plan[i].field == tokens[i].verb && TokenOk(parser.format, tokens[i])
    ensures parser.plan[i].consumeDelimiter ==>
      && i + 1 < |tokens| && tokens[i + 1].Text? && TokenOk(parser.format, tokens[i + 1])
      && parser.plan[i].delimiterLength == tokens[i + 1].end - tokens[i + 1].start
      && Matches(input, parser.format[tokens[i + 1].start..tokens[i + 1].end], end)
      && parser.plan[i].delimiterLength > 0 && end + parser.plan[i].delimiterLength <= |input|
    ensures NextStands(parser.format, tokens, i + 1, input, end)
    ensures tokens[i] != Verb(HOST_VERB) && NextStands(parser.format, tokens, i, input, s.inputPos) ==>
      end == s.inputPos
  {
    hide StepOf;
    hide Field;
    hide SchemeOf;
    hide AliasOk;
    assert parser.OpOk(i);
    PlannedVerb(parser, tokens, i);
    hide IsPlan;
    hide Parser.OpOk;
    end := VerbGoes(parser, i, s, input);
  }

  /** The field and the literal taken with it, if any, are the next pieces. */
  lemma VerbFields(op: Op, i: nat, s: State, input: seq<byte>, end: nat)
    requires StateOk(s, input) && s.inputPos <= end <= |input| && HostKnown(s, input)
    requires NeedsText(Verb(op.field)) ==> s.inputPos < end
    requires op.field == PORT_VERB && s.hostStart >= 0 ==> s.inputPos > s.hostEnd
    requires op.consumeDelimiter ==> op.delimiterLength > 0 && end + op.delimiterLength <= |input|
    ensures var value := input[s.inputPos..end];
      var step := Field(op, i, s, input, end, SchemeOf(value));
      && step.Go? && step.next == (if op.consumeDelimiter then i + 2 else i + 1)
      && step.state.inputPos == end + (if op.consumeDelimiter then op.delimiterLength else 0)
      && step.state.proxy.scheme == (if op.field == SCHEME_VERB then SchemeOf(value) else s.proxy.scheme)
      && step.state.proxy.username == (if op.field == USER_VERB then value else s.proxy.username)
      && step.state.proxy.password == (if op.field == PASSWORD_VERB then value else s.proxy.password)
      && step.state.proxy.host == HostStep(Verb(op.field), value, s.proxy.host)
      && StateOk(step.state, input) && HostKnown(step.state, input)
      && (step.state.hostStart >= 0 ==> step.state.hostEnd <= end)
  {
    hide Captured;
    hide SchemeOf;
    hide AliasOk;
    CapturedFields(s, op.field, input, end);
    HostCaptured(s, op.field, input, end);
    CapturedOk(s, op.field, input, s.inputPos, end, SchemeOf(input[s.inputPos..end]));
  }

  /**
   A strict run that succeeds has read the rest of its input as the rest of the format: literals stand for
   themselves, the proxy holds the last capture of each verb, and its host is what hosts and ports make of it.
   */
  lemma {:induction false} StrictRun(parser: Parser, tokens: seq<Token>, i: nat, s: State, input: seq<byte>, v6: Ipv6,
                                     scheme: seq<byte>)
    returns (pieces: seq<seq<byte>>)
    requires parser.strict && parser.Valid() && IsPlan(parser.format, tokens, parser.plan)
    requires i <= |tokens| && StateOk(s, input) && Run(parser, i, s, input, v6).Parsed?
      && s.proxy.scheme == SchemeOf(scheme)
    requires HostKnown(s, input) && HostEnds(parser.format, tokens, i, s, input)
    ensures Spells(parser.format, tokens[i..], pieces, input[s.inputPos..])
    ensures Fields(Run(parser, i, s, input, v6).proxy, tokens[i..], pieces, scheme, s.proxy)
    decreases |tokens| - i
  {
    hide StepOf;
    hide SchemeOf;
    hide AliasOk;
    hide Fields;
    hide Spells;
    hide PlannedOp;
    hide Parser.Valid;
    hide TokenOk;
    hide Matches;
    hide HostKnown;
    hide HostEnds;
    if i == |tokens| {
      RunEnds(parser, tokens, s, input, v6, scheme);
      return [];
    }
    RunStep(parser, i, s, input, v6);
    hide Run;
    if tokens[i].Text? {
      TextStep(parser, tokens, i, s, input);
      hide IsPlan;
      var t := StepOf(parser, i, s, input).state;
      HostKept(parser.format, tokens, i, s, t, input);
      pieces := StrictRun(parser, tokens, i + 1, t, input, v6, scheme);
      assert tokens[i..] == [tokens[i]] + tokens[i + 1..];
      pieces := WithText(parser.format, tokens[i], tokens[i + 1..], pieces, input, s.inputPos, t.inputPos,
                         Run(parser, i, s, input, v6).proxy, scheme, s.proxy);
    } else {
      pieces := VerbRun(parser, tokens, i, s, input, v6, scheme);
    }
  }

  /** A literal moves past the end of a host. */
  lemma HostKept(format: seq<byte>, tokens: seq<Token>, i: nat, s: State, t: State, input: seq<byte>)
    requires TokensOk(format, tokens) && i < |tokens| && StateOk(s, input) && HostKnown(s, input)
    requires s.inputPos < t.inputPos <= |input| && t == s.(inputPos := t.inputPos)
    ensures StateOk(t, input) && HostKnown(t, input) && HostEnds(format, tokens, i + 1, t, input)
  {
  }

  lemma RunEnds(parser: Parser, tokens: seq<Token>, s: State, input: seq<byte>, v6: Ipv6, scheme: seq<byte>)
    requires parser.strict && parser.Valid() && IsPlan(parser.format, tokens, parser.plan) && StateOk(s, input)
    requires Run(parser, |tokens|, s, input, v6).Parsed? && s.proxy.scheme == SchemeOf(scheme)
    ensures Spells(parser.format, tokens[|tokens|..], [], input[s.inputPos..])
    ensures Fields(Run(parser, |tokens|, s, input, v6).proxy, tokens[|tokens|..], [], scheme, s.proxy)
  {
    hide SchemeOf;
    hide AliasOk;
    hide PlannedOp;
    assert tokens[|tokens|..] == [];
  }

  lemma VerbRun(parser: Parser, tokens: seq<Token>, i: nat, s: State, input: seq<byte>, v6: Ipv6, scheme: seq<byte>)
    returns (pieces: seq<seq<byte>>)
    requires parser.strict && parser.Valid() && IsPlan(parser.format, tokens, parser.plan)
    requires i < |tokens| && tokens[i].Verb? && StateOk(s, input) && Run(parser, i, s, input, v6).Parsed?
    requires s.proxy.scheme == SchemeOf(scheme) && HostKnown(s, input) && HostEnds(parser.format, tokens, i, s, input)
    ensures Spells(parser.format, tokens[i..], pieces, input[s.inputPos..])
    ensures Fields(Run(parser, i, s, input, v6).proxy, tokens[i..], pieces, scheme, s.proxy)
    decreases |tokens| - i, 0
  {
    hide StepOf;
    hide Run;
    hide SchemeOf;
    hide AliasOk;
    hide Field;
    hide Fields;
    hide Spells;
    hide PlannedOp;
    hide Parser.Valid;
    hide TokenOk;
    hide Matches;
    RunStep(parser, i, s, input, v6);
    hide IsPlan;
    var step, proxy := StepOf(parser, i, s, input), Run(parser, i, s, input, v6).proxy;
    var end := VerbStep(parser, tokens, i, s, input);
    var op, value := parser.plan[i], input[s.inputPos..end];
    NothingEmpty(parser, step.next, step.state, input, v6);
    VerbHost(parser.format, tokens, op, i, s, input, end);
    VerbFields(op, i, s, input, end);
    var scheme' := if tokens[i] == Verb(SCHEME_VERB) then value else scheme;
    var t := step.state;
    HostEndsAfter(parser.format, tokens, op, i, t, input, end);
    var rest := StrictRun(parser, tokens, step.next, t, input, v6, scheme');
    assert tokens[i..] == [tokens[i]] + tokens[i + 1..];
    if op.consumeDelimiter {
      assert tokens[i + 1..] == [tokens[i + 1]] + tokens[i + 2..];
      rest := WithText(parser.format, tokens[i + 1], tokens[i + 2..], rest, input, end, t.inputPos, proxy, scheme',
        t.proxy);
    }
    pieces := WithValue(parser.format, tokens[i], tokens[i + 1..], rest, input, s.inputPos, end, proxy, scheme,
      s.proxy, scheme', t.proxy);
  }

  /**
   What a verb of a successful strict run captures is not empty where it must not be, and a port follows
   its colon.
   */
  lemma VerbHost(format: seq<byte>, tokens: seq<Token>, op: Op, i: nat, s: State, input: seq<byte>, end: nat)
    requires TokensOk(format, tokens) && i < |tokens| && tokens[i] == Verb(op.field)
    requires StateOk(s, input) && s.inputPos <= end <= |input|
    requires HostEnds(format, tokens, i, s, input)
    requires op.field != HOST_VERB && NextStands(format, tokens, i, input, s.inputPos) ==> end == s.inputPos
    requires var step := Field(op, i, s, input, end, SchemeOf(input[s.inputPos..end]));
      !step.state.emptyHost && !step.state.emptyPort
    ensures NeedsText(Verb(op.field)) ==> s.inputPos < end
    ensures op.field == PORT_VERB && s.hostStart >= 0 ==> s.inputPos > s.hostEnd
  {
    hide SchemeOf;
    hide AliasOk;
    hide NextStands;
  }

  /** After a verb: its field ends where the next literal stands, or the literal was taken. */
  lemma HostEndsAfter(format: seq<byte>, tokens: seq<Token>, op: Op, i: nat, t: State, input: seq<byte>, end: nat)
    requires TokensOk(format, tokens) && i < |tokens| && (op.consumeDelimiter ==> i + 1 < |tokens|)
    requires t.inputPos == end + (if op.consumeDelimiter then op.delimiterLength else 0)
    requires (op.consumeDelimiter ==> op.delimiterLength > 0) && (t.hostStart >= 0 ==> t.hostEnd <= end)
    requires NextStands(format, tokens, i + 1, input, end)
    ensures HostEnds(format, tokens, if op.consumeDelimiter then i + 2 else i + 1, t, input)
  {
  }

  lemma WithText(format: seq<byte>, t: Token, tokens: seq<Token>, rest: seq<seq<byte>>, input: seq<byte>, end: nat,
                 after: nat,
                 proxy: Proxy, scheme: seq<byte>, before: Proxy)
    returns (pieces: seq<seq<byte>>)
    requires TokenOk(format, t) && t.Text? && Matches(input, format[t.start..t.end], end)
      && after == end + (t.end - t.start)
    requires after <= |input| && Spells(format, tokens, rest, input[after..])
      && Fields(proxy, tokens, rest, scheme, before)
    ensures Spells(format, [t] + tokens, pieces, input[end..]) && Fields(proxy, [t] + tokens, pieces, scheme, before)
  {
    var text := format[t.start..t.end];
    assert input[end..] == text + input[after..];
    SpellsMore(format, tokens, rest, input[after..], t, text);
    FieldsMore(proxy, tokens, rest, t, text, scheme, before, scheme, before);
    pieces := [text] + rest;
  }

  lemma WithValue(format: seq<byte>, t: Token, tokens: seq<Token>, rest: seq<seq<byte>>, input: seq<byte>, start: nat,
                  end: nat,
                  proxy: Proxy, scheme: seq<byte>, before: Proxy, scheme': seq<byte>, after: Proxy)
    returns (pieces: seq<seq<byte>>)
    requires TokenOk(format, t) && t.Verb? && start <= end <= |input|
    requires Spells(format, tokens, rest, input[end..]) && Fields(proxy, tokens, rest, scheme', after)
    requires scheme' == if t == Verb(SCHEME_VERB) then input[start..end] else scheme
    requires after.username == if t == Verb(USER_VERB) then input[start..end] else before.username
    requires after.password == if t == Verb(PASSWORD_VERB) then input[start..end] else before.password
    requires after.host == HostStep(t, input[start..end], before.host) && (NeedsText(t) ==> start < end)
    ensures Spells(format, [t] + tokens, pieces, input[start..]) && Fields(proxy, [t] + tokens, pieces, scheme, before)
  {
    var value := input[start..end];
    assert input[start..] == value + input[end..];
    SpellsMore(format, tokens, rest, input[end..], t, value);
    FieldsMore(proxy, tokens, rest, t, value, scheme, before, scheme', after);
    pieces := [value] + rest;
  }

  /** What `New` compiles parses strictly only what the format spells, field by field. */
  lemma StrictParseSpells(parser: Parser, input: seq<byte>, v6: Ipv6) returns (pieces: seq<seq<byte>>)
    requires FirstFault(parser.format, 0).Fine? && IsPlan(parser.format, Tokens(parser.format, 0), parser.plan)
    requires parser.Valid() && parser.strict && parser.kind.Generic? && ParseOutcome(parser, input, v6).Parsed?
    ensures Spells(parser.format, Tokens(parser.format, 0), pieces, input)
    ensures Fields(ParseOutcome(parser, input, v6).proxy, Tokens(parser.format, 0), pieces, [], NO_PROXY)
  {
    hide Run;
    hide IsPlan;
    hide Parser.Valid;
    hide Fields;
    hide Spells;
    pieces := StrictRun(parser, Tokens(parser.format, 0), 0, START, input, v6, []);
    assert Tokens(parser.format, 0)[0..] == Tokens(parser.format, 0) && input[0..] == input;
  }
}
