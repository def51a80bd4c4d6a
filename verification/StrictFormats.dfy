/**
 The two common strict formats have parsers of their own. They accept exactly what a compiled plan of the
 same format accepts, with the same proxy; so every strict parse reads its input as its format is written.
 */
module StrictFormats {
  import opened FastPaths
  import opened Formats
  import opened Parsers
  import opened StrictParsers
  import opened Strings
  import opened Text
  import opened Validation

  // ----- one step of a strict plan -----

  /** The delimiter of a verb is the literal that comes next, and it is taken with the verb. */
  lemma ConsumingOp(parser: Parser, tokens: seq<Token>, i: nat)
    requires IsPlan(parser.format, tokens, parser.plan) && i + 1 < |tokens| && tokens[i].Verb? && tokens[i + 1].Text?
    ensures |parser.plan| == |tokens| && TokenOk(parser.format, tokens[i]) && TokenOk(parser.format, tokens[i + 1])
    ensures var op := parser.plan[i];
      && op.field == tokens[i].verb && op.field != 0 && op.consumeDelimiter && op.delimiterLength > 0
      && op.delimiterStart == tokens[i + 1].start && op.delimiterStart + op.delimiterLength == tokens[i + 1].end
      && op.delimiterByte == (if op.delimiterLength == 1 then parser.format[tokens[i + 1].start] else 0)
  {
    assert parser.plan[i] == PlannedOp(parser.format, tokens, i);
    assert TokenOk(parser.format, tokens[i + 1]);
    assert TokenOk(parser.format, tokens[i]);
    assert NextText(tokens, i + 1) == i + 1;
  }

  ghost predicate IsText(format: seq<byte>, t: Token, text: seq<byte>) {
    t.Text? && t.start < t.end <= |format| && format[t.start..t.end] == text
  }

  lemma DelimiterIs(parser: Parser, op: Op, t: Token, text: seq<byte>)
    requires IsText(parser.format, t, text) && op.delimiterStart == t.start
      && op.delimiterStart + op.delimiterLength == t.end
    requires op.delimiterByte == (if op.delimiterLength == 1 then parser.format[t.start] else 0)
    ensures parser.Delimiter(op) == text && op.delimiterLength == |text|
      && (|text| == 1 ==> op.delimiterByte == text[0])
  {
    assert op.delimiterLength == |parser.format[t.start..t.end]|;
    if op.delimiterLength == 1 {
      assert parser.format[t.start..t.end][0] == parser.format[t.start];
    }
  }

  /** A verb with a literal after it: it fails, or captures up to the literal and goes on behind it. */
  lemma ConsumingStep(parser: Parser, tokens: seq<Token>, i: nat, s: State, input: seq<byte>)
    requires parser.strict && parser.Valid() && IsPlan(parser.format, tokens, parser.plan) && StateOk(s, input)
    requires i + 1 < |tokens| && tokens[i].Verb? && tokens[i + 1].Text?
    ensures parser.OpOk(i)
    ensures var op := parser.plan[i]; var idx := DelimiterAt(parser, op, input, s.inputPos);
      && -1 <= idx && (idx < 0 ==> StepOf(parser, i, s, input).Stop?)
      && (idx >= 0 ==>
            && s.inputPos + idx + op.delimiterLength <= |input|
            && StepOf(parser, i, s, input) == Field(op, i, s, input, s.inputPos + idx,
              SchemeOf(input[s.inputPos..s.inputPos + idx])))
  {
    hide AliasOk;
    hide SchemeOf;
    hide DelimiterAt;
    hide Field;
    ConsumingOp(parser, tokens, i);
    assert parser.OpOk(i);
    hide IsPlan;
    StrictField(parser, i, s, input);
    hide StepOf;
    DelimiterFits(parser, parser.plan[i], input, s.inputPos);
  }

  /** A verb at the end of the format captures the rest of the input. */
  lemma LastStep(parser: Parser, tokens: seq<Token>, i: nat, s: State, input: seq<byte>)
    requires parser.strict && parser.Valid() && IsPlan(parser.format, tokens, parser.plan) && StateOk(s, input)
    requires i + 1 == |tokens| && tokens[i].Verb?
    ensures parser.plan[i].field == tokens[i].verb && !parser.plan[i].consumeDelimiter
    ensures StepOf(parser, i, s, input) == Field(parser.plan[i], i, s, input, |input|,
      SchemeOf(input[s.inputPos..|input|]))
  {
    hide AliasOk;
    hide SchemeOf;
    hide Field;
    assert parser.plan[i] == PlannedOp(parser.format, tokens, i);
    assert TokenOk(parser.format, tokens[i]);
    assert NextText(tokens, i + 1) == |tokens|;
    assert parser.OpOk(i);
    hide IsPlan;
    StrictField(parser, i, s, input);
    hide StepOf;
  }

  lemma RunOn(parser: Parser, i: nat, s: State, input: seq<byte>, v6: Ipv6)
    requires parser.Valid() && i < |parser.plan| && StateOk(s, input)
    ensures var step := StepOf(parser, i, s, input);
      && (step.Stop? ==> !Run(parser, i, s, input, v6).Parsed?)
      && (step.Go? ==>
            && StateOk(step.state, input) && i < step.next <= |parser.plan|
            && Run(parser, i, s, input, v6) == Run(parser, step.next, step.state, input, v6))
  {
    hide StepOf;
    hide StateOk;
    hide Finished;
    StepOk(parser, i, s, input);
  }

  // ----- host and port -----

  /** The colon that ends a host, counted from its start; behind the closing bracket if there is an opening one. */
  function ColonAt(input: seq<byte>, start: nat): int
    requires start <= |input|
  {
    if start < |input| && input[start] == LEFT_BRACKET
      then Relative(Find(input, [COLON], AfterBracket(input, start)), start)
    else Relative(IndexByte(input, COLON, start), start)
  }

  /** Host and port, captured one after the other, make up the rest of the input. */
  lemma EndpointCaptured(s: State, input: seq<byte>, end: nat, a: seq<byte>, b: seq<byte>)
    requires StateOk(s, input) && s.inputPos <= end < |input| && input[end] == COLON
    ensures var t := Captured(s, HOST_VERB, input, s.inputPos, end, a).(inputPos := end + 1);
      && StateOk(t, input)
      && var u := Captured(t, PORT_VERB, input, end + 1, |input|, b);
         && StateOk(u, input) && u.inputPos == |input| && u.proxy == s.proxy.(host := input[s.inputPos..])
         && (u.emptyHost <==> s.emptyHost || s.inputPos == end) && (u.emptyPort <==> s.emptyPort || end + 1 == |input|)
  {
    CapturedOk(s, HOST_VERB, input, s.inputPos, end, a);
    var t := Captured(s, HOST_VERB, input, s.inputPos, end, a).(inputPos := end + 1);
    CapturedOk(t, PORT_VERB, input, end + 1, |input|, b);
    hide AliasOk;
    assert input[s.inputPos..|input|] == input[s.inputPos..];
  }

  /** The format ends in `%h:%d`. */
  ghost predicate EndsInEndpoint(format: seq<byte>, tokens: seq<Token>, i: nat) {
    && i + 3 == |tokens| && tokens[i] == Verb(HOST_VERB) && tokens[i + 2] == Verb(PORT_VERB)
    && IsText(format, tokens[i + 1], [COLON])
  }

  lemma ColonStep(parser: Parser, tokens: seq<Token>, i: nat, s: State, input: seq<byte>)
    requires parser.strict && parser.Valid() && IsPlan(parser.format, tokens, parser.plan) && StateOk(s, input)
    requires EndsInEndpoint(parser.format, tokens, i)
    ensures var idx, step := ColonAt(input, s.inputPos), StepOf(parser, i, s, input);
      && (idx < 0 ==> step.Stop?)
      && (idx >= 0 ==>
            && s.inputPos + idx < |input| && input[s.inputPos + idx] == COLON
            && var end := s.inputPos + idx;
               var t := Captured(s, HOST_VERB, input, s.inputPos, end, SchemeOf(input[s.inputPos..end]));
               step == Go(t.(inputPos := end + 1), i + 2))
  {
    hide SchemeOf;
    hide Captured;
    hide AliasOk;
    ConsumingOp(parser, tokens, i);
    ConsumingStep(parser, tokens, i, s, input);
    hide StepOf;
    hide IsPlan;
    var op := parser.plan[i];
    DelimiterIs(parser, op, tokens[i + 1], [COLON]);
    DelimiterIsThere(parser, op, input, s.inputPos);
    var idx := ColonAt(input, s.inputPos);
    if idx >= 0 {
      var end := s.inputPos + idx;
      assert input[end..end + 1][0] == COLON;
      CapturedEnds(s, input, end, SchemeOf(input[s.inputPos..end]));
    }
  }

  lemma CapturedEnds(s: State, input: seq<byte>, end: nat, canonical: seq<byte>)
    requires StateOk(s, input) && s.inputPos <= end <= |input|
    ensures Captured(s, HOST_VERB, input, s.inputPos, end, canonical).inputPos == end
  {
  }

  /** What an accepted text has: a host and a port that are not empty, with the colon where the parser looks for it. */
  lemma AcceptedColon(input: seq<byte>, start: nat, v6: Ipv6)
    requires start <= |input| && HostPortVerdict(input[start..], v6) == Accepted
    ensures var idx := ColonAt(input, start); 0 < idx && start + idx + 1 < |input|
  {
    var rest := input[start..];
    AcceptedExactly(rest, v6);
    var c: nat :| EndpointAt(rest, c, v6);
    PortNotEmpty(rest[c + 1..]);
    assert rest[c] == input[start + c];
    if rest[0] == LEFT_BRACKET {
      BracketColon(input, start, c);
    } else {
      LiteralNotEmpty(rest[..c], v6);
      hide HostOk;
      assert forall i :: start <= i < start + c ==> input[i] == rest[..c][i - start];
      IndexByteIs(input, COLON, start, start + c);
    }
  }

  lemma PortNotEmpty(port: seq<byte>)
    requires PortOk(port)
    ensures port != []
  {
  }

  lemma BracketColon(input: seq<byte>, start: nat, c: nat)
    requires start + c < |input| && c >= 2 && input[start] == LEFT_BRACKET && input[start + c] == COLON
    requires input[start + c - 1] == RIGHT_BRACKET && RIGHT_BRACKET !in input[start..][1..c - 1]
    ensures ColonAt(input, start) == c
  {
    var rest := input[start..];
    forall i | start <= i < start + c - 1
      ensures input[i] != RIGHT_BRACKET
    {
      if i > start {
        assert rest[1..c - 1][i - start - 1] == input[i];
      }
    }
    IndexByteIs(input, RIGHT_BRACKET, start, start + c - 1);
    assert input[start + c..start + c + 1] == [COLON];
    FindIs(input, [COLON], start + c, start + c);
  }

  /** Host and port at the end: the run accepts exactly if validation accepts the rest of the input as the host. */
  lemma EndpointRun(parser: Parser, tokens: seq<Token>, i: nat, s: State, input: seq<byte>, v6: Ipv6)
    requires parser.strict && parser.Valid() && IsPlan(parser.format, tokens, parser.plan) && StateOk(s, input)
    requires EndsInEndpoint(parser.format, tokens, i) && !s.emptyHost && !s.emptyPort
    ensures var p, run := s.proxy.(host := input[s.inputPos..]), Run(parser, i, s, input, v6);
      (run.Parsed? <==> ProxyVerdict(p, v6) == Accepted) && (run.Parsed? ==> run == Parsed(p))
  {
    hide SchemeOf;
    hide Captured;
    hide AliasOk;
    hide HostPortVerdict;
    hide CredentialsOk;
    hide IsScheme;
    ColonStep(parser, tokens, i, s, input);
    RunOn(parser, i, s, input, v6);
    var idx, p := ColonAt(input, s.inputPos), s.proxy.(host := input[s.inputPos..]);
    if ProxyVerdict(p, v6) == Accepted {
      AcceptedColon(input, s.inputPos, v6);
    }
    if idx >= 0 {
      var end, t := s.inputPos + idx, StepOf(parser, i, s, input).state;
      EndpointCaptured(s, input, end, SchemeOf(input[s.inputPos..end]), SchemeOf(input[t.inputPos..|input|]));
      LastStep(parser, tokens, i + 2, t, input);
      RunOn(parser, i + 2, t, input, v6);
    }
  }

  // ----- the two formats -----

  /** The state behind a scheme of `cut` bytes and the separator. */
  ghost function BehindScheme(input: seq<byte>, cut: nat): State
    requires cut <= |input|
  {
    START.(proxy := NO_PROXY.(scheme := SchemeOf(input[..cut])), schemeParsed := cut > 0, inputPos := cut + 3)
  }

  /** `%t://` at the start of a format. */
  lemma SchemeStep(parser: Parser, tokens: seq<Token>, input: seq<byte>)
    requires parser.strict && parser.Valid() && IsPlan(parser.format, tokens, parser.plan)
    requires |tokens| > 1 && tokens[0] == Verb(SCHEME_VERB) && IsText(parser.format, tokens[1], SEPARATOR)
    ensures var cut, step := Find(input, SEPARATOR, 0), StepOf(parser, 0, START, input);
      && (cut < 0 ==> step.Stop?)
      && (cut >= 0 ==>
            && cut + 3 <= |input|
            && step == Go(BehindScheme(input, cut), 2))
  {
    hide SchemeOf;
    hide StepOf;
    hide Captured;
    hide IsPlan;
    hide TokenOk;
    SchemeCaptured(input, 0);
    ConsumingOp(parser, tokens, 0);
    DelimiterIs(parser, parser.plan[0], tokens[1], SEPARATOR);
    ConsumingStep(parser, tokens, 0, START, input);
    var cut := Find(input, SEPARATOR, 0);
    if cut >= 0 {
      SchemeCaptured(input, cut);
    }
  }

  lemma SchemeCaptured(input: seq<byte>, cut: nat)
    requires cut <= |input|
    ensures StateOk(START, input)
    ensures Captured(START, SCHEME_VERB, input, 0, cut, SchemeOf(input[0..cut]))
         == START.(proxy := NO_PROXY.(scheme := SchemeOf(input[..cut])), schemeParsed := cut > 0, inputPos := cut)
  {
    hide SchemeOf;
    assert input[0..cut] == input[..cut];
  }

  function WithField(p: Proxy, field: byte, value: seq<byte>): Proxy {
    if field == USER_VERB then p.(username := value) else p.(password := value)
  }

  /** `%u` or `%p` with a delimiter of one byte behind it. */
  lemma ByteStep(parser: Parser, tokens: seq<Token>, i: nat, s: State, input: seq<byte>, field: byte, b: byte)
    requires parser.strict && parser.Valid() && IsPlan(parser.format, tokens, parser.plan) && StateOk(s, input)
    requires i + 1 < |tokens| && tokens[i] == Verb(field) && IsText(parser.format, tokens[i + 1], [b])
    requires field == USER_VERB || field == PASSWORD_VERB
    ensures var at, step := IndexByte(input, b, s.inputPos), StepOf(parser, i, s, input);
      && (at < 0 ==> step.Stop?)
      && (at >= 0 ==>
            step == Go(s.(proxy := WithField(s.proxy, field, input[s.inputPos..at]), inputPos := at + 1), i + 2))
  {
    hide SchemeOf;
    hide AliasOk;
    hide StepOf;
    hide IsPlan;
    hide TokenOk;
    ConsumingOp(parser, tokens, i);
    DelimiterIs(parser, parser.plan[i], tokens[i + 1], [b]);
    ConsumingStep(parser, tokens, i, s, input);
  }

  lemma SliceOfOne(f: seq<byte>, i: nat)
    requires i < |f|
    ensures f[i..i + 1] == [f[i]]
  {
  }

  lemma SliceOfThree(f: seq<byte>, i: nat)
    requires i + 2 < |f|
    ensures f[i..i + 3] == [f[i], f[i + 1], f[i + 2]]
  {
  }

  lemma TextToken(format: seq<byte>, i: nat, p: nat)
    requires i < p <= |format| && FirstFault(format, i).Fine? && (p < |format| ==> format[p] == PERCENT)
    requires forall k :: i <= k < p ==> format[k] != PERCENT
    ensures FirstFault(format, p).Fine? && Tokens(format, i) == [Text(i, p)] + Tokens(format, p)
  {
    NextPercentIs(format, i, p);
  }

  lemma VerbToken(format: seq<byte>, i: nat, verb: byte)
    requires i + 1 < |format| && FirstFault(format, i).Fine? && format[i] == PERCENT && format[i + 1] == verb != PERCENT
    ensures i + 2 <= |format| && FirstFault(format, i + 2).Fine?
    ensures Tokens(format, i) == [Verb(verb)] + Tokens(format, i + 2)
  {
  }

  lemma TokensAtEnd(f: seq<byte>)
    ensures FirstFault(f, |f|).Fine? && Tokens(f, |f|) == []
  {
  }

  /** `%t://%h:%d`. */
  ghost predicate HostPortShape(format: seq<byte>, tokens: seq<Token>) {
    |tokens| == 5 && tokens[0] == Verb(SCHEME_VERB) && IsText(format, tokens[1], SEPARATOR)
      && EndsInEndpoint(format, tokens, 2)
  }

  /** `%t://%u:%p@%h:%d`. */
  ghost predicate CredentialsShape(format: seq<byte>, tokens: seq<Token>) {
    && |tokens| == 9 && tokens[0] == Verb(SCHEME_VERB) && IsText(format, tokens[1], SEPARATOR)
    && tokens[2] == Verb(USER_VERB) && IsText(format, tokens[3], [COLON])
    && tokens[4] == Verb(PASSWORD_VERB) && IsText(format, tokens[5], [AT]) && EndsInEndpoint(format, tokens, 6)
  }

  /** `%h:%d` from a place to the end. */
  lemma EndpointTokens(f: seq<byte>, i: nat)
    requires |f| == i + 5 && FirstFault(f, i).Fine? && f[i] == f[i + 3] == PERCENT
    requires f[i + 1] == HOST_VERB && f[i + 2] == COLON && f[i + 4] == PORT_VERB
    ensures Tokens(f, i) == [Verb(HOST_VERB), Text(i + 2, i + 3), Verb(PORT_VERB)]
    ensures EndsInEndpoint(f, Tokens(f, i), 0)
  {
    hide Tokens;
    hide FirstFault;
    VerbToken(f, i, HOST_VERB);
    TextToken(f, i + 2, i + 3);
    VerbToken(f, i + 3, PORT_VERB);
    TokensAtEnd(f);
    SliceOfOne(f, i + 2);
  }

  /** `%t://` at the start. */
  lemma SchemeTokens(f: seq<byte>)
    requires |f| > 5 && FirstFault(f, 0).Fine? && f[0] == f[5] == PERCENT
    requires f[1] == SCHEME_VERB && f[2] == COLON && f[3] == f[4] == 0x2f
    ensures FirstFault(f, 5).Fine? && Tokens(f, 0) == [Verb(SCHEME_VERB), Text(2, 5)] + Tokens(f, 5)
    ensures IsText(f, Text(2, 5), SEPARATOR)
  {
    hide Tokens;
    hide FirstFault;
    VerbToken(f, 0, SCHEME_VERB);
    TextToken(f, 2, 5);
    SliceOfThree(f, 2);
  }

  /** A verb and a delimiter of one byte. */
  lemma ByteTokens(f: seq<byte>, i: nat, verb: byte, b: byte)
    requires i + 3 < |f| && FirstFault(f, i).Fine? && f[i] == f[i + 3] == PERCENT && f[i + 1] == verb != PERCENT
      && f[i + 2] == b != PERCENT
    ensures FirstFault(f, i + 3).Fine? && Tokens(f, i) == [Verb(verb), Text(i + 2, i + 3)] + Tokens(f, i + 3)
    ensures IsText(f, Text(i + 2, i + 3), [b])
  {
    hide Tokens;
    hide FirstFault;
    VerbToken(f, i, verb);
    TextToken(f, i + 2, i + 3);
    SliceOfOne(f, i + 2);
  }

  lemma HostPortTokens()
    ensures FirstFault(HOST_PORT_FORMAT, 0).Fine? && HostPortShape(HOST_PORT_FORMAT, Tokens(HOST_PORT_FORMAT, 0))
  {
    CommonFormatsAreFine();
    hide Tokens;
    hide FirstFault;
    SchemeTokens(HOST_PORT_FORMAT);
    EndpointTokens(HOST_PORT_FORMAT, 5);
  }

  lemma CredentialsTokens()
    ensures FirstFault(CREDENTIALS_FORMAT, 0).Fine?
      && CredentialsShape(CREDENTIALS_FORMAT, Tokens(CREDENTIALS_FORMAT, 0))
  {
    CommonFormatsAreFine();
    hide Tokens;
    hide FirstFault;
    SchemeTokens(CREDENTIALS_FORMAT);
    ByteTokens(CREDENTIALS_FORMAT, 5, USER_VERB, COLON);
    ByteTokens(CREDENTIALS_FORMAT, 8, PASSWORD_VERB, AT);
    EndpointTokens(CREDENTIALS_FORMAT, 11);
  }

  /** A plan compiled from a format, for strict parsing. */
  ghost predicate StrictPlan(parser: Parser, format: seq<byte>) {
    && parser.format == format && parser.strict && parser.Valid() && FirstFault(format, 0).Fine?
    && IsPlan(format, Tokens(format, 0), parser.plan)
  }

  ghost predicate SameSuccess(a: Outcome, b: Outcome) {
    (a.Parsed? <==> b.Parsed?) && (a.Parsed? ==> a == b)
  }

  /** From `%t://` on: the run fails, or goes on behind the separator with the scheme. */
  lemma SchemeRun(parser: Parser, tokens: seq<Token>, input: seq<byte>, v6: Ipv6)
    requires parser.strict && parser.Valid() && IsPlan(parser.format, tokens, parser.plan)
    requires |tokens| > 1 && tokens[0] == Verb(SCHEME_VERB) && IsText(parser.format, tokens[1], SEPARATOR)
    ensures StateOk(START, input)
    ensures var cut, run := Find(input, SEPARATOR, 0), Run(parser, 0, START, input, v6);
      if cut < 0 then !run.Parsed?
      else
        var s := BehindScheme(input, cut);
        StateOk(s, input) && |parser.plan| >= 2 && run == Run(parser, 2, s, input, v6)
  {
    hide SchemeOf;
    hide Run;
    SchemeStep(parser, tokens, input);
    assert |parser.plan| == |tokens|;
    hide IsPlan;
    hide Parser.Valid;
    hide IsText;
    RunOn(parser, 0, START, input, v6);
    hide StepOf;
  }

  /** `%t://%h:%d`: its own parser and the plan accept the same inputs, with the same proxy. */
  lemma HostPortAgrees(parser: Parser, input: seq<byte>, v6: Ipv6)
    requires StrictPlan(parser, HOST_PORT_FORMAT)
    ensures SameSuccess(Run(parser, 0, START, input, v6), HostPortOutcome(input, v6))
  {
    HostPortTokens();
    HostPortRun(parser, Tokens(parser.format, 0), input, v6);
  }

  lemma HostPortRun(parser: Parser, tokens: seq<Token>, input: seq<byte>, v6: Ipv6)
    requires parser.strict && parser.Valid() && IsPlan(parser.format, tokens, parser.plan)
      && HostPortShape(parser.format, tokens)
    ensures SameSuccess(Run(parser, 0, START, input, v6), HostPortOutcome(input, v6))
  {
    hide SchemeOf;
    hide ProxyVerdict;
    hide Parser.Valid;
    hide IsPlan;
    hide IsText;
    hide EndsInEndpoint;
    hide Run;
    SchemeRun(parser, tokens, input, v6);
    var cut := Find(input, SEPARATOR, 0);
    if cut >= 0 {
      var s := BehindScheme(input, cut);
      EndpointRun(parser, tokens, 2, s, input, v6);
    }
  }

  /** From `%p@` on: the run accepts exactly if the at sign is there and validation accepts what it captures. */
  lemma PasswordRun(parser: Parser, tokens: seq<Token>, i: nat, s: State, input: seq<byte>, v6: Ipv6)
    requires parser.strict && parser.Valid() && IsPlan(parser.format, tokens, parser.plan) && StateOk(s, input)
    requires i + 2 < |tokens| && tokens[i] == Verb(PASSWORD_VERB) && IsText(parser.format, tokens[i + 1], [AT])
    requires EndsInEndpoint(parser.format, tokens, i + 2) && !s.emptyHost && !s.emptyPort
    ensures var at, run := IndexByte(input, AT, s.inputPos), Run(parser, i, s, input, v6);
      if at < 0 then !run.Parsed?
      else
        var p := s.proxy.(password := input[s.inputPos..at], host := input[at + 1..]);
        (run.Parsed? <==> ProxyVerdict(p, v6) == Accepted) && (run.Parsed? ==> run == Parsed(p))
  {
    hide ProxyVerdict;
    hide Run;
    hide StepOf;
    hide AliasOk;
    ByteStep(parser, tokens, i, s, input, PASSWORD_VERB, AT);
    assert |parser.plan| == |tokens|;
    RunOn(parser, i, s, input, v6);
    if IndexByte(input, AT, s.inputPos) >= 0 {
      EndpointRun(parser, tokens, i + 2, StepOf(parser, i, s, input).state, input, v6);
    }
  }

  /** From `%u:` on: likewise with the colon. */
  lemma UserRun(parser: Parser, tokens: seq<Token>, i: nat, s: State, input: seq<byte>, v6: Ipv6)
    requires parser.strict && parser.Valid() && IsPlan(parser.format, tokens, parser.plan) && StateOk(s, input)
    requires i + 4 < |tokens| && tokens[i] == Verb(USER_VERB) && IsText(parser.format, tokens[i + 1], [COLON])
    requires tokens[i + 2] == Verb(PASSWORD_VERB) && IsText(parser.format, tokens[i + 3], [AT])
    requires EndsInEndpoint(parser.format, tokens, i + 4) && !s.emptyHost && !s.emptyPort
    ensures var colon, run := IndexByte(input, COLON, s.inputPos), Run(parser, i, s, input, v6);
      if colon < 0 then !run.Parsed?
      else
        var at := IndexByte(input, AT, colon + 1);
        if at < 0 then !run.Parsed?
        else
          var p := s.proxy.(username := input[s.inputPos..colon], password := input[colon + 1..at],
                            host := input[at + 1..]);
          (run.Parsed? <==> ProxyVerdict(p, v6) == Accepted) && (run.Parsed? ==> run == Parsed(p))
  {
    hide ProxyVerdict;
    hide Run;
    hide StepOf;
    hide AliasOk;
    ByteStep(parser, tokens, i, s, input, USER_VERB, COLON);
    assert |parser.plan| == |tokens|;
    RunOn(parser, i, s, input, v6);
    if IndexByte(input, COLON, s.inputPos) >= 0 {
      PasswordRun(parser, tokens, i + 2, StepOf(parser, i, s, input).state, input, v6);
    }
  }

  /** `%t://%u:%p@%h:%d`: likewise. */
  lemma CredentialsAgree(parser: Parser, input: seq<byte>, v6: Ipv6)
    requires StrictPlan(parser, CREDENTIALS_FORMAT)
    ensures SameSuccess(Run(parser, 0, START, input, v6), CredentialsOutcome(input, v6))
  {
    CredentialsTokens();
    CredentialsRun(parser, Tokens(parser.format, 0), input, v6);
  }

  lemma CredentialsRun(parser: Parser, tokens: seq<Token>, input: seq<byte>, v6: Ipv6)
    requires parser.strict && parser.Valid() && IsPlan(parser.format, tokens, parser.plan)
      && CredentialsShape(parser.format, tokens)
    ensures SameSuccess(Run(parser, 0, START, input, v6), CredentialsOutcome(input, v6))
  {
    hide SchemeOf;
    hide ProxyVerdict;
    hide Parser.Valid;
    hide IsPlan;
    hide IsText;
    hide EndsInEndpoint;
    hide Run;
    SchemeRun(parser, tokens, input, v6);
    var cut := Find(input, SEPARATOR, 0);
    if cut >= 0 {
      var s := BehindScheme(input, cut);
      UserRun(parser, tokens, 2, s, input, v6);
    }
  }

  // ----- every strict format -----

  /** The plan of a format, which the two common formats do without. */
  ghost function PlanOf(format: seq<byte>): (parser: Parser)
    requires FirstFault(format, 0).Fine?
    ensures StrictPlan(parser, format)
  {
    var tokens := Tokens(format, 0);
    TokensAreOk(format, 0);
    var plan := seq(|tokens|, k requires 0 <= k < |tokens| => PlannedOp(format, tokens, k));
    var parser := Parser(format, plan, true, Verb(SCHEME_VERB) in tokens, Generic);
    PlanIsValid(parser, tokens);
    parser
  }

  /** What `New` makes of a format for strict parsing. */
  ghost predicate CompiledStrictly(parser: Parser, format: seq<byte>) {
    && FirstFault(format, 0).Fine? && parser.Valid() && parser.kind == DetectKind(format, true)
    && (parser.kind.Generic? ==> StrictPlan(parser, format))
  }

  /** Every strict parse that succeeds has read its input as its format is written, whichever parser did it. */
  lemma StrictFormatSpells(parser: Parser, format: seq<byte>, input: seq<byte>, v6: Ipv6)
    returns (pieces: seq<seq<byte>>)
    requires CompiledStrictly(parser, format) && ParseOutcome(parser, input, v6).Parsed?
    ensures Spells(format, Tokens(format, 0), pieces, input)
    ensures Fields(ParseOutcome(parser, input, v6).proxy, Tokens(format, 0), pieces, [], NO_PROXY)
  {
    hide Run;
    hide IsPlan;
    hide Parser.Valid;
    hide Fields;
    hide Spells;
    hide HostPortOutcome;
    hide CredentialsOutcome;
    var plan := PlanOf(format);
    match parser.kind
    case Generic => pieces := StrictParseSpells(parser, input, v6);
    case StrictSchemeHostPort =>
      HostPortAgrees(plan, input, v6);
      pieces := StrictParseSpells(plan, input, v6);
    case StrictFullCredentials =>
      CredentialsAgree(plan, input, v6);
      pieces := StrictParseSpells(plan, input, v6);
  }
}
