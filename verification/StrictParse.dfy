/** The strict parsers for the two common formats, byte by byte: what the fast ones must agree with. */
module StrictParsers {
  import opened Strings
  import opened Text
  import opened Validation

  const SEPARATOR: seq<byte> := [0x3a, 0x2f, 0x2f]

  datatype ParseError =
    | NotFound(delimiter: seq<byte>)
    | Mismatch(delimiter: seq<byte>, position: nat)
    | Trail(rest: seq<byte>)
    | SchemeNotParsed
    | HostNotParsed
    | InvalidProxy(failure: Failure)

  /** The destination and the error; the destination is part of the outcome even after an error. */
  datatype Outcome = Parsed(proxy: Proxy) | Failed(proxy: Proxy, error: ParseError)

  /** The scheme field: as written if canonical, else its canonical form if there is one. */
  method ReadScheme(text: seq<byte>) returns (scheme: seq<byte>)
    ensures scheme == SchemeOf(text)
  {
    if IsScheme(text) {
      CanonicalIsLower(text);
      return text;
    }
    var canonical, ok := ParseScheme(text);
    return if ok then canonical else text;
  }

  /** A proxy that fails validation for lack of any colon in its host is reported as incomplete. */
  ghost function Checked(p: Proxy, v6: Ipv6): Outcome {
    match ProxyVerdict(p, v6)
    case Accepted => Parsed(p)
    case Rejected(failure) =>
      if COLON !in p.host then Failed(NO_PROXY, NotFound([COLON])) else Failed(p, InvalidProxy(failure))
  }

  method Check(p: Proxy, v6: Ipv6) returns (outcome: Outcome)
    ensures outcome == Checked(p, v6)
  {
    var verdict := Validate(p, v6);
    if verdict.Accepted? {
      return Parsed(p);
    }
    var colon := LastIndexByte(p.host, COLON);
    if colon < 0 {
      return Failed(NO_PROXY, NotFound([COLON]));
    }
    return Failed(p, InvalidProxy(verdict.failure));
  }

  /** `%t://%h:%d`. */
  ghost function HostPortOutcome(input: seq<byte>, v6: Ipv6): Outcome {
    var cut := Find(input, SEPARATOR, 0);
    if cut < 0 then Failed(NO_PROXY, NotFound(SEPARATOR))
    else Checked(Proxy(SchemeOf(input[..cut]), input[cut + 3..], [], []), v6)
  }

  method ParseSchemeHostPort(input: seq<byte>, v6: Ipv6) returns (outcome: Outcome)
    ensures outcome == HostPortOutcome(input, v6)
  {
    var cut := Find(input, SEPARATOR, 0);
    if cut < 0 {
      return Failed(NO_PROXY, NotFound(SEPARATOR));
    }
    var scheme := ReadScheme(input[..cut]);
    outcome := Check(Proxy(scheme, input[cut + 3..], [], []), v6);
  }

  /** `%t://%u:%p@%h:%d`. */
  ghost function CredentialsOutcome(input: seq<byte>, v6: Ipv6): Outcome {
    var cut := Find(input, SEPARATOR, 0);
    if cut < 0 then Failed(NO_PROXY, NotFound(SEPARATOR))
    else
      var colon := IndexByte(input, COLON, cut + 3);
      if colon < 0 then Failed(NO_PROXY, NotFound([COLON]))
      else
        var at := IndexByte(input, AT, colon + 1);
        if at < 0 then Failed(NO_PROXY, NotFound([AT]))
        else Checked(Proxy(SchemeOf(input[..cut]), input[at + 1..], input[cut + 3..colon], input[colon + 1..at]), v6)
  }

  method ParseFullCredentials(input: seq<byte>, v6: Ipv6) returns (outcome: Outcome)
    ensures outcome == CredentialsOutcome(input, v6)
  {
    hide Checked;
    hide SchemeOf;
    hide Find;
    hide IndexByte;
    var schemeEnd := Find(input, SEPARATOR, 0);
    if schemeEnd < 0 {
      return Failed(NO_PROXY, NotFound(SEPARATOR));
    }
    var usernameStart := schemeEnd + 3;
    var usernameEnd := IndexByte(input, COLON, usernameStart);
    if usernameEnd < 0 {
      return Failed(NO_PROXY, NotFound([COLON]));
    }
    var passwordStart := usernameEnd + 1;
    var passwordEnd := IndexByte(input, AT, passwordStart);
    if passwordEnd < 0 {
      return Failed(NO_PROXY, NotFound([AT]));
    }
    var scheme := ReadScheme(input[..schemeEnd]);
    outcome := Check(Proxy(scheme, input[passwordEnd + 1..], input[usernameStart..usernameEnd],
      input[passwordStart..passwordEnd]), v6);
  }
}
