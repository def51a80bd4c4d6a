/**
 The scalar validators, the reference for the fast paths. Each predicate states the rule; each
 method is the source's loop, proved to decide it.
 */
module Validation {
  import opened Strings
  import opened Swar
  import opened Text

  const COLON: byte := 0x3a
  const AT: byte := 0x40
  const PERCENT: byte := 0x25
  const LEFT_BRACKET: byte := 0x5b
  const RIGHT_BRACKET: byte := 0x5d
  const ZERO: byte := 0x30

  const HTTP: seq<byte> := [0x68, 0x74, 0x74, 0x70]
  const HTTPS: seq<byte> := [0x68, 0x74, 0x74, 0x70, 0x73]
  const SOCKS4: seq<byte> := [0x73, 0x6f, 0x63, 0x6b, 0x73, 0x34]
  const SOCKS4A: seq<byte> := [0x73, 0x6f, 0x63, 0x6b, 0x73, 0x34, 0x61]
  const SOCKS5: seq<byte> := [0x73, 0x6f, 0x63, 0x6b, 0x73, 0x35]
  const SOCKS5H: seq<byte> := [0x73, 0x6f, 0x63, 0x6b, 0x73, 0x35, 0x68]

  const MAX_LABEL: nat := 63
  const MAX_NAME: nat := 253
  const MAX_ABSOLUTE_NAME: nat := 254
  const MAX_CREDENTIAL: nat := 255

  datatype Failure = BadScheme | BadHost | BadPort | BadCredentials

  datatype Verdict = Accepted | Rejected(failure: Failure)

  datatype Proxy = Proxy(scheme: seq<byte>, host: seq<byte>, username: seq<byte>, password: seq<byte>)

  const NO_PROXY := Proxy([], [], [], [])

  /** Which texts `netip.ParseAddr` accepts as IPv6 addresses. */
  type Ipv6 = seq<byte> -> bool

  // ----- schemes -----

  predicate IsScheme(s: seq<byte>) {
    s == HTTP || s == HTTPS || s == SOCKS4 || s == SOCKS4A || s == SOCKS5 || s == SOCKS5H
  }

  function Lower(c: byte): byte {
    if 0x41 <= c <= 0x5a then c + 0x20 else c
  }

  ghost function Lowered(s: seq<byte>): seq<byte> {
    seq(|s|, i requires 0 <= i < |s| => Lower(s[i]))
  }

  /** The canonical scheme that a text names in any case, or the text itself. */
  ghost function SchemeOf(s: seq<byte>): seq<byte> {
    if IsScheme(Lowered(s)) then Lowered(s) else s
  }

  method ParseScheme(s: seq<byte>) returns (scheme: seq<byte>, ok: bool)
    ensures ok <==> IsScheme(Lowered(s))
    ensures scheme == if ok then Lowered(s) else []
  {
    if IsScheme(s) {
      CanonicalIsLower(s);
      return s, true;
    }
    if |s| == 0 || |s| > 7 {
      return [], false;
    }
    var buf := [];
    for i := 0 to |s|
      invariant buf == Lowered(s)[..i]
    {
      buf := buf + [Lower(s[i])];
    }
    assert buf == Lowered(s);
    if IsScheme(buf) {
      return buf, true;
    }
    return [], false;
  }

  lemma CanonicalIsLower(s: seq<byte>)
    requires IsScheme(s)
    ensures Lowered(s) == s
  {
  }

  // ----- digits -----

  predicate AllDigits(s: seq<byte>) {
    forall i :: 0 <= i < |s| ==> Digit(s[i])
  }

  function DigitValue(c: byte): nat {
    if Digit(c) then (c - ZERO) as nat else 0
  }

  function Decimal(s: seq<byte>): nat {
    if s == [] then 0 else 10 * Decimal(s[..|s| - 1]) + DigitValue(s[|s| - 1])
  }

  lemma DecimalStep(s: seq<byte>, from: nat, i: nat)
    requires from <= i < |s|
    ensures Decimal(s[from..i + 1]) == 10 * Decimal(s[from..i]) + DigitValue(s[i])
  {
    assert s[from..i + 1][..i - from] == s[from..i];
  }

  lemma {:induction false} DecimalDropZero(s: seq<byte>)
    requires |s| > 0 && s[0] == ZERO
    ensures Decimal(s) == Decimal(s[1..])
  {
    var last := |s| - 1;
    if last > 0 {
      assert s[..last][1..] == s[1..][..last - 1];
      DecimalDropZero(s[..last]);
    }
  }

  lemma {:induction false} DecimalLarge(s: seq<byte>)
    requires |s| >= 6 && AllDigits(s) && s[0] != ZERO
    ensures Decimal(s) >= 100000
  {
    var t := s[..|s| - 1];
    if |s| > 6 {
      DecimalLarge(t);
    } else {
      assert t[..4] == s[..4] && t[..3] == s[..3] && t[..2] == s[..2] && t[..1] == s[..1];
      assert Decimal(s[..1]) == 10 * Decimal([]) + DigitValue(s[0]) >= 1 by {
        assert s[..1][..0] == [];
      }
      DecimalStep(s, 0, 1);
      DecimalStep(s, 0, 2);
      DecimalStep(s, 0, 3);
      DecimalStep(s, 0, 4);
      assert s[0..5] == t && s[0..4] == s[..4] && s[0..3] == s[..3] && s[0..2] == s[..2] && s[0..1] == s[..1];
    }
  }

  /** A port is any digit sequence, leading zeros included, with a value from 1 to 65535. */
  ghost predicate PortOk(port: seq<byte>) {
    AllDigits(port) && 1 <= Decimal(port) <= 65535
  }

  method IsValidPort(text: seq<byte>) returns (ok: bool)
    ensures ok <==> PortOk(text)
  {
    var port := text;
    while |port| > 1 && port[0] == ZERO
      invariant Decimal(port) == Decimal(text) && (AllDigits(port) <==> AllDigits(text))
      decreases |port|
    {
      DecimalDropZero(port);
      assert port == [port[0]] + port[1..];
      assert AllDigits(port) <==> AllDigits(port[1..]);
      port := port[1..];
    }
    if |port| == 0 || |port| > 5 {
      if |port| > 5 && AllDigits(port) {
        DecimalLarge(port);
      }
      return false;
    }
    var value := 0;
    for i := 0 to |port|
      invariant forall j :: 0 <= j < i ==> Digit(port[j])
      invariant value == Decimal(port[0..i])
    {
      if port[i] < 0x30 || port[i] > 0x39 {
        return false;
      }
      DecimalStep(port, 0, i);
      value := value * 10 + (port[i] - ZERO) as nat;
    }
    assert port[0..|port|] == port;
    return value != 0 && value <= 65535;
  }

  // ----- dotted IPv4 -----

  /** One to three digits, no leading zero, at most 255. */
  ghost predicate OctetOk(s: seq<byte>) {
    1 <= |s| <= 3 && AllDigits(s) && (|s| == 1 || s[0] != ZERO) && Decimal(s) <= 255
  }

  /** The first dot at or after a position, or the end. */
  function NextDot(s: seq<byte>, from: nat): (d: nat)
    requires from <= |s|
    ensures from <= d <= |s| && (d < |s| ==> s[d] == DOT) && forall i :: from <= i < d ==> s[i] != DOT
  {
    var d := IndexByte(s, DOT, from);
    if d == -1 then |s| else d
  }

  lemma NextDotIs(s: seq<byte>, from: nat, d: nat)
    requires from <= d <= |s| && (d < |s| ==> s[d] == DOT) && forall i :: from <= i < d ==> s[i] != DOT
    ensures NextDot(s, from) == d
  {
  }

  /** `k` octets from a position to the end, with dots between them. */
  ghost predicate OctetsFrom(s: seq<byte>, from: nat, k: nat)
    requires from <= |s|
    decreases k
  {
    var d := NextDot(s, from);
    && k > 0 && OctetOk(s[from..d])
    && if k == 1 then d == |s| else d < |s| && OctetsFrom(s, d + 1, k - 1)
  }

  ghost predicate IsAddress(s: seq<byte>) {
    OctetsFrom(s, 0, 4)
  }

  /** What a partial octet already rules in or out. */
  ghost predicate Partial(s: seq<byte>, start: nat, i: nat, digits: nat, value: nat) {
    && start <= i <= |s| && digits == i - start <= 3
    && (forall j :: start <= j < i ==> Digit(s[j]))
    && value == Decimal(s[start..i]) <= 255 && (digits > 1 ==> s[start] != ZERO)
  }

  lemma DigitsHaveNoDot(s: seq<byte>, start: nat, i: nat)
    requires start <= i <= |s| && forall j :: start <= j < i ==> Digit(s[j])
    ensures NextDot(s, start) >= i
  {
  }

  /** A byte that cannot continue the octet at hand makes the text no address. */
  lemma OctetMayBreak(s: seq<byte>, start: nat, i: nat, k: nat)
    requires start <= i < |s| && s[i] != DOT && forall j :: start <= j < i ==> Digit(s[j])
    ensures !Digit(s[i]) || (i > start && s[start] == ZERO) || i - start >= 3 || Decimal(s[start..i + 1]) > 255
      ==> !OctetsFrom(s, start, k)
  {
    var d := NextDot(s, start);
    DigitsHaveNoDot(s, start, i);
    assert d > i;
    assert s[start..d][i - start] == s[i] && s[start..d][0] == s[start];
    if d - start <= 3 && AllDigits(s[start..d]) && s[start..d][0] != ZERO {
      DecimalGrows(s, start, i + 1, d);
    }
  }

  lemma {:induction false} DecimalGrows(s: seq<byte>, start: nat, i: nat, d: nat)
    requires start <= i <= d <= |s|
    ensures Decimal(s[start..i]) <= Decimal(s[start..d])
    decreases d - i
  {
    if i < d {
      DecimalStep(s, start, i);
      DecimalGrows(s, start, i + 1, d);
    }
  }

  /** At a dot, the octet before it is complete and the rest must follow. */
  lemma OctetEnds(s: seq<byte>, start: nat, i: nat, digits: nat, value: nat, k: nat)
    requires Partial(s, start, i, digits, value) && i < |s| && s[i] == DOT
    ensures OctetsFrom(s, start, k) <==> digits > 0 && k > 1 && OctetsFrom(s, i + 1, k - 1)
    ensures Partial(s, i + 1, i + 1, 0, 0)
  {
    NextDotIs(s, start, i);
    assert s[i + 1..i + 1] == [];
    assert s[start..i][0..] == s[start..i];
  }

  /** At the end, the octet at hand must be the last one. */
  lemma TextEnds(s: seq<byte>, start: nat, digits: nat, value: nat, k: nat)
    requires Partial(s, start, |s|, digits, value)
    ensures OctetsFrom(s, start, k) <==> digits > 0 && k == 1
  {
    NextDotIs(s, start, |s|);
  }

  /** The tests the loop makes on the next byte are those that keep an octet possible. */
  lemma OctetGoesOn(s: seq<byte>, start: nat, i: nat, digits: nat, value: nat)
    requires Partial(s, start, i, digits, value) && i < |s| && Digit(s[i])
    ensures digits == 1 && value == 0 <==> digits == 1 && s[start] == ZERO
    ensures Decimal(s[start..i + 1]) == value * 10 + (s[i] - ZERO) as nat
  {
    DecimalStep(s, start, i);
    if digits == 1 {
      DecimalStep(s, start, start);
      assert s[start..start] == [];
    }
  }

  method IsIPv4Literal(host: seq<byte>) returns (ok: bool)
    ensures ok <==> IsAddress(host)
  {
    hide OctetsFrom;
    hide Decimal;
    hide NextDot;
    var octets: nat, digits: nat, value: nat := 0, 0, 0;
    ghost var start: nat := 0;
    assert host[0..0] == [] && Decimal([]) == 0 by {
      NoDigits();
    }
    for i := 0 to |host|
      invariant Partial(host, start, i, digits, value)
      invariant IsAddress(host) <==> octets <= 3 && OctetsFrom(host, start, 4 - octets)
    {
      var c := host[i];
      if c == DOT {
        OctetEnds(host, start, i, digits, value, if octets <= 3 then 4 - octets else 0);
        if digits == 0 {
          return false;
        }
        octets := octets + 1;
        digits, value := 0, 0;
        start := i + 1;
        continue;
      }
      if octets <= 3 {
        OctetMayBreak(host, start, i, 4 - octets);
      }
      if c < 0x30 || c > 0x39 {
        return false;
      }
      OctetGoesOn(host, start, i, digits, value);
      if digits == 1 && value == 0 {
        return false;
      }
      digits := digits + 1;
      value := value * 10 + (c - ZERO) as nat;
      if digits > 3 || value > 255 {
        return false;
      }
    }
    TextEnds(host, start, digits, value, if octets <= 3 then 4 - octets else 0);
    return octets == 3 && digits > 0;
  }

  lemma NoDigits()
    ensures Decimal([]) == 0
  {
  }

  // ----- hosts -----

  predicate LabelOk(s: seq<byte>, start: nat, end: nat)
    requires start <= end <= |s|
  {
    0 < end - start <= MAX_LABEL && s[start] != HYPHEN && s[end - 1] != HYPHEN
  }

  /** Every label that a dot ends at or after `start` and before `end` is well formed. */
  ghost predicate LabelsOk(s: seq<byte>, start: nat, end: nat)
    requires start <= end <= |s|
    decreases end - start
  {
    var d := NextDot(s, start);
    d < end ==> LabelOk(s, start, d) && LabelsOk(s, d + 1, end)
  }

  /** The start of the last label. */
  ghost function LastLabel(s: seq<byte>): (start: nat)
    ensures start <= |s| && (start > 0 ==> s[start - 1] == DOT) && forall i :: start <= i < |s| ==> s[i] != DOT
    decreases |s|
  {
    if s == [] || s[|s| - 1] == DOT then |s| else LastLabel(s[..|s| - 1])
  }

  lemma {:induction false} LastLabelIs(s: seq<byte>, start: nat)
    requires start <= |s| && (start > 0 ==> s[start - 1] == DOT) && forall i :: start <= i < |s| ==> s[i] != DOT
    ensures LastLabel(s) == start
    decreases |s|
  {
    if start < |s| {
      LastLabelIs(s[..|s| - 1], start);
    }
  }

  /** A name: host bytes only, well-formed labels; a last label of digits makes it an IPv4 address. */
  ghost predicate NameOk(s: seq<byte>, rootDot: bool) {
    var last := LastLabel(s);
    && (forall i :: 0 <= i < |s| ==> NameByte(s[i])) && LabelsOk(s, 0, |s|)
    && if last < |s| && AllDigits(s[last..]) then !rootDot && IsAddress(s) else LabelOk(s, last, |s|)
  }

  predicate ZoneByte(c: byte) {
    Letter(c) || Digit(c) || c == HYPHEN || c == DOT || c == 0x5f || c == 0x7e
  }

  predicate ZoneOk(zone: seq<byte>) {
    forall i :: 0 <= i < |zone| ==> ZoneByte(zone[i])
  }

  method IsValidZone(zone: seq<byte>) returns (ok: bool)
    ensures ok <==> ZoneOk(zone)
  {
    for i := 0 to |zone|
      invariant ZoneOk(zone[..i])
    {
      if !ZoneByte(zone[i]) {
        return false;
      }
      assert zone[..i + 1] == zone[..i] + [zone[i]];
    }
    assert zone[..|zone|] == zone;
    return true;
  }

  /** An IPv6 address with an optional zone of unreserved characters. */
  predicate LiteralOk(host: seq<byte>, v6: Ipv6) {
    COLON in host &&
    var zone := IndexByte(host, PERCENT, 0);
    if zone < 0 then v6(host)
    else zone < |host| - 1 && ZoneOk(host[zone + 1..]) && v6(host[..zone])
  }

  method IsValidIpLiteral(host: seq<byte>, v6: Ipv6) returns (ok: bool)
    ensures ok <==> LiteralOk(host, v6)
  {
    if IndexByte(host, COLON, 0) < 0 {
      return false;
    }
    var address := host;
    var zone := IndexByte(host, PERCENT, 0);
    if zone >= 0 {
      if zone == |host| - 1 {
        return false;
      }
      var unreserved := IsValidZone(host[zone + 1..]);
      if !unreserved {
        return false;
      }
      address := host[..zone];
    }
    return v6(address);
  }

  ghost predicate HostOk(host: seq<byte>, v6: Ipv6) {
    if host == [] then false
    else if COLON in host then LiteralOk(host, v6)
    else if host[|host| - 1] == DOT then 1 < |host| <= MAX_ABSOLUTE_NAME && NameOk(host[..|host| - 1], true)
    else |host| <= MAX_NAME && NameOk(host, false)
  }

  /** A label ends at a dot: the labels up to there are well formed if those before and this one are. */
  lemma {:induction false} LabelEnds(s: seq<byte>, from: nat, start: nat, d: nat)
    requires from <= start <= d < |s| && s[d] == DOT && (start > from ==> s[start - 1] == DOT)
    requires forall i :: start <= i < d ==> s[i] != DOT
    ensures LabelsOk(s, from, d + 1) <==> LabelsOk(s, from, start) && LabelOk(s, start, d)
    decreases start - from
  {
    if from == start {
      NextDotIs(s, from, d);
      NextDotBeyond(s, d + 1, d + 1);
    } else {
      var e := NextDot(s, from);
      assert e <= start - 1;
      LabelEnds(s, e + 1, start, d);
    }
  }

  lemma NextDotBeyond(s: seq<byte>, from: nat, end: nat)
    requires from <= end <= |s| && forall i :: from <= i < end ==> s[i] != DOT
    ensures LabelsOk(s, from, end)
  {
  }

  /** Labels of a prefix are labels of the whole. */
  lemma {:induction false} LabelsSplit(s: seq<byte>, from: nat, start: nat, end: nat)
    requires from <= start <= end <= |s| && (start > from ==> s[start - 1] == DOT)
    ensures LabelsOk(s, from, end) ==> LabelsOk(s, from, start)
    ensures LabelsOk(s, from, start) && LabelsOk(s, start, end) ==> LabelsOk(s, from, end)
    decreases start - from
  {
    if from < start {
      var e := NextDot(s, from);
      assert e <= start - 1;
      LabelsSplit(s, e + 1, start, end);
    }
  }

  method IsDigitLabel(host: seq<byte>, start: nat, end: nat) returns (ok: bool)
    requires start <= |host| && end <= |host|
    ensures ok <==> start < end && AllDigits(host[start..end])
  {
    if start >= end {
      return false;
    }
    for i := start to end
      invariant AllDigits(host[start..i])
    {
      if host[i] < 0x30 || host[i] > 0x39 {
        assert host[start..end][i - start] == host[i];
        return false;
      }
      assert host[start..i + 1] == host[start..i] + [host[i]];
    }
    return true;
  }

  method IsValidHost(whole: seq<byte>, v6: Ipv6) returns (ok: bool)
    ensures ok <==> HostOk(whole, v6)
  {
    var host, length := whole, |whole|;
    if length == 0 {
      return false;
    }
    if IndexByte(host, COLON, 0) >= 0 {
      ok := IsValidIpLiteral(host, v6);
      return;
    }
    var rootDot := false;
    if host[length - 1] == DOT {
      if length == 1 || length > MAX_ABSOLUTE_NAME {
        return false;
      }
      host := host[..length - 1];
      length := length - 1;
      rootDot := true;
    } else if length > MAX_NAME {
      return false;
    }
    ok := IsName(host, rootDot);
  }

  /** The loop over the bytes of a name. */
  method IsName(host: seq<byte>, rootDot: bool) returns (ok: bool)
    ensures ok <==> NameOk(host, rootDot)
  {
    hide LabelsOk;
    hide LabelOk;
    hide NextDot;
    var labelStart: nat := 0;
    NextDotBeyond(host, 0, 0);
    for i := 0 to |host|
      invariant labelStart <= i && (labelStart > 0 ==> host[labelStart - 1] == DOT)
      invariant forall j :: labelStart <= j < i ==> host[j] != DOT
      invariant forall j :: 0 <= j < i ==> NameByte(host[j])
      invariant LabelsOk(host, 0, labelStart)
    {
      var c := host[i];
      if c == DOT {
        LabelEnds(host, 0, labelStart, i);
        if !LabelOk(host, labelStart, i) {
          LabelsSplit(host, 0, i + 1, |host|);
          return false;
        }
        labelStart := i + 1;
        continue;
      }
      if !NameByte(c) {
        return false;
      }
    }
    LastLabelIs(host, labelStart);
    NextDotBeyond(host, labelStart, |host|);
    LabelsSplit(host, 0, labelStart, |host|);
    assert host[labelStart..|host|] == host[labelStart..];
    var digits := IsDigitLabel(host, labelStart, |host|);
    if digits {
      ok := IsIPv4Literal(host);
      return !rootDot && ok;
    }
    return LabelOk(host, labelStart, |host|);
  }

  // ----- host and port -----

  datatype Split = Unsplit | Split(host: seq<byte>, port: seq<byte>, bracketed: bool)

  /** The URI authority shape: brackets around IP literals only, otherwise exactly one colon. */
  function SplitHostnamePort(text: seq<byte>): Split {
    if |text| < 2 then Unsplit
    else if text[0] == LEFT_BRACKET then
      var end := IndexByte(text, RIGHT_BRACKET, 0);
      if end < 0 || end + 1 >= |text| || text[end + 1] != COLON then Unsplit
      else Split(text[1..end], text[end + 2..], true)
    else
      var colon := IndexByte(text, COLON, 0);
      if colon < 0 || IndexByte(text, COLON, colon + 1) >= 0 then Unsplit
      else Split(text[..colon], text[colon + 1..], false)
  }

  /** Why a text that does not split is refused: the port is missing, or the host is malformed. */
  function UnsplitFailure(text: seq<byte>): Failure
    requires text != []
  {
    if COLON !in text then BadPort
    else if text[0] == LEFT_BRACKET && ColonBeforeBracket(text) then BadPort
    else BadHost
  }

  /** The first closing bracket lies after the last colon. */
  predicate ColonBeforeBracket(text: seq<byte>) {
    var end := IndexByte(text, RIGHT_BRACKET, 0);
    end >= 0 && IndexByte(text, COLON, end) < 0
  }

  ghost function HostPortVerdict(text: seq<byte>, v6: Ipv6): Verdict {
    if text == [] then Rejected(BadHost)
    else match SplitHostnamePort(text)
      case Unsplit => Rejected(UnsplitFailure(text))
      case Split(host, port, bracketed) =>
        if !PortOk(port) then Rejected(BadPort)
        else if host == [] || (bracketed && !LiteralOk(host, v6)) || (!bracketed && !HostOk(host, v6))
          then Rejected(BadHost)
        else Accepted
  }

  method LastIndexByte(s: seq<byte>, b: byte) returns (r: int)
    ensures r == -1 || (0 <= r < |s| && s[r] == b)
    ensures forall i :: r < i < |s| ==> s[i] != b
  {
    r := |s| - 1;
    while r >= 0 && s[r] != b
      invariant -1 <= r < |s| && forall i :: r < i < |s| ==> s[i] != b
    {
      r := r - 1;
    }
  }

  method ValidateHostnamePort(text: seq<byte>, v6: Ipv6) returns (verdict: Verdict)
    ensures verdict == HostPortVerdict(text, v6)
  {
    if text == [] {
      return Rejected(BadHost);
    }
    var split := SplitHostnamePort(text);
    if split.Unsplit? {
      var lastColon := LastIndexByte(text, COLON);
      var end := IndexByte(text, RIGHT_BRACKET, 0);
      if lastColon < 0 || (text[0] == LEFT_BRACKET && end > lastColon) {
        return Rejected(BadPort);
      }
      return Rejected(BadHost);
    }
    var portOk := IsValidPort(split.port);
    if !portOk {
      return Rejected(BadPort);
    }
    if split.host == [] {
      return Rejected(BadHost);
    }
    var hostOk;
    if split.bracketed {
      hostOk := IsValidIpLiteral(split.host, v6);
    } else {
      hostOk := IsValidHost(split.host, v6);
    }
    return if hostOk then Accepted else Rejected(BadHost);
  }

  /** What follows the last colon is the port; what precedes it is a host, or a literal in brackets. */
  ghost predicate EndpointAt(text: seq<byte>, c: nat, v6: Ipv6) {
    && c < |text| && text[c] == COLON && PortOk(text[c + 1..])
    && if text[0] == LEFT_BRACKET then
         c >= 2 && text[c - 1] == RIGHT_BRACKET && RIGHT_BRACKET !in text[1..c - 1] && LiteralOk(text[1..c - 1], v6)
       else COLON !in text[..c] && HostOk(text[..c], v6)
  }

  lemma PortHasNoColon(text: seq<byte>, c: nat)
    requires c < |text| && PortOk(text[c + 1..])
    ensures forall i :: c < i < |text| ==> text[i] != COLON && text[i] != RIGHT_BRACKET
  {
    forall i | c < i < |text|
      ensures text[i] != COLON && text[i] != RIGHT_BRACKET
    {
      assert text[c + 1..][i - c - 1] == text[i];
    }
  }

  lemma EndpointAccepted(text: seq<byte>, c: nat, v6: Ipv6)
    requires EndpointAt(text, c, v6)
    ensures HostPortVerdict(text, v6) == Accepted
  {
    hide HostOk;
    hide LiteralOk;
    PortHasNoColon(text, c);
    hide PortOk;
    if text[0] == LEFT_BRACKET {
      assert forall i :: 1 <= i < c - 1 ==> text[i] == text[1..c - 1][i - 1];
      IndexByteIs(text, RIGHT_BRACKET, 0, c - 1);
      LiteralNotEmpty(text[1..c - 1], v6);
    } else {
      assert forall i :: 0 <= i < c ==> text[i] == text[..c][i];
      IndexByteIs(text, COLON, 0, c);
      IndexByteNone(text, COLON, c + 1);
      LiteralNotEmpty(text[..c], v6);
    }
  }

  lemma LiteralNotEmpty(host: seq<byte>, v6: Ipv6)
    ensures LiteralOk(host, v6) || HostOk(host, v6) ==> host != []
  {
  }

  /** A text is accepted exactly when it is a host or bracketed literal, a colon and a port. */
  lemma AcceptedExactly(text: seq<byte>, v6: Ipv6)
    ensures HostPortVerdict(text, v6) == Accepted <==> exists c: nat :: EndpointAt(text, c, v6)
  {
    if HostPortVerdict(text, v6) == Accepted {
      hide HostOk;
      hide LiteralOk;
      hide PortOk;
      var c: nat := |text| - 1 - |SplitHostnamePort(text).port|;
      assert text[c + 1..] == SplitHostnamePort(text).port;
      assert EndpointAt(text, c, v6);
    } else if exists c: nat :: EndpointAt(text, c, v6) {
      var c: nat :| EndpointAt(text, c, v6);
      EndpointAccepted(text, c, v6);
    }
  }

  // ----- credentials -----

  predicate AllPrintable(s: seq<byte>) {
    forall i :: 0 <= i < |s| ==> Printable(s[i])
  }

  method IsPrintableAscii(s: seq<byte>) returns (ok: bool)
    ensures ok <==> AllPrintable(s)
  {
    for i := 0 to |s|
      invariant forall j :: 0 <= j < i ==> Printable(s[j])
    {
      if s[i] < 0x20 || s[i] > 0x7e {
        return false;
      }
    }
    return true;
  }

  predicate CredentialsOk(scheme: seq<byte>, username: seq<byte>, password: seq<byte>) {
    && (username == [] ==> password == []) && |username| <= MAX_CREDENTIAL && |password| <= MAX_CREDENTIAL
    && AllPrintable(username) && AllPrintable(password)
    && (scheme == HTTP || scheme == HTTPS ==> COLON !in username)
    && (scheme == SOCKS4 || scheme == SOCKS4A ==> password == [])
  }

  method IsValidCredentialsFor(scheme: seq<byte>, username: seq<byte>, password: seq<byte>) returns (ok: bool)
    ensures ok <==> CredentialsOk(scheme, username, password)
  {
    if username == [] && password != [] {
      return false;
    }
    if |username| > MAX_CREDENTIAL || |password| > MAX_CREDENTIAL {
      return false;
    }
    ok := IsPrintableAscii(username);
    if ok {
      ok := IsPrintableAscii(password);
    }
    if !ok {
      return;
    }
    if scheme == HTTP || scheme == HTTPS {
      ok := IndexByte(username, COLON, 0) < 0;
    } else if scheme == SOCKS4 || scheme == SOCKS4A {
      ok := password == [];
    }
  }

  // ----- the proxy -----

  /** The first failure in the order scheme, host and port, credentials. */
  ghost function ProxyVerdict(p: Proxy, v6: Ipv6): Verdict {
    if !IsScheme(p.scheme) then Rejected(BadScheme)
    else if HostPortVerdict(p.host, v6) != Accepted then HostPortVerdict(p.host, v6)
    else if !CredentialsOk(p.scheme, p.username, p.password) then Rejected(BadCredentials)
    else Accepted
  }

  method Validate(p: Proxy, v6: Ipv6) returns (verdict: Verdict)
    ensures verdict == ProxyVerdict(p, v6)
  {
    if !IsScheme(p.scheme) {
      return Rejected(BadScheme);
    }
    verdict := ValidateHostnamePort(p.host, v6);
    if verdict != Accepted {
      return;
    }
    var ok := IsValidCredentialsFor(p.scheme, p.username, p.password);
    return if ok then Accepted else Rejected(BadCredentials);
  }
}
