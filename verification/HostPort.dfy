/** The fast test of a host and port, with and without an index. */
module HostPorts {
  import opened BigEndian
  import opened Bitmaps
  import opened Ipv4Words
  import opened Modular
  import opened StructuralIndex
  import opened Swar
  import opened Text
  import opened Validation

  const MAX_PORT_DIGITS: nat := 5
  const WORD_MAX_PORT: nat := 0x3635353335

  // ----- the port as big-endian ASCII -----

  /** `0x0f` in each of k bytes. */
  function Nibbles(k: nat): nat {
    if k == 0 then 0 else 256 * Nibbles(k - 1) + 15
  }

  lemma EightNibbles()
    ensures Nibbles(8) == 0x0f0f0f0f0f0f0f0f
  {
    assert Nibbles(2) == 256 * Nibbles(1) + 15 == 0x0f0f;
    assert Nibbles(4) == 256 * Nibbles(3) + 15 == 0x0f0f0f0f;
    assert Nibbles(6) == 256 * Nibbles(5) + 15 == 0x0f0f0f0f0f0f;
  }

  lemma {:induction false} AndSplit(j: nat, a: nat, b: nat, m: nat, l: nat)
    requires b < Pow2(j) && l < Pow2(j)
    ensures And(Pow2(j) * a + b, Pow2(j) * m + l) == Pow2(j) * And(a, m) + And(b, l)
  {
    if j > 0 {
      var p := Pow2(j - 1);
      AndSplit(j - 1, a, b / 2, m, l / 2);
      AndSplitStep(p, a, b, m, l);
    }
  }

  lemma AndSplitStep(p: nat, a: nat, b: nat, m: nat, l: nat)
    requires And(p * a + b / 2, p * m + l / 2) == p * And(a, m) + And(b / 2, l / 2)
    ensures And((2 * p) * a + b, (2 * p) * m + l) == (2 * p) * And(a, m) + And(b, l)
  {
    hide And;
    AndHalves(p * a + b / 2, p * m + l / 2, b % 2, l % 2);
    AndHalves(b / 2, l / 2, b % 2, l % 2);
    Halve(p, a, b);
    Halve(p, m, l);
    Halve(p, And(a, m), 0);
  }

  lemma Halve(p: nat, a: nat, b: nat)
    ensures (2 * p) * a + b == 2 * (p * a + b / 2) + b % 2
  {
  }

  lemma Pow8()
    ensures Pow2(8) == 256
  {
    assert Pow2(4) == 2 * Pow2(3) == 16;
  }

  lemma LowNibble(v: nat)
    requires v < 16
    ensures And(48 + v, 15) == v
  {
    assert Pow2(4) == 2 * Pow2(3) == 16;
    hide Pow2;
    hide And;
    AndSplit(4, 3, v, 0, 15);
    AndOnes(v, 4);
    AndNone(3);
  }

  lemma NibbleStep(a: nat, c: byte, m: nat)
    requires Digit(c)
    ensures And(256 * a + c as nat, 256 * m + 15) == 256 * And(a, m) + DigitValue(c)
  {
    DigitRange(c);
    Pow8();
    hide Pow2;
    hide And;
    LowNibble(DigitValue(c));
    AndSplit(8, a, c as nat, m, 15);
  }

  lemma AndFromNone(m: nat)
    ensures And(0, m) == 0
  {
  }

  /** Only zeros among the digits leave nothing under the nibble mask. */
  lemma {:induction false} NibblesAreZero(s: seq<byte>, k: nat)
    requires |s| <= k && AllDigits(s)
    ensures And(Big(s), Nibbles(k)) == 0 <==> Decimal(s) == 0
  {
    hide And;
    if s == [] {
      AndFromNone(Nibbles(k));
    } else {
      NibblesAreZero(s[..|s| - 1], k - 1);
      NibbleStep(Big(s[..|s| - 1]), s[|s| - 1], Nibbles(k - 1));
    }
  }

  /** Digit sequences of one length compare as big-endian ASCII as their values do. */
  lemma {:induction false} AsciiOrder(s: seq<byte>, t: seq<byte>)
    requires |s| == |t| && AllDigits(s) && AllDigits(t)
    ensures (Big(s) < Big(t) <==> Decimal(s) < Decimal(t)) && (Big(s) == Big(t) <==> Decimal(s) == Decimal(t))
  {
    if s != [] {
      var n := |s| - 1;
      AsciiOrder(s[..n], t[..n]);
      DigitRange(s[n]);
      DigitRange(t[n]);
    }
  }

  function Pow10(k: nat): nat {
    if k == 0 then 1 else 10 * Pow10(k - 1)
  }

  lemma {:induction false} DecimalBound(s: seq<byte>)
    requires AllDigits(s)
    ensures Decimal(s) < Pow10(|s|)
  {
    if s != [] {
      DecimalBound(s[..|s| - 1]);
      DigitRange(s[|s| - 1]);
    }
  }

  const GREATEST_PORT: seq<byte> := [0x36, 0x35, 0x35, 0x33, 0x35]

  lemma GreatestPort()
    ensures AllDigits(GREATEST_PORT) && Decimal(GREATEST_PORT) == 65535 && Big(GREATEST_PORT) == WORD_MAX_PORT
  {
    var g := GREATEST_PORT;
    assert g[..4] == [0x36, 0x35, 0x35, 0x33] && g[..4][..3] == [0x36, 0x35, 0x35];
    assert g[..4][..3][..2] == [0x36, 0x35] && g[..4][..3][..2][..1] == [0x36];
    assert Decimal([0x36]) == 6 && Big([0x36]) == 0x36 by {
      assert [0x36 as byte][..0] == [];
    }
    assert Decimal([0x36, 0x35]) == 65 && Big([0x36, 0x35]) == 0x3635;
    assert Decimal([0x36, 0x35, 0x35]) == 655 && Big([0x36, 0x35, 0x35]) == 0x363535;
    assert Decimal([0x36, 0x35, 0x35, 0x33]) == 6553 && Big([0x36, 0x35, 0x35, 0x33]) == 0x36353533;
  }

  /** The port test on a word. */
  predicate PortWordOk(port: nat) {
    port <= WORD_MAX_PORT && And(port, 0x0f0f0f0f0f0f0f0f) != 0
  }

  lemma PortWordIs(s: seq<byte>)
    requires 1 <= |s| <= MAX_PORT_DIGITS && AllDigits(s)
    ensures PortWordOk(Big(s)) <==> PortOk(s)
  {
    EightNibbles();
    NibblesAreZero(s, 8);
    GreatestPort();
    if |s| == 5 {
      AsciiOrder(s, GREATEST_PORT);
    } else {
      BigBound(s);
      DecimalBound(s);
      assert Pow256(2) == 0x1_0000 && Pow10(2) == 100;
      assert Pow256(4) == 0x1_0000_0000 && Pow10(4) == 10000;
      PowGrows(|s|, 4);
      TenGrows(|s|, 4);
    }
  }

  lemma {:induction false} TenGrows(a: nat, b: nat)
    requires a <= b
    ensures Pow10(a) <= Pow10(b)
  {
    if a < b {
      TenGrows(a, b - 1);
    }
  }

  // ----- what the test accepts -----

  function TrailingDigits(s: seq<byte>): (d: nat)
    ensures d <= |s|
  {
    if s == [] || !Digit(s[|s| - 1]) then 0 else 1 + TrailingDigits(s[..|s| - 1])
  }

  lemma {:induction false} TrailingDigitsIs(s: seq<byte>, d: nat)
    requires d <= |s| && (d < |s| ==> !Digit(s[|s| - 1 - d]))
    requires forall i :: |s| - d <= i < |s| ==> Digit(s[i])
    ensures TrailingDigits(s) == d
  {
    if d > 0 {
      TrailingDigitsIs(s[..|s| - 1], d - 1);
    }
  }

  lemma {:induction false} AtLeastDigits(s: seq<byte>, d: nat)
    requires d <= |s| && forall i :: |s| - d <= i < |s| ==> Digit(s[i])
    ensures TrailingDigits(s) >= d
  {
    if d > 0 {
      AtLeastDigits(s[..|s| - 1], d - 1);
    }
  }

  /** The last label is all digits, which only an IPv4 address may have. */
  ghost predicate NumericEnd(host: seq<byte>) {
    host != [] && Digit(host[|host| - 1]) && AllDigits(host[LastLabel(host)..])
  }

  ghost predicate FastHost(host: seq<byte>) {
    IsAddress(host) || (!NumericEnd(host) && LdhName(host))
  }

  /** A host, a colon, and one to five digits with a value from 1 to 65535. */
  ghost predicate FastEndpoint(s: seq<byte>) {
    && s != [] && s[0] != LEFT_BRACKET
    && var d := TrailingDigits(s);
       && 1 <= d <= MAX_PORT_DIGITS && d + 1 < |s| && s[|s| - d - 1] == COLON
       && PortOk(s[|s| - d..]) && FastHost(s[..|s| - d - 1])
  }

  // ----- everything the test accepts, the validator accepts -----

  lemma {:induction false} NamedLabels(s: seq<byte>, from: nat)
    requires from <= |s| <= MAX_HOST_NAME && Named(s, 0, |s|) && s != [] && !Edge(s[0]) && !Edge(s[|s| - 1])
    requires from > 0 ==> s[from - 1] == DOT
    ensures LabelsOk(s, from, |s|) && LabelOk(s, LastLabel(s), |s|)
    decreases |s| - from
  {
    var d := NextDot(s, from);
    if d < |s| {
      assert from > 0 ==> !Clash(s[from - 1], s[from]);
      assert d > 0 ==> !Clash(s[d - 1], s[d]);
      assert LabelOk(s, from, d);
      NamedLabels(s, d + 1);
    } else {
      LastLabelIs(s, from);
      assert from > 0 ==> !Clash(s[from - 1], s[from]);
    }
  }

  lemma NameIsHost(host: seq<byte>, v6: Ipv6)
    requires LdhName(host) && !NumericEnd(host)
    ensures HostOk(host, v6) && COLON !in host
  {
    NamedLabels(host, 0);
    hide LabelsOk;
    var last := LastLabel(host);
    assert host[last..] != [] && host[last..][|host| - last - 1] == host[|host| - 1];
  }

  lemma OctetIsLabel(s: seq<byte>, from: nat, to: nat)
    requires from <= to <= |s| && OctetOk(s[from..to])
    ensures LabelOk(s, from, to) && AllDigits(s[from..to]) && forall i :: from <= i < to ==> s[i] != DOT
  {
    OctetHasNoDot(s, from, to);
  }

  /** An octet that a dot ends extends the well-formed labels before it. */
  lemma OctetExtends(s: seq<byte>, from: nat, to: nat)
    requires from <= to < |s| && OctetOk(s[from..to]) && s[to] == DOT
    requires LabelsOk(s, 0, from) && (from > 0 ==> s[from - 1] == DOT)
    ensures LabelsOk(s, 0, to + 1)
  {
    hide LabelsOk;
    OctetIsLabel(s, from, to);
    LabelEnds(s, 0, from, to);
  }

  lemma AddressLabels(s: seq<byte>, a: nat, b: nat, c: nat)
    requires AddressAt(s, a, b, c)
    ensures LabelsOk(s, 0, |s|)
  {
    hide OctetOk;
    NextDotBeyond(s, 0, 0);
    hide LabelsOk;
    OctetExtends(s, 0, a);
    OctetExtends(s, a + 1, b);
    OctetExtends(s, b + 1, c);
    LastOctet(s, c + 1);
    LabelsSplit(s, 0, c + 1, |s|);
  }

  lemma LastOctet(s: seq<byte>, from: nat)
    requires from <= |s| && OctetOk(s[from..|s|])
    ensures LabelsOk(s, from, |s|)
  {
    OctetHasNoDot(s, from, |s|);
    NextDotBeyond(s, from, |s|);
  }

  lemma AddressEnds(s: seq<byte>, a: nat, b: nat, c: nat)
    requires AddressAt(s, a, b, c)
    ensures LastLabel(s) == c + 1 && AllDigits(s[LastLabel(s)..]) && LastLabel(s) < |s|
  {
    hide OctetOk;
    hide AllDigits;
    OctetIsLabel(s, c + 1, |s|);
    LastLabelIs(s, c + 1);
    assert s[c + 1..|s|] == s[c + 1..];
  }

  lemma AddressIsName(s: seq<byte>)
    requires IsAddress(s)
    ensures NameOk(s, false) && 7 <= |s| <= 15 && forall i :: 0 <= i < |s| ==> AddressByte(s[i])
    ensures s[|s| - 1] != DOT
  {
    var a, b, c := AddressSplits(s);
    hide IsAddress;
    hide AddressAt;
    hide LabelsOk;
    hide LastLabel;
    hide AllDigits;
    AddressDots(s, a, b, c);
    AddressLabels(s, a, b, c);
    AddressEnds(s, a, b, c);
  }

  lemma AddressIsHost(host: seq<byte>, v6: Ipv6)
    requires IsAddress(host)
    ensures HostOk(host, v6) && COLON !in host
  {
    hide IsAddress;
    hide NameOk;
    AddressIsName(host);
  }

  lemma FastIsAccepted(s: seq<byte>, v6: Ipv6)
    requires FastEndpoint(s)
    ensures HostPortVerdict(s, v6) == Accepted
  {
    hide FastHost;
    hide HostOk;
    hide PortOk;
    var c := |s| - TrailingDigits(s) - 1;
    var host := s[..c];
    FastHostIsHost(host, v6);
    assert s[c + 1..] == s[|s| - TrailingDigits(s)..];
    EndpointAccepted(s, c, v6);
  }

  lemma FastHostIsHost(host: seq<byte>, v6: Ipv6)
    requires FastHost(host)
    ensures HostOk(host, v6) && COLON !in host
  {
    hide HostOk;
    if IsAddress(host) {
      AddressIsHost(host, v6);
    } else {
      NameIsHost(host, v6);
    }
  }

  // ----- the test -----

  /** Where the digits at the end begin, looking back no further than the limit. */
  method PortStart(input: seq<byte>, limit: nat) returns (portStart: nat)
    requires limit <= |input|
    ensures limit <= portStart <= |input|
    ensures forall i :: portStart <= i < |input| ==> Digit(input[i])
    ensures portStart > limit ==> !Digit(input[portStart - 1])
  {
    portStart := |input|;
    while portStart > limit && input[portStart - 1] - ZERO <= 9
      invariant limit <= portStart <= |input|
      invariant forall i :: portStart <= i < |input| ==> Digit(input[i])
    {
      portStart := portStart - 1;
    }
  }

  /** The last bytes of a text, at most eight, as a big-endian word. */
  method Tail(input: seq<byte>) returns (tail: nat)
    ensures tail == Big(if |input| >= 8 then input[|input| - 8..] else input)
  {
    if |input| >= 8 {
      return BigWord(input[|input| - 8..]);
    }
    EightBytes();
    tail := 0;
    for i := 0 to |input|
      invariant tail == Big(input[..i])
    {
      BigBound(input[..i + 1]);
      PowGrows(i + 1, 8);
      assert input[..i + 1][..i] == input[..i];
      tail := (tail * 256) % WORD + input[i] as nat;
    }
    assert input[..|input|] == input;
  }

  /** The port at the end of a text, read from its last word. */
  lemma PortOfTail(input: seq<byte>, d: nat)
    requires d <= 8 && d <= |input|
    ensures Big(if |input| >= 8 then input[|input| - 8..] else input) % Pow256(d) == Big(input[|input| - d..])
  {
    hide Big;
    hide Pow256;
    var t := if |input| >= 8 then input[|input| - 8..] else input;
    ShiftAndMask(t, d);
    assert t[|t| - d..] == input[|input| - d..];
  }

  /** Looks back from the end of the host for a byte of the last label that is no digit. */
  method IsNumeric(input: seq<byte>, start: nat, hostEnd: nat) returns (numeric: bool)
    requires start < hostEnd <= |input| && Digit(input[hostEnd - 1])
    ensures numeric <==> NumericEnd(input[start..hostEnd])
  {
    var host := input[start..hostEnd];
    numeric := true;
    var i := hostEnd - 1;
    while i >= start && input[i] != DOT
      invariant start - 1 <= i < hostEnd
      invariant forall j :: i < j < hostEnd ==> Digit(input[j])
    {
      if input[i] - ZERO > 9 {
        NotNumeric(host, i - start);
        return false;
      }
      i := i - 1;
    }
    Numeric(host, i + 1 - start);
  }

  lemma NotNumeric(host: seq<byte>, k: nat)
    requires k < |host| && !Digit(host[k]) && forall j :: k <= j < |host| ==> host[j] != DOT
    ensures !NumericEnd(host)
  {
    var last := LastLabel(host);
    assert last <= k;
    assert host[last..][k - last] == host[k];
  }

  lemma Numeric(host: seq<byte>, k: nat)
    requires k < |host| && (k > 0 ==> host[k - 1] == DOT) && forall j :: k <= j < |host| ==> Digit(host[j])
    ensures NumericEnd(host)
  {
    LastLabelIs(host, k);
  }

  /** The name test, on the index of a text that the input begins, or on words. */
  method IsName(ix: Index, indexed: bool, input: seq<byte>, start: nat, hostEnd: nat,
                ghost whole: seq<byte>) returns (ok: bool)
    requires indexed ==> ix.Describes(whole) && input <= whole
    requires start < hostEnd < |input|
    ensures ok <==> LdhName(input[start..hostEnd])
  {
    if !indexed {
      ok := IsHostName(input[start..hostEnd]);
      return;
    }
    NameInRangeIs(ix, whole, start, hostEnd);
    assert whole[start..hostEnd] == input[start..hostEnd];
    return NameInRange(ix, start, hostEnd);
  }

  /** The host of an endpoint. */
  method IsFastHost(ix: Index, indexed: bool, input: seq<byte>, start: nat, hostEnd: nat,
                    ghost whole: seq<byte>) returns (ok: bool)
    requires indexed ==> ix.Describes(whole) && input <= whole
    requires start < hostEnd < |input|
    ensures ok <==> FastHost(input[start..hostEnd])
  {
    hide LdhName;
    hide IsAddress;
    hide IsIPv4;
    var host := input[start..hostEnd];
    var last := input[hostEnd - 1];
    assert host[|host| - 1] == last;
    if last - ZERO <= 9 {
      IsIPv4Exact(host);
      if IsIPv4(host) {
        return true;
      }
      var numeric := IsNumeric(input, start, hostEnd);
      if numeric {
        return false;
      }
    } else {
      AddressEndsInDigit(host);
    }
    ok := IsName(ix, indexed, input, start, hostEnd, whole);
  }

  lemma AddressEndsInDigit(host: seq<byte>)
    ensures IsAddress(host) ==> host != [] && Digit(host[|host| - 1])
  {
    if IsAddress(host) {
      AddressIsName(host);
    }
  }

  method IsHostPort(ix: Index, indexed: bool, input: seq<byte>, start: nat, ghost whole: seq<byte>) returns (ok: bool)
    requires indexed ==> ix.Describes(whole) && input <= whole
    ensures ok <==> start < |input| && FastEndpoint(input[start..])
  {
    hide FastHost;
    hide PortOk;
    hide PortWordOk;
    hide FastEndpoint;
    hide Big;
    hide Pow256;
    if start >= |input| {
      return false;
    }
    if input[start] == LEFT_BRACKET {
      BracketRefused(input, start);
      return false;
    }
    var n := |input|;
    var limit := if n - MAX_PORT_DIGITS - 1 > start then n - MAX_PORT_DIGITS - 1 else start;
    var portStart := PortStart(input, limit);
    var digits, hostEnd := n - portStart, portStart as int - 1;
    EndpointIs(input, start, limit, portStart);
    if digits == 0 || digits > MAX_PORT_DIGITS || hostEnd <= start || input[hostEnd] != COLON {
      return false;
    }
    var portOk := IsPortTail(input, digits);
    if !portOk {
      return false;
    }
    ok := IsFastHost(ix, indexed, input, start, hostEnd, whole);
  }

  method IsPortTail(input: seq<byte>, digits: nat) returns (ok: bool)
    requires 1 <= digits <= MAX_PORT_DIGITS && digits <= |input|
    requires forall i :: |input| - digits <= i < |input| ==> Digit(input[i])
    ensures ok <==> PortOk(input[|input| - digits..])
  {
    hide PortOk;
    hide PortWordOk;
    hide Big;
    hide Pow256;
    var tail := Tail(input);
    PortOfTail(input, digits);
    PortWordIs(input[|input| - digits..]);
    return PortWordOk(tail % Pow256(digits));
  }

  lemma BracketRefused(input: seq<byte>, start: nat)
    requires start < |input| && input[start] == LEFT_BRACKET
    ensures !FastEndpoint(input[start..])
  {
  }

  /** The endpoint seen from the digits that the bounded search found. */
  lemma EndpointIs(input: seq<byte>, start: nat, limit: nat, portStart: nat)
    requires start < |input| && limit == Max(start, |input| - 6) && limit <= portStart <= |input|
    requires forall i :: portStart <= i < |input| ==> Digit(input[i])
    requires portStart > limit ==> !Digit(input[portStart - 1])
    requires input[start] != LEFT_BRACKET
    ensures FastEndpoint(input[start..]) <==>
      && 1 <= |input| - portStart <= MAX_PORT_DIGITS && portStart - 1 > start && input[portStart - 1] == COLON
      && PortOk(input[portStart..]) && FastHost(input[start..portStart - 1])
  {
    hide FastHost;
    hide PortOk;
    PortCounted(input, start, limit, portStart);
    var s, d := input[start..], |input| - portStart;
    if 1 <= d <= MAX_PORT_DIGITS && portStart - 1 > start {
      assert s[|s| - d..] == input[portStart..];
      assert s[..|s| - d - 1] == input[start..portStart - 1];
    }
  }

  /** The bounded count of trailing digits decides as the unbounded one does. */
  lemma PortCounted(input: seq<byte>, start: nat, limit: nat, portStart: nat)
    requires start < |input| && limit == Max(start, |input| - 6) && limit <= portStart <= |input|
    requires forall i :: portStart <= i < |input| ==> Digit(input[i])
    requires portStart > limit ==> !Digit(input[portStart - 1])
    ensures var d := TrailingDigits(input[start..]);
      && d >= |input| - portStart && (d <= MAX_PORT_DIGITS && d < |input| - start ==> d == |input| - portStart)
      && (|input| - portStart <= MAX_PORT_DIGITS && portStart > start ==> d == |input| - portStart)
      && (portStart == start ==> d == |input| - start)
  {
    var s := input[start..];
    AtLeastDigits(s, |input| - portStart);
    if portStart == start || !Digit(input[portStart - 1]) {
      TrailingDigitsIs(s, |input| - portStart);
    }
  }
}
