/** Dotted IPv4 decided from two overlapping eight-byte words. */
module Ipv4Words {
  import opened BigEndian
  import opened Bitmaps
  import opened Sequences
  import opened Swar
  import opened Text
  import opened Validation
  import opened Words

  // ----- the test -----

  /** Marks every byte that is not a dot; exact, without carries between bytes. */
  function OtherBytes(w: bv64): bv64 {
    var x := w ^ 0x2e2e2e2e2e2e2e2e;
    x | ((x & 0x7f7f7f7f7f7f7f7f) + 0x7f7f7f7f7f7f7f7f)
  }

  function StrangeBytes(w: bv64): bv64 {
    OtherBytes(w) & !DigitBytes(w)
  }

  function DotMarks(w: bv64): bv64 {
    !OtherBytes(w) & 0x8080808080808080
  }

  /** `TrailingZeros64(z) >> 3`: the lowest byte that is not zero, or 8. */
  function LowestByte(z: bv64): nat {
    if z & 0xff != 0 then 0
    else if z & 0xff00 != 0 then 1
    else if z & 0xff0000 != 0 then 2
    else if z & 0xff000000 != 0 then 3
    else if z & 0xff00000000 != 0 then 4
    else if z & 0xff0000000000 != 0 then 5
    else if z & 0xff000000000000 != 0 then 6
    else if z & 0xff00000000000000 != 0 then 7 else 8
  }

  function WithoutLowest(z: bv64): bv64 {
    z & (z - 1)
  }

  /** The last eight bytes as a word with the last byte lowest: `ReverseBytes64` of the load. */
  function LoadReversed(s: seq<byte>): bv64
    requires |s| >= 8
  {
    var n := |s|;
    Pack(s[n - 1], s[n - 2], s[n - 3], s[n - 4], s[n - 5], s[n - 6], s[n - 7], s[n - 8])
  }

  /** The smallest octet of a length as big-endian ASCII; any other length gets a span of one value. */
  function LeastOctet(n: int): nat {
    var k := n % 8;
    if k == 1 then 0x30 else if k == 2 then 0x3130 else if k == 3 then 0x313030 else 1
  }

  function OctetSpan(n: int): nat {
    var k := n % 8;
    if k == 1 then 9 else if k == 2 then 0x809 else if k == 3 then 0x10505 else 0
  }

  /** Between the least and the greatest octet of a length; words and lengths wrap around. */
  predicate IsOctet(digits: nat, n: int)
    requires digits < WORD
  {
    (digits + WORD - LeastOctet(n)) % WORD <= OctetSpan(n)
  }

  /** The shortest address, `d.d.d.d`, in one word. */
  predicate SingleDigits(w: bv64) {
    var difference := w ^ 0x302e302e302e30;
    ((difference + 0x767f767f767f76) | difference) & 0x8080808080808080 == 0
  }

  predicate OnlyAddressBytes(first: bv64, last: bv64) {
    NeitherMarked(StrangeBytes(first), StrangeBytes(last))
  }

  predicate NeitherMarked(x: bv64, y: bv64) {
    (x | y) & 0x8080808080808080 == 0
  }

  lemma NeitherIs(x: bv64, y: bv64)
    ensures NeitherMarked(x, y) <==> Clear(x) && Clear(y)
  {
  }

  predicate IsIPv4(host: seq<byte>) {
    var n := |host|;
    if n < 7 || n > 15 then false
    else if n == 7 then SingleDigits(Load32(host, 0) | (Load32(host, 3) << 24))
    else
      var first, last := Load64(host, 0), LoadReversed(host);
      && OnlyAddressBytes(first, last)
      && FourOctets(BigWord(host[..8]), BigWord(host[n - 8..]), DotMarks(first), DotMarks(last), n)
  }

  /** The positions of two dots from either end, and the four fields they leave. */
  predicate FourOctets(first: nat, last: nat, firstDots: bv64, lastDots: bv64, n: nat)
    requires first < WORD && last < WORD
  {
    var firstLen, secondDot := LowestByte(firstDots), LowestByte(WithoutLowest(firstDots));
    var fourthLen, secondDotFromEnd := LowestByte(lastDots), LowestByte(WithoutLowest(lastDots));
    secondDot + secondDotFromEnd + 1 == n && FieldsOk(first, last, firstLen, secondDot, fourthLen, secondDotFromEnd)
  }

  /** Shifts are counted in bits modulo 64, that is, in bytes modulo 8. */
  predicate FieldsOk(first: nat, last: nat, firstLen: nat, secondDot: nat, fourthLen: nat, secondDotFromEnd: nat)
    requires first < WORD && last < WORD
  {
    var secondLen, thirdLen := secondDot - firstLen - 1, secondDotFromEnd - fourthLen - 1;
    && IsOctet(ShiftedRight(first, 8 - firstLen), firstLen)
    && IsOctet(ShiftedRight(ShiftedLeft(first, firstLen + 1), 8 - secondLen), secondLen)
    && IsOctet(Masked(ShiftedRight(last, fourthLen + 1), thirdLen), thirdLen)
    && IsOctet(Masked(last, fourthLen), fourthLen)
  }

  /** `w >> (8 * k & 63)`. */
  function ShiftedRight(w: nat, k: int): (r: nat)
    ensures r <= w
  {
    Quotient(w, Pow256(k % 8))
  }

  /** `w << (8 * k & 63)`. */
  function ShiftedLeft(w: nat, k: int): (r: nat)
    ensures r < WORD
  {
    (w * Pow256(k % 8)) % WORD
  }

  /** `w & (1 << (8 * k & 63) - 1)`. */
  function Masked(w: nat, k: int): (r: nat)
    ensures r <= w
  {
    Remainder(w, Pow256(k % 8))
  }

  function Quotient(w: nat, p: nat): (r: nat)
    requires p >= 1
    ensures r <= w
  {
    QuotientBelow(w, p);
    w / p
  }

  function Remainder(w: nat, p: nat): (r: nat)
    requires p >= 1
    ensures r <= w
  {
    RemainderBelow(w, p);
    w % p
  }

  /** Eight bytes as a big-endian word. */
  function BigWord(t: seq<byte>): (w: nat)
    requires |t| == 8
    ensures w < WORD
  {
    BigBound(t);
    EightBytes();
    Big(t)
  }

  lemma EightBytes()
    ensures Pow256(8) == WORD
  {
    assert Pow256(2) == 256 * Pow256(1) == 0x1_0000;
    assert Pow256(4) == 256 * Pow256(3) == 256 * (256 * Pow256(2)) == 0x1_0000_0000;
    assert Pow256(6) == 256 * Pow256(5) == 256 * (256 * Pow256(4)) == 0x1_0000_0000_0000;
  }

  lemma QuotientBelow(w: nat, p: nat)
    requires p >= 1
    ensures w / p <= w
  {
    assert w == (w / p) * p + w % p;
    if w / p > 0 {
      assert (w / p) * p >= w / p;
    }
  }

  lemma RemainderBelow(w: nat, p: nat)
    requires p >= 1
    ensures w % p <= w
  {
    QuotientBelow(w, p);
    assert w == (w / p) * p + w % p;
    assert (w / p) * p >= 0;
  }

  // ----- what the words say -----

  predicate AddressByte(b: byte) {
    b == DOT || Digit(b)
  }

  lemma AddressWord(b0: byte, b1: byte, b2: byte, b3: byte, b4: byte, b5: byte, b6: byte, b7: byte, w: bv64, x: bv64)
    requires w == Pack(b0, b1, b2, b3, b4, b5, b6, b7) && x == StrangeBytes(w)
    requires AddressByte(b0) && AddressByte(b1) && AddressByte(b2) && AddressByte(b3)
    requires AddressByte(b4) && AddressByte(b5) && AddressByte(b6) && AddressByte(b7)
    ensures Clear(x)
  {
  }

  /** The lowest byte that is neither digit nor dot is marked: nothing carries into it. */
  lemma StrangeWord(b0: byte, b1: byte, b2: byte, b3: byte, b4: byte, b5: byte, b6: byte, b7: byte, w: bv64, x: bv64)
    requires w == Pack(b0, b1, b2, b3, b4, b5, b6, b7) && x == StrangeBytes(w) && Clear(x)
    ensures AddressByte(b0) && AddressByte(b1) && AddressByte(b2) && AddressByte(b3)
    ensures AddressByte(b4) && AddressByte(b5) && AddressByte(b6) && AddressByte(b7)
  {
  }

  lemma DotMarksWord(b0: byte, b1: byte, b2: byte, b3: byte, b4: byte, b5: byte, b6: byte, b7: byte, w: bv64, z: bv64)
    requires w == Pack(b0, b1, b2, b3, b4, b5, b6, b7) && z == DotMarks(w)
    ensures z & 0x8080808080808080 == z
    ensures (z & 0x80 != 0 <==> b0 == DOT) && (z & 0x8000 != 0 <==> b1 == DOT)
    ensures (z & 0x800000 != 0 <==> b2 == DOT) && (z & 0x80000000 != 0 <==> b3 == DOT)
    ensures (z & 0x8000000000 != 0 <==> b4 == DOT) && (z & 0x800000000000 != 0 <==> b5 == DOT)
    ensures (z & 0x80000000000000 != 0 <==> b6 == DOT) && (z & 0x8000000000000000 != 0 <==> b7 == DOT)
  {
  }

  lemma LowestLane(z: bv64)
    requires z & 0x8080808080808080 == z
    ensures LowestByte(z) == 0 <==> z & 0x80 != 0
    ensures LowestByte(z) == 1 <==> z & 0x80 == 0 && z & 0x8000 != 0
    ensures LowestByte(z) == 2 <==> z & 0x80 == 0 && z & 0x8000 == 0 && z & 0x800000 != 0
    ensures LowestByte(z) == 3 <==> z & 0x80 == 0 && z & 0x8000 == 0 && z & 0x800000 == 0 && z & 0x80000000 != 0
    ensures LowestByte(z) == 4 <==>
      && z & 0x80 == 0 && z & 0x8000 == 0 && z & 0x800000 == 0 && z & 0x80000000 == 0 && z & 0x8000000000 != 0
    ensures LowestByte(z) == 5 <==>
      && z & 0x80 == 0 && z & 0x8000 == 0 && z & 0x800000 == 0 && z & 0x80000000 == 0 && z & 0x8000000000 == 0
      && z & 0x800000000000 != 0
    ensures LowestByte(z) == 6 <==>
      && z & 0x80 == 0 && z & 0x8000 == 0 && z & 0x800000 == 0 && z & 0x80000000 == 0 && z & 0x8000000000 == 0
      && z & 0x800000000000 == 0 && z & 0x80000000000000 != 0
    ensures LowestByte(z) == 7 <==>
      && z & 0x80 == 0 && z & 0x8000 == 0 && z & 0x800000 == 0 && z & 0x80000000 == 0 && z & 0x8000000000 == 0
      && z & 0x800000000000 == 0 && z & 0x80000000000000 == 0 && z & 0x8000000000000000 != 0
    ensures LowestByte(z) <= 8
  {
  }

  lemma WithoutLowestLanes(z: bv64, y: bv64)
    requires z & 0x8080808080808080 == z && y == WithoutLowest(z)
    ensures y & 0x8080808080808080 == y
    ensures y & 0x80 == 0
    ensures y & 0x8000 != 0 <==> z & 0x8000 != 0 && z & 0x80 != 0
    ensures y & 0x800000 != 0 <==> z & 0x800000 != 0 && (z & 0x80 != 0 || z & 0x8000 != 0)
    ensures y & 0x80000000 != 0 <==> z & 0x80000000 != 0 && (z & 0x80 != 0 || z & 0x8000 != 0 || z & 0x800000 != 0)
    ensures y & 0x8000000000 != 0 <==>
      && z & 0x8000000000 != 0
      && (z & 0x80 != 0 || z & 0x8000 != 0 || z & 0x800000 != 0 || z & 0x80000000 != 0)
    ensures y & 0x800000000000 != 0 <==>
      && z & 0x800000000000 != 0
      && (z & 0x80 != 0 || z & 0x8000 != 0 || z & 0x800000 != 0 || z & 0x80000000 != 0
          || z & 0x8000000000 != 0)
    ensures y & 0x80000000000000 != 0 <==>
      && z & 0x80000000000000 != 0
      && (z & 0x80 != 0 || z & 0x8000 != 0 || z & 0x800000 != 0 || z & 0x80000000 != 0
          || z & 0x8000000000 != 0 || z & 0x800000000000 != 0)
    ensures y & 0x8000000000000000 != 0 <==>
      && z & 0x8000000000000000 != 0
      && (z & 0x80 != 0 || z & 0x8000 != 0 || z & 0x800000 != 0 || z & 0x80000000 != 0
          || z & 0x8000000000 != 0 || z & 0x800000000000 != 0 || z & 0x80000000000000 != 0)
  {
  }

  /** The positions of the first two dots among eight bytes, 8 standing for none. */
  ghost predicate FirstTwo(t: seq<byte>, f: nat, g: nat) {
    && |t| == 8 && f <= g <= 8 && (f < 8 ==> t[f] == DOT && f < g) && (g < 8 ==> t[g] == DOT)
    && (forall i :: 0 <= i < f ==> t[i] != DOT) && (forall i :: f < i < g ==> t[i] != DOT)
  }

  lemma DotsFound(t: seq<byte>, z: bv64)
    requires |t| == 8 && z == DotMarks(Load64(t, 0))
    ensures FirstTwo(t, LowestByte(z), LowestByte(WithoutLowest(z)))
  {
    DotMarksWord(t[0], t[1], t[2], t[3], t[4], t[5], t[6], t[7], Load64(t, 0), z);
    WithoutLowestLanes(z, WithoutLowest(z));
    LowestLane(z);
    LowestLane(WithoutLowest(z));
    hide DotMarks;
    hide Load64;
    hide Pack;
    hide LowestByte;
    hide WithoutLowest;
  }

  // ----- octets -----

  lemma DigitRange(b: byte)
    requires Digit(b)
    ensures 0x30 <= b as nat <= 0x39 && DigitValue(b) == b as nat - 0x30 && (b == ZERO <==> b as nat == 0x30)
  {
  }

  lemma SmallNumbers(s: seq<byte>)
    requires 1 <= |s| <= 3
    ensures |s| == 1 ==> Decimal(s) == DigitValue(s[0]) && Big(s) == s[0] as nat
    ensures |s| == 2 ==> Decimal(s) == 10 * DigitValue(s[0]) + DigitValue(s[1])
                         && Big(s) == 256 * s[0] as nat + s[1] as nat
    ensures |s| == 3 ==> Decimal(s) == 100 * DigitValue(s[0]) + 10 * DigitValue(s[1]) + DigitValue(s[2])
                         && Big(s) == 65536 * s[0] as nat + 256 * s[1] as nat + s[2] as nat
  {
    var t := s[..|s| - 1];
    if |s| > 1 {
      SmallNumbers(t);
    }
  }

  lemma CompareOne(a: nat)
    requires 0x30 <= a <= 0x39
    ensures IsOctet(a, 1)
  {
  }

  lemma CompareTwo(a: nat, b: nat)
    requires 0x30 <= a <= 0x39 && 0x30 <= b <= 0x39
    ensures IsOctet(256 * a + b, 2) <==> a != 0x30
  {
  }

  lemma OctetWindow(w: nat)
    requires w < 0x100_0000
    ensures IsOctet(w, 3) <==> 0x31_3030 <= w <= 0x32_3535
  {
  }

  lemma CompareThree(a: nat, b: nat, c: nat)
    requires 0x30 <= a <= 0x39 && 0x30 <= b <= 0x39 && 0x30 <= c <= 0x39
    ensures IsOctet(65536 * a + 256 * b + c, 3) <==> a != 0x30 && 100 * (a - 0x30) + 10 * (b - 0x30) + (c - 0x30) <= 255
  {
    var w := 65536 * a + 256 * b + c;
    OctetWindow(w);
    assert w >= 0x31_3030 <==> a != 0x30;
  }

  /** On digits, the comparison of big-endian ASCII decides octets. */
  lemma OctetIs(s: seq<byte>, n: int)
    requires 1 <= |s| <= 3 && AllDigits(s) && n == |s|
    ensures Big(s) < WORD && (IsOctet(Big(s), n) <==> OctetOk(s))
  {
    SmallNumbers(s);
    hide Decimal;
    hide Big;
    hide IsOctet;
    DigitRange(s[0]);
    if |s| == 1 {
      CompareOne(s[0] as nat);
    } else if |s| == 2 {
      DigitRange(s[1]);
      CompareTwo(s[0] as nat, s[1] as nat);
    } else {
      DigitRange(s[1]);
      DigitRange(s[2]);
      CompareThree(s[0] as nat, s[1] as nat, s[2] as nat);
    }
  }

  /** A field that is no octet by its length is never taken for one. */
  lemma NoOctet(x: nat, n: int)
    requires x < WORD && x != 1 && -1 <= n <= 8 && !(1 <= n <= 3)
    ensures !IsOctet(x, n)
  {
  }

  lemma NotOne(v: seq<byte>)
    requires v != [] ==> AddressByte(v[0])
    ensures Big(v) != 1
  {
    if v != [] {
      assert v[0] >= 2;
      BigLarge(v);
    }
  }

  // ----- the four fields -----

  ghost predicate AllAddress(t: seq<byte>) {
    |t| == 8 && forall i :: 0 <= i < 8 ==> AddressByte(t[i])
  }

  lemma FrontField(t: seq<byte>, len: nat)
    requires AllAddress(t) && len <= 8
    ensures var x := ShiftedRight(BigWord(t), 8 - len); x != 1 && (1 <= len <= 3 ==> x == Big(t[..len]))
  {
    hide Pow256;
    hide Big;
    hide AddressByte;
    var k := if len == 0 then 0 else 8 - len;
    assert (8 - len) % 8 == k;
    ShiftAndMask(t, k);
    NotOne(t[..8 - k]);
  }

  lemma FrontOfShifted(t: seq<byte>, a: nat, z: seq<byte>, m: nat)
    requires a + m <= |t|
    ensures (t[a..] + z)[..m] == t[a..a + m]
  {
  }

  lemma InnerField(t: seq<byte>, a: nat, len: int)
    requires AllAddress(t) && 1 <= a <= 9 && -1 <= len <= 7
    ensures var x := ShiftedRight(ShiftedLeft(BigWord(t), a), 8 - len);
      x != 1 && (1 <= len <= 3 && a + len <= 8 && a < 8 ==> x == Big(t[a..a + len]))
  {
    EightBytes();
    hide Pow256;
    hide Big;
    var k, m := a % 8, (8 - len) % 8;
    var u := t[k..] + Zeros(k);
    ShiftLeft(t, k);
    ShiftAndMask(u, m);
    NotOne(u[..8 - m]);
    if 1 <= len <= 3 && a + len <= 8 && a < 8 {
      FrontOfShifted(t, a, Zeros(k), len);
    }
  }

  lemma InnerFieldFromEnd(t: seq<byte>, a: nat, len: int)
    requires AllAddress(t) && 1 <= a <= 9 && -1 <= len <= 7
    ensures var x := Masked(ShiftedRight(BigWord(t), a), len);
      x != 1 && (1 <= len <= 3 && a + len <= 8 && a < 8 ==> x == Big(t[8 - a - len..8 - a]))
  {
    hide Pow256;
    hide Big;
    hide AddressByte;
    var k, m := a % 8, len % 8;
    var u := t[..8 - k];
    ShiftAndMask(t, k);
    MaskKeeps(u, m);
    KeptNotOne(t, k, m);
    hide Kept;
    if 1 <= len <= 3 && a + len <= 8 && a < 8 {
      KeptPart(t, a, len);
    }
  }

  function Kept(u: seq<byte>, m: nat): seq<byte> {
    if m <= |u| then u[|u| - m..] else u
  }

  lemma KeptNotOne(t: seq<byte>, a: nat, m: nat)
    requires AllAddress(t) && a <= 8
    ensures Big(Kept(t[..8 - a], m)) != 1
  {
    hide AddressByte;
    hide Big;
    NotOne(Kept(t[..8 - a], m));
  }

  lemma KeptPart(t: seq<byte>, a: nat, m: nat)
    requires a + m <= |t|
    ensures Kept(t[..|t| - a], m) == t[|t| - a - m..|t| - a]
  {
  }

  lemma MaskKeeps(u: seq<byte>, m: nat)
    ensures Big(u) % Pow256(m) == Big(Kept(u, m))
  {
    hide Pow256;
    hide Big;
    if m <= |u| {
      ShiftAndMask(u, m);
    } else {
      BigBound(u);
      PowGrows(|u|, m);
      SmallRemainder(Big(u), Pow256(m));
    }
  }

  lemma {:induction false} PowGrows(a: nat, b: nat)
    requires a <= b
    ensures Pow256(a) <= Pow256(b)
  {
    if a < b {
      PowGrows(a, b - 1);
    }
  }

  lemma SmallRemainder(x: nat, p: nat)
    requires x < p
    ensures x % p == x
  {
  }

  lemma EndField(t: seq<byte>, len: nat)
    requires AllAddress(t) && len <= 8
    ensures var x := Masked(BigWord(t), len); x != 1 && (1 <= len <= 3 ==> x == Big(t[8 - len..]))
  {
    hide Pow256;
    hide Big;
    ShiftAndMask(t, len % 8);
    NotOne(t[8 - len % 8..]);
  }

  ghost function Reversed(t: seq<byte>): (r: seq<byte>)
    ensures |r| == |t| && forall i :: 0 <= i < |t| ==> r[i] == t[|t| - 1 - i]
  {
    seq(|t|, i requires 0 <= i < |t| => t[|t| - 1 - i])
  }

  lemma FieldDigits(t: seq<byte>, a: nat, b: nat)
    requires a <= b <= |t| && forall i :: a <= i < b ==> AddressByte(t[i]) && t[i] != DOT
    ensures AllDigits(t[a..b])
  {
  }

  /** One field's test decides one octet. */
  lemma FieldDecides(t: seq<byte>, a: nat, b: nat, x: nat, n: int)
    requires x < WORD && x != 1 && -1 <= n <= 8
    requires 1 <= n <= 3 ==>
      a <= b <= |t| && n == b - a && x == Big(t[a..b]) && forall i :: a <= i < b ==> AddressByte(t[i]) && t[i] != DOT
    ensures IsOctet(x, n) <==> 1 <= n <= 3 && OctetOk(t[a..b])
  {
    if 1 <= n <= 3 {
      FieldDigits(t, a, b);
      OctetIs(t[a..b], n);
    } else {
      NoOctet(x, n);
    }
  }

  /** The four octets that two dots from either end leave in the two words. */
  ghost predicate FourFields(t: seq<byte>, r: seq<byte>, fl: nat, sd: nat, fo: nat, se: nat)
    requires |t| == |r| == 8
  {
    && 1 <= fl <= 3 && 1 <= sd - fl - 1 <= 3 && 1 <= fo <= 3 && 1 <= se - fo - 1 <= 3
    && OctetOk(t[0..fl]) && OctetOk(t[fl + 1..sd]) && OctetOk(r[8 - se..7 - fo]) && OctetOk(r[8 - fo..8])
  }

  lemma FrontDecides(t: seq<byte>, fl: nat, sd: nat)
    requires AllAddress(t) && FirstTwo(t, fl, sd)
    ensures IsOctet(ShiftedRight(BigWord(t), 8 - fl), fl) <==> 1 <= fl <= 3 && OctetOk(t[0..fl])
    ensures IsOctet(ShiftedRight(ShiftedLeft(BigWord(t), fl + 1), 8 - (sd - fl - 1)), sd - fl - 1) <==>
      1 <= sd - fl - 1 <= 3 && OctetOk(t[fl + 1..sd])
  {
    hide IsOctet;
    hide OctetOk;
    hide AddressByte;
    hide Big;
    FrontField(t, fl);
    InnerField(t, fl + 1, sd - fl - 1);
    hide ShiftedRight;
    hide ShiftedLeft;
    hide BigWord;
    assert t[..fl] == t[0..fl];
    FieldDecides(t, 0, fl, ShiftedRight(BigWord(t), 8 - fl), fl);
    FieldDecides(t, fl + 1, sd, ShiftedRight(ShiftedLeft(BigWord(t), fl + 1), 8 - (sd - fl - 1)), sd - fl - 1);
  }

  lemma BackDecides(r: seq<byte>, fo: nat, se: nat)
    requires AllAddress(r) && FirstTwo(Reversed(r), fo, se)
    ensures IsOctet(Masked(BigWord(r), fo), fo) <==> 1 <= fo <= 3 && OctetOk(r[8 - fo..8])
    ensures IsOctet(Masked(ShiftedRight(BigWord(r), fo + 1), se - fo - 1), se - fo - 1) <==>
      1 <= se - fo - 1 <= 3 && OctetOk(r[8 - se..7 - fo])
  {
    hide IsOctet;
    hide OctetOk;
    hide AddressByte;
    hide Big;
    hide ShiftedRight;
    hide Masked;
    hide BigWord;
    FromEnd(r, fo, se);
    assert fo <= se <= 8;
    hide FirstTwo;
    InnerFieldFromEnd(r, fo + 1, se - fo - 1);
    EndField(r, fo);
    assert r[8 - fo..] == r[8 - fo..8];
    FieldDecides(r, 8 - se, if fo < 8 then 7 - fo else 0, Masked(ShiftedRight(BigWord(r), fo + 1), se - fo - 1),
      se - fo - 1);
    FieldDecides(r, 8 - fo, 8, Masked(BigWord(r), fo), fo);
  }

  lemma FieldsDecide(t: seq<byte>, r: seq<byte>, fl: nat, sd: nat, fo: nat, se: nat)
    requires AllAddress(t) && AllAddress(r) && FirstTwo(t, fl, sd) && FirstTwo(Reversed(r), fo, se)
    ensures FieldsOk(BigWord(t), BigWord(r), fl, sd, fo, se) <==> FourFields(t, r, fl, sd, fo, se)
  {
    hide IsOctet;
    hide OctetOk;
    hide ShiftedRight;
    hide ShiftedLeft;
    hide Masked;
    hide BigWord;
    FrontDecides(t, fl, sd);
    BackDecides(r, fo, se);
  }

  lemma FromEnd(r: seq<byte>, fo: nat, se: nat)
    requires |r| == 8 && FirstTwo(Reversed(r), fo, se)
    ensures forall i :: 8 - fo <= i < 8 ==> r[i] != DOT
    ensures forall i :: 8 - se <= i < 7 - fo ==> r[i] != DOT
    ensures fo < 8 ==> r[7 - fo] == DOT
    ensures se < 8 ==> r[7 - se] == DOT
  {
    var v := Reversed(r);
    forall i | 0 <= i < 8
      ensures r[i] == v[7 - i]
    {
    }
  }

  // ----- addresses -----

  /** The three dots of an address and the octets between them. */
  ghost predicate AddressAt(s: seq<byte>, a: nat, b: nat, c: nat) {
    && a < b < c < |s| && s[a] == s[b] == s[c] == DOT
    && OctetOk(s[0..a]) && OctetOk(s[a + 1..b]) && OctetOk(s[b + 1..c]) && OctetOk(s[c + 1..|s|])
  }

  lemma OctetHasNoDot(s: seq<byte>, from: nat, to: nat)
    requires from <= to <= |s| && OctetOk(s[from..to])
    ensures 1 <= to - from <= 3 && forall i :: from <= i < to ==> Digit(s[i]) && s[i] != DOT
  {
    forall i | from <= i < to
      ensures Digit(s[i])
    {
      assert s[from..to][i - from] == s[i];
    }
  }

  lemma AddressDots(s: seq<byte>, a: nat, b: nat, c: nat)
    requires AddressAt(s, a, b, c)
    ensures 1 <= a <= 3 && 1 <= b - a - 1 <= 3 && 1 <= c - b - 1 <= 3 && 1 <= |s| - c - 1 <= 3
    ensures forall i :: 0 <= i < |s| ==> AddressByte(s[i])
    ensures forall i :: 0 <= i < |s| && i != a && i != b && i != c ==> s[i] != DOT
  {
    hide OctetOk;
    OctetHasNoDot(s, 0, a);
    OctetHasNoDot(s, a + 1, b);
    OctetHasNoDot(s, b + 1, c);
    OctetHasNoDot(s, c + 1, |s|);
  }

  /** An octet before the octets that follow it. */
  lemma OctetJoins(s: seq<byte>, from: nat, d: nat, k: nat)
    requires from <= d <= |s| && k > 0 && OctetOk(s[from..d])
    requires if k == 1 then d == |s| else d < |s| && s[d] == DOT && OctetsFrom(s, d + 1, k - 1)
    ensures OctetsFrom(s, from, k)
  {
    OctetHasNoDot(s, from, d);
    NextDotIs(s, from, d);
  }

  lemma AddressJoins(s: seq<byte>, a: nat, b: nat, c: nat)
    requires AddressAt(s, a, b, c)
    ensures IsAddress(s)
  {
    hide OctetOk;
    hide OctetsFrom;
    OctetJoins(s, c + 1, |s|, 1);
    OctetJoins(s, b + 1, c, 2);
    OctetJoins(s, a + 1, b, 3);
    OctetJoins(s, 0, a, 4);
  }

  /** The first of several octets ends at the first dot. */
  lemma OctetSplits(s: seq<byte>, from: nat, k: nat)
    requires from <= |s| && k > 1 && OctetsFrom(s, from, k)
    ensures var d := NextDot(s, from);
      from <= d < |s| && s[d] == DOT && OctetOk(s[from..d]) && OctetsFrom(s, d + 1, k - 1)
  {
    hide OctetOk;
  }

  lemma LastTwo(s: seq<byte>, from: nat) returns (c: nat)
    requires from <= |s| && OctetsFrom(s, from, 2)
    ensures from <= c < |s| && s[c] == DOT && OctetOk(s[from..c]) && OctetOk(s[c + 1..|s|])
  {
    hide OctetOk;
    OctetSplits(s, from, 2);
    c := NextDot(s, from);
  }

  lemma LastThree(s: seq<byte>, from: nat) returns (b: nat, c: nat)
    requires from <= |s| && OctetsFrom(s, from, 3)
    ensures from <= b < c < |s| && s[b] == s[c] == DOT
    ensures OctetOk(s[from..b]) && OctetOk(s[b + 1..c]) && OctetOk(s[c + 1..|s|])
  {
    hide OctetOk;
    hide OctetsFrom;
    OctetSplits(s, from, 3);
    b := NextDot(s, from);
    c := LastTwo(s, b + 1);
  }

  lemma AddressSplits(s: seq<byte>) returns (a: nat, b: nat, c: nat)
    requires IsAddress(s)
    ensures AddressAt(s, a, b, c)
  {
    hide OctetOk;
    hide OctetsFrom;
    OctetSplits(s, 0, 4);
    a := NextDot(s, 0);
    b, c := LastThree(s, a + 1);
  }

  /** In a text of 8 to 15 bytes the two words find the dots of an address, and only of an address. */
  lemma DotsOfAddress(s: seq<byte>, a: nat, b: nat, c: nat, fl: nat, sd: nat, fo: nat, se: nat)
    requires 8 <= |s| <= 15 && AddressAt(s, a, b, c)
    requires FirstTwo(s[..8], fl, sd) && FirstTwo(Reversed(s[|s| - 8..]), fo, se)
    ensures fl == a && sd == b && fo == |s| - 1 - c && se == |s| - 1 - b
  {
    AddressDots(s, a, b, c);
    hide OctetOk;
    var t, r := s[..8], s[|s| - 8..];
    FromEnd(r, fo, se);
    assert forall i :: 0 <= i < 8 ==> t[i] == s[i];
    assert forall i :: |s| - 8 <= i < |s| ==> r[i - (|s| - 8)] == s[i];
    assert t[a] == DOT && t[b] == DOT;
    assert r[c - (|s| - 8)] == DOT && r[b - (|s| - 8)] == DOT;
  }

  // ----- the theorem -----

  /** The bytes of a text of 8 to 15 bytes, seen through its two words. */
  lemma WindowsCover(s: seq<byte>)
    requires 8 <= |s| <= 15
    ensures AllAddress(s[..8]) && AllAddress(s[|s| - 8..]) <==> forall i :: 0 <= i < |s| ==> AddressByte(s[i])
  {
    hide AddressByte;
    var t, r := s[..8], s[|s| - 8..];
    assert forall i :: 0 <= i < 8 ==> t[i] == s[i];
    if AllAddress(t) && AllAddress(r) {
      forall i | 0 <= i < |s|
        ensures AddressByte(s[i])
      {
        if i >= 8 {
          assert r[i - (|s| - 8)] == s[i];
        }
      }
    }
  }

  lemma SameWords(s: seq<byte>)
    requires |s| >= 8
    ensures Load64(s, 0) == Load64(s[..8], 0) && LoadReversed(s) == Load64(Reversed(s[|s| - 8..]), 0)
  {
    hide Pack;
  }

  lemma WordChecked(t: seq<byte>, w: bv64, x: bv64)
    requires |t| == 8 && w == Load64(t, 0) && x == StrangeBytes(w)
    ensures Clear(x) <==> AllAddress(t)
  {
    hide StrangeBytes;
    hide Clear;
    hide AddressByte;
    if Clear(x) {
      StrangeWord(t[0], t[1], t[2], t[3], t[4], t[5], t[6], t[7], w, x);
    } else if AllAddress(t) {
      AddressWord(t[0], t[1], t[2], t[3], t[4], t[5], t[6], t[7], w, x);
    }
  }

  lemma AddressReversed(t: seq<byte>)
    requires |t| == 8
    ensures AllAddress(Reversed(t)) <==> AllAddress(t)
  {
    var v := Reversed(t);
    assert forall i :: 0 <= i < 8 ==> t[i] == v[7 - i];
  }

  lemma BothChecked(s: seq<byte>)
    requires 8 <= |s| <= 15
    ensures OnlyAddressBytes(Load64(s, 0), LoadReversed(s)) <==> AllAddress(s[..8]) && AllAddress(s[|s| - 8..])
  {
    hide Load64;
    hide LoadReversed;
    hide StrangeBytes;
    hide Clear;
    hide NeitherMarked;
    hide AllAddress;
    var first, last := Load64(s, 0), LoadReversed(s);
    SameWords(s);
    WordChecked(s[..8], first, StrangeBytes(first));
    WordChecked(Reversed(s[|s| - 8..]), last, StrangeBytes(last));
    AddressReversed(s[|s| - 8..]);
    NeitherIs(StrangeBytes(first), StrangeBytes(last));
  }

  lemma WindowDots(s: seq<byte>)
    requires 8 <= |s| <= 15
    ensures var z, y := DotMarks(Load64(s, 0)), DotMarks(LoadReversed(s));
      && FirstTwo(s[..8], LowestByte(z), LowestByte(WithoutLowest(z)))
      && FirstTwo(Reversed(s[|s| - 8..]), LowestByte(y), LowestByte(WithoutLowest(y)))
  {
    hide *;
    SameWords(s);
    DotsFound(s[..8], DotMarks(Load64(s, 0)));
    DotsFound(Reversed(s[|s| - 8..]), DotMarks(LoadReversed(s)));
  }

  /** Four good fields at matching dots are the four octets of an address. */
  lemma FieldsAreAddress(s: seq<byte>, fl: nat, sd: nat, fo: nat, se: nat)
    requires 8 <= |s| <= 15 && sd + se + 1 == |s|
    requires FirstTwo(s[..8], fl, sd) && FirstTwo(Reversed(s[|s| - 8..]), fo, se)
    requires FourFields(s[..8], s[|s| - 8..], fl, sd, fo, se)
    ensures fo < |s| && AddressAt(s, fl, sd, |s| - 1 - fo)
  {
    hide OctetOk;
    var t, r, n := s[..8], s[|s| - 8..], |s|;
    FromEnd(r, fo, se);
    hide FirstTwo;
    SliceOfPrefix(s, 8, 0, fl);
    SliceOfPrefix(s, 8, fl + 1, sd);
    SliceOfSuffix(s, 8, 8 - se, 7 - fo);
    SliceOfSuffix(s, 8, 8 - fo, 8);
    assert s[fl] == t[fl] && s[sd] == t[sd] && s[n - 1 - fo] == r[7 - fo];
  }

  lemma AddressHasFields(s: seq<byte>, a: nat, b: nat, c: nat)
    requires 8 <= |s| <= 15 && AddressAt(s, a, b, c)
    ensures FourFields(s[..8], s[|s| - 8..], a, b, |s| - 1 - c, |s| - 1 - b)
  {
    hide OctetOk;
    assert 1 <= a <= 3 && 1 <= b - a - 1 <= 3 && 1 <= c - b - 1 <= 3 && 1 <= |s| - c - 1 <= 3 by {
      AddressDots(s, a, b, c);
    }
    var n := |s|;
    SliceOfPrefix(s, 8, 0, a);
    SliceOfPrefix(s, 8, a + 1, b);
    SliceOfSuffix(s, 8, 8 - (n - 1 - b), 7 - (n - 1 - c));
    SliceOfSuffix(s, 8, 8 - (n - 1 - c), 8);
  }

  lemma LongAddress(s: seq<byte>)
    requires 8 <= |s| <= 15
    ensures IsIPv4(s) <==> IsAddress(s)
  {
    hide OnlyAddressBytes;
    hide DotMarks;
    hide LowestByte;
    hide WithoutLowest;
    hide FieldsOk;
    hide FirstTwo;
    hide FourFields;
    hide AddressAt;
    hide IsAddress;
    hide AddressByte;
    hide Load64;
    hide LoadReversed;
    hide BigWord;
    var t, r, n := s[..8], s[|s| - 8..], |s|;
    var z, y := DotMarks(Load64(s, 0)), DotMarks(LoadReversed(s));
    var fl, sd, fo, se := LowestByte(z), LowestByte(WithoutLowest(z)), LowestByte(y), LowestByte(WithoutLowest(y));
    BothChecked(s);
    WindowDots(s);
    if IsIPv4(s) {
      FieldsDecide(t, r, fl, sd, fo, se);
      FieldsAreAddress(s, fl, sd, fo, se);
      AddressJoins(s, fl, sd, n - 1 - fo);
    }
    if IsAddress(s) {
      var a, b, c := AddressSplits(s);
      AddressDots(s, a, b, c);
      WindowsCover(s);
      DotsOfAddress(s, a, b, c, fl, sd, fo, se);
      AddressHasFields(s, a, b, c);
      FieldsDecide(t, r, fl, sd, fo, se);
    }
  }

  lemma SingleDigitsWord(b0: byte, b1: byte, b2: byte, b3: byte, b4: byte, b5: byte, b6: byte)
    ensures SingleDigits(((b0 as bv64) | (b1 as bv64 << 8) | (b2 as bv64 << 16) | (b3 as bv64 << 24))
                         | (((b3 as bv64) | (b4 as bv64 << 8) | (b5 as bv64 << 16) | (b6 as bv64 << 24)) << 24))
       <==> (Digit(b0) && b1 == DOT && Digit(b2) && b3 == DOT && Digit(b4) && b5 == DOT && Digit(b6))
  {
  }

  /** What an address of seven bytes looks like. */
  ghost predicate SevenBytes(s: seq<byte>) {
    && |s| == 7 && Digit(s[0]) && s[1] == DOT && Digit(s[2]) && s[3] == DOT && Digit(s[4]) && s[5] == DOT && Digit(s[6])
  }

  lemma SevenIsAddress(s: seq<byte>)
    requires SevenBytes(s)
    ensures IsAddress(s)
  {
    hide OctetOk;
    OneDigitOctet(s, 0);
    OneDigitOctet(s, 2);
    OneDigitOctet(s, 4);
    OneDigitOctet(s, 6);
    hide IsAddress;
    AddressJoins(s, 1, 3, 5);
  }

  lemma AddressIsSeven(s: seq<byte>)
    requires |s| == 7 && IsAddress(s)
    ensures SevenBytes(s)
  {
    var a, b, c := AddressSplits(s);
    hide IsAddress;
    hide OctetOk;
    AddressDots(s, a, b, c);
    assert a == 1 && b == 3 && c == 5;
    OctetHasNoDot(s, 0, 1);
    OctetHasNoDot(s, 2, 3);
    OctetHasNoDot(s, 4, 5);
    OctetHasNoDot(s, 6, 7);
  }

  lemma ShortAddress(s: seq<byte>)
    requires |s| == 7
    ensures IsIPv4(s) <==> IsAddress(s)
  {
    hide SingleDigits;
    hide IsAddress;
    SingleDigitsWord(s[0], s[1], s[2], s[3], s[4], s[5], s[6]);
    if SevenBytes(s) {
      SevenIsAddress(s);
    } else if IsAddress(s) {
      AddressIsSeven(s);
    }
  }

  lemma OneDigitOctet(s: seq<byte>, i: nat)
    requires i < |s| && Digit(s[i])
    ensures OctetOk(s[i..i + 1])
  {
    DecimalStep(s, i, i);
    assert s[i..i] == [];
  }

  /** The test on two words accepts exactly what the byte-wise one does, for every text. */
  lemma IsIPv4Exact(s: seq<byte>)
    ensures IsIPv4(s) <==> IsAddress(s)
  {
    hide IsAddress;
    if |s| == 7 {
      ShortAddress(s);
    } else if 8 <= |s| <= 15 {
      LongAddress(s);
    } else if IsAddress(s) {
      var a, b, c := AddressSplits(s);
      AddressDots(s, a, b, c);
      assert false;
    }
  }
}
