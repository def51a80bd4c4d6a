/** The word-parallel fast paths of the parser: each either agrees with the scalar code or declines. */
module FastPaths {
  import opened Bitmaps
  import opened HostPorts
  import opened Ipv4Words
  import opened Strings
  import opened StrictParsers
  import opened StructuralIndex
  import opened Swar
  import opened Text
  import opened Validation
  import opened Words

  // ----- searches on the index -----

  /** `strings.IndexByte(input[from:], b)`, on the index if the byte has a class there. */
  method IndexByteFrom(ix: Index, indexed: bool, input: seq<byte>, from: nat, b: byte, c: Class,
                       classed: bool) returns (r: int)
    requires indexed ==> ix.Describes(input)
    requires from <= |input| && (classed ==> forall x: byte :: InClass(c, x) <==> x == b)
    ensures r == Relative(IndexByte(input, b, from), from)
  {
    if !indexed || !classed {
      return Relative(IndexByte(input, b, from), from);
    }
    ix.NextIs(input, c, from);
    var position := ix.Next(c, from);
    if position >= 0 {
      IndexByteIs(input, b, from, position);
      return position - from;
    }
    IndexByteNone(input, b, from);
    return -1;
  }

  function Relative(position: int, from: nat): int {
    if position < 0 then -1 else position - from
  }

  /** Steps through the colons of the index to the first that two slashes follow. */
  method IndexSchemeSeparator(ix: Index, indexed: bool, input: seq<byte>, from: nat) returns (r: int)
    requires indexed ==> ix.Describes(input)
    requires from <= |input|
    ensures r == Relative(Find(input, SEPARATOR, from), from)
  {
    hide Bit;
    hide And;
    hide TrailingZeros;
    hide OnesCount;
    hide Matches;
    if !indexed {
      return Relative(Find(input, SEPARATOR, from), from);
    }
    var colons := AndNot(ix.Bitmap(Colon), LowMask(from));
    ghost var next: nat := from;
    ColonsFrom(ix, input, from);
    while colons != 0
      invariant from <= next
      invariant ColonBits(input, colons, next)
      invariant forall i: nat :: from <= i < next ==> !Matches(input, SEPARATOR, i)
      decreases OnesCount(colons)
    {
      ColonCleared(input, colons, next);
      var colon := TrailingZeros(colons);
      SeparatorAt(input, colon);
      if colon + 2 < |input| && input[colon + 1] == 0x2f && input[colon + 2] == 0x2f {
        NoSeparatorBetween(input, colons, next, colon);
        FindIs(input, SEPARATOR, from, colon);
        return colon - from;
      }
      NoSeparatorBetween(input, colons, next, colon);
      next := colon + 1;
      colons := And(colons, colons - 1);
    }
    NonZero(colons);
    NoSeparatorBetween(input, colons, next, |input|);
    FindNone(input, SEPARATOR, from);
    return -1;
  }

  /** The bitmap of the colons from a position on. */
  ghost predicate ColonBits(input: seq<byte>, colons: nat, next: nat) {
    forall i: nat {:trigger Bit(colons, i)} :: Bit(colons, i) <==> next <= i < |input| && input[i] == COLON
  }

  lemma ColonsFrom(ix: Index, input: seq<byte>, from: nat)
    requires ix.Describes(input)
    ensures ColonBits(input, AndNot(ix.Bitmap(Colon), LowMask(from)), from)
  {
    hide Bit;
    hide AndNot;
    forall i: nat
      ensures Bit(AndNot(ix.Bitmap(Colon), LowMask(from)), i) <==> from <= i < |input| && input[i] == COLON
    {
      AndNotBit(ix.Bitmap(Colon), LowMask(from), i);
      LowMaskBit(from, i);
      ix.BitIs(input, Colon, i);
    }
  }

  /** The lowest colon, and the colons after it. */
  lemma ColonCleared(input: seq<byte>, colons: nat, next: nat)
    requires colons != 0 && ColonBits(input, colons, next)
    ensures var colon := TrailingZeros(colons);
      && next <= colon < |input| && input[colon] == COLON && (forall i: nat :: i < colon ==> !Bit(colons, i))
      && ColonBits(input, And(colons, colons - 1), colon + 1)
      && OnesCount(And(colons, colons - 1)) < OnesCount(colons)
  {
    hide Bit;
    hide And;
    hide TrailingZeros;
    hide OnesCount;
    LowestBit(colons);
    var colon := TrailingZeros(colons);
    assert Bit(colons, colon);
    var rest := And(colons, colons - 1);
    forall i: nat
      ensures Bit(rest, i) <==> colon + 1 <= i < |input| && input[i] == COLON
    {
      assert Bit(rest, i) <==> Bit(colons, i) && i != colon;
      assert i < colon ==> !Bit(colons, i);
    }
    assert ColonBits(input, rest, colon + 1);
  }

  lemma SeparatorAt(input: seq<byte>, i: nat)
    ensures Matches(input, SEPARATOR, i) <==>
      i + 2 < |input| && input[i] == COLON && input[i + 1] == 0x2f && input[i + 2] == 0x2f
  {
    if i + 2 < |input| {
      assert input[i..i + 3] == [input[i], input[i + 1], input[i + 2]];
    }
  }

  lemma NoSeparatorBetween(input: seq<byte>, colons: nat, next: nat, stop: nat)
    requires ColonBits(input, colons, next)
    requires forall i: nat :: i < stop ==> !Bit(colons, i)
    ensures forall i: nat :: next <= i && (i < stop || |input| <= stop) ==> !Matches(input, SEPARATOR, i)
  {
    forall i: nat | next <= i && (i < stop || |input| <= stop)
      ensures !Matches(input, SEPARATOR, i)
    {
      SeparatorAt(input, i);
      if i < stop {
        assert !Bit(colons, i);
      }
    }
  }

  // ----- scanning for the two delimiters of the credentials -----

  /** A delimiter in every lane: `':' * eachByte` or `'@' * eachByte`. */
  function Repeat(b: byte): bv64 {
    if b == COLON then 0x3a3a3a3a3a3a3a3a else 0x4040404040404040
  }

  /** Marks bytes that are zero; exact up to and including the lowest. */
  function ZeroMarks(x: bv64): bv64 {
    (x - 0x0101010101010101) & !x & 0x8080808080808080
  }

  /** Bytes that equal the target become zero; the bytes under the mask do not. */
  function Sought(w: bv64, target: bv64, mask: bv64): bv64 {
    (w ^ target) | mask
  }

  /** `1 << (8 * k) - 1`. */
  function LowBytes(k: nat): bv64 {
    if k == 0 then 0 else if k == 1 then 0xff else if k == 2 then 0xffff else if k == 3 then 0xffffff
    else if k == 4 then 0xffffffff else if k == 5 then 0xffffffffff else if k == 6 then 0xffffffffffff
    else 0xffffffffffffff
  }

  lemma ColonXor(b0: byte, b1: byte, b2: byte, b3: byte, b4: byte, b5: byte, b6: byte, b7: byte)
    ensures Pack(b0, b1, b2, b3, b4, b5, b6, b7) ^ 0x3a3a3a3a3a3a3a3a
         == Pack(b0 ^ 0x3a, b1 ^ 0x3a, b2 ^ 0x3a, b3 ^ 0x3a, b4 ^ 0x3a, b5 ^ 0x3a, b6 ^ 0x3a, b7 ^ 0x3a)
  {
  }

  lemma AtXor(b0: byte, b1: byte, b2: byte, b3: byte, b4: byte, b5: byte, b6: byte, b7: byte)
    ensures Pack(b0, b1, b2, b3, b4, b5, b6, b7) ^ 0x4040404040404040
         == Pack(b0 ^ 0x40, b1 ^ 0x40, b2 ^ 0x40, b3 ^ 0x40, b4 ^ 0x40, b5 ^ 0x40, b6 ^ 0x40, b7 ^ 0x40)
  {
  }

  lemma Mask1(c: seq<byte>, d: seq<byte>)
    requires |c| == |d| == 8 && forall j :: 0 <= j < 8 ==> d[j] == if j < 1 then 0xff else c[j]
    ensures Load64(c, 0) | 0xff == Load64(d, 0)
  {
  }

  lemma Mask2(c: seq<byte>, d: seq<byte>)
    requires |c| == |d| == 8 && forall j :: 0 <= j < 8 ==> d[j] == if j < 2 then 0xff else c[j]
    ensures Load64(c, 0) | 0xffff == Load64(d, 0)
  {
  }

  lemma Mask3(c: seq<byte>, d: seq<byte>)
    requires |c| == |d| == 8 && forall j :: 0 <= j < 8 ==> d[j] == if j < 3 then 0xff else c[j]
    ensures Load64(c, 0) | 0xffffff == Load64(d, 0)
  {
  }

  lemma Mask4(c: seq<byte>, d: seq<byte>)
    requires |c| == |d| == 8 && forall j :: 0 <= j < 8 ==> d[j] == if j < 4 then 0xff else c[j]
    ensures Load64(c, 0) | 0xffffffff == Load64(d, 0)
  {
  }

  lemma Mask5(c: seq<byte>, d: seq<byte>)
    requires |c| == |d| == 8 && forall j :: 0 <= j < 8 ==> d[j] == if j < 5 then 0xff else c[j]
    ensures Load64(c, 0) | 0xffffffffff == Load64(d, 0)
  {
  }

  lemma Mask6(c: seq<byte>, d: seq<byte>)
    requires |c| == |d| == 8 && forall j :: 0 <= j < 8 ==> d[j] == if j < 6 then 0xff else c[j]
    ensures Load64(c, 0) | 0xffffffffffff == Load64(d, 0)
  {
  }

  lemma Mask7(c: seq<byte>, d: seq<byte>)
    requires |c| == |d| == 8 && forall j :: 0 <= j < 8 ==> d[j] == if j < 7 then 0xff else c[j]
    ensures Load64(c, 0) | 0xffffffffffffff == Load64(d, 0)
  {
  }

  lemma ZeroWord(b0: byte, b1: byte, b2: byte, b3: byte, b4: byte, b5: byte, b6: byte, b7: byte, z: bv64)
    requires z == ZeroMarks(Pack(b0, b1, b2, b3, b4, b5, b6, b7))
    ensures LowestByte(z) == 0 <==> b0 == 0
    ensures LowestByte(z) == 1 <==> b0 != 0 && b1 == 0
    ensures LowestByte(z) == 2 <==> b0 != 0 && b1 != 0 && b2 == 0
    ensures LowestByte(z) == 3 <==> b0 != 0 && b1 != 0 && b2 != 0 && b3 == 0
    ensures LowestByte(z) == 4 <==> b0 != 0 && b1 != 0 && b2 != 0 && b3 != 0 && b4 == 0
    ensures LowestByte(z) == 5 <==> b0 != 0 && b1 != 0 && b2 != 0 && b3 != 0 && b4 != 0 && b5 == 0
    ensures LowestByte(z) == 6 <==> b0 != 0 && b1 != 0 && b2 != 0 && b3 != 0 && b4 != 0 && b5 != 0 && b6 == 0
    ensures LowestByte(z) == 7 <==> b0 != 0 && b1 != 0 && b2 != 0 && b3 != 0 && b4 != 0 && b5 != 0 && b6 != 0 && b7 == 0
    ensures LowestByte(z) <= 8 && (z == 0 <==> LowestByte(z) == 8)
  {
  }

  /** The bytes of a word after the comparison: zero where the delimiter is, and nonzero under the mask. */
  ghost function Compared(t: seq<byte>, b: byte, k: nat): (c: seq<byte>)
    requires |t| == 8
    ensures |c| == 8
  {
    seq(8, j requires 0 <= j < 8 => if j < k then 0xff else t[j] ^ b)
  }

  lemma XorLoad(t: seq<byte>, b: byte, c: seq<byte>)
    requires |t| == 8 && (b == COLON || b == AT) && c == Compared(t, b, 0)
    ensures Load64(t, 0) ^ Repeat(b) == Load64(c, 0)
  {
    if b == COLON {
      ColonXor(t[0], t[1], t[2], t[3], t[4], t[5], t[6], t[7]);
    } else {
      AtXor(t[0], t[1], t[2], t[3], t[4], t[5], t[6], t[7]);
    }
    hide Pack;
  }

  lemma MaskLoad(t: seq<byte>, b: byte, k: nat, c: seq<byte>, d: seq<byte>)
    requires |t| == 8 && k < 8 && c == Compared(t, b, 0) && d == Compared(t, b, k)
    ensures Load64(c, 0) | LowBytes(k) == Load64(d, 0)
  {
    hide Load64;
    if k > 0 {
      match k
      case 1 => Mask1(c, d);
      case 2 => Mask2(c, d);
      case 3 => Mask3(c, d);
      case 4 => Mask4(c, d);
      case 5 => Mask5(c, d);
      case 6 => Mask6(c, d);
      case 7 => Mask7(c, d);
    }
  }

  lemma MarksOf(d: seq<byte>, x: bv64, z: bv64)
    requires |d| == 8 && x == Load64(d, 0) && z == ZeroMarks(x)
    ensures var m := LowestByte(z);
      && m <= 8 && (z == 0 <==> m == 8) && (m < 8 ==> d[m] == 0) && forall j :: 0 <= j < m ==> d[j] != 0
  {
    hide LowestByte;
    hide ZeroMarks;
    hide Pack;
    ZeroWord(d[0], d[1], d[2], d[3], d[4], d[5], d[6], d[7], z);
    hide Load64;
  }

  lemma SameByte(a: byte, b: byte)
    ensures a ^ b == 0 <==> a == b
  {
  }

  /** The lowest mark is the first delimiter that the mask does not hide. */
  lemma FoundIn(t: seq<byte>, b: byte, k: nat, x: bv64, z: bv64)
    requires |t| == 8 && k < 8 && (b == COLON || b == AT)
    requires x == Sought(Load64(t, 0), Repeat(b), LowBytes(k)) && z == ZeroMarks(x)
    ensures var m := LowestByte(z);
      && m <= 8 && (z == 0 <==> m == 8) && (m < 8 ==> k <= m && t[m] == b) && forall j :: k <= j < m ==> t[j] != b
  {
    hide Load64;
    hide Repeat;
    hide LowBytes;
    hide ZeroMarks;
    hide LowestByte;
    var c, d := Compared(t, b, 0), Compared(t, b, k);
    XorLoad(t, b, c);
    MaskLoad(t, b, k, c, d);
    MarksOf(d, x, z);
    forall j | 0 <= j < 8
      ensures d[j] == 0 <==> j >= k && t[j] == b
    {
      SameByte(t[j], b);
    }
  }

  /** One word of the scan: the first delimiter at or after `i` in the window that holds `i`, if any. */
  method ScanWord(input: seq<byte>, at: nat, i: nat, b: byte) returns (found: bv64)
    requires at + 8 <= |input| && at <= i < at + 8 && (b == COLON || b == AT)
    ensures var m := LowestByte(found);
      && m <= 8 && (found == 0 <==> m == 8) && (m < 8 ==> i <= at + m && input[at + m] == b)
      && forall j :: i <= j < at + m ==> input[j] != b
  {
    hide LowestByte;
    hide ZeroMarks;
    hide Repeat;
    hide LowBytes;
    hide Pack;
    var x := Sought(Load64(input, at), Repeat(b), LowBytes(i - at));
    found := ZeroMarks(x);
    ghost var t := input[at..at + 8];
    FoundIn(t, b, i - at, x, found);
    assert forall j :: at <= j < at + 8 ==> input[j] == t[j - at];
  }

  /** The first colon from `start`, the first at sign after it, and whether all up to there is printable. */
  method ScanCredentials(input: seq<byte>, start: nat) returns (usernameEnd: int, passwordEnd: int, printable: bool)
    requires 8 <= |input| && start <= |input|
    ensures usernameEnd == IndexByte(input, COLON, start)
    ensures passwordEnd == if usernameEnd < 0 then -1 else IndexByte(input, AT, usernameEnd + 1)
    ensures passwordEnd >= 0 && printable ==> PrintableFrom(input, start, passwordEnd)
    ensures passwordEnd >= 0 && PrintableFrom(input, 0, |input|) ==> printable
  {
    hide LowestByte;
    hide Clear;
    hide UnprintableBytes;
    hide Load64;
    hide Printable;
    var n := |input|;
    usernameEnd := -1;
    var target := COLON;
    var unprintable: bv64 := 0;
    var i := start;
    NothingUnprintable();
    while i < n
      invariant start <= i <= n && (target == COLON || target == AT)
      invariant target == COLON ==> usernameEnd == -1 && forall j :: start <= j < i ==> input[j] != COLON
      invariant target == AT ==> start <= usernameEnd < i && usernameEnd == IndexByte(input, COLON, start)
      invariant target == AT ==> forall j :: usernameEnd < j < i ==> input[j] != AT
      invariant Clear(unprintable) ==> PrintableFrom(input, start, i)
      invariant PrintableFrom(input, 0, n) ==> Clear(unprintable)
    {
      var at := if i < n - 8 then i else n - 8;
      PrintableWindow(input, at);
      var more := UnprintableBytes(Load64(input, at));
      ClearOr(unprintable, more, unprintable | more);
      unprintable := unprintable | more;
      var found := ScanWord(input, at, i, target);
      if found == 0 {
        i := at + 8;
        continue;
      }
      var position := at + LowestByte(found);
      if usernameEnd >= 0 {
        IndexByteIs(input, AT, usernameEnd + 1, position);
        return usernameEnd, position, Clear(unprintable);
      }
      IndexByteIs(input, COLON, start, position);
      usernameEnd, target, i := position, AT, position + 1;
    }
    if usernameEnd < 0 {
      IndexByteNone(input, COLON, start);
    } else {
      IndexByteNone(input, AT, usernameEnd + 1);
    }
    return usernameEnd, -1, false;
  }

  lemma NothingUnprintable()
    ensures Clear(0)
  {
  }

  // ----- the strict formats -----

  /** The length of a canonical scheme with its separator behind it, by comparing the first word; 0 if there is none. */
  function SchemeLength(input: seq<byte>): nat
    requires |input| >= 10
  {
    var w := Load64(input, 0);
    if w & 0xffffffffffffff == 0x2f2f3a70747468 then 4
    else if w == 0x2f2f3a7370747468 then 5
    else if (w == 0x2f3a34736b636f73 || w == 0x2f3a35736b636f73) && input[8] == 0x2f then 6
    else if (w == 0x3a6134736b636f73 || w == 0x3a6835736b636f73) && input[8] == 0x2f && input[9] == 0x2f then 7
    else 0
  }

  lemma SchemeWords(b0: byte, b1: byte, b2: byte, b3: byte, b4: byte, b5: byte, b6: byte, b7: byte, w: bv64)
    requires w == Pack(b0, b1, b2, b3, b4, b5, b6, b7)
    ensures w & 0xffffffffffffff == 0x2f2f3a70747468 ==>
      b0 == 0x68 && b1 == 0x74 && b2 == 0x74 && b3 == 0x70 && b4 == 0x3a && b5 == 0x2f && b6 == 0x2f
    ensures w == 0x2f2f3a7370747468 ==>
      b0 == 0x68 && b1 == 0x74 && b2 == 0x74 && b3 == 0x70 && b4 == 0x73 && b5 == 0x3a && b6 == 0x2f && b7 == 0x2f
    ensures w == 0x2f3a34736b636f73 ==>
      b0 == 0x73 && b1 == 0x6f && b2 == 0x63 && b3 == 0x6b && b4 == 0x73 && b5 == 0x34 && b6 == 0x3a && b7 == 0x2f
    ensures w == 0x2f3a35736b636f73 ==>
      b0 == 0x73 && b1 == 0x6f && b2 == 0x63 && b3 == 0x6b && b4 == 0x73 && b5 == 0x35 && b6 == 0x3a && b7 == 0x2f
    ensures w == 0x3a6134736b636f73 ==>
      b0 == 0x73 && b1 == 0x6f && b2 == 0x63 && b3 == 0x6b && b4 == 0x73 && b5 == 0x34 && b6 == 0x61 && b7 == 0x3a
    ensures w == 0x3a6835736b636f73 ==>
      b0 == 0x73 && b1 == 0x6f && b2 == 0x63 && b3 == 0x6b && b4 == 0x73 && b5 == 0x35 && b6 == 0x68 && b7 == 0x3a
  {
  }

  /** The scheme and its separator, spelled out. */
  lemma SchemeSpelled(input: seq<byte>)
    requires |input| >= 10 && SchemeLength(input) > 0
    ensures var n := SchemeLength(input);
      && (n == 4 || n == 5 || n == 6 || n == 7) && input[n] == COLON && input[n + 1] == 0x2f && input[n + 2] == 0x2f
      && (n == 4 ==> input[..n] == HTTP) && (n == 5 ==> input[..n] == HTTPS)
      && (n == 6 ==> input[..n] == SOCKS4 || input[..n] == SOCKS5)
      && (n == 7 ==> input[..n] == SOCKS4A || input[..n] == SOCKS5H)
  {
    SchemeWords(input[0], input[1], input[2], input[3], input[4], input[5], input[6], input[7], Load64(input, 0));
    hide Load64;
    hide Pack;
  }

  /** The words of the canonical schemes, from their bytes. */
  lemma HttpWord(b: byte)
    ensures Pack(0x68, 0x74, 0x74, 0x70, 0x3a, 0x2f, 0x2f, b) & 0xffffffffffffff == 0x2f2f3a70747468
  {
  }

  lemma SchemeConstants()
    ensures Pack(0x68, 0x74, 0x74, 0x70, 0x73, 0x3a, 0x2f, 0x2f) == 0x2f2f3a7370747468
    ensures Pack(0x73, 0x6f, 0x63, 0x6b, 0x73, 0x34, 0x3a, 0x2f) == 0x2f3a34736b636f73
    ensures Pack(0x73, 0x6f, 0x63, 0x6b, 0x73, 0x35, 0x3a, 0x2f) == 0x2f3a35736b636f73
    ensures Pack(0x73, 0x6f, 0x63, 0x6b, 0x73, 0x34, 0x61, 0x3a) == 0x3a6134736b636f73
    ensures Pack(0x73, 0x6f, 0x63, 0x6b, 0x73, 0x35, 0x68, 0x3a) == 0x3a6835736b636f73
  {
  }

  /** Every canonical scheme is recognised. */
  lemma SchemeRecognized(input: seq<byte>, scheme: seq<byte>)
    requires |input| >= 10 && IsScheme(scheme) && scheme + SEPARATOR <= input
    ensures SchemeLength(input) == |scheme|
  {
    var text := scheme + SEPARATOR;
    assert forall i :: 0 <= i < |text| ==> input[i] == text[i];
    HttpWord(input[7]);
    SchemeConstants();
    hide Pack;
    if scheme == HTTP {
      assert text == [0x68, 0x74, 0x74, 0x70, 0x3a, 0x2f, 0x2f];
    } else if scheme == HTTPS {
      assert text == [0x68, 0x74, 0x74, 0x70, 0x73, 0x3a, 0x2f, 0x2f];
    } else if scheme == SOCKS4 || scheme == SOCKS5 {
      assert text == [0x73, 0x6f, 0x63, 0x6b, 0x73, scheme[5], 0x3a, 0x2f, 0x2f];
    } else {
      assert text == [0x73, 0x6f, 0x63, 0x6b, 0x73, scheme[5], scheme[6], 0x3a, 0x2f, 0x2f];
    }
  }

  lemma SchemeHasNoColon(scheme: seq<byte>)
    requires IsScheme(scheme)
    ensures COLON !in scheme && |scheme| <= 7
  {
  }

  lemma SchemeFound(input: seq<byte>)
    requires |input| >= 10 && SchemeLength(input) > 0
    ensures var n := SchemeLength(input);
      && n + 3 <= |input| && IsScheme(input[..n]) && SchemeOf(input[..n]) == input[..n]
        && Find(input, SEPARATOR, 0) == n
  {
    var n := SchemeLength(input);
    SchemeSpelled(input);
    hide SchemeLength;
    CanonicalIsLower(input[..n]);
    SchemeHasNoColon(input[..n]);
    hide IsScheme;
    forall i: nat | 0 <= i < n
      ensures !Matches(input, SEPARATOR, i)
    {
      SeparatorAt(input, i);
      assert input[..n][i] == input[i];
    }
    SeparatorAt(input, n);
    FindIs(input, SEPARATOR, 0, n);
  }

  predicate IsCredentialPair(scheme: seq<byte>, username: seq<byte>, password: seq<byte>) {
    if |username| > MAX_CREDENTIAL || |password| > MAX_CREDENTIAL then false
    else if password == [] then true
    else username != [] && scheme != SOCKS4 && scheme != SOCKS4A
  }

  /** A canonical scheme, a good endpoint and good credentials make the strict parsers accept. */
  lemma FastIsChecked(p: Proxy, v6: Ipv6)
    requires IsScheme(p.scheme) && FastEndpoint(p.host) && CredentialsOk(p.scheme, p.username, p.password)
    ensures Checked(p, v6) == Parsed(p) && ProxyVerdict(p, v6) == Accepted
  {
    FastIsAccepted(p.host, v6);
  }

  lemma EmptyCredentials(scheme: seq<byte>)
    ensures CredentialsOk(scheme, [], [])
  {
  }

  lemma NoEndpoint()
    ensures !FastEndpoint([])
  {
  }

  ghost predicate EndpointFrom(input: seq<byte>, start: nat) {
    start <= |input| && FastEndpoint(input[start..])
  }

  /** Without credentials: whole-input answers, or none. */
  method HostPortFast(input: seq<byte>, ghost v6: Ipv6) returns (handled: bool, outcome: Outcome)
    requires |input| >= 10 && SchemeLength(input) > 0
    ensures handled <==> EndpointFrom(input, SchemeLength(input) + 3)
    ensures handled ==> outcome == HostPortOutcome(input, v6)
  {
    hide FastEndpoint;
    hide CredentialsOk;
    hide IsScheme;
    hide SchemeLength;
    hide Checked;
    hide SchemeOf;
    var n := SchemeLength(input);
    SchemeFound(input);
    NoEndpoint();
    assert n + 3 == |input| ==> input[n + 3..] == [];
    var ok := IsHostPort(Index(0, 0, 0, 0, 0, 0), false, input, n + 3, input);
    outcome := Parsed(Proxy(input[..n], input[n + 3..], [], []));
    if ok {
      EmptyCredentials(input[..n]);
      FastIsChecked(outcome.proxy, v6);
    }
    handled := ok;
  }

  lemma PrintablePart(s: seq<byte>, lo: nat, hi: nat)
    requires lo <= hi <= |s|
    ensures PrintableFrom(s, 0, |s|) ==> PrintableFrom(s, lo, hi)
  {
  }

  /** The two delimiters of the credentials: on the index if there is one, on words otherwise. */
  method FindDelimiters(ix: Index, indexed: bool, input: seq<byte>, start: nat) returns (usernameEnd: int,
                        passwordEnd: int, printable: bool)
    requires indexed ==> ix.Describes(input)
    requires 8 <= |input| && start <= |input|
    ensures usernameEnd == IndexByte(input, COLON, start)
    ensures passwordEnd == if usernameEnd < 0 then -1 else IndexByte(input, AT, usernameEnd + 1)
    ensures passwordEnd >= 0 && printable ==> PrintableFrom(input, start, passwordEnd)
    ensures passwordEnd >= 0 && PrintableFrom(input, 0, |input|) ==> printable
  {
    if !indexed {
      usernameEnd, passwordEnd, printable := ScanCredentials(input, start);
      return;
    }
    hide And;
    hide Range;
    hide TrailingZeros;
    hide PrintableFrom;
    var colon := IndexByteFrom(ix, true, input, start, COLON, Colon, true);
    usernameEnd, passwordEnd := if colon < 0 then -1 else start + colon, -1;
    if usernameEnd >= 0 {
      var at := IndexByteFrom(ix, true, input, usernameEnd + 1, AT, At, true);
      passwordEnd := if at < 0 then -1 else usernameEnd + 1 + at;
    }
    printable := false;
    if passwordEnd >= 0 {
      PrintableRange(ix, input, start, passwordEnd);
      PrintablePart(input, start, passwordEnd);
      printable := And(ix.Bitmap(Unprintable), Range(start, passwordEnd)) == 0;
    }
  }

  /** No colon from a position on, or no at sign after the first. */
  predicate DelimiterLacks(input: seq<byte>, start: nat) {
    start <= |input| &&
    var colon := IndexByte(input, COLON, start);
    colon < 0 || IndexByte(input, AT, colon + 1) < 0
  }

  /** Behind a scheme of `n` bytes: a credential pair the scheme takes, and a fast endpoint. */
  ghost predicate CredentialsFit(input: seq<byte>, n: nat) {
    n + 3 <= |input| && !DelimiterLacks(input, n + 3) &&
    var colon := IndexByte(input, COLON, n + 3);
    var at := IndexByte(input, AT, colon + 1);
    IsCredentialPair(input[..n], input[n + 3..colon], input[colon + 1..at]) && FastEndpoint(input[at + 1..])
  }

  /** With credentials: a missing delimiter is answered at once. */
  method CredentialsFast(input: seq<byte>, ghost v6: Ipv6) returns (handled: bool, outcome: Outcome)
    requires |input| >= 10 && SchemeLength(input) > 0
    ensures handled ==> outcome == CredentialsOutcome(input, v6)
    ensures handled ==> DelimiterLacks(input, SchemeLength(input) + 3) || CredentialsFit(input, SchemeLength(input))
    ensures DelimiterLacks(input, SchemeLength(input) + 3) ==> handled
    ensures PrintableFrom(input, 0, |input|) && CredentialsFit(input, SchemeLength(input)) ==> handled
  {
    hide FastEndpoint;
    hide CredentialsOk;
    hide IsScheme;
    hide SchemeLength;
    hide Checked;
    hide SchemeOf;
    hide PrintableFrom;
    hide IsCredentialPair;
    hide Find;
    hide IndexByte;
    var n := SchemeLength(input);
    SchemeFound(input);
    var ix, indexed := Build(input);
    var usernameEnd, passwordEnd, printable := FindDelimiters(ix, indexed, input, n + 3);
    if passwordEnd < 0 {
      return true, Failed(NO_PROXY, NotFound(if usernameEnd < 0 then [COLON] else [AT]));
    }
    handled, outcome := CredentialsAt(ix, indexed, input, n, usernameEnd, passwordEnd, printable, v6);
  }

  /** Both delimiters are known. */
  method CredentialsAt(ix: Index, indexed: bool, input: seq<byte>, n: nat, usernameEnd: nat, passwordEnd: nat,
                       printable: bool, ghost v6: Ipv6)
    returns (handled: bool, outcome: Outcome)
    requires indexed ==> ix.Describes(input)
    requires n + 3 <= |input| && IsScheme(input[..n]) && SchemeOf(input[..n]) == input[..n]
      && Find(input, SEPARATOR, 0) == n
    requires usernameEnd == IndexByte(input, COLON, n + 3) && passwordEnd == IndexByte(input, AT, usernameEnd + 1)
    requires printable ==> PrintableFrom(input, n + 3, passwordEnd)
    ensures handled ==> outcome == CredentialsOutcome(input, v6)
    ensures handled <==> printable && CredentialsFit(input, n)
  {
    hide Index.Describes;
    hide FastEndpoint;
    hide IsScheme;
    hide SchemeOf;
    hide PrintableFrom;
    hide IsCredentialPair;
    hide CredentialsOutcome;
    hide Find;
    hide IndexByte;
    var scheme, username, password := input[..n], input[n + 3..usernameEnd], input[usernameEnd + 1..passwordEnd];
    outcome := Parsed(Proxy(scheme, input[passwordEnd + 1..], username, password));
    if !printable || !IsCredentialPair(scheme, username, password) {
      return false, outcome;
    }
    NoEndpoint();
    assert passwordEnd + 1 == |input| ==> input[passwordEnd + 1..] == [];
    handled := IsHostPort(ix, indexed, input, passwordEnd + 1, input);
    if handled {
      CredentialsAccepted(input, n, usernameEnd, passwordEnd, v6);
    }
  }

  lemma CredentialsAccepted(input: seq<byte>, n: nat, usernameEnd: nat, passwordEnd: nat, v6: Ipv6)
    requires n + 3 <= |input| && IsScheme(input[..n]) && SchemeOf(input[..n]) == input[..n]
      && Find(input, SEPARATOR, 0) == n
    requires usernameEnd == IndexByte(input, COLON, n + 3) && passwordEnd == IndexByte(input, AT, usernameEnd + 1)
    requires PrintableFrom(input, n + 3, passwordEnd) && FastEndpoint(input[passwordEnd + 1..])
    requires IsCredentialPair(input[..n], input[n + 3..usernameEnd], input[usernameEnd + 1..passwordEnd])
    ensures CredentialsOutcome(input, v6)
         == Parsed(Proxy(input[..n], input[passwordEnd + 1..], input[n + 3..usernameEnd],
           input[usernameEnd + 1..passwordEnd]))
  {
    hide FastEndpoint;
    hide CredentialsOk;
    hide IsScheme;
    hide Checked;
    hide SchemeOf;
    hide PrintableFrom;
    hide IsCredentialPair;
    hide CredentialsOutcome;
    hide Find;
    hide IndexByte;
    CredentialsChecked(input, n, usernameEnd, passwordEnd, v6);
    PairIsOk(input, n + 3, usernameEnd, passwordEnd, input[..n]);
    FastIsChecked(Proxy(input[..n], input[passwordEnd + 1..], input[n + 3..usernameEnd],
      input[usernameEnd + 1..passwordEnd]), v6);
  }

  /** The scalar parser finds the same delimiters. */
  lemma CredentialsChecked(input: seq<byte>, n: nat, usernameEnd: nat, passwordEnd: nat, v6: Ipv6)
    requires n + 3 <= |input| && SchemeOf(input[..n]) == input[..n] && Find(input, SEPARATOR, 0) == n
    requires usernameEnd == IndexByte(input, COLON, n + 3) && passwordEnd == IndexByte(input, AT, usernameEnd + 1)
    ensures CredentialsOutcome(input, v6)
         == Checked(Proxy(input[..n], input[passwordEnd + 1..], input[n + 3..usernameEnd],
           input[usernameEnd + 1..passwordEnd]), v6)
  {
    hide Checked;
    hide SchemeOf;
    hide Find;
    hide IndexByte;
  }

  lemma PairIsOk(input: seq<byte>, start: nat, usernameEnd: nat, passwordEnd: nat, scheme: seq<byte>)
    requires start <= usernameEnd < passwordEnd <= |input| && usernameEnd == IndexByte(input, COLON, start)
    requires PrintableFrom(input, start, passwordEnd)
    requires IsCredentialPair(scheme, input[start..usernameEnd], input[usernameEnd + 1..passwordEnd])
    ensures CredentialsOk(scheme, input[start..usernameEnd], input[usernameEnd + 1..passwordEnd])
  {
    var username, password := input[start..usernameEnd], input[usernameEnd + 1..passwordEnd];
    assert forall i :: 0 <= i < |username| ==> username[i] == input[start + i];
    assert forall i :: 0 <= i < |password| ==> password[i] == input[usernameEnd + 1 + i];
  }

  /**
   `parseStrictFast`: handled inputs get the outcome of the scalar parser. Without credentials, handled are exactly
   the inputs of a canonical scheme and a fast endpoint; with credentials, those that lack a delimiter or have a
   credential pair and a fast endpoint too. An unprintable byte can only take inputs of the last kind out.
   */
  method ParseStrictFast(input: seq<byte>, credentials: bool, ghost v6: Ipv6) returns (handled: bool, outcome: Outcome)
    ensures handled ==> outcome == if credentials then CredentialsOutcome(input, v6) else HostPortOutcome(input, v6)
    ensures !credentials ==>
      (handled <==> |input| >= 10 && SchemeLength(input) > 0 && EndpointFrom(input, SchemeLength(input) + 3))
    ensures credentials && handled ==>
      |input| >= 10 && SchemeLength(input) > 0
      && (DelimiterLacks(input, SchemeLength(input) + 3) || CredentialsFit(input, SchemeLength(input)))
    ensures credentials && |input| >= 10 && SchemeLength(input) > 0 ==>
      DelimiterLacks(input, SchemeLength(input) + 3) ==> handled
    ensures credentials && |input| >= 10 && SchemeLength(input) > 0 ==>
      CredentialsFit(input, SchemeLength(input)) && PrintableFrom(input, 0, |input|) ==> handled
  {
    hide HostPortOutcome;
    hide CredentialsOutcome;
    hide SchemeLength;
    hide DelimiterLacks;
    hide CredentialsFit;
    hide PrintableFrom;
    if |input| < 10 || SchemeLength(input) == 0 {
      return false, Failed(NO_PROXY, SchemeNotParsed);
    }
    if credentials {
      handled, outcome := CredentialsFast(input, v6);
    } else {
      handled, outcome := HostPortFast(input, v6);
    }
  }

  // ----- validating what a generic plan parsed -----

  /** The credentials part of `isValidFast`. */
  method IsValidPair(scheme: seq<byte>, username: seq<byte>, password: seq<byte>) returns (ok: bool)
    ensures ok <==> CredentialsOk(scheme, username, password)
  {
    if username == [] && password == [] {
      EmptyCredentials(scheme);
      return true;
    }
    if !IsCredentialPair(scheme, username, password) {
      return false;
    }
    if (scheme == HTTP || scheme == HTTPS) && IndexByte(username, COLON, 0) >= 0 {
      return false;
    }
    var userOk := IsPrintable(username);
    if !userOk {
      return false;
    }
    ok := IsPrintable(password);
  }

  /**
   `isValidFast`. `alias` is where the host's bytes lie in the input if the host is part of it, or -1;
   only then can the index of the input serve for the host. The answer does not depend on either.
   */
  method IsValidFast(ix: Index, indexed: bool, input: seq<byte>, p: Proxy, alias: int,
                     ghost v6: Ipv6) returns (ok: bool)
    requires indexed ==> ix.Describes(input)
    requires alias >= 0 ==> alias + |p.host| <= |input| && input[alias..alias + |p.host|] == p.host
    ensures ok <==> IsScheme(p.scheme) && CredentialsOk(p.scheme, p.username, p.password) && FastEndpoint(p.host)
    ensures ok ==> ProxyVerdict(p, v6) == Accepted
  {
    hide FastEndpoint;
    hide CredentialsOk;
    hide IsScheme;
    NoEndpoint();
    if !IsScheme(p.scheme) {
      return false;
    }
    ok := IsValidPair(p.scheme, p.username, p.password);
    if !ok {
      return;
    }
    if indexed && p.host != [] && |p.host| <= |input| && alias >= 0 {
      var text := input[..alias + |p.host|];
      ok := IsHostPort(ix, true, text, alias, input);
      assert text[alias..] == p.host;
    } else {
      ok := IsHostPort(ix, false, p.host, 0, p.host);
      assert p.host[0..] == p.host;
    }
    if ok {
      FastIsChecked(p, v6);
    }
  }
}
