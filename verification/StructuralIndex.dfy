/**
 Byte classes of short text: bitmaps with one bit per byte position, and tests on overlapping
 64-bit words for text without an index.
 */
module StructuralIndex {
  import opened Bitmaps
  import opened Swar
  import opened Text
  import opened Words

  const MAX_HOST_NAME: nat := 63
  const MAX_INDEXED: nat := 64

  // ----- words that cover a text -----

  /** A host name whose labels are not empty and neither begin nor end with a hyphen, of 1 to 63 bytes. */
  ghost predicate LdhName(s: seq<byte>) {
    && 1 <= |s| <= MAX_HOST_NAME && !Edge(s[0]) && !Edge(s[|s| - 1]) && Named(s, 0, |s|)
  }

  /** Host bytes only from `from` to `to`, and no dot beside a dot or a hyphen among them. */
  ghost predicate Named(s: seq<byte>, from: nat, to: nat) {
    && from <= to <= |s|
    && (forall i :: from <= i < to ==> NameByte(s[i]))
    && (forall i :: from <= i < to - 1 ==> !Clash(s[i], s[i + 1]))
  }

  lemma NamedJoin(s: seq<byte>, from: nat, mid: nat, to: nat)
    requires from <= mid < to <= |s|
    ensures Named(s, from, mid + 1) && Named(s, mid, to) <==> Named(s, from, to)
  {
  }

  lemma NamedOverlap(s: seq<byte>, from: nat, lo: nat, hi: nat, to: nat)
    requires from <= lo < hi <= to <= |s|
    ensures Named(s, from, hi) && Named(s, lo, to) <==> Named(s, from, to)
  {
  }

  lemma NameWindow(s: seq<byte>, i: nat, ends: bv64)
    requires i + 8 <= |s| && (ends == 0 || ends == 0x80 || ends == 0x8000000000000000)
    ensures Clear(InvalidNameBytes(Load64(s, i), ends)) <==>
      && Named(s, i, i + 8) && (ends == 0x80 ==> !Edge(s[i])) && (ends == 0x8000000000000000 ==> !Edge(s[i + 7]))
  {
    hide Clear;
    hide InvalidNameBytes;
    hide Clash;
    hide NameByte;
    hide Edge;
    NameWord(s[i], s[i + 1], s[i + 2], s[i + 3], s[i + 4], s[i + 5], s[i + 6], s[i + 7], Load64(s, i), ends);
    hide Pack;
    hide Load64;
  }

  method IsHostName(s: seq<byte>) returns (ok: bool)
    ensures ok <==> LdhName(s)
  {
    var n := |s|;
    if n == 0 || n > MAX_HOST_NAME {
      return false;
    }
    if n <= 8 {
      ok := IsShortHostName(s);
      return;
    }
    hide *;
    FirstWindow(s);
    var invalid := InvalidNameBytes(Load64(s, 0), 0x80);
    var i := 7;
    while i < n - 8
      invariant 7 <= i < n && i <= n - 8 + 6
      invariant Clear(invalid) <==> Named(s, 0, i + 1) && !Edge(s[0])
    {
      InnerWindow(s, i);
      NamedJoin(s, 0, i, i + 8);
      var more := InvalidNameBytes(Load64(s, i), 0);
      ClearOr(invalid, more, invalid | more);
      invalid := invalid | more;
      i := i + 7;
    }
    LastWindow(s);
    NamedOverlap(s, 0, n - 8, i + 1, n);
    var last := InvalidNameBytes(Load64(s, n - 8), 0x8000000000000000);
    ClearOr(invalid, last, invalid | last);
    NameWhole(s);
    return Clear(invalid | last);
  }

  lemma NameWhole(s: seq<byte>)
    requires 8 < |s| <= MAX_HOST_NAME
    ensures LdhName(s) <==> Named(s, 0, |s|) && !Edge(s[0]) && !Edge(s[|s| - 1])
  {
  }

  lemma FirstWindow(s: seq<byte>)
    requires 8 <= |s|
    ensures Clear(InvalidNameBytes(Load64(s, 0), 0x80)) <==> Named(s, 0, 8) && !Edge(s[0])
  {
    NameWindow(s, 0, 0x80);
  }

  lemma InnerWindow(s: seq<byte>, i: nat)
    requires i + 8 <= |s|
    ensures Clear(InvalidNameBytes(Load64(s, i), 0)) <==> Named(s, i, i + 8)
  {
    NameWindow(s, i, 0);
  }

  lemma LastWindow(s: seq<byte>)
    requires 8 <= |s|
    ensures Clear(InvalidNameBytes(Load64(s, |s| - 8), 0x8000000000000000)) <==>
      Named(s, |s| - 8, |s|) && !Edge(s[|s| - 1])
  {
    NameWindow(s, |s| - 8, 0x8000000000000000);
  }

  /** `w << (8 * k)`. */
  function Left(w: bv64, k: nat): bv64
    requires k < 8
  {
    if k == 0 then w else if k == 1 then w << 8 else if k == 2 then w << 16 else if k == 3 then w << 24
    else if k == 4 then w << 32 else if k == 5 then w << 40 else if k == 6 then w << 48 else w << 56
  }

  /** Up to eight bytes in a word, padded with the letter `a`. */
  function LoadPadded(s: seq<byte>): bv64
    requires |s| <= 8
  {
    var n := |s|;
    var pad := if n == 8 then 0 else Left(0x6161616161616161, n);
    if n >= 4 then Load32(s, 0) | Left(Load32(s, n - 4), n - 4) | pad
    else if n == 0 then pad
    else (s[0] as bv64) | Left(s[n / 2] as bv64, n / 2) | Left(s[n - 1] as bv64, n - 1) | pad
  }

  function Padded(s: seq<byte>, k: nat): byte {
    if k < |s| then s[k] else 0x61
  }

  lemma Pad0(s: seq<byte>)
    requires |s| == 0
    ensures LoadPadded(s) == Load64(PaddedText(s), 0)
  {
  }

  lemma Pad1(s: seq<byte>)
    requires |s| == 1
    ensures LoadPadded(s) == Load64(PaddedText(s), 0)
  {
  }

  lemma Pad2(s: seq<byte>)
    requires |s| == 2
    ensures LoadPadded(s) == Load64(PaddedText(s), 0)
  {
  }

  lemma Pad3(s: seq<byte>)
    requires |s| == 3
    ensures LoadPadded(s) == Load64(PaddedText(s), 0)
  {
  }

  lemma Pad4(s: seq<byte>)
    requires |s| == 4
    ensures LoadPadded(s) == Load64(PaddedText(s), 0)
  {
  }

  lemma Pad5(s: seq<byte>)
    requires |s| == 5
    ensures LoadPadded(s) == Load64(PaddedText(s), 0)
  {
  }

  lemma Pad6(s: seq<byte>)
    requires |s| == 6
    ensures LoadPadded(s) == Load64(PaddedText(s), 0)
  {
  }

  lemma Pad7(s: seq<byte>)
    requires |s| == 7
    ensures LoadPadded(s) == Load64(PaddedText(s), 0)
  {
  }

  lemma Pad8(s: seq<byte>)
    requires |s| == 8
    ensures LoadPadded(s) == Load64(PaddedText(s), 0)
  {
  }

  lemma PaddedWord(s: seq<byte>)
    requires |s| <= 8
    ensures LoadPadded(s) == Load64(PaddedText(s), 0)
  {
    hide *;
    match |s|
    case 0 => Pad0(s);
    case 1 => Pad1(s);
    case 2 => Pad2(s);
    case 3 => Pad3(s);
    case 4 => Pad4(s);
    case 5 => Pad5(s);
    case 6 => Pad6(s);
    case 7 => Pad7(s);
    case 8 => Pad8(s);
  }

  ghost function PaddedText(s: seq<byte>): (t: seq<byte>)
    requires |s| <= 8
    ensures |t| == 8 && forall k :: 0 <= k < 8 ==> t[k] == Padded(s, k)
  {
    seq(8, k requires 0 <= k < 8 => Padded(s, k))
  }

  lemma EndLanes(n: nat, ends: bv64)
    requires 1 <= n <= 8 && ends == 0x80 | Left(0x80, n - 1)
    ensures ends & 0x80 != 0
    ensures ends & 0x8000 != 0 <==> n == 2
    ensures ends & 0x800000 != 0 <==> n == 3
    ensures ends & 0x80000000 != 0 <==> n == 4
    ensures ends & 0x8000000000 != 0 <==> n == 5
    ensures ends & 0x800000000000 != 0 <==> n == 6
    ensures ends & 0x80000000000000 != 0 <==> n == 7
    ensures ends & 0x8000000000000000 != 0 <==> n == 8
  {
  }

  lemma ShortName(s: seq<byte>, ends: bv64)
    requires 1 <= |s| <= 8 && ends == 0x80 | Left(0x80, |s| - 1)
    ensures Clear(InvalidNameBytes(LoadPadded(s), ends)) <==> LdhName(s)
  {
    hide Clear;
    hide InvalidNameBytes;
    hide LoadPadded;
    hide Load64;
    hide Pack;
    var t := PaddedText(s);
    PaddedWord(s);
    EndLanes(|s|, ends);
    PaddedName(s);
    TextName(t, ends);
  }

  /** Letters after a name change nothing. */
  lemma PaddedName(s: seq<byte>)
    requires 1 <= |s| <= 8
    ensures Named(PaddedText(s), 0, 8) <==> Named(s, 0, |s|)
  {
    var t := PaddedText(s);
    assert !Edge(0x61) && NameByte(0x61);
    if Named(t, 0, 8) {
      assert forall i :: 0 <= i < |s| ==> s[i] == t[i];
    }
  }

  lemma TextName(t: seq<byte>, ends: bv64)
    requires |t| == 8
    ensures Clear(InvalidNameBytes(Load64(t, 0), ends)) <==>
      && Named(t, 0, 8)
      && (ends & 0x80 != 0 ==> !Edge(t[0])) && (ends & 0x8000 != 0 ==> !Edge(t[1]))
      && (ends & 0x800000 != 0 ==> !Edge(t[2])) && (ends & 0x80000000 != 0 ==> !Edge(t[3]))
      && (ends & 0x8000000000 != 0 ==> !Edge(t[4])) && (ends & 0x800000000000 != 0 ==> !Edge(t[5]))
      && (ends & 0x80000000000000 != 0 ==> !Edge(t[6])) && (ends & 0x8000000000000000 != 0 ==> !Edge(t[7]))
  {
    hide Clear;
    hide InvalidNameBytes;
    hide Clash;
    hide NameByte;
    hide Edge;
    NameWord(t[0], t[1], t[2], t[3], t[4], t[5], t[6], t[7], Load64(t, 0), ends);
    hide Load64;
    hide Pack;
  }

  method IsShortHostName(s: seq<byte>) returns (ok: bool)
    requires 1 <= |s| <= 8
    ensures ok <==> LdhName(s)
  {
    ShortName(s, 0x80 | Left(0x80, |s| - 1));
    return Clear(InvalidNameBytes(LoadPadded(s), 0x80 | Left(0x80, |s| - 1)));
  }

  // ----- printable text -----

  ghost predicate PrintableFrom(s: seq<byte>, from: nat, to: nat) {
    from <= to <= |s| && forall i :: from <= i < to ==> Printable(s[i])
  }

  lemma PrintableWindow(s: seq<byte>, i: nat)
    requires i + 8 <= |s|
    ensures Clear(UnprintableBytes(Load64(s, i))) <==> PrintableFrom(s, i, i + 8)
  {
    hide Clear;
    hide UnprintableBytes;
    hide Printable;
    if Clear(UnprintableBytes(Load64(s, i))) {
      UnprintableWord(s[i], s[i + 1], s[i + 2], s[i + 3], s[i + 4], s[i + 5], s[i + 6], s[i + 7]);
    } else if PrintableFrom(s, i, i + 8) {
      PrintableWord(s[i], s[i + 1], s[i + 2], s[i + 3], s[i + 4], s[i + 5], s[i + 6], s[i + 7]);
    }
  }

  lemma PrintableShort(s: seq<byte>)
    requires |s| <= 8
    ensures Clear(UnprintableBytes(LoadPadded(s))) <==> PrintableFrom(s, 0, |s|)
  {
    hide Clear;
    hide UnprintableBytes;
    hide LoadPadded;
    hide Load64;
    var t := PaddedText(s);
    PaddedWord(s);
    PrintableWindow(t, 0);
    assert Printable(0x61);
    if PrintableFrom(t, 0, 8) {
      assert forall i :: 0 <= i < |s| ==> s[i] == t[i];
    }
  }

  lemma PrintableJoin(s: seq<byte>, lo: nat, mid: nat, hi: nat, to: nat)
    requires lo <= hi && mid <= hi <= to <= |s| && lo <= mid
    ensures PrintableFrom(s, lo, hi) && PrintableFrom(s, mid, to) <==> PrintableFrom(s, lo, to)
  {
  }

  /** Every byte is printable ASCII, for text of any length. */
  method IsPrintable(s: seq<byte>) returns (ok: bool)
    ensures ok <==> forall i :: 0 <= i < |s| ==> Printable(s[i])
  {
    var n := |s|;
    if n < 8 {
      PrintableShort(s);
      return Clear(UnprintableBytes(LoadPadded(s)));
    }
    hide Clear;
    hide UnprintableBytes;
    hide Load64;
    hide Printable;
    PrintableWindow(s, n - 8);
    var unprintable := UnprintableBytes(Load64(s, n - 8));
    var i := 0;
    while i < n - 8
      invariant 0 <= i < n
      invariant Clear(unprintable) <==> PrintableFrom(s, n - 8, n) && PrintableFrom(s, 0, i)
    {
      PrintableWindow(s, i);
      PrintableJoin(s, 0, i, i, i + 8);
      var more := UnprintableBytes(Load64(s, i));
      ClearOr(unprintable, more, unprintable | more);
      unprintable := unprintable | more;
      i := i + 8;
    }
    PrintableJoin(s, 0, n - 8, i, n);
    return Clear(unprintable);
  }

  // ----- the index -----

  datatype Class = Colon | At | Dot | Hyphen | Alnum | Unprintable

  predicate InClass(c: Class, b: byte) {
    match c
    case Colon => b == 0x3a
    case At => b == 0x40
    case Dot => b == DOT
    case Hyphen => b == HYPHEN
    case Alnum => Letter(b) || Digit(b)
    case Unprintable => !Printable(b)
  }

  /** One bitmap per class. */
  datatype Index = Index(colon: nat, at: nat, dot: nat, hyphen: nat, alnum: nat, unprintable: nat) {
    function Bitmap(c: Class): nat {
      match c
      case Colon => colon
      case At => at
      case Dot => dot
      case Hyphen => hyphen
      case Alnum => alnum
      case Unprintable => unprintable
    }

    /** The documented meaning: bit i of a class says whether byte i of the text belongs to it. */
    ghost predicate Describes(text: seq<byte>) {
      && |text| <= MAX_INDEXED
      && forall c: Class, i: nat {:trigger Bit(Bitmap(c), i)} :: Bit(Bitmap(c), i) <==> i < |text| && InClass(c, text[i])
    }

    /** The first position of a class at or after a position, or -1. */
    function Next(c: Class, from: nat): int {
      var remaining := AndNot(Bitmap(c), LowMask(from));
      if remaining == 0 then -1 else TrailingZeros(remaining)
    }

    lemma BitIs(text: seq<byte>, c: Class, i: nat)
      requires Describes(text)
      ensures Bit(Bitmap(c), i) <==> i < |text| && InClass(c, text[i])
    {
    }

    lemma NextIs(text: seq<byte>, c: Class, from: nat)
      requires Describes(text) && from <= |text|
      ensures var r := Next(c, from);
        && (r == -1 || (from <= r < |text| && InClass(c, text[r])))
        && forall i :: from <= i < (if r == -1 then |text| else r) ==> !InClass(c, text[i])
    {
      var bitmap := Bitmap(c);
      var remaining := AndNot(bitmap, LowMask(from));
      forall i: nat
        ensures Bit(remaining, i) <==> from <= i < |text| && InClass(c, text[i])
      {
        AndNotBit(bitmap, LowMask(from), i);
        LowMaskBit(from, i);
      }
      NonZero(remaining);
      if remaining != 0 {
        FirstBit(remaining);
      }
    }
  }

  /** `1<<n - 1`. */
  function LowMask(n: nat): nat {
    if n == 0 then 0 else 1 + 2 * LowMask(n - 1)
  }

  lemma {:induction false} LowMaskBit(n: nat, i: nat)
    ensures Bit(LowMask(n), i) <==> i < n
  {
    if n == 0 {
      ZeroBits(i);
    } else if i > 0 {
      LowMaskBit(n - 1, i - 1);
    }
  }

  function Range(start: nat, end: nat): nat {
    AndNot(LowMask(end), LowMask(start))
  }

  lemma RangeBit(start: nat, end: nat, i: nat)
    ensures Bit(Range(start, end), i) <==> start <= i < end
  {
    AndNotBit(LowMask(end), LowMask(start), i);
    LowMaskBit(end, i);
    LowMaskBit(start, i);
  }

  function BitmapOf(c: Class, text: seq<byte>): nat {
    if text == [] then 0 else (if InClass(c, text[0]) then 1 else 0) + 2 * BitmapOf(c, text[1..])
  }

  lemma {:induction false} BitmapOfBit(c: Class, text: seq<byte>, i: nat)
    ensures Bit(BitmapOf(c, text), i) <==> i < |text| && InClass(c, text[i])
  {
    if text == [] {
      ZeroBits(i);
    } else if i > 0 {
      BitmapOfBit(c, text[1..], i - 1);
    }
  }

  /** Fills an index if the platform has a kernel and the text is short enough. */
  method Build(text: seq<byte>) returns (ix: Index, indexed: bool)
    ensures indexed ==> ix.Describes(text)
  {
    var supported: bool := *;
    if !supported || |text| > MAX_INDEXED {
      return Index(0, 0, 0, 0, 0, 0), false;
    }
    ix := Index(BitmapOf(Colon, text), BitmapOf(At, text), BitmapOf(Dot, text), BitmapOf(Hyphen, text),
                BitmapOf(Alnum, text), BitmapOf(Unprintable, text));
    forall c: Class, i: nat
      ensures Bit(ix.Bitmap(c), i) <==> i < |text| && InClass(c, text[i])
    {
      BitmapOfBit(c, text, i);
    }
    indexed := true;
  }

  // ----- ranges of an index -----

  /** No byte of a range is unprintable. */
  lemma PrintableRange(ix: Index, text: seq<byte>, start: nat, end: nat)
    requires ix.Describes(text) && start <= end <= |text|
    ensures And(ix.Bitmap(Unprintable), Range(start, end)) == 0 <==> PrintableFrom(text, start, end)
  {
    var both := And(ix.unprintable, Range(start, end));
    forall i: nat
      ensures Bit(both, i) <==> start <= i < end && !Printable(text[i])
    {
      AndBit(ix.unprintable, Range(start, end), i);
      RangeBit(start, end, i);
      ix.BitIs(text, Unprintable, i);
    }
    NonZero(both);
  }

  function HostDots(ix: Index, host: nat): nat {
    And(ix.dot, host)
  }

  function HostEdges(ix: Index, host: nat): nat {
    Or(HostDots(ix, host), And(ix.hyphen, host))
  }

  function HostNames(ix: Index, host: nat): nat {
    Or(HostEdges(ix, host), And(ix.alnum, host))
  }

  /** The positions where neither a dot nor a hyphen may be. */
  function Barred(dots: nat, start: nat, end: nat): nat
    requires start < end
  {
    Or(Or(Or(Shl(dots, 1), Shr(dots, 1)), Shl(1, start)), Shl(1, end - 1))
  }

  /** The name test on bitmaps. */
  predicate NameInRange(ix: Index, start: nat, end: nat)
    requires start < end
  {
    var host := Range(start, end);
    HostNames(ix, host) == host && And(HostEdges(ix, host), Barred(HostDots(ix, host), start, end)) == 0
  }

  lemma ClassBits(ix: Index, text: seq<byte>, start: nat, end: nat, i: nat)
    requires ix.Describes(text) && start < end <= |text|
    ensures var host := Range(start, end);
      && (Bit(HostDots(ix, host), i) <==> start <= i < end && text[i] == DOT)
      && (Bit(HostEdges(ix, host), i) <==> start <= i < end && Edge(text[i]))
      && (Bit(HostNames(ix, host), i) <==> start <= i < end && NameByte(text[i]))
  {
    var host := Range(start, end);
    hide Range;
    hide Bit;
    RangeBit(start, end, i);
    AndBit(ix.dot, host, i);
    AndBit(ix.hyphen, host, i);
    AndBit(ix.alnum, host, i);
    OrBit(And(ix.dot, host), And(ix.hyphen, host), i);
    OrBit(HostEdges(ix, host), And(ix.alnum, host), i);
    ix.BitIs(text, Dot, i);
    ix.BitIs(text, Hyphen, i);
    ix.BitIs(text, Alnum, i);
  }

  lemma {:induction false} LowMaskBound(n: nat)
    ensures LowMask(n) == Pow2(n) - 1
  {
    if n > 0 {
      LowMaskBound(n - 1);
    }
  }

  lemma {:induction false} Pow2Grows(a: nat, b: nat)
    requires a <= b
    ensures Pow2(a) <= Pow2(b)
  {
    if a < b {
      Pow2Grows(a, b - 1);
    }
  }

  lemma DotsFit(ix: Index, start: nat, end: nat)
    requires end <= 64
    ensures HostDots(ix, Range(start, end)) < WORD
  {
    LowMaskBound(end);
    Pow2Grows(end, 64);
    Pow64();
  }

  lemma OneBit(n: nat, i: nat)
    requires n < 64
    ensures Bit(Shl(1, n), i) <==> i == n
  {
    ShlBit(1, n, i);
    if i > n {
      ZeroBits(i - n - 1);
      assert Bit(1, i - n) == Bit(0, i - n - 1);
    }
  }

  lemma BarredBit(dots: nat, start: nat, end: nat, i: nat)
    requires dots < WORD && start < end <= 64 && i < 64
    ensures Bit(Barred(dots, start, end), i) <==>
      (i > 0 && Bit(dots, i - 1)) || Bit(dots, i + 1) || i == start || i == end - 1
  {
    hide Bit;
    hide Shl;
    hide Shr;
    hide Or;
    ShlBit(dots, 1, i);
    ShrBit(dots, 1, i);
    OneBit(start, i);
    OneBit(end - 1, i);
    OrBit(Shl(dots, 1), Shr(dots, 1), i);
    OrBit(Or(Shl(dots, 1), Shr(dots, 1)), Shl(1, start), i);
    OrBit(Or(Or(Shl(dots, 1), Shr(dots, 1)), Shl(1, start)), Shl(1, end - 1), i);
  }

  lemma NamesFill(ix: Index, text: seq<byte>, start: nat, end: nat)
    requires ix.Describes(text) && start < end <= |text|
    ensures HostNames(ix, Range(start, end)) == Range(start, end) <==>
      forall i :: start <= i < end ==> NameByte(text[i])
  {
    var host := Range(start, end);
    var names := HostNames(ix, host);
    forall i: nat
      ensures Bit(host, i) <==> start <= i < end
      ensures Bit(names, i) <==> start <= i < end && NameByte(text[i])
    {
      RangeBit(start, end, i);
      ClassBits(ix, text, start, end, i);
    }
    hide Range;
    hide HostNames;
    if forall i :: start <= i < end ==> NameByte(text[i]) {
      SameBits(names, host);
    } else {
      var i: nat :| start <= i < end && !NameByte(text[i]);
      assert Bit(host, i) && !Bit(names, i);
    }
  }

  /** A hyphen or dot where it may not be: at an end of the range, or beside a dot. */
  ghost predicate Misplaced(text: seq<byte>, start: nat, end: nat, i: nat) {
    && start <= i < end <= |text| && Edge(text[i])
    && (i == start || i == end - 1 || text[i - 1] == DOT || text[i + 1] == DOT)
  }

  lemma NoneMisplaced(text: seq<byte>, start: nat, end: nat)
    requires start < end <= |text|
    ensures (forall i: nat :: !Misplaced(text, start, end, i)) <==>
      && !Edge(text[start]) && !Edge(text[end - 1])
      && forall i :: start <= i < end - 1 ==> !Clash(text[i], text[i + 1])
  {
    if forall i: nat :: !Misplaced(text, start, end, i) {
      assert !Misplaced(text, start, end, start) && !Misplaced(text, start, end, end - 1);
      forall i: nat | start <= i < end - 1
        ensures !Clash(text[i], text[i + 1])
      {
        assert !Misplaced(text, start, end, i) && !Misplaced(text, start, end, i + 1);
      }
    } else {
      var i: nat :| Misplaced(text, start, end, i);
      if start < i < end - 1 {
        assert Clash(text[i - 1], text[i]) || Clash(text[i], text[i + 1]);
        assert i - 1 + 1 == i;
      }
    }
  }

  lemma BarredEdge(ix: Index, text: seq<byte>, start: nat, end: nat, i: nat)
    requires ix.Describes(text) && start < end <= |text|
    ensures var host := Range(start, end);
      Bit(And(HostEdges(ix, host), Barred(HostDots(ix, host), start, end)), i) <==> Misplaced(text, start, end, i)
  {
    var host := Range(start, end);
    var edges, dots := HostEdges(ix, host), HostDots(ix, host);
    DotsFit(ix, start, end);
    hide Range;
    hide HostEdges;
    hide HostDots;
    hide Barred;
    AndBit(edges, Barred(dots, start, end), i);
    ClassBits(ix, text, start, end, i);
    if start <= i < end {
      BarredBit(dots, start, end, i);
      ClassBits(ix, text, start, end, i + 1);
      if i > 0 {
        ClassBits(ix, text, start, end, i - 1);
      }
    }
  }

  /** No bit of the edges is barred: no clash inside the range and no edge at its ends. */
  lemma NoneBarred(ix: Index, text: seq<byte>, start: nat, end: nat)
    requires ix.Describes(text) && start < end <= |text|
    ensures var host := Range(start, end);
      And(HostEdges(ix, host), Barred(HostDots(ix, host), start, end)) == 0 <==>
        && !Edge(text[start]) && !Edge(text[end - 1])
        && forall i :: start <= i < end - 1 ==> !Clash(text[i], text[i + 1])
  {
    hide Misplaced;
    var host := Range(start, end);
    forall i: nat
      ensures Bit(And(HostEdges(ix, host), Barred(HostDots(ix, host), start, end)), i) <==>
        Misplaced(text, start, end, i)
    {
      BarredEdge(ix, text, start, end, i);
    }
    NonZero(And(HostEdges(ix, host), Barred(HostDots(ix, host), start, end)));
    NoneMisplaced(text, start, end);
  }

  /** The test on bitmaps and the byte-wise one agree. */
  lemma NameInRangeIs(ix: Index, text: seq<byte>, start: nat, end: nat)
    requires ix.Describes(text) && start < end <= |text| && end - start <= MAX_HOST_NAME
    ensures NameInRange(ix, start, end) <==> LdhName(text[start..end])
  {
    var name := text[start..end];
    NamesFill(ix, text, start, end);
    NoneBarred(ix, text, start, end);
    hide HostNames;
    hide HostEdges;
    hide Range;
    if Named(name, 0, |name|) {
      assert forall i :: start <= i < end ==> text[i] == name[i - start];
      assert forall i {:trigger text[i]} :: start <= i < end - 1 ==> !Clash(name[i - start], name[i - start + 1]);
    }
    forall i | 0 <= i < |name| - 1
      ensures Clash(name[i], name[i + 1]) == Clash(text[start + i], text[start + i + 1])
    {
    }
  }
}
