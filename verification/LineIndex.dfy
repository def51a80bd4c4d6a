/** Line ends found a 64-byte block or a line at a time, and the widest gap between offsets. */
module LineIndex {
  import opened Bitmaps
  import opened Modular
  import opened Text
  import opened Words

  newtype uint32 = x: int | 0 <= x < 0x1_0000_0000

  const NEWLINES: bv64 := 0x0a0a0a0a0a0a0a0a
  const GATHER: bv64 := 0x0002040810204081
  const BLOCK_BYTES: nat := 64
  const SEARCH_LINE_BYTES: nat := 44

  // ----- the specification -----

  /** The positions just past each line feed among the first `n` bytes, ascending. */
  ghost function EndsOf(src: seq<byte>, base: nat, n: nat): seq<uint32>
    requires n <= |src| && base + |src| < 0x1_0000_0000
  {
    if n == 0 then []
    else EndsOf(src, base, n - 1) + if src[n - 1] == LF then [(base + n) as uint32] else []
  }

  /** Some line feed among the first `n` bytes follows a carriage return. */
  ghost predicate HasCrLf(src: seq<byte>, n: nat)
    requires n <= |src|
  {
    exists i :: 0 < i < n && src[i] == LF && src[i - 1] == CR
  }

  lemma {:induction false} EndsSkip(src: seq<byte>, base: nat, from: nat, to: nat)
    requires from <= to <= |src| && base + |src| < 0x1_0000_0000
    requires forall i :: from <= i < to ==> src[i] != LF
    ensures EndsOf(src, base, to) == EndsOf(src, base, from)
  {
    if from < to {
      EndsSkip(src, base, from, to - 1);
    }
  }

  // ----- eight bytes at a time -----

  /** Bit i of the result says whether byte i of the word is a line feed. */
  function NewlineBits(w: bv64): bv64 {
    (NewlineBytes(w) * GATHER) >> 56
  }

  /** The exact zero-byte test on the word with every line feed turned into zero. */
  function NewlineBytes(w: bv64): bv64 {
    var x := w ^ NEWLINES;
    (!(((x & LOW_SEVEN) + LOW_SEVEN) | x)) & HIGH_BITS
  }

  lemma NewlineLanes(b0: byte, b1: byte, b2: byte, b3: byte, b4: byte, b5: byte, b6: byte, b7: byte, z: bv64)
    requires z == NewlineBytes(Pack(b0, b1, b2, b3, b4, b5, b6, b7))
    ensures z & HIGH_BITS == z
    ensures (z & 0x80 != 0 <==> b0 == LF) && (z & 0x8000 != 0 <==> b1 == LF)
    ensures (z & 0x800000 != 0 <==> b2 == LF) && (z & 0x80000000 != 0 <==> b3 == LF)
    ensures (z & 0x8000000000 != 0 <==> b4 == LF) && (z & 0x800000000000 != 0 <==> b5 == LF)
    ensures (z & 0x80000000000000 != 0 <==> b6 == LF) && (z & 0x8000000000000000 != 0 <==> b7 == LF)
  {
  }

  /** The multiplication moves the high bit of byte i to bit i of the top byte. */
  lemma Gathered(z: bv64, r: bv64)
    requires z & HIGH_BITS == z && r == (z * GATHER) >> 56
    ensures r < 256
    ensures (r & 1 != 0 <==> z & 0x80 != 0) && (r & 2 != 0 <==> z & 0x8000 != 0)
    ensures (r & 4 != 0 <==> z & 0x800000 != 0) && (r & 8 != 0 <==> z & 0x80000000 != 0)
    ensures (r & 16 != 0 <==> z & 0x8000000000 != 0) && (r & 32 != 0 <==> z & 0x800000000000 != 0)
    ensures (r & 64 != 0 <==> z & 0x80000000000000 != 0) && (r & 128 != 0 <==> z & 0x8000000000000000 != 0)
  {
  }

  function Digit(b: bool): nat {
    if b then 1 else 0
  }

  lemma DigitBit(b: bool, rest: nat, j: nat)
    ensures j == 0 ==> (Bit(Digit(b) + 2 * rest, j) <==> b)
    ensures j > 0 ==> (Bit(Digit(b) + 2 * rest, j) <==> Bit(rest, j - 1))
  {
  }

  lemma AsDigits(r: bv64)
    requires r < 256
    ensures r as nat == Digit(r & 1 != 0) + 2 * (Digit(r & 2 != 0) + 2 * (Digit(r & 4 != 0) + 2 * (Digit(r & 8 != 0)
      + 2 * (Digit(r & 16 != 0) + 2 * (Digit(r & 32 != 0) + 2 * (Digit(r & 64 != 0) + 2 * (Digit(r & 128 != 0) + 2 * 0)))))))
  {
  }

  lemma ByteBits(r: bv64, j: nat)
    requires r < 256
    ensures j == 0 ==> (Bit(r as nat, j) <==> r & 1 != 0)
    ensures j == 1 ==> (Bit(r as nat, j) <==> r & 2 != 0)
    ensures j == 2 ==> (Bit(r as nat, j) <==> r & 4 != 0)
    ensures j == 3 ==> (Bit(r as nat, j) <==> r & 8 != 0)
    ensures j == 4 ==> (Bit(r as nat, j) <==> r & 16 != 0)
    ensures j == 5 ==> (Bit(r as nat, j) <==> r & 32 != 0)
    ensures j == 6 ==> (Bit(r as nat, j) <==> r & 64 != 0)
    ensures j == 7 ==> (Bit(r as nat, j) <==> r & 128 != 0)
    ensures j >= 8 ==> !Bit(r as nat, j)
  {
    AsDigits(r);
    EightDigits(r as nat, r & 1 != 0, r & 2 != 0, r & 4 != 0, r & 8 != 0, r & 16 != 0, r & 32 != 0, r & 64 != 0,
      r & 128 != 0, j);
  }

  lemma EightDigits(w: nat, b0: bool, b1: bool, b2: bool, b3: bool, b4: bool, b5: bool, b6: bool, b7: bool, j: nat)
    requires w == Digit(b0) + 2 * (Digit(b1) + 2 * (Digit(b2) + 2 * (Digit(b3)
      + 2 * (Digit(b4) + 2 * (Digit(b5) + 2 * (Digit(b6) + 2 * (Digit(b7) + 2 * 0)))))))
    ensures (j == 0 ==> (Bit(w, j) <==> b0)) && (j == 1 ==> (Bit(w, j) <==> b1))
    ensures (j == 2 ==> (Bit(w, j) <==> b2)) && (j == 3 ==> (Bit(w, j) <==> b3))
    ensures (j == 4 ==> (Bit(w, j) <==> b4)) && (j == 5 ==> (Bit(w, j) <==> b5))
    ensures (j == 6 ==> (Bit(w, j) <==> b6)) && (j == 7 ==> (Bit(w, j) <==> b7))
    ensures j >= 8 ==> !Bit(w, j)
  {
    var high := Digit(b4) + 2 * (Digit(b5) + 2 * (Digit(b6) + 2 * (Digit(b7) + 2 * 0)));
    FourDigits(w, b0, b1, b2, b3, high, j);
    if j >= 4 {
      FourDigits(high, b4, b5, b6, b7, 0, j - 4);
    }
    if j >= 8 {
      ZeroBits(j - 8);
    }
  }

  lemma FourDigits(w: nat, b0: bool, b1: bool, b2: bool, b3: bool, rest: nat, j: nat)
    requires w == Digit(b0) + 2 * (Digit(b1) + 2 * (Digit(b2) + 2 * (Digit(b3) + 2 * rest)))
    ensures (j == 0 ==> (Bit(w, j) <==> b0)) && (j == 1 ==> (Bit(w, j) <==> b1))
    ensures (j == 2 ==> (Bit(w, j) <==> b2)) && (j == 3 ==> (Bit(w, j) <==> b3))
    ensures j >= 4 ==> (Bit(w, j) <==> Bit(rest, j - 4))
  {
    var w3 := Digit(b3) + 2 * rest;
    var w2 := Digit(b2) + 2 * w3;
    var w1 := Digit(b1) + 2 * w2;
    DigitBit(b0, w1, j);
    if j >= 1 { DigitBit(b1, w2, j - 1); }
    if j >= 2 { DigitBit(b2, w3, j - 2); }
    if j >= 3 { DigitBit(b3, rest, j - 3); }
  }

  /** Bit i of the gathered word says whether byte i is a line feed. */
  lemma NewlineBitsAre(b0: byte, b1: byte, b2: byte, b3: byte, b4: byte, b5: byte, b6: byte, b7: byte, m: nat, j: nat)
    requires m == NewlineBits(Pack(b0, b1, b2, b3, b4, b5, b6, b7)) as nat
    ensures m < 256
    ensures (j == 0 ==> (Bit(m, j) <==> b0 == LF)) && (j == 1 ==> (Bit(m, j) <==> b1 == LF))
    ensures (j == 2 ==> (Bit(m, j) <==> b2 == LF)) && (j == 3 ==> (Bit(m, j) <==> b3 == LF))
    ensures (j == 4 ==> (Bit(m, j) <==> b4 == LF)) && (j == 5 ==> (Bit(m, j) <==> b5 == LF))
    ensures (j == 6 ==> (Bit(m, j) <==> b6 == LF)) && (j == 7 ==> (Bit(m, j) <==> b7 == LF))
    ensures j >= 8 ==> !Bit(m, j)
  {
    var w := Pack(b0, b1, b2, b3, b4, b5, b6, b7);
    NewlineLanes(b0, b1, b2, b3, b4, b5, b6, b7, NewlineBytes(w));
    Gathered(NewlineBytes(w), NewlineBits(w));
    ByteBits(NewlineBits(w), j);
  }

  /** `newlineBits` of the eight bytes at `i`, as the set of their line feeds. */
  method NewlineWord(src: seq<byte>, i: nat) returns (bits: nat)
    requires i + 8 <= |src|
    ensures bits < 256
    ensures forall j: nat :: Bit(bits, j) <==> j < 8 && src[i + j] == LF
  {
    bits := NewlineBits(Load64(src, i)) as nat;
    NewlineBitsAre(src[i], src[i + 1], src[i + 2], src[i + 3], src[i + 4], src[i + 5], src[i + 6], src[i + 7], bits, 0);
    forall j: nat
      ensures Bit(bits, j) <==> j < 8 && src[i + j] == LF
    {
      NewlineBitsAre(src[i], src[i + 1], src[i + 2], src[i + 3], src[i + 4], src[i + 5], src[i + 6], src[i + 7],
        bits, j);
    }
  }

  /** The set bits of a mask are the line feeds among the first `n` bytes at `from`. */
  ghost predicate Marks(mask: nat, src: seq<byte>, from: nat, n: nat)
    requires from + n <= |src|
  {
    mask < WORD && forall j: nat :: Bit(mask, j) <==> j < n && src[from + j] == LF
  }

  lemma AddWord(mask: nat, word: nat, src: seq<byte>, from: nat, k: nat)
    requires k <= 7 && from + 64 <= |src| && Marks(mask, src, from, 8 * k)
    requires word < 256 && forall j: nat :: Bit(word, j) <==> j < 8 && src[from + 8 * k + j] == LF
    ensures Marks(Or(mask, Shl(word, 8 * k)), src, from, 8 * k + 8)
  {
    forall j: nat
      ensures Bit(Or(mask, Shl(word, 8 * k)), j) <==> j < 8 * k + 8 && src[from + j] == LF
    {
      OrBit(mask, Shl(word, 8 * k), j);
      ShlBit(word, 8 * k, j);
      if 8 * k <= j {
        assert Bit(word, j - 8 * k) <==> j - 8 * k < 8 && src[from + 8 * k + (j - 8 * k)] == LF;
      }
    }
    ShlBound(word, 8 * k);
    Pow64();
    OrBound(mask, Shl(word, 8 * k), 64);
  }

  method OrWord(mask: nat, src: seq<byte>, from: nat, k: nat) returns (mask': nat)
    requires k <= 7 && from + 64 <= |src| && Marks(mask, src, from, 8 * k)
    ensures Marks(mask', src, from, 8 * k + 8)
  {
    var word := NewlineWord(src, from + 8 * k);
    AddWord(mask, word, src, from, k);
    mask' := Or(mask, Shl(word, 8 * k));
  }

  method BlockMask(src: seq<byte>, from: nat) returns (mask: nat)
    requires from + 64 <= |src|
    ensures Marks(mask, src, from, 64)
  {
    mask := NewlineWord(src, from);
    mask := OrWord(mask, src, from, 1);
    mask := OrWord(mask, src, from, 2);
    mask := OrWord(mask, src, from, 3);
    mask := OrWord(mask, src, from, 4);
    mask := OrWord(mask, src, from, 5);
    mask := OrWord(mask, src, from, 6);
    mask := OrWord(mask, src, from, 7);
  }

  // ----- the portable kernel -----

  /** What `Ends` has established after examining `consumed` bytes and storing `written` ends. */
  ghost predicate Stored(dst: array<uint32>, at: nat, written: nat, src: seq<byte>, base: nat, consumed: nat, cr: bool)
    requires consumed <= |src| && base + |src| < 0x1_0000_0000
    reads dst
  {
    && at + written <= dst.Length
    && dst[at..at + written] == EndsOf(src, base, consumed)
    && (HasCrLf(src, consumed) ==> cr)
    && (cr ==> CR in src[..consumed])
  }

  method IndexByte(s: seq<byte>, from: nat, b: byte) returns (i: int)
    requires from <= |s|
    ensures i < 0 ==> b !in s[from..]
    ensures i >= 0 ==> from + i < |s| && s[from + i] == b && b !in s[from..from + i]
  {
    i := 0;
    while from + i < |s|
      invariant 0 <= i <= |s| - from
      invariant b !in s[from..from + i]
    {
      if s[from + i] == b {
        return;
      }
      i := i + 1;
    }
    i := -1;
  }

  /**
   `endsScalar`: stores the line ends of `src`, offset by `base`, into `dst` from index `at`.
   The destination slice of the source is `dst[at..]`.
   */
  method Ends(dst: array<uint32>, at: nat, src: seq<byte>, base: uint32) returns (written: nat, consumed: nat, cr: bool)
    requires at <= dst.Length && base as nat + |src| < 0x1_0000_0000
    modifies dst
    ensures dst[..at] == old(dst[..at])
    ensures consumed <= |src| && Stored(dst, at, written, src, base as nat, consumed, cr)
    ensures consumed < |src| ==>
      dst.Length - at - written < BLOCK_BYTES && dst.Length - at - written < |src| - consumed
  {
    var previous: nat, search := 0, false;
    written, consumed, cr := 0, 0, false;
    assert dst[at..at] == [];
    assert Stored(dst, at, 0, src, base as nat, 0, false);
    hide EndsOf;
    hide HasCrLf;
    while consumed < |src|
      invariant consumed <= |src| && previous <= consumed
      invariant Stored(dst, at, written, src, base as nat, consumed, cr)
      invariant dst[..at] == old(dst[..at])
      decreases |src| - consumed, if search then 0 else 1
    {
      if search {
        while at + written < dst.Length
          invariant consumed <= |src| && previous <= consumed
          invariant Stored(dst, at, written, src, base as nat, consumed, cr)
          invariant dst[..at] == old(dst[..at])
          invariant search
          decreases |src| - consumed
        {
          var i := IndexByte(src, consumed, LF);
          if i < 0 {
            NoMoreEnds(src, base as nat, consumed);
            return written, |src|, cr;
          }
          var end := consumed + i;
          cr := StoreFound(dst, at, written, src, base, consumed, end, cr);
          written := written + 1;
          search := end - previous >= SEARCH_LINE_BYTES;
          consumed, previous := end + 1, end + 1;
          if !search {
            break;
          }
        }
        if search {
          break;
        }
        continue;
      }
      if |src| - consumed < BLOCK_BYTES {
        search := true;
        continue;
      }
      if dst.Length - at - written < BLOCK_BYTES {
        break;
      }
      var count, last, hint := BlockEnds(dst, at, written, src, base, consumed, cr);
      if count > 0 {
        previous := last;
      }
      cr := hint;
      written := written + count;
      consumed := consumed + BLOCK_BYTES;
      search := count < 2;
    }
  }

  /** The ends stored so far and the mask of the line feeds still to store, within one block. */
  ghost predicate Scanned(ends: seq<uint32>, src: seq<byte>, base: nat, consumed: nat, mask: nat, seen: nat, cr: bool) {
    && consumed + BLOCK_BYTES <= |src| && base + |src| < 0x1_0000_0000 && seen <= BLOCK_BYTES
    && ends == EndsOf(src, base, consumed + seen)
    && (forall j: nat :: Bit(mask, j) <==> seen <= j < BLOCK_BYTES && src[consumed + j] == LF)
    && (HasCrLf(src, consumed + seen) ==> cr)
    && (cr ==> CR in src[..consumed + BLOCK_BYTES])
  }

  function EndAfter(base: uint32, position: nat): uint32 {
    ((base as nat + position + 1) % 0x1_0000_0000) as uint32
  }

  function FollowsCr(src: seq<byte>, position: nat): bool
    requires 0 < position <= |src| || (position == 0 && |src| > 0)
  {
    src[if position > 0 then position - 1 else 0] == CR
  }

  function WithoutLowest(mask: nat): nat {
    And(mask, if mask == 0 then WORD - 1 else mask - 1)
  }

  lemma ScanStep(ends: seq<uint32>, src: seq<byte>, base: uint32, consumed: nat, mask: nat, seen: nat, cr: bool)
    requires Scanned(ends, src, base as nat, consumed, mask, seen, cr) && mask != 0
    ensures var p := TrailingZeros(mask);
      && seen <= p < BLOCK_BYTES
      && Scanned(ends + [EndAfter(base, consumed + p)], src, base as nat, consumed, WithoutLowest(mask), p + 1,
                 cr || FollowsCr(src, consumed + p))
      && OnesCount(WithoutLowest(mask)) == OnesCount(mask) - 1
  {
    hide TrailingZeros;
    hide WithoutLowest;
    hide OnesCount;
    hide Bit;
    hide HasCrLf;
    var p := TrailingZeros(mask);
    ScanBits(src, consumed, mask, seen);
    EndsSkip(src, base as nat, consumed + seen, consumed + p);
    HintStep(src, consumed + seen, consumed + p, consumed + BLOCK_BYTES, cr);
  }

  lemma HintStep(src: seq<byte>, from: nat, end: nat, limit: nat, cr: bool)
    requires from <= end < limit <= |src| && src[end] == LF
    requires forall i :: from <= i < end ==> src[i] != LF
    requires (HasCrLf(src, from) ==> cr) && (cr ==> CR in src[..limit])
    ensures HasCrLf(src, end + 1) ==> cr || FollowsCr(src, end)
    ensures cr || FollowsCr(src, end) ==> CR in src[..limit]
  {
    if FollowsCr(src, end) {
      assert src[..limit][if end > 0 then end - 1 else 0] == CR;
    }
  }

  lemma ScanBits(src: seq<byte>, consumed: nat, mask: nat, seen: nat)
    requires consumed + BLOCK_BYTES <= |src| && mask != 0
    requires forall j: nat :: Bit(mask, j) <==> seen <= j < BLOCK_BYTES && src[consumed + j] == LF
    ensures var p := TrailingZeros(mask);
      && seen <= p < BLOCK_BYTES && src[consumed + p] == LF
      && (forall i :: consumed + seen <= i < consumed + p ==> src[i] != LF)
      && (forall j: nat :: Bit(WithoutLowest(mask), j) <==> p + 1 <= j < BLOCK_BYTES && src[consumed + j] == LF)
      && OnesCount(WithoutLowest(mask)) == OnesCount(mask) - 1
  {
    var p := TrailingZeros(mask);
    LowestBit(mask);
    assert Bit(mask, p);
    forall i | consumed + seen <= i < consumed + p
      ensures src[i] != LF
    {
      assert !Bit(mask, i - consumed);
    }
    forall j: nat
      ensures Bit(WithoutLowest(mask), j) <==> p + 1 <= j < BLOCK_BYTES && src[consumed + j] == LF
    {
      assert Bit(WithoutLowest(mask), j) <==> Bit(mask, j) && j != p;
      assert j < p ==> !Bit(mask, j);
    }
  }

  lemma ScanEnd(ends: seq<uint32>, src: seq<byte>, base: nat, consumed: nat, seen: nat, cr: bool)
    requires Scanned(ends, src, base, consumed, 0, seen, cr)
    ensures ends == EndsOf(src, base, consumed + BLOCK_BYTES)
    ensures HasCrLf(src, consumed + BLOCK_BYTES) ==> cr
    ensures cr ==> CR in src[..consumed + BLOCK_BYTES]
  {
    forall i | consumed + seen <= i < consumed + BLOCK_BYTES
      ensures src[i] != LF
    {
      ZeroBits(i - consumed);
    }
    EndsSkip(src, base, consumed + seen, consumed + BLOCK_BYTES);
  }

  /** Search mode stores one end at a time. */
  method StoreFound(dst: array<uint32>, at: nat, written: nat, src: seq<byte>, base: uint32, consumed: nat, end: nat,
                    cr: bool)
    returns (cr': bool)
    requires consumed <= end < |src| && src[end] == LF && LF !in src[consumed..end]
    requires base as nat + |src| < 0x1_0000_0000 && at + written < dst.Length
    requires Stored(dst, at, written, src, base as nat, consumed, cr)
    modifies dst
    ensures dst[..at] == old(dst[..at])
    ensures Stored(dst, at, written + 1, src, base as nat, end + 1, cr')
  {
    AnotherEnd(src, base as nat, consumed, end, cr);
    cr' := cr || FollowsCr(src, end);
    dst[at + written] := base + end as uint32 + 1;
    assert dst[at..at + written + 1] == dst[at..at + written] + [dst[at + written]];
  }

  lemma WithoutNone()
    ensures WithoutLowest(0) == 0 && TrailingZeros(0) == 64
  {
  }

  lemma OnesOfZero()
    ensures OnesCount(0) == 0
  {
  }

  /** One 64-byte block: every line feed of its mask, lowest first; two stores precede the loop. */
  method BlockEnds(dst: array<uint32>, at: nat, written: nat, src: seq<byte>, base: uint32, consumed: nat, cr: bool)
    returns (count: nat, last: int, hint: bool)
    requires consumed + BLOCK_BYTES <= |src| && base as nat + |src| < 0x1_0000_0000
    requires Stored(dst, at, written, src, base as nat, consumed, cr)
    requires at + written + BLOCK_BYTES <= dst.Length
    modifies dst
    ensures dst[..at] == old(dst[..at])
    ensures Stored(dst, at, written + count, src, base as nat, consumed + BLOCK_BYTES, hint)
    ensures count > 0 ==> 0 <= last <= consumed + BLOCK_BYTES
  {
    hide EndsOf;
    hide HasCrLf;
    hide And;
    hide TrailingZeros;
    hide OnesCount;
    hide Length;
    var mask := BlockMask(src, consumed);
    OnesOfZero();
    count := OnesCount(mask);
    last := consumed + BLOCK_BYTES - LeadingZeros(mask);
    hint := cr;
    ghost var ends, seen := dst[at..at + written], 0;
    Pow64();
    LengthBound(mask, 64);
    mask, hint, ends, seen := StoreLowest(dst, at + written, src, base, consumed, mask, hint, at, ends, seen);
    mask, hint, ends, seen := StoreLowest(dst, at + written + 1, src, base, consumed, mask, hint, at, ends, seen);
    var i := at + written + 2;
    while mask != 0
      invariant Scanned(ends, src, base as nat, consumed, mask, seen, hint)
      invariant |ends| <= written + seen && |ends| + OnesCount(mask) == written + count
      invariant at + |ends| <= dst.Length && dst[at..at + |ends|] == ends
      invariant mask != 0 ==> i == at + |ends|
      invariant dst[..at] == old(dst[..at])
      decreases BLOCK_BYTES - seen
    {
      ScanBits(src, consumed, mask, seen);
      mask, hint, ends, seen := StoreLowest(dst, i, src, base, consumed, mask, hint, at, ends, seen);
      i := i + 1;
    }
    assert |ends| == written + count;
    ScanEnd(ends, src, base as nat, consumed, seen, hint);
  }

  /** Stores the end after the lowest marked byte; with no mark left, an unspecified value. */
  method StoreLowest(dst: array<uint32>, i: nat, src: seq<byte>, base: uint32, consumed: nat, mask: nat, cr: bool,
                     ghost at: nat, ghost ends: seq<uint32>, ghost seen: nat)
    returns (mask': nat, cr': bool, ghost ends': seq<uint32>, ghost seen': nat)
    requires i < dst.Length && at + |ends| <= i && dst[at..at + |ends|] == ends
    requires mask != 0 ==> i == at + |ends|
    requires Scanned(ends, src, base as nat, consumed, mask, seen, cr)
    modifies dst
    ensures Scanned(ends', src, base as nat, consumed, mask', seen', cr')
    ensures mask == 0 ==> mask' == 0 && ends' == ends && seen' == seen
    ensures mask != 0 ==> |ends'| == |ends| + 1 && seen' > seen && OnesCount(mask') == OnesCount(mask) - 1
    ensures at + |ends'| <= dst.Length && dst[at..at + |ends'|] == ends'
    ensures dst[..at] == old(dst[..at])
  {
    hide WithoutLowest;
    hide TrailingZeros;
    hide EndsOf;
    hide HasCrLf;
    hide Bit;
    WithoutNone();
    var position := TrailingZeros(mask);
    ends', seen' := ends, seen;
    if mask != 0 {
      ScanStep(ends, src, base, consumed, mask, seen, cr);
      ends', seen' := ends + [EndAfter(base, consumed + position)], position + 1;
    } else {
      assert FollowsCr(src, consumed + 64) ==> src[..consumed + 64][consumed + 63] == CR;
    }
    dst[i] := EndAfter(base, consumed + position);
    cr' := cr || FollowsCr(src, consumed + position);
    mask' := WithoutLowest(mask);
  }

  lemma NoMoreEnds(src: seq<byte>, base: nat, from: nat)
    requires from <= |src| && base + |src| < 0x1_0000_0000 && LF !in src[from..]
    ensures EndsOf(src, base, |src|) == EndsOf(src, base, from)
    ensures HasCrLf(src, |src|) ==> HasCrLf(src, from)
    ensures CR in src[..from] ==> CR in src[..|src|]
  {
    assert forall i :: from <= i < |src| ==> src[i] == src[from..][i - from];
    EndsSkip(src, base, from, |src|);
  }

  lemma AnotherEnd(src: seq<byte>, base: nat, from: nat, end: nat, cr: bool)
    requires from <= end < |src| && base + |src| < 0x1_0000_0000
    requires src[end] == LF && LF !in src[from..end]
    requires (HasCrLf(src, from) ==> cr) && (cr ==> CR in src[..from])
    ensures EndsOf(src, base, end + 1) == EndsOf(src, base, from) + [(base + end + 1) as uint32]
    ensures var hint := cr || FollowsCr(src, end);
      (HasCrLf(src, end + 1) ==> hint) && (hint ==> CR in src[..end + 1])
  {
    assert forall i :: from <= i < end ==> src[i] == src[from..end][i - from];
    EndsSkip(src, base, from, end);
    assert cr ==> CR in src[..end + 1];
    HintStep(src, from, end, end + 1, cr);
  }

  // ----- the widest gap -----

  ghost predicate Ascending(offsets: seq<uint32>) {
    forall i, j :: 0 <= i <= j < |offsets| ==> offsets[i] <= offsets[j]
  }

  function Gap(offsets: seq<uint32>, i: nat): nat
    requires i + 1 < |offsets| && offsets[i] <= offsets[i + 1]
  {
    (offsets[i + 1] - offsets[i]) as nat
  }

  /** `largest` bounds the first `gaps` gaps and, unless it is zero, is one of them. */
  ghost predicate Widest(offsets: seq<uint32>, gaps: nat, largest: nat)
    requires Ascending(offsets) && (gaps == 0 || gaps < |offsets|)
  {
    && (forall i: nat :: i < gaps ==> Gap(offsets, i) <= largest)
    && (largest == 0 || exists i: nat :: i < gaps && Gap(offsets, i) == largest)
  }

  lemma WidestNone(offsets: seq<uint32>)
    requires Ascending(offsets)
    ensures Widest(offsets, 0, 0)
  {
  }

  lemma WidestStep(offsets: seq<uint32>, i: nat, m0: nat, m1: nat, m2: nat, m3: nat)
    requires Ascending(offsets) && i + 4 < |offsets|
    requires Widest(offsets, i, Max(Max(m0, m1), Max(m2, m3)))
    ensures Widest(offsets, i + 4, Max(Max(Max(m0, Gap(offsets, i)), Max(m1, Gap(offsets, i + 1))),
                                       Max(Max(m2, Gap(offsets, i + 2)), Max(m3, Gap(offsets, i + 3)))))
  {
    hide Widest;
    hide Gap;
    var m, g0, g1 := Max(Max(m0, m1), Max(m2, m3)), Gap(offsets, i), Gap(offsets, i + 1);
    var g2, g3 := Gap(offsets, i + 2), Gap(offsets, i + 3);
    WidestOne(offsets, i, m);
    WidestOne(offsets, i + 1, Max(m, g0));
    WidestOne(offsets, i + 2, Max(Max(m, g0), g1));
    WidestOne(offsets, i + 3, Max(Max(Max(m, g0), g1), g2));
    Regroup(m0, m1, m2, m3, g0, g1, g2, g3);
  }

  lemma Regroup(m0: nat, m1: nat, m2: nat, m3: nat, g0: nat, g1: nat, g2: nat, g3: nat)
    ensures Max(Max(Max(m0, g0), Max(m1, g1)), Max(Max(m2, g2), Max(m3, g3)))
         == Max(Max(Max(Max(Max(Max(m0, m1), Max(m2, m3)), g0), g1), g2), g3)
  {
  }

  lemma WidestOne(offsets: seq<uint32>, i: nat, m: nat)
    requires Ascending(offsets) && i + 1 < |offsets| && Widest(offsets, i, m)
    ensures Widest(offsets, i + 1, Max(m, Gap(offsets, i)))
  {
  }

  /** Four running maxima over four gaps a round. */
  method MaxGapWords(offsets: seq<uint32>) returns (largest: nat, gaps: nat)
    requires |offsets| >= 2 && Ascending(offsets)
    ensures gaps <= |offsets| - 1 < gaps + 4 && Widest(offsets, gaps, largest)
  {
    hide Widest;
    hide Gap;
    WidestNone(offsets);
    gaps := |offsets| - 1 - (|offsets| - 1) % 4;
    var m0: nat, m1: nat, m2: nat, m3: nat := 0, 0, 0, 0;
    var i := 0;
    while i < gaps
      invariant i <= gaps && i % 4 == 0
      invariant Widest(offsets, i, Max(Max(m0, m1), Max(m2, m3)))
    {
      WidestStep(offsets, i, m0, m1, m2, m3);
      m0 := Max(m0, Gap(offsets, i));
      m1 := Max(m1, Gap(offsets, i + 1));
      m2 := Max(m2, Gap(offsets, i + 2));
      m3 := Max(m3, Gap(offsets, i + 3));
      i := i + 4;
    }
    largest := Max(Max(m0, m1), Max(m2, m3));
  }

  method MaxGap(offsets: seq<uint32>) returns (largest: nat)
    requires Ascending(offsets)
    ensures |offsets| < 2 ==> largest == 0
    ensures |offsets| >= 2 ==> Widest(offsets, |offsets| - 1, largest)
  {
    if |offsets| < 2 {
      return 0;
    }
    var gaps;
    largest, gaps := MaxGapWords(offsets);
    for i := gaps + 1 to |offsets|
      invariant Widest(offsets, i - 1, largest)
    {
      largest := Max(largest, Gap(offsets, i - 1));
    }
  }
}
