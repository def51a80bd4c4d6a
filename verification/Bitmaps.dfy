/**
 Unsigned 64-bit words used as sets of bit positions. A word is a natural number below 2^64 and
 every machine operation on it is written out; the lemmas say what it does to the set of bits.
 */
module Bitmaps {
  import opened Modular

  const WORD: nat := 0x1_0000_0000_0000_0000

  function Bit(w: nat, i: nat): bool {
    if i == 0 then w % 2 == 1 else Bit(w / 2, i - 1)
  }

  function And(a: nat, b: nat): (r: nat)
    ensures r <= a && r <= b
  {
    if a == 0 || b == 0 then 0 else (if a % 2 == 1 && b % 2 == 1 then 1 else 0) + 2 * And(a / 2, b / 2)
  }

  function Or(a: nat, b: nat): nat {
    if a == 0 then b else if b == 0 then a else (if a % 2 == 1 || b % 2 == 1 then 1 else 0) + 2 * Or(a / 2, b / 2)
  }

  /** `a &^ b` of the source. */
  function AndNot(a: nat, b: nat): (r: nat)
    ensures r <= a
  {
    if a == 0 || b == 0 then a else (if a % 2 == 1 && b % 2 == 0 then 1 else 0) + 2 * AndNot(a / 2, b / 2)
  }

  /** `w << k`, dropping what leaves the word. */
  function Shl(w: nat, k: nat): (r: nat)
    decreases k
  {
    if k == 0 then w else Shl((2 * w) % WORD, k - 1)
  }

  function Shr(w: nat, k: nat): (r: nat)
    ensures r <= w
    decreases k
  {
    if k == 0 then w else Shr(w / 2, k - 1)
  }

  function TrailingZeros(w: nat): nat {
    if w == 0 then 64 else if w % 2 == 1 then 0 else 1 + TrailingZeros(w / 2)
  }

  function OnesCount(w: nat): nat {
    if w == 0 then 0 else w % 2 + OnesCount(w / 2)
  }

  function Length(w: nat): nat {
    if w == 0 then 0 else 1 + Length(w / 2)
  }

  /** The number of clear bits above the highest one set, in a word of 64. */
  function LeadingZeros(w: nat): int {
    64 - Length(w)
  }

  // ----- what the operations do to bits -----

  lemma {:induction false} ZeroBits(i: nat)
    ensures !Bit(0, i)
  {
    if i > 0 {
      ZeroBits(i - 1);
    }
  }

  lemma {:induction false} AndBit(a: nat, b: nat, i: nat)
    ensures Bit(And(a, b), i) <==> Bit(a, i) && Bit(b, i)
    decreases i
  {
    ZeroBits(i);
    if a != 0 && b != 0 && i > 0 {
      AndBit(a / 2, b / 2, i - 1);
    }
  }

  lemma {:induction false} OrBit(a: nat, b: nat, i: nat)
    ensures Bit(Or(a, b), i) <==> Bit(a, i) || Bit(b, i)
    decreases i
  {
    ZeroBits(i);
    if a != 0 && b != 0 && i > 0 {
      OrBit(a / 2, b / 2, i - 1);
    }
  }

  lemma {:induction false} AndNotBit(a: nat, b: nat, i: nat)
    ensures Bit(AndNot(a, b), i) <==> Bit(a, i) && !Bit(b, i)
    decreases i
  {
    ZeroBits(i);
    if a != 0 && b != 0 && i > 0 {
      AndNotBit(a / 2, b / 2, i - 1);
    }
  }

  lemma {:induction false} ShrBit(w: nat, k: nat, i: nat)
    ensures Bit(Shr(w, k), i) <==> Bit(w, i + k)
    decreases k
  {
    if k > 0 {
      ShrBit(w / 2, k - 1, i);
    }
  }

  /** `2^i`, for the bound of a word. */
  function Pow2(i: nat): (p: nat)
    ensures p >= 1
  {
    if i == 0 then 1 else 2 * Pow2(i - 1)
  }

  lemma Pow64()
    ensures Pow2(64) == WORD
  {
    assert Pow2(2) == 2 * Pow2(1) == 4;
    Pow2Add(2, 2);
    Pow2Add(4, 4);
    Pow2Add(8, 8);
    Pow2Double();
  }

  lemma Pow2Double()
    requires Pow2(16) == 0x1_0000
    ensures Pow2(64) == WORD
  {
    Pow2Add(16, 16);
    Pow2Add(32, 32);
  }

  lemma {:induction false} Pow2Add(a: nat, b: nat)
    ensures Pow2(a + b) == Pow2(a) * Pow2(b)
  {
    if a > 0 {
      Pow2Add(a - 1, b);
      assert 2 * Pow2(a - 1) * Pow2(b) == 2 * (Pow2(a - 1) * Pow2(b));
    }
  }

  lemma {:induction false} BoundedBits(w: nat, n: nat, i: nat)
    requires w < Pow2(n) && i >= n
    ensures !Bit(w, i)
    decreases i
  {
    if n == 0 {
      ZeroBits(i);
    } else {
      BoundedBits(w / 2, n - 1, i - 1);
    }
  }

  lemma {:induction false} LengthBound(w: nat, n: nat)
    requires w < Pow2(n)
    ensures Length(w) <= n
    decreases n
  {
    if n > 0 && w > 0 {
      LengthBound(w / 2, n - 1);
    }
  }

  lemma {:induction false} ModBit(w: nat, n: nat, i: nat)
    ensures Bit(w % Pow2(n), i) <==> i < n && Bit(w, i)
    decreases n
  {
    if n == 0 {
      assert w % 1 == 0;
      ZeroBits(i);
    } else {
      ModHalf(w, Pow2(n - 1));
      if i > 0 {
        ModBit(w / 2, n - 1, i - 1);
      }
    }
  }

  lemma ModHalf(w: nat, p: nat)
    requires p > 0
    ensures (w % (2 * p)) % 2 == w % 2
    ensures (w % (2 * p)) / 2 == (w / 2) % p
  {
    var q, r := w / (2 * p), w % (2 * p);
    assert w == q * (2 * p) + r;
    assert q * (2 * p) == 2 * (q * p);
    assert w / 2 == q * p + r / 2;
    ModUnique(r / 2, w / 2, p, q);
  }

  lemma DoubleBit(w: nat, i: nat)
    ensures Bit((2 * w) % WORD, i) <==> 0 < i < 64 && Bit(w, i - 1)
  {
    Pow64();
    ModBit(2 * w, 64, i);
    if i > 0 {
      assert (2 * w) / 2 == w;
    }
  }

  lemma {:induction false} ShlBit(w: nat, k: nat, i: nat)
    requires w < WORD
    ensures Bit(Shl(w, k), i) <==> k <= i < 64 && Bit(w, i - k)
    decreases k
  {
    if k == 0 {
      Pow64();
      if i >= 64 {
        BoundedBits(w, 64, i);
      }
    } else {
      ShlBit((2 * w) % WORD, k - 1, i);
      if k - 1 <= i < 64 {
        DoubleBit(w, i - (k - 1));
      }
    }
  }

  lemma {:induction false} ShlBound(w: nat, k: nat)
    requires w < WORD
    ensures Shl(w, k) < WORD
    decreases k
  {
    if k > 0 {
      ShlBound((2 * w) % WORD, k - 1);
    }
  }

  lemma {:induction false} OrBound(a: nat, b: nat, n: nat)
    requires a < Pow2(n) && b < Pow2(n)
    ensures Or(a, b) < Pow2(n)
  {
    if n > 0 && a != 0 && b != 0 {
      OrBound(a / 2, b / 2, n - 1);
    }
  }

  lemma {:induction false} SameBits(a: nat, b: nat)
    requires forall i: nat :: Bit(a, i) <==> Bit(b, i)
    ensures a == b
    decreases a + b
  {
    assert Bit(a, 0) <==> Bit(b, 0);
    if a != 0 || b != 0 {
      forall i: nat
        ensures Bit(a / 2, i) <==> Bit(b / 2, i)
      {
        assert Bit(a, i + 1) <==> Bit(b, i + 1);
      }
      SameBits(a / 2, b / 2);
    }
  }

  /** A word is zero exactly when it has no bit. */
  lemma NonZero(w: nat)
    ensures w == 0 ==> forall i: nat :: !Bit(w, i)
    ensures w != 0 ==> exists i: nat :: Bit(w, i)
  {
    if w == 0 {
      forall i: nat
        ensures !Bit(w, i)
      {
        ZeroBits(i);
      }
    } else {
      FirstBit(w);
      assert Bit(w, TrailingZeros(w));
    }
  }

  /** What `TrailingZeros64` and the idiom `w & (w - 1)` mean for a set of bits. */
  lemma LowestBit(w: nat)
    requires w != 0
    ensures var n := TrailingZeros(w);
      && Bit(w, n) && (forall i: nat | i < n :: !Bit(w, i))
      && (forall i: nat :: Bit(And(w, w - 1), i) <==> Bit(w, i) && i != n)
      && OnesCount(And(w, w - 1)) == OnesCount(w) - 1
  {
    var n := TrailingZeros(w);
    FirstBit(w);
    forall i: nat
      ensures Bit(And(w, w - 1), i) <==> Bit(w, i) && i != n
    {
      ClearedBit(w, i);
    }
    ClearedCount(w);
  }

  lemma {:induction false} FirstBit(w: nat)
    requires w != 0
    ensures var n := TrailingZeros(w); Bit(w, n) && forall i: nat | i < n :: !Bit(w, i)
  {
    if w % 2 == 0 {
      FirstBit(w / 2);
      forall i: nat | i < TrailingZeros(w)
        ensures !Bit(w, i)
      {
        if i > 0 {
          assert !Bit(w / 2, i - 1);
        }
      }
    }
  }

  lemma ClearStep(w: nat)
    requires w != 0
    ensures w % 2 == 1 ==> And(w, w - 1) % 2 == 0 && And(w, w - 1) / 2 == w / 2
    ensures w % 2 == 0 ==> And(w, w - 1) % 2 == 0 && And(w, w - 1) / 2 == And(w / 2, w / 2 - 1)
  {
    if w % 2 == 1 {
      AndSelf(w / 2);
      if w > 1 {
        assert (w - 1) / 2 == w / 2 && (w - 1) % 2 == 0;
      }
    } else {
      assert (w - 1) / 2 == w / 2 - 1 && (w - 1) % 2 == 1;
    }
  }

  lemma {:induction false} AndSelf(w: nat)
    ensures And(w, w) == w
  {
    if w != 0 {
      AndSelf(w / 2);
    }
  }

  lemma {:induction false} ClearedBit(w: nat, i: nat)
    requires w != 0
    ensures Bit(And(w, w - 1), i) <==> Bit(w, i) && i != TrailingZeros(w)
  {
    ClearStep(w);
    if w % 2 == 0 && i > 0 {
      ClearedBit(w / 2, i - 1);
    }
  }

  lemma {:induction false} ClearedCount(w: nat)
    requires w != 0
    ensures OnesCount(And(w, w - 1)) == OnesCount(w) - 1
  {
    ClearStep(w);
    if w % 2 == 0 {
      ClearedCount(w / 2);
    }
  }

  // ----- masks -----

  lemma AndHalves(x: nat, y: nat, p: nat, q: nat)
    requires p < 2 && q < 2
    ensures And(2 * x + p, 2 * y + q) == 2 * And(x, y) + if p == 1 && q == 1 then 1 else 0
  {
    assert (2 * x + p) / 2 == x && (2 * x + p) % 2 == p && (2 * y + q) / 2 == y && (2 * y + q) % 2 == q;
  }

  lemma {:induction false} AndOnes(v: nat, j: nat)
    requires v < Pow2(j)
    ensures And(v, Pow2(j) - 1) == v
  {
    if j > 0 {
      AndOnes(v / 2, j - 1);
      AndHalves(v / 2, Pow2(j - 1) - 1, v % 2, 1);
    }
  }

  lemma AndNone(a: nat)
    ensures And(a, 0) == 0
  {
  }

  /** What shifting a 64-bit word right by 63 places with its sign leaves: the sign in every bit. */
  function SignFill(w: nat): nat {
    if w >= 0x8000_0000_0000_0000 then WORD - 1 else 0
  }

  /** `n & (x >> 63)` on the two's complement of a number. */
  function WhenNegative(x: int, n: nat): nat {
    And(n, SignFill(x % WORD))
  }

  /** The mask selects the whole number if the sign bit is set, and nothing otherwise. */
  lemma MaskSelects(x: int, n: nat)
    requires -0x8000_0000_0000_0000 <= x < 0x8000_0000_0000_0000 && n < WORD
    ensures WhenNegative(x, n) == if x < 0 then n else 0
  {
    hide And;
    if x < 0 {
      assert x % WORD == x + WORD;
      Pow64();
      hide Pow2;
      AndOnes(n, 64);
    } else {
      AndNone(n);
    }
  }
}
