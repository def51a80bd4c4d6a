/**
 The arithmetic behind every permutation of the pool: exact modular addition and multiplication
 on 64-bit words, Euclid's algorithm, and the search for a step that is coprime to a count.
 A `uint64` value is checked at every operation, so a body that verifies here never wraps around.
 */
module Modular {
  newtype uint64 = x: int | 0 <= x < 0x1_0000_0000_0000_0000

  const MIX_INCREMENT: nat := 0x9e3779b97f4a7c15

  /** `mix64(left ^ right)` for some 64-bit mixer. Nothing below depends on which one. */
  type Mixer = (nat, nat) -> nat

  function Min(a: int, b: int): int {
    if a < b then a else b
  }

  function Max(a: int, b: int): int {
    if a < b then b else a
  }

  // ----- modular arithmetic without overflow -----

  function AddModulo(left: uint64, right: uint64, modulus: uint64): (sum: uint64)
    requires modulus <= 1 || (left < modulus && right < modulus)
    ensures modulus > 1 ==> sum < modulus
  {
    if modulus <= 1 then 0
    else if left >= modulus - right then left - (modulus - right)
    else left + right
  }

  lemma AddModuloExact(left: uint64, right: uint64, modulus: uint64)
    requires modulus > 0 && left < modulus && right < modulus
    ensures AddModulo(left, right, modulus) as int == (left as int + right as int) % modulus as int
  {
    var sum, m := AddModulo(left, right, modulus) as int, modulus as int;
    var total := left as int + right as int;
    ModUnique(sum, total, m, if total < m then 0 else 1);
  }

  /** Binary multiplication; `right >> 1` and `right & 1` of the source are `/ 2` and `% 2` here. */
  method MultiplyModulo(left: uint64, right: uint64, modulus: uint64) returns (product: uint64)
    ensures modulus <= 1 ==> product == 0
    ensures modulus > 1 ==> product as int == (left as int * right as int) % modulus as int
  {
    if modulus <= 1 {
      return 0;
    }
    var factor, rest := left % modulus, right;
    product := 0;
    while rest != 0
      invariant product < modulus && factor < modulus
      invariant Doubling(product as nat, factor as nat, rest as nat, modulus as nat)
             == Doubling(0, left as nat % modulus as nat, right as nat, modulus as nat)
    {
      if rest % 2 != 0 {
        product := AddModulo(product, factor, modulus);
      }
      rest := rest / 2;
      if rest != 0 {
        factor := AddModulo(factor, factor, modulus);
      }
    }
    DoublingOfProduct(left as nat, right as nat, modulus as nat);
  }

  /** What the loop of `MultiplyModulo` still has to add to `sum`, bit by bit. */
  ghost function Doubling(sum: nat, factor: nat, rest: nat, m: nat): nat
    requires sum < m && factor < m
    decreases rest
  {
    if rest == 0 then sum
    else
      var sum' := if rest % 2 == 0 then sum else Wrap(sum + factor, m);
      if rest / 2 == 0 then sum' else Doubling(sum', Wrap(factor + factor, m), rest / 2, m)
  }

  ghost function Wrap(a: nat, m: nat): nat
    requires a < 2 * m
  {
    if a >= m then a - m else a
  }

  lemma {:induction false} DoublingIsProduct(sum: nat, factor: nat, rest: nat, m: nat)
    requires sum < m && factor < m
    ensures Doubling(sum, factor, rest, m) == (sum + factor * rest) % m
    decreases rest
  {
    if rest == 0 {
      ModUnique(sum, sum, m, 0);
    } else {
      var half, bit := rest / 2, rest % 2;
      var sum' := if bit == 0 then sum else Wrap(sum + factor, m);
      var double := Wrap(factor + factor, m);
      DoublingIsProduct(sum', double, half, m);
      HalvingStep(sum, factor, half, bit, sum', double, m);
      if half == 0 {
        ModUnique(sum', sum', m, 0);
      }
    }
  }

  lemma DoublingOfProduct(left: nat, right: nat, m: nat)
    requires m > 0
    ensures Doubling(0, left % m, right, m) == (left * right) % m
  {
    DoublingIsProduct(0, left % m, right, m);
    ModUnique(left % m, left % m, m, 0);
    ModMul(left % m, left, right, m);
  }

  /** One round of binary multiplication: a bit moves to the sum while the factor doubles. */
  lemma HalvingStep(p: nat, f: nat, half: nat, bit: nat, sum: nat, double: nat, m: nat)
    requires p < m && f < m && bit <= 1
    requires sum == if bit == 0 then p else Wrap(p + f, m)
    requires double == Wrap(f + f, m)
    ensures (sum + double * half) % m == (p + f * (2 * half + bit)) % m
  {
    var u := if bit == 0 || p + f < m then 0 else 1;
    var v := if f + f < m then 0 else 1;
    DoubleTimes(f, half, m, v);
    OddTimes(f, half, bit);
    CarriesTimes(u, v, half, m);
    ModShift(sum + double * half, p + f * (2 * half + bit), u + v * half, m);
  }

  lemma DoubleTimes(f: int, half: int, m: int, v: int)
    requires v == 0 || v == 1
    ensures (f + f - (if v == 0 then 0 else m)) * half == 2 * (f * half) - (if v == 0 then 0 else half * m)
  {
  }

  lemma OddTimes(f: int, half: int, bit: int)
    requires bit == 0 || bit == 1
    ensures f * (2 * half + bit) == 2 * (f * half) + (if bit == 0 then 0 else f)
  {
  }

  lemma CarriesTimes(u: int, v: int, half: int, m: int)
    requires (u == 0 || u == 1) && (v == 0 || v == 1)
    ensures (u + v * half) * m == (if u == 0 then 0 else m) + (if v == 0 then 0 else half * m)
  {
  }

  /** Numbers that differ by a multiple of the modulus have the same residue. */
  lemma ModShift(a: int, b: int, q: int, m: int)
    requires m > 0 && b == a + q * m
    ensures a % m == b % m
  {
    assert b == a % m + (a / m + q) * m;
    ModUnique(a % m, b, m, a / m + q);
  }

  lemma ModUnique(r: int, a: int, m: int, q: int)
    requires 0 <= r < m && a == r + q * m
    ensures r == a % m
  {
    var d := q - a / m;
    assert a % m - r == d * m;
    assert d == 0 by {
      if d > 0 {
        MulAtLeast(d, m);
        assert false;
      } else if d < 0 {
        MulAtLeast(-d, m);
        assert false;
      }
    }
  }

  lemma ModMod(a: int, m: int)
    requires m > 0
    ensures (a % m) % m == a % m
  {
    ModUnique(a % m, a % m, m, 0);
  }

  lemma MulAtLeast(d: int, m: int)
    requires d >= 1 && m >= 0
    ensures d * m >= m && (-d) * m <= -m
  {
    assert (d - 1) * m >= 0;
  }

  lemma ModAdd(a: int, b: int, c: int, m: int)
    requires m > 0 && a % m == b % m
    ensures (a + c) % m == (b + c) % m
  {
    assert a == (a / m) * m + a % m && b == (b / m) * m + b % m;
    assert b + c == ((b + c) / m) * m + (b + c) % m;
    var q := a / m - b / m + (b + c) / m;
    assert a + c == (b + c) % m + q * m by {
      assert q * m == (a / m) * m - (b / m) * m + ((b + c) / m) * m;
    }
    ModUnique((b + c) % m, a + c, m, q);
  }

  lemma ModMul(a: int, b: int, c: int, m: int)
    requires m > 0 && a % m == b % m
    ensures (a * c) % m == (b * c) % m
  {
    assert a == (a / m) * m + a % m && b == (b / m) * m + b % m;
    var k := b / m - a / m;
    assert b - a == k * m;
    assert b * c == a * c + (k * c) * m by {
      assert b * c - a * c == (b - a) * c;
      assert (k * m) * c == (k * c) * m;
    }
    ModShift(a * c, b * c, k * c, m);
  }

  // ----- greatest common divisor -----

  function Gcd(left: nat, right: nat): nat
    decreases right
  {
    if right == 0 then left else Gcd(right, left % right)
  }

  method GreatestCommonDivisor(left: uint64, right: uint64) returns (divisor: uint64)
    ensures divisor as int == Gcd(left as nat, right as nat)
  {
    var l, r := left, right;
    while r != 0
      invariant Gcd(l as nat, r as nat) == Gcd(left as nat, right as nat)
      decreases r
    {
      l, r := r, l % r;
    }
    divisor := l;
  }

  /** Bezout: the greatest common divisor is an integer combination of its arguments. */
  lemma {:induction false} Bezout(left: nat, right: nat) returns (x: int, y: int)
    ensures x * left + y * right == Gcd(left, right)
    decreases right
  {
    if right == 0 {
      x, y := 1, 0;
    } else {
      var u, v := Bezout(right, left % right);
      x, y := v, u - v * (left / right);
      var q := left / right;
      assert left % right == left - q * right;
      assert u * right + v * (left - q * right) == v * left + (u - v * q) * right;
    }
  }

  /** A coprime factor cancels: no proper multiple of the step reaches a multiple of the count. */
  lemma CoprimeCancels(step: nat, count: nat, k: int)
    requires count > 0 && Gcd(step, count) == 1
    requires (k * step) % count == 0
    ensures k % count == 0
  {
    var x, y := Bezout(step, count);
    var q := (k * step) / count;
    assert k * step == q * count;
    Combine(k, x, y, step, count, q);
    ModUnique(0, k, count, x * q + k * y);
  }

  lemma Combine(k: int, x: int, y: int, step: int, count: int, q: int)
    requires x * step + y * count == 1 && k * step == q * count
    ensures k == (x * q + k * y) * count
  {
    calc {
      k;
      k * (x * step + y * count);
      { assert k * (x * step) == x * (k * step); }
      x * (k * step) + (k * y) * count;
      x * (q * count) + (k * y) * count;
      { assert x * (q * count) == (x * q) * count; }
      (x * q) * count + (k * y) * count;
      (x * q + k * y) * count;
    }
  }

  // ----- the parameters of a permutation -----

  /** The first step coprime to the count, searching upward from `step` and wrapping to 1. */
  function CoprimeFrom(step: nat, count: nat): (r: nat)
    requires 1 <= step < count
    ensures 1 <= r < count && Gcd(r, count) == 1
    decreases if step == 1 then 0 else count - step
  {
    if Gcd(step, count) == 1 then step
    else
      GcdOfOne(count);
      CoprimeFrom(if step + 1 == count then 1 else step + 1, count)
  }

  lemma GcdOfOne(count: nat)
    requires count > 1
    ensures Gcd(1, count) == 1
  {
    assert Gcd(1, count) == Gcd(count, 1) == Gcd(1, count % 1);
  }

  function PermutationStep(count: nat, seed: nat, mix: Mixer): (step: nat)
    ensures count <= 1 ==> step == 0
    ensures count > 1 ==> 1 <= step < count && Gcd(step, count) == 1
  {
    if count <= 1 then 0 else CoprimeFrom(FirstStep(count, seed, mix), count)
  }

  function FirstStep(count: nat, seed: nat, mix: Mixer): (step: nat)
    requires count > 1
    ensures 1 <= step < count
  {
    mix(seed, 0) % (count - 1) + 1
  }

  lemma CoprimeFromStep(step: nat, count: nat)
    requires 1 <= step < count
    ensures Gcd(step, count) == 1 ==> CoprimeFrom(step, count) == step
    ensures Gcd(step, count) != 1 ==>
      step != 1 && CoprimeFrom(step, count) == CoprimeFrom(if step + 1 == count then 1 else step + 1, count)
  {
    GcdOfOne(count);
  }

  function PermutationStart(count: nat, seed: nat, mix: Mixer): (start: nat)
    ensures count > 0 ==> start < count
  {
    if count <= 1 then 0 else mix(seed, MIX_INCREMENT) % count
  }

  method PermutationParams(count: nat, seed: nat, mix: Mixer) returns (step: nat, start: nat)
    requires count < 0x8000_0000_0000_0000
    ensures step == PermutationStep(count, seed, mix)
    ensures start == PermutationStart(count, seed, mix)
  {
    if count <= 1 {
      return 0, 0;
    }
    hide Gcd;
    hide CoprimeFrom;
    hide FirstStep;
    step := FirstStep(count, seed, mix);
    var divisor := GreatestCommonDivisor(step as uint64, count as uint64);
    while divisor != 1
      invariant 1 <= step < count && divisor as int == Gcd(step, count)
      invariant CoprimeFrom(step, count) == PermutationStep(count, seed, mix)
      decreases if step == 1 then 0 else count - step
    {
      CoprimeFromStep(step, count);
      step := step + 1;
      if step == count {
        step := 1;
      }
      divisor := GreatestCommonDivisor(step as uint64, count as uint64);
    }
    CoprimeFromStep(step, count);
    start := mix(seed, MIX_INCREMENT) % count;
  }

  // ----- the stride walk -----

  /** The i-th position of a walk over `[0, count)` with a fixed stride. */
  function Visit(start: nat, step: nat, count: nat, i: nat): (r: nat)
    requires count > 0
    ensures r < count
  {
    (start + i * step) % count
  }

  lemma VisitNext(start: nat, step: nat, count: nat, i: nat)
    requires count > 0
    ensures (Visit(start, step, count, i) + step) % count == Visit(start, step, count, i + 1)
  {
    ModAdd(start + i * step, (start + i * step) % count, step, count);
    assert start + i * step + step == start + (i + 1) * step;
  }

  /** With a coprime step, or a single position, a walk of `count` steps visits no position twice. */
  lemma VisitInjective(start: nat, step: nat, count: nat, i: nat, j: nat)
    requires count > 0 && (count == 1 || Gcd(step, count) == 1)
    requires i < j < count
    ensures Visit(start, step, count, i) != Visit(start, step, count, j)
  {
    if Visit(start, step, count, i) == Visit(start, step, count, j) {
      SameVisit(start + i * step, start + j * step, count);
      assert start + j * step - (start + i * step) == (j - i) * step;
      if count > 1 {
        CoprimeCancels(step, count, j - i);
      }
      ModUnique(j - i, j - i, count, 0);
      assert false;
    }
  }

  lemma SameVisit(a: int, b: int, m: int)
    requires m > 0 && a % m == b % m
    ensures (b - a) % m == 0
  {
    ModAdd(b, a, -a, m);
    ModUnique(0, 0, m, 0);
  }
}
