/** Big-endian numbers: what shifts by whole bytes and byte masks do to a word of ASCII digits. */
module BigEndian {
  import opened Text

  function Pow256(k: nat): (p: nat)
    ensures p >= 1
  {
    if k == 0 then 1 else 256 * Pow256(k - 1)
  }

  /** The number that the bytes spell, most significant first. */
  function Big(s: seq<byte>): nat {
    if s == [] then 0 else 256 * Big(s[..|s| - 1]) + s[|s| - 1] as nat
  }

  lemma {:induction false} BigBound(s: seq<byte>)
    ensures Big(s) < Pow256(|s|)
  {
    if s != [] {
      BigBound(s[..|s| - 1]);
    }
  }

  lemma {:induction false} BigAppend(a: seq<byte>, b: seq<byte>)
    ensures Big(a + b) == Big(a) * Pow256(|b|) + Big(b)
    decreases |b|
  {
    if b == [] {
      assert a + b == a;
    } else {
      var c := b[..|b| - 1];
      assert (a + b)[..|a + b| - 1] == a + c;
      BigAppend(a, c);
      assert Big(a + b) == 256 * (Big(a) * Pow256(|c|) + Big(c)) + b[|b| - 1] as nat;
      Scaled(Big(a), Pow256(|c|));
    }
  }

  lemma Scaled(x: nat, p: nat)
    ensures 256 * (x * p) == x * (256 * p)
  {
  }

  lemma SplitQuotient(x: nat, p: nat, r: nat)
    requires r < p
    ensures (x * p + r) / p == x && (x * p + r) % p == r
  {
    var y := x * p + r;
    assert y == (y / p) * p + y % p;
    assert (y / p - x) * p == r - y % p;
    Within(y / p - x, p, r - y % p);
  }

  lemma Within(d: int, p: nat, e: int)
    requires d * p == e && -(p as int) < e < p
    ensures d == 0
  {
  }

  /** Shifting right drops bytes from the end; masking keeps bytes at the end. */
  lemma ShiftAndMask(s: seq<byte>, k: nat)
    requires k <= |s|
    ensures Big(s) / Pow256(k) == Big(s[..|s| - k]) && Big(s) % Pow256(k) == Big(s[|s| - k..])
  {
    hide Big;
    hide Pow256;
    var a, b := s[..|s| - k], s[|s| - k..];
    assert s == a + b;
    BigAppend(a, b);
    BigBound(b);
    SplitQuotient(Big(a), Pow256(k), Big(b));
  }

  function Zeros(k: nat): (z: seq<byte>)
    ensures |z| == k
  {
    seq(k, i => 0)
  }

  lemma {:induction false} BigZeros(k: nat)
    ensures Big(Zeros(k)) == 0
  {
    if k > 0 {
      assert Zeros(k)[..k - 1] == Zeros(k - 1);
      BigZeros(k - 1);
    }
  }

  /** Shifting left in a word of |s| bytes drops bytes from the front and appends zeros. */
  lemma ShiftLeft(s: seq<byte>, k: nat)
    requires k <= |s|
    ensures (Big(s) * Pow256(k)) % Pow256(|s|) == Big(s[k..] + Zeros(k))
  {
    BigZeros(k);
    BigAppend(s, Zeros(k));
    var all := s + Zeros(k);
    assert all[|all| - |s|..] == s[k..] + Zeros(k);
    ShiftAndMask(all, |s|);
  }

  /** A text that begins with a byte from 2 up spells no number below 2. */
  lemma {:induction false} BigLarge(s: seq<byte>)
    requires s != [] && s[0] >= 2
    ensures Big(s) >= 2
  {
    if |s| > 1 {
      BigLarge(s[..|s| - 1]);
    }
  }
}
