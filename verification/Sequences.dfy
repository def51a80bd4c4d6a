/**
 Flattening, gathering and rearranging sequences: what a permuted schedule changes (order)
 and what it keeps (the multiset of elements).
 */
module Sequences {

  /** The concatenation of `f(x)` for every `x` of `keys`, in order. */
  ghost function Flat<T>(f: nat -> seq<T>, keys: seq<nat>): seq<T> {
    if keys == [] then [] else f(keys[0]) + Flat(f, keys[1..])
  }

  lemma {:induction false} FlatConcat<T>(f: nat -> seq<T>, a: seq<nat>, b: seq<nat>)
    ensures Flat(f, a + b) == Flat(f, a) + Flat(f, b)
  {
    if a == [] {
      assert a + b == b;
    } else {
      assert (a + b)[1..] == a[1..] + b;
      FlatConcat(f, a[1..], b);
    }
  }

  lemma FlatHead<T>(f: nat -> seq<T>, key: nat, keys: seq<nat>)
    ensures Flat(f, [key] + keys) == f(key) + Flat(f, keys)
  {
    assert ([key] + keys)[1..] == keys;
  }

  /** Rearranging the keys only rearranges the result. */
  lemma {:induction false} FlatPermutation<T>(f: nat -> seq<T>, a: seq<nat>, b: seq<nat>)
    requires multiset(a) == multiset(b)
    ensures multiset(Flat(f, a)) == multiset(Flat(f, b))
    decreases |a|
  {
    if a == [] {
      assert |multiset(b)| == 0;
    } else {
      assert a[0] in multiset(b);
      var i :| 0 <= i < |b| && b[i] == a[0];
      var head, tail := b[..i], b[i + 1..];
      MultisetSplit(b, i);
      MultisetSplit(a, 0);
      assert a[..0] + a[1..] == a[1..];
      FlatPermutation(f, a[1..], head + tail);
      FlatConcat(f, head, tail);
      FlatConcat(f, head, [b[i]] + tail);
      assert ([b[i]] + tail)[1..] == tail;
    }
  }

  lemma MultisetSplit<T>(b: seq<T>, i: nat)
    requires i < |b|
    ensures b == b[..i] + ([b[i]] + b[i + 1..])
    ensures multiset(b[..i] + b[i + 1..]) == multiset(b) - multiset{b[i]}
  {
    assert b == b[..i] + ([b[i]] + b[i + 1..]);
    assert multiset(b) == multiset(b[..i]) + (multiset{b[i]} + multiset(b[i + 1..]));
  }

  /** Rearranging each part of the result only rearranges the result. */
  lemma {:induction false} FlatPointwise<T>(f: nat -> seq<T>, g: nat -> seq<T>, keys: seq<nat>)
    requires forall k :: k in keys ==> multiset(f(k)) == multiset(g(k))
    ensures multiset(Flat(f, keys)) == multiset(Flat(g, keys))
  {
    if keys != [] {
      assert keys[0] in keys;
      FlatPointwise(f, g, keys[1..]);
    }
  }

  lemma {:induction false} FlatEqual<T>(f: nat -> seq<T>, g: nat -> seq<T>, keys: seq<nat>)
    requires forall k :: k in keys ==> f(k) == g(k)
    ensures Flat(f, keys) == Flat(g, keys)
  {
    if keys != [] {
      assert keys[0] in keys;
      FlatEqual(f, g, keys[1..]);
    }
  }

  ghost function Iota(lo: nat, hi: nat): seq<nat>
    requires lo <= hi
  {
    seq(hi - lo, i requires 0 <= i < hi - lo => lo + i)
  }

  /** A sequence without repetitions whose elements fill `[lo, hi)` is a rearrangement of it. */
  lemma RearrangesIota(idx: seq<nat>, lo: nat, hi: nat)
    requires lo <= hi && |idx| == hi - lo
    requires forall i :: 0 <= i < |idx| ==> lo <= idx[i] < hi
    requires forall i, j :: 0 <= i < j < |idx| ==> idx[i] != idx[j]
    ensures multiset(idx) == multiset(Iota(lo, hi))
  {
    var image, whole := Elements(idx), Elements(Iota(lo, hi));
    DistinctCardinality(idx);
    DistinctCardinality(Iota(lo, hi));
    forall x | x in image
      ensures x in whole
    {
      assert Iota(lo, hi)[x - lo] == x;
    }
    SameCardinality(image, whole);
    forall x: nat
      ensures multiset(idx)[x] == multiset(Iota(lo, hi))[x]
    {
      DistinctMultiplicity(idx, x);
      DistinctMultiplicity(Iota(lo, hi), x);
      assert x in image <==> x in idx;
      assert x in whole <==> x in Iota(lo, hi);
    }
  }

  ghost function Elements(s: seq<nat>): set<nat> {
    set x | x in s
  }

  lemma SameCardinality(a: set<nat>, b: set<nat>)
    requires a <= b && |a| == |b|
    ensures a == b
  {
    assert b == a + (b - a);
    assert |b - a| == 0;
  }

  lemma {:induction false} DistinctCardinality(s: seq<nat>)
    requires forall i, j :: 0 <= i < j < |s| ==> s[i] != s[j]
    ensures |Elements(s)| == |s|
  {
    if s != [] {
      var rest := s[1..];
      DistinctCardinality(rest);
      assert Elements(s) == Elements(rest) + {s[0]};
    }
  }

  lemma {:induction false} DistinctMultiplicity(s: seq<nat>, x: nat)
    requires forall i, j :: 0 <= i < j < |s| ==> s[i] != s[j]
    ensures multiset(s)[x] == if x in s then 1 else 0
  {
    if s != [] {
      var rest := s[1..];
      assert s == [s[0]] + rest;
      assert x in s <==> x == s[0] || x in rest;
      assert s[0] !in rest;
      DistinctMultiplicity(rest, x);
    }
  }

  // ----- gathering -----

  /** The elements of `s` at the given positions. */
  function Gather<T>(s: seq<T>, idx: seq<nat>): (r: seq<T>)
    requires forall i :: 0 <= i < |idx| ==> idx[i] < |s|
    ensures |r| == |idx|
  {
    seq(|idx|, i requires 0 <= i < |idx| => s[idx[i]])
  }

  lemma GatherPermutation<T>(s: seq<T>, idx: seq<nat>)
    requires |idx| == |s|
    requires forall i :: 0 <= i < |idx| ==> idx[i] < |s|
    requires forall i, j :: 0 <= i < j < |idx| ==> idx[i] != idx[j]
    ensures multiset(Gather(s, idx)) == multiset(s)
  {
    var f: nat -> seq<T> := (i: nat) => if i < |s| then [s[i]] else [];
    RearrangesIota(idx, 0, |s|);
    FlatPermutation(f, idx, Iota(0, |s|));
    FlatSingletons(f, s, idx);
    FlatSingletons(f, s, Iota(0, |s|));
    assert Gather(s, Iota(0, |s|)) == s;
  }

  lemma {:induction false} FlatSingletons<T>(f: nat -> seq<T>, s: seq<T>, idx: seq<nat>)
    requires forall i :: 0 <= i < |idx| ==> idx[i] < |s|
    requires forall i: nat | i < |s| :: f(i) == [s[i]]
    ensures Flat(f, idx) == Gather(s, idx)
  {
    if idx != [] {
      FlatSingletons(f, s, idx[1..]);
      assert f(idx[0]) == [s[idx[0]]];
      assert Gather(s, idx) == [s[idx[0]]] + Gather(s, idx[1..]);
    }
  }

  // ----- distinct elements -----

  ghost predicate Distinct<T>(s: seq<T>) {
    forall i, j :: 0 <= i < j < |s| ==> s[i] != s[j]
  }

  lemma DistinctHead<T>(x: T, rest: seq<T>)
    requires Distinct(rest) && x !in rest
    ensures Distinct([x] + rest)
  {
    forall i, j | 0 <= i < j < |rest| + 1
      ensures ([x] + rest)[i] != ([x] + rest)[j]
    {
      assert ([x] + rest)[j] == rest[j - 1];
    }
  }

  lemma RepeatsCount<T>(s: seq<T>, i: nat, j: nat)
    requires i < j < |s| && s[i] == s[j]
    ensures multiset(s)[s[i]] >= 2
  {
    assert s == s[..i] + [s[i]] + s[i + 1..];
    assert s[i + 1..][j - i - 1] == s[j];
    assert s[i] in multiset(s[i + 1..]);
  }

  lemma {:induction false} IotaCount(lo: nat, hi: nat, x: nat)
    requires lo <= hi
    ensures multiset(Iota(lo, hi))[x] <= if lo <= x < hi then 1 else 0
    decreases hi
  {
    if lo < hi {
      IotaCount(lo, hi - 1, x);
      assert Iota(lo, hi) == Iota(lo, hi - 1) + [hi - 1];
    }
  }

  /** A part of an interval has no repetitions and stays in it. */
  lemma PartDistinct(part: seq<nat>, lo: nat, hi: nat)
    requires lo <= hi && multiset(part) <= multiset(Iota(lo, hi))
    ensures Distinct(part) && forall x :: x in part ==> lo <= x < hi
  {
    forall i, j | 0 <= i < j < |part|
      ensures part[i] != part[j]
    {
      if part[i] == part[j] {
        RepeatsCount(part, i, j);
        IotaCount(lo, hi, part[i]);
        assert false;
      }
    }
    forall x | x in part
      ensures lo <= x < hi
    {
      assert multiset(part)[x] >= 1;
      IotaCount(lo, hi, x);
    }
  }

  /** What `Flat` makes of one key is part of what it makes of all of them. */
  lemma FlatPart<T>(f: nat -> seq<T>, keys: seq<nat>, i: nat)
    requires i < |keys|
    ensures multiset(f(keys[i])) <= multiset(Flat(f, keys))
  {
    hide Flat;
    assert keys == keys[..i] + ([keys[i]] + keys[i + 1..]);
    FlatConcat(f, keys[..i], [keys[i]] + keys[i + 1..]);
    FlatHead(f, keys[i], keys[i + 1..]);
  }

  lemma SuffixPart<T>(s: seq<T>, n: nat)
    requires n <= |s|
    ensures multiset(s[n..]) <= multiset(s)
  {
    assert s == s[..n] + s[n..];
  }

  ghost function Leading<T>(s: seq<T>, n: nat): seq<T> {
    if |s| <= n then s else s[..n]
  }

  lemma LeadingPart<T>(s: seq<T>, part: seq<T>, rest: seq<T>, n: nat)
    requires s == part + rest && Distinct(s) && |part| <= n && (|part| == n || rest == [])
    ensures part == Leading(s, n) && Distinct(part) && forall x :: x in part ==> x in s
  {
    forall i, j | 0 <= i < j < |part|
      ensures part[i] != part[j]
    {
      assert s[i] == part[i] && s[j] == part[j];
    }
  }

  // ----- slices of slices -----

  lemma SliceOfPrefix<T>(s: seq<T>, n: nat, a: nat, b: nat)
    requires a <= b <= n <= |s|
    ensures s[..n][a..b] == s[a..b]
  {
  }

  lemma SliceOfSuffix<T>(s: seq<T>, n: nat, a: nat, b: nat)
    requires a <= b <= n <= |s|
    ensures s[|s| - n..][a..b] == s[|s| - n + a..|s| - n + b]
  {
  }
}
