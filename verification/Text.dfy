/** Bytes, and the lines of a text: the reference the pool is measured against. */
module Text {
  type byte = bv8

  const LF: byte := 10
  const CR: byte := 13

  /** The position just past the first line feed at or after `p`, or the end of the text. */
  function NextStart(text: seq<byte>, p: nat): (r: nat)
    requires p <= |text|
    ensures p <= r <= |text|
    ensures p < |text| ==> p < r
    decreases |text| - p
  {
    if p == |text| then p else if text[p] == LF then p + 1 else NextStart(text, p + 1)
  }

  /** A raw line without its line feed and one carriage return before it; verbatim if unterminated. */
  function Content(raw: seq<byte>): seq<byte> {
    var n := |raw|;
    if n == 0 || raw[n - 1] != LF then raw
    else if n >= 2 && raw[n - 2] == CR then raw[..n - 2]
    else raw[..n - 1]
  }

  function LineAt(text: seq<byte>, p: nat): seq<byte>
    requires p <= |text|
  {
    Content(text[p..NextStart(text, p)])
  }

  /** The lines that start in `[p, q)`, where `p` is the start of a line. */
  function LinesFrom(text: seq<byte>, p: nat, q: nat): seq<seq<byte>>
    requires p <= |text| && q <= |text|
    decreases |text| - p
  {
    if p >= q then [] else [LineAt(text, p)] + LinesFrom(text, NextStart(text, p), q)
  }

  function Lines(text: seq<byte>): seq<seq<byte>> {
    LinesFrom(text, 0, |text|)
  }

  /** The first start of a line at or after `p`, or the end of the text. */
  function FirstStart(text: seq<byte>, p: nat): (r: nat)
    requires p <= |text|
    ensures p <= r <= |text|
  {
    if p == 0 then 0 else NextStart(text, p - 1)
  }

  /** The lines whose first byte lies in `[lo, hi)`. */
  function LinesIn(text: seq<byte>, lo: nat, hi: nat): seq<seq<byte>>
    requires lo <= |text| && hi <= |text|
  {
    LinesFrom(text, FirstStart(text, lo), hi)
  }

  /** The defining equation of splitting: one line up to the first line feed, then the rest. */
  lemma LinesSplit(first: seq<byte>, rest: seq<byte>)
    requires LF !in first
    ensures Lines(first + [LF] + rest) == [Content(first + [LF])] + Lines(rest)
    ensures Lines(first) == if first == [] then [] else [first]
  {
    var text := first + [LF] + rest;
    FirstLine(first, rest);
    LinesShift(text, rest, |first| + 1, 0);
    NextStartIs(first, 0, |first|);
    assert first[0..|first|] == first;
    assert LinesFrom(first, |first|, |first|) == [];
  }

  lemma FirstLine(first: seq<byte>, rest: seq<byte>)
    requires LF !in first
    ensures var text := first + [LF] + rest;
      NextStart(text, 0) == |first| + 1 && LineAt(text, 0) == Content(first + [LF])
  {
    var text := first + [LF] + rest;
    NextStartIs(text, 0, |first| + 1);
    assert text[0..|first| + 1] == first + [LF];
  }

  lemma {:induction false} NextStartFound(text: seq<byte>, p: nat)
    requires p <= |text|
    ensures var r := NextStart(text, p);
      && (forall i :: p <= i < r - 1 ==> text[i] != LF)
      && (r == |text| || (r > p && text[r - 1] == LF))
    decreases |text| - p
  {
    if p < |text| && text[p] != LF {
      NextStartFound(text, p + 1);
    }
  }

  lemma {:induction false} NextStartBeyond(text: seq<byte>, p: nat, q: nat)
    requires p <= q <= |text|
    requires forall i :: p <= i < q - 1 ==> text[i] != LF
    ensures NextStart(text, p) >= q
    decreases q - p
  {
    if p + 1 < q {
      NextStartBeyond(text, p + 1, q);
    }
  }

  lemma {:induction false} NextStartIs(text: seq<byte>, p: nat, r: nat)
    requires p <= r <= |text| && (p == r ==> r == |text|)
    requires forall i :: p <= i < r - 1 ==> text[i] != LF
    requires r == |text| || (r > p && text[r - 1] == LF)
    ensures NextStart(text, p) == r
    decreases |text| - p
  {
    if p < |text| && text[p] != LF {
      NextStartIs(text, p + 1, r);
    }
  }

  lemma {:induction false} LinesShift(text: seq<byte>, tail: seq<byte>, k: nat, p: nat)
    requires k <= |text| && tail == text[k..] && p <= |tail|
    ensures LinesFrom(text, k + p, |text|) == LinesFrom(tail, p, |tail|)
    decreases |tail| - p
  {
    hide LineAt;
    if p < |tail| {
      var r := NextStart(tail, p);
      LineAtShift(text, k, p);
      LinesShift(text, tail, k, r);
      assert LinesFrom(text, k + p, |text|) == [LineAt(text, k + p)] + LinesFrom(text, k + r, |text|);
    }
  }

  lemma LineAtShift(text: seq<byte>, k: nat, p: nat)
    requires k + p <= |text|
    ensures NextStart(text, k + p) == k + NextStart(text[k..], p)
    ensures LineAt(text, k + p) == LineAt(text[k..], p)
  {
    NextStartShift(text, k, p);
    assert text[k..][p..NextStart(text[k..], p)] == text[k + p..NextStart(text, k + p)];
  }

  lemma {:induction false} NextStartShift(text: seq<byte>, k: nat, p: nat)
    requires k + p <= |text|
    ensures NextStart(text, k + p) == k + NextStart(text[k..], p)
    decreases |text| - k - p
  {
    if k + p < |text| && text[k + p] != LF {
      NextStartShift(text, k, p + 1);
    }
  }

  /** Every position inside a line sees the same next start. */
  lemma NextStartWithin(text: seq<byte>, a: nat, b: nat)
    requires a <= |text| && a <= b < NextStart(text, a)
    ensures NextStart(text, b) == NextStart(text, a)
  {
    NextStartFound(text, a);
    NextStartIs(text, b, NextStart(text, a));
  }

  /** Line ownership is a partition: cutting an interval cuts its lines. */
  lemma LinesInConcat(text: seq<byte>, lo: nat, mid: nat, hi: nat)
    requires lo <= mid <= hi <= |text|
    ensures LinesIn(text, lo, hi) == LinesIn(text, lo, mid) + LinesIn(text, mid, hi)
  {
    var p := FirstStart(text, lo);
    if p >= mid {
      if mid > lo > 0 {
        NextStartWithin(text, lo - 1, mid - 1);
      }
    } else {
      LinesFromConcat(text, p, mid, hi);
    }
  }

  lemma {:induction false} LinesFromConcat(text: seq<byte>, p: nat, mid: nat, hi: nat)
    requires p < mid <= hi <= |text|
    ensures LinesFrom(text, p, hi) == LinesFrom(text, p, mid) + LinesIn(text, mid, hi)
    decreases |text| - p
  {
    var e := NextStart(text, p);
    if e < mid {
      LinesFromConcat(text, e, mid, hi);
    } else {
      NextStartWithin(text, p, mid - 1);
      assert LinesFrom(text, e, mid) == [];
    }
  }

  /** Nothing starts strictly inside a line. */
  lemma NoLinesWithin(text: seq<byte>, p: nat, lo: nat, hi: nat)
    requires p <= |text| && p < lo <= hi <= NextStart(text, p)
    ensures LinesIn(text, lo, hi) == []
  {
    NextStartWithin(text, p, lo - 1);
  }
}
