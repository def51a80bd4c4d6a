/** The string searches of the Go library, on byte sequences: an absolute position, or -1. */
module Strings {
  import opened Text

  function IndexByte(s: seq<byte>, b: byte, from: nat): (r: int)
    requires from <= |s|
    ensures r == -1 || (from <= r < |s| && s[r] == b)
    ensures forall i :: from <= i < (if r == -1 then |s| else r) ==> s[i] != b
    decreases |s| - from
  {
    if from == |s| then -1 else if s[from] == b then from else IndexByte(s, b, from + 1)
  }

  lemma IndexByteIs(s: seq<byte>, b: byte, from: nat, r: nat)
    requires from <= r < |s| && s[r] == b && forall i :: from <= i < r ==> s[i] != b
    ensures IndexByte(s, b, from) == r
  {
  }

  lemma IndexByteNone(s: seq<byte>, b: byte, from: nat)
    requires from <= |s| && forall i :: from <= i < |s| ==> s[i] != b
    ensures IndexByte(s, b, from) == -1
  {
  }

  predicate Matches(s: seq<byte>, sep: seq<byte>, i: int) {
    0 <= i && i + |sep| <= |s| && s[i..i + |sep|] == sep
  }

  function Find(s: seq<byte>, sep: seq<byte>, from: nat): (r: int)
    ensures r == -1 || (from <= r && Matches(s, sep, r))
    ensures forall i :: from <= i && (r == -1 || i < r) ==> !Matches(s, sep, i)
    decreases |s| - from
  {
    if from + |sep| > |s| then -1 else if Matches(s, sep, from) then from else Find(s, sep, from + 1)
  }

  lemma FindIs(s: seq<byte>, sep: seq<byte>, from: nat, r: nat)
    requires from <= r && Matches(s, sep, r) && forall i :: from <= i < r ==> !Matches(s, sep, i)
    ensures Find(s, sep, from) == r
  {
  }

  lemma FindNone(s: seq<byte>, sep: seq<byte>, from: nat)
    requires forall i :: from <= i ==> !Matches(s, sep, i)
    ensures Find(s, sep, from) == -1
  {
  }
}
