/** Tests on eight bytes at a time: what each word expression says about the bytes of the word. */
module Swar {
  import opened Text
  import opened Words

  /** No lane is marked. */
  predicate Clear(x: bv64) {
    x & 0x8080808080808080 == 0
  }

  lemma ClearOr(x: bv64, y: bv64, z: bv64)
    requires z == x | y
    ensures Clear(z) <==> Clear(x) && Clear(y)
  {
  }

  // ----- printable bytes -----

  predicate Printable(b: byte) {
    0x20 <= b <= 0x7e
  }

  function UnprintableBytes(w: bv64): bv64 {
    (w - 0x2020202020202020) | w | (w + 0x0101010101010101)
  }

  lemma PrintableWord(b0: byte, b1: byte, b2: byte, b3: byte, b4: byte, b5: byte, b6: byte, b7: byte)
    requires Printable(b0) && Printable(b1) && Printable(b2) && Printable(b3)
    requires Printable(b4) && Printable(b5) && Printable(b6) && Printable(b7)
    ensures Clear(UnprintableBytes(Pack(b0, b1, b2, b3, b4, b5, b6, b7)))
  {
  }

  /** A borrow or carry leaves the lowest unprintable byte's own mark in place. */
  lemma UnprintableWord(b0: byte, b1: byte, b2: byte, b3: byte, b4: byte, b5: byte, b6: byte, b7: byte)
    requires Clear(UnprintableBytes(Pack(b0, b1, b2, b3, b4, b5, b6, b7)))
    ensures Printable(b0) && Printable(b1) && Printable(b2) && Printable(b3)
    ensures Printable(b4) && Printable(b5) && Printable(b6) && Printable(b7)
  {
  }

  // ----- host names -----

  const DOT: byte := 0x2e
  const HYPHEN: byte := 0x2d

  predicate Edge(b: byte) {
    b == HYPHEN || b == DOT
  }

  predicate Digit(b: byte) {
    0x30 <= b <= 0x39
  }

  predicate Letter(b: byte) {
    0x41 <= b <= 0x5a || 0x61 <= b <= 0x7a
  }

  predicate NameByte(b: byte) {
    Edge(b) || Digit(b) || Letter(b)
  }

  /** A dot beside a dot or a hyphen: an empty label, or one that begins or ends with a hyphen. */
  predicate Clash(a: byte, b: byte) {
    Edge(a) && Edge(b) && (a == DOT || b == DOT)
  }

  function EdgeBytes(w: bv64): bv64 {
    (w + 0x5353535353535353) & (0xaeaeaeaeaeaeaeae - w)
  }

  function DigitBytes(w: bv64): bv64 {
    (w + 0x5050505050505050) & (0xb9b9b9b9b9b9b9b9 - w)
  }

  function LetterBytes(w: bv64): bv64 {
    var folded := w | 0x2020202020202020;
    (folded + 0x1f1f1f1f1f1f1f1f) & (0xfafafafafafafafa - folded)
  }

  function DotBytes(w: bv64, edges: bv64): bv64 {
    edges & (w << 6)
  }

  function InvalidNameBytes(w: bv64, ends: bv64): bv64 {
    Invalid(w, EdgeBytes(w), DigitBytes(w), LetterBytes(w), ends)
  }

  function Invalid(w: bv64, edges: bv64, digits: bv64, letters: bv64, ends: bv64): bv64 {
    var dots := DotBytes(w, edges);
    !(edges | digits | letters) | w | (edges & ((dots << 8) | (dots >> 8) | ends))
  }

  // Without bytes from 0x80 up, nothing carries from one lane into the next.

  lemma EdgeLanes(b0: byte, b1: byte, b2: byte, b3: byte, b4: byte, b5: byte, b6: byte, b7: byte, w: bv64, e: bv64)
    requires w == Pack(b0, b1, b2, b3, b4, b5, b6, b7) && Clear(w) && e == EdgeBytes(w)
    ensures (e & 0x80 != 0 <==> Edge(b0)) && (e & 0x8000 != 0 <==> Edge(b1))
    ensures (e & 0x800000 != 0 <==> Edge(b2)) && (e & 0x80000000 != 0 <==> Edge(b3))
    ensures (e & 0x8000000000 != 0 <==> Edge(b4)) && (e & 0x800000000000 != 0 <==> Edge(b5))
    ensures (e & 0x80000000000000 != 0 <==> Edge(b6)) && (e & 0x8000000000000000 != 0 <==> Edge(b7))
  {
  }

  /** Among hyphens and dots, bit 1 of the byte tells the dots. */
  lemma DotLanes(b0: byte, b1: byte, b2: byte, b3: byte, b4: byte, b5: byte, b6: byte, b7: byte, w: bv64, dots: bv64)
    requires w == Pack(b0, b1, b2, b3, b4, b5, b6, b7) && Clear(w) && dots == DotBytes(w, EdgeBytes(w))
    ensures (dots & 0x80 != 0 <==> b0 == DOT) && (dots & 0x8000 != 0 <==> b1 == DOT)
    ensures (dots & 0x800000 != 0 <==> b2 == DOT) && (dots & 0x80000000 != 0 <==> b3 == DOT)
    ensures (dots & 0x8000000000 != 0 <==> b4 == DOT) && (dots & 0x800000000000 != 0 <==> b5 == DOT)
    ensures (dots & 0x80000000000000 != 0 <==> b6 == DOT) && (dots & 0x8000000000000000 != 0 <==> b7 == DOT)
  {
  }

  lemma DigitLanes(b0: byte, b1: byte, b2: byte, b3: byte, b4: byte, b5: byte, b6: byte, b7: byte, w: bv64, d: bv64)
    requires w == Pack(b0, b1, b2, b3, b4, b5, b6, b7) && Clear(w) && d == DigitBytes(w)
    ensures (d & 0x80 != 0 <==> Digit(b0)) && (d & 0x8000 != 0 <==> Digit(b1))
    ensures (d & 0x800000 != 0 <==> Digit(b2)) && (d & 0x80000000 != 0 <==> Digit(b3))
    ensures (d & 0x8000000000 != 0 <==> Digit(b4)) && (d & 0x800000000000 != 0 <==> Digit(b5))
    ensures (d & 0x80000000000000 != 0 <==> Digit(b6)) && (d & 0x8000000000000000 != 0 <==> Digit(b7))
  {
  }

  lemma LetterLanes(b0: byte, b1: byte, b2: byte, b3: byte, b4: byte, b5: byte, b6: byte, b7: byte, w: bv64, l: bv64)
    requires w == Pack(b0, b1, b2, b3, b4, b5, b6, b7) && Clear(w) && l == LetterBytes(w)
    ensures (l & 0x80 != 0 <==> Letter(b0)) && (l & 0x8000 != 0 <==> Letter(b1))
    ensures (l & 0x800000 != 0 <==> Letter(b2)) && (l & 0x80000000 != 0 <==> Letter(b3))
    ensures (l & 0x8000000000 != 0 <==> Letter(b4)) && (l & 0x800000000000 != 0 <==> Letter(b5))
    ensures (l & 0x80000000000000 != 0 <==> Letter(b6)) && (l & 0x8000000000000000 != 0 <==> Letter(b7))
  {
  }

  lemma LanesNamed(e: bv64, d: bv64, l: bv64)
    ensures AllNamed(e, d, l) <==>
      && (e & 0x80 != 0 || d & 0x80 != 0 || l & 0x80 != 0)
      && (e & 0x8000 != 0 || d & 0x8000 != 0 || l & 0x8000 != 0)
      && (e & 0x800000 != 0 || d & 0x800000 != 0 || l & 0x800000 != 0)
      && (e & 0x80000000 != 0 || d & 0x80000000 != 0 || l & 0x80000000 != 0)
      && (e & 0x8000000000 != 0 || d & 0x8000000000 != 0 || l & 0x8000000000 != 0)
      && (e & 0x800000000000 != 0 || d & 0x800000000000 != 0 || l & 0x800000000000 != 0)
      && (e & 0x80000000000000 != 0 || d & 0x80000000000000 != 0 || l & 0x80000000000000 != 0)
      && (e & 0x8000000000000000 != 0 || d & 0x8000000000000000 != 0 || l & 0x8000000000000000 != 0)
  {
  }

  /** A byte from 0x80 up is no name byte, and its own lane says so. */
  lemma NameBytesWord(b0: byte, b1: byte, b2: byte, b3: byte, b4: byte, b5: byte, b6: byte, b7: byte, w: bv64,
                      e: bv64, d: bv64, l: bv64)
    requires w == Pack(b0, b1, b2, b3, b4, b5, b6, b7) && e == EdgeBytes(w) && d == DigitBytes(w) && l == LetterBytes(w)
    ensures Clear(w) && AllNamed(e, d, l) <==>
      && NameByte(b0) && NameByte(b1) && NameByte(b2) && NameByte(b3)
      && NameByte(b4) && NameByte(b5) && NameByte(b6) && NameByte(b7)
  {
    if Clear(w) {
      EdgeLanes(b0, b1, b2, b3, b4, b5, b6, b7, w, e);
      DigitLanes(b0, b1, b2, b3, b4, b5, b6, b7, w, d);
      LetterLanes(b0, b1, b2, b3, b4, b5, b6, b7, w, l);
      hide EdgeBytes;
      hide DigitBytes;
      hide LetterBytes;
      hide Pack;
      hide AllNamed;
      LanesNamed(e, d, l);
    }
  }

  /** Every lane is marked in one of the three words. */
  predicate AllNamed(e: bv64, d: bv64, l: bv64) {
    (e | d | l) & 0x8080808080808080 == 0x8080808080808080
  }

  predicate NoneAbove(e: bv64, dots: bv64) {
    (e & (dots << 8)) & 0x8080808080808080 == 0
  }

  predicate NoneBelow(e: bv64, dots: bv64) {
    (e & (dots >> 8)) & 0x8080808080808080 == 0
  }

  predicate NoneAt(e: bv64, ends: bv64) {
    (e & ends) & 0x8080808080808080 == 0
  }

  lemma LanesAbove(e: bv64, dots: bv64)
    ensures NoneAbove(e, dots) <==>
      && !(e & 0x8000 != 0 && dots & 0x80 != 0)
      && !(e & 0x800000 != 0 && dots & 0x8000 != 0)
      && !(e & 0x80000000 != 0 && dots & 0x800000 != 0)
      && !(e & 0x8000000000 != 0 && dots & 0x80000000 != 0)
      && !(e & 0x800000000000 != 0 && dots & 0x8000000000 != 0)
      && !(e & 0x80000000000000 != 0 && dots & 0x800000000000 != 0)
      && !(e & 0x8000000000000000 != 0 && dots & 0x80000000000000 != 0)
  {
  }

  lemma LanesBelow(e: bv64, dots: bv64)
    ensures NoneBelow(e, dots) <==>
      && !(e & 0x80 != 0 && dots & 0x8000 != 0)
      && !(e & 0x8000 != 0 && dots & 0x800000 != 0)
      && !(e & 0x800000 != 0 && dots & 0x80000000 != 0)
      && !(e & 0x80000000 != 0 && dots & 0x8000000000 != 0)
      && !(e & 0x8000000000 != 0 && dots & 0x800000000000 != 0)
      && !(e & 0x800000000000 != 0 && dots & 0x80000000000000 != 0)
      && !(e & 0x80000000000000 != 0 && dots & 0x8000000000000000 != 0)
  {
  }

  lemma LanesAt(e: bv64, ends: bv64)
    ensures NoneAt(e, ends) <==>
      && !(e & 0x80 != 0 && ends & 0x80 != 0)
      && !(e & 0x8000 != 0 && ends & 0x8000 != 0)
      && !(e & 0x800000 != 0 && ends & 0x800000 != 0)
      && !(e & 0x80000000 != 0 && ends & 0x80000000 != 0)
      && !(e & 0x8000000000 != 0 && ends & 0x8000000000 != 0)
      && !(e & 0x800000000000 != 0 && ends & 0x800000000000 != 0)
      && !(e & 0x80000000000000 != 0 && ends & 0x80000000000000 != 0)
      && !(e & 0x8000000000000000 != 0 && ends & 0x8000000000000000 != 0)
  {
  }

  lemma InvalidParts(w: bv64, e: bv64, d: bv64, l: bv64, dots: bv64, ends: bv64, r: bv64)
    requires dots == DotBytes(w, e) && r == Invalid(w, e, d, l, ends)
    ensures Clear(r) <==>
        && Clear(w) && AllNamed(e, d, l) && NoneAbove(e, dots) && NoneBelow(e, dots) && NoneAt(e, ends)
  {
  }

  /** The test on a word of a host name; `ends` marks the bytes that begin or end the name. */
  lemma NameWord(b0: byte, b1: byte, b2: byte, b3: byte, b4: byte, b5: byte, b6: byte, b7: byte, w: bv64, ends: bv64)
    requires w == Pack(b0, b1, b2, b3, b4, b5, b6, b7)
    ensures Clear(InvalidNameBytes(w, ends)) <==>
      && NameByte(b0) && NameByte(b1) && NameByte(b2) && NameByte(b3)
      && NameByte(b4) && NameByte(b5) && NameByte(b6) && NameByte(b7)
      && !Clash(b0, b1) && !Clash(b1, b2) && !Clash(b2, b3) && !Clash(b3, b4)
      && !Clash(b4, b5) && !Clash(b5, b6) && !Clash(b6, b7)
      && (ends & 0x80 != 0 ==> !Edge(b0)) && (ends & 0x8000 != 0 ==> !Edge(b1))
      && (ends & 0x800000 != 0 ==> !Edge(b2)) && (ends & 0x80000000 != 0 ==> !Edge(b3))
      && (ends & 0x8000000000 != 0 ==> !Edge(b4)) && (ends & 0x800000000000 != 0 ==> !Edge(b5))
      && (ends & 0x80000000000000 != 0 ==> !Edge(b6)) && (ends & 0x8000000000000000 != 0 ==> !Edge(b7))
  {
    hide EdgeBytes;
    hide DigitBytes;
    hide LetterBytes;
    hide DotBytes;
    hide Invalid;
    hide Pack;
    hide NameByte;
    hide Clear;
    hide AllNamed;
    hide NoneAbove;
    hide NoneBelow;
    hide NoneAt;
    InvalidParts(w, EdgeBytes(w), DigitBytes(w), LetterBytes(w), DotBytes(w, EdgeBytes(w)), ends,
      InvalidNameBytes(w, ends));
    var e := EdgeBytes(w);
    NameBytesWord(b0, b1, b2, b3, b4, b5, b6, b7, w, e, DigitBytes(w), LetterBytes(w));
    if Clear(w) {
      var dots := DotBytes(w, e);
      EdgeLanes(b0, b1, b2, b3, b4, b5, b6, b7, w, e);
      DotLanes(b0, b1, b2, b3, b4, b5, b6, b7, w, dots);
      LanesAbove(e, dots);
      LanesBelow(e, dots);
      LanesAt(e, ends);
    }
  }
}
