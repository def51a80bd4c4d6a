/** Eight bytes loaded as one little-endian 64-bit word, for tests on eight bytes at a time. */
module Words {
  import opened Text

  const HIGH_BITS: bv64 := 0x8080808080808080
  const LOW_SEVEN: bv64 := 0x7f7f7f7f7f7f7f7f

  function Pack(b0: byte, b1: byte, b2: byte, b3: byte, b4: byte, b5: byte, b6: byte, b7: byte): bv64 {
    (b0 as bv64) | (b1 as bv64 << 8) | (b2 as bv64 << 16) | (b3 as bv64 << 24) |
    (b4 as bv64 << 32) | (b5 as bv64 << 40) | (b6 as bv64 << 48) | (b7 as bv64 << 56)
  }

  function Load64(s: seq<byte>, i: nat): bv64
    requires i + 8 <= |s|
  {
    Pack(s[i], s[i + 1], s[i + 2], s[i + 3], s[i + 4], s[i + 5], s[i + 6], s[i + 7])
  }

  function Load32(s: seq<byte>, i: nat): bv64
    requires i + 4 <= |s|
  {
    (s[i] as bv64) | (s[i + 1] as bv64 << 8) | (s[i + 2] as bv64 << 16) | (s[i + 3] as bv64 << 24)
  }
}
