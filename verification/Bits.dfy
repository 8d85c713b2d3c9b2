/** Facts that tie eight-bit vectors to the numbers below 256. */
module BitVectors {
  lemma OctetRoundTrip(b: int)
    requires 0 <= b < 256
    ensures (b as bv8) as int == b
  {
    assert b % 256 == b;
  }

  lemma BitsRoundTrip(v: bv8)
    ensures (v as int) as bv8 == v
  {}

  lemma LowSixBits(b: bv8)
    ensures (b & 0x3F) as int == b as int % 64
  {}

  lemma SmallNibble(v: bv8)
    requires v as int < 16
    ensures v < 16
  {}

  lemma NibbleBits(hi: bv8, lo: bv8)
    requires hi as int < 16 && lo as int < 16
    ensures ((hi << 4) | lo) as int == 16 * (hi as int) + lo as int
  {
    SmallNibble(hi);
    SmallNibble(lo);
  }
}

/** The bit operations on octets that the wire readers use, with their arithmetic meaning. */
module Bits {
  import opened Bytes
  import opened BitVectors

  /** `len & 0xC0`. */
  function TopTwo(len: Byte): (tag: Byte)
    ensures tag == 0 <==> len < 64
    ensures tag == 0xC0 <==> len >= 192
  {
    (len as bv8 & 0xC0) as Byte
  }

  /** `len & 0x3F`. */
  function LowSix(len: Byte): (low: Byte)
    ensures low == len % 64
  {
    OctetRoundTrip(len);
    LowSixBits(len as bv8);
    (len as bv8 & 0x3F) as Byte
  }

  /** `(hi << 4) | lo` on a u8. */
  function Nibbles(hi: nat, lo: nat): (b: Byte)
    requires hi < 16 && lo < 16
    ensures b == 16 * hi + lo
  {
    OctetRoundTrip(hi);
    OctetRoundTrip(lo);
    NibbleBits(hi as bv8, lo as bv8);
    ((hi as bv8 << 4) | lo as bv8) as Byte
  }
}
