/** Octets as numbers, and their big-endian groupings. */
module Bytes {
  type Byte = x: int | 0 <= x < 256

  type Octets = seq<Byte>

  /** 256 to the power n. */
  function Pow256(n: nat): (p: nat)
    ensures p > 0
  {
    if n == 0 then 1 else 256 * Pow256(n - 1)
  }

  /** The n low-order octets of `value`, most significant first. */
  function BigEndian(value: nat, n: nat): (s: Octets)
    ensures |s| == n
  {
    if n == 0 then [] else BigEndian(value / 256, n - 1) + [value % 256]
  }

  /** The number a big-endian octet string denotes. */
  function FromBigEndian(s: Octets): nat {
    if s == [] then 0 else 256 * FromBigEndian(s[..|s| - 1]) + s[|s| - 1]
  }

  /** Writing a number in n octets and reading it back keeps it modulo 256^n. */
  lemma {:induction false} BigEndianRoundTrip(value: nat, n: nat)
    requires value < Pow256(n)
    ensures FromBigEndian(BigEndian(value, n)) == value
  {
    if n != 0 {
      var s := BigEndian(value, n);
      assert s[..|s| - 1] == BigEndian(value / 256, n - 1);
      BigEndianRoundTrip(value / 256, n - 1);
    }
  }

  function U16(hi: Byte, lo: Byte): (r: nat)
    ensures r < 0x1_0000
  {
    256 * hi + lo
  }

  /** A 16-bit field on the wire; the value is truncated the way an `as u16` cast truncates it. */
  function PutU16(value: nat): (s: Octets)
    ensures |s| == 2
    ensures U16(s[0], s[1]) == value % 0x1_0000
  {
    [value / 256 % 256, value % 256]
  }

  function Repeat<T>(x: T, n: nat): (s: seq<T>)
    ensures |s| == n
    ensures forall i :: 0 <= i < n ==> s[i] == x
  {
    if n == 0 then [] else Repeat(x, n - 1) + [x]
  }
}
