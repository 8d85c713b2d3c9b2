/** SHA-256 as FIPS 180-4 defines it: a recursion over 64-octet blocks (sections 4.1.2, 4.2.2, 5.1.1, 5.3.3, 6.2). */
module Fips180 {
  import opened Bytes

  type Word = bv32

  /** The working variables a..h, also the shape of the chaining value. */
  datatype Vars = Vars(a: Word, b: Word, c: Word, d: Word, e: Word, f: Word, g: Word, h: Word)

  /** Addition modulo 2^32. */
  ghost function Add(x: Word, y: Word): Word { x + y }

  ghost function RotR(x: Word, n: nat): Word
    requires 0 < n < 32
  {
    (x >> n) | (x << (32 - n))
  }

  ghost function Ch(x: Word, y: Word, z: Word): Word { (x & y) ^ (!x & z) }

  ghost function Maj(x: Word, y: Word, z: Word): Word { (x & y) ^ (x & z) ^ (y & z) }

  ghost function BigSigma0(x: Word): Word { RotR(x, 2) ^ RotR(x, 13) ^ RotR(x, 22) }

  ghost function BigSigma1(x: Word): Word { RotR(x, 6) ^ RotR(x, 11) ^ RotR(x, 25) }

  ghost function SmallSigma0(x: Word): Word { RotR(x, 7) ^ RotR(x, 18) ^ (x >> 3) }

  ghost function SmallSigma1(x: Word): Word { RotR(x, 17) ^ RotR(x, 19) ^ (x >> 10) }

  // The round constants of section 4.2.2, sixteen at a time.

  const K0: seq<Word> := [
    0x428a2f98, 0x71374491, 0xb5c0fbcf, 0xe9b5dba5, 0x3956c25b, 0x59f111f1, 0x923f82a4, 0xab1c5ed5,
    0xd807aa98, 0x12835b01, 0x243185be, 0x550c7dc3, 0x72be5d74, 0x80deb1fe, 0x9bdc06a7, 0xc19bf174]

  const K16: seq<Word> := [
    0xe49b69c1, 0xefbe4786, 0x0fc19dc6, 0x240ca1cc, 0x2de92c6f, 0x4a7484aa, 0x5cb0a9dc, 0x76f988da,
    0x983e5152, 0xa831c66d, 0xb00327c8, 0xbf597fc7, 0xc6e00bf3, 0xd5a79147, 0x06ca6351, 0x14292967]

  const K32: seq<Word> := [
    0x27b70a85, 0x2e1b2138, 0x4d2c6dfc, 0x53380d13, 0x650a7354, 0x766a0abb, 0x81c2c92e, 0x92722c85,
    0xa2bfe8a1, 0xa81a664b, 0xc24b8b70, 0xc76c51a3, 0xd192e819, 0xd6990624, 0xf40e3585, 0x106aa070]

  const K48: seq<Word> := [
    0x19a4c116, 0x1e376c08, 0x2748774c, 0x34b0bcb5, 0x391c0cb3, 0x4ed8aa4a, 0x5b9cca4f, 0x682e6ff3,
    0x748f82ee, 0x78a5636f, 0x84c87814, 0x8cc70208, 0x90befffa, 0xa4506ceb, 0xbef9a3f7, 0xc67178f2]

  const K: seq<Word> := K0 + K16 + K32 + K48

  const H0 := Vars(0x6a09e667, 0xbb67ae85, 0x3c6ef372, 0xa54ff53a, 0x510e527f, 0x9b05688c, 0x1f83d9ab, 0x5be0cd19)

  /** One more octet behind those read so far. */
  ghost function Then(w: Word, octet: Word): Word { (w << 8) | octet }

  /** The word whose octets are these, the most significant first (section 3.1). */
  ghost function FromBE(b0: Byte, b1: Byte, b2: Byte, b3: Byte): Word {
    Then(Then(Then(b0 as Word, b1 as Word), b2 as Word), b3 as Word)
  }

  lemma ByteFits(b: Byte)
    ensures b as Word <= 0xFF
  {}

  lemma SameShifts(x0: Word, x1: Word, x2: Word, x3: Word)
    requires x0 <= 0xFF && x1 <= 0xFF && x2 <= 0xFF && x3 <= 0xFF
    ensures ((x0 << 24) | (x1 << 16) | (x2 << 8) | x3) == Then(Then(Then(x0, x1), x2), x3)
  {}

  lemma Octet0(x0: Word, x1: Word, x2: Word, x3: Word)
    requires x0 <= 0xFF && x1 <= 0xFF && x2 <= 0xFF && x3 <= 0xFF
    ensures ((x0 << 24) | (x1 << 16) | (x2 << 8) | x3) >> 24 == x0
  {}

  lemma Octet1(x0: Word, x1: Word, x2: Word, x3: Word)
    requires x0 <= 0xFF && x1 <= 0xFF && x2 <= 0xFF && x3 <= 0xFF
    ensures (((x0 << 24) | (x1 << 16) | (x2 << 8) | x3) >> 16) & 0xFF == x1
  {}

  lemma Octet2(x0: Word, x1: Word, x2: Word, x3: Word)
    requires x0 <= 0xFF && x1 <= 0xFF && x2 <= 0xFF && x3 <= 0xFF
    ensures (((x0 << 24) | (x1 << 16) | (x2 << 8) | x3) >> 8) & 0xFF == x2
  {}

  lemma Octet3(x0: Word, x1: Word, x2: Word, x3: Word)
    requires x0 <= 0xFF && x1 <= 0xFF && x2 <= 0xFF && x3 <= 0xFF
    ensures ((x0 << 24) | (x1 << 16) | (x2 << 8) | x3) & 0xFF == x3
  {}

  /** The first octet of a block word is its most significant one, and so on down. */
  lemma FromBEOctets(b0: Byte, b1: Byte, b2: Byte, b3: Byte)
    ensures var w := FromBE(b0, b1, b2, b3);
            && w >> 24 == b0 as Word && (w >> 16) & 0xFF == b1 as Word
            && (w >> 8) & 0xFF == b2 as Word && w & 0xFF == b3 as Word
  {
    ByteFits(b0);
    ByteFits(b1);
    ByteFits(b2);
    ByteFits(b3);
    hide Then;
    SameShifts(b0 as Word, b1 as Word, b2 as Word, b3 as Word);
    Octet0(b0 as Word, b1 as Word, b2 as Word, b3 as Word);
    Octet1(b0 as Word, b1 as Word, b2 as Word, b3 as Word);
    Octet2(b0 as Word, b1 as Word, b2 as Word, b3 as Word);
    Octet3(b0 as Word, b1 as Word, b2 as Word, b3 as Word);
  }

  lemma SmallWord(w: Word)
    requires w <= 0xFF
    ensures 0 <= w as int < 256 && (w as int) as Word == w
  {}

  /** The low octet of a word. */
  ghost function LowOctet(w: Word): (b: Byte)
    ensures b as Word == w & 0xFF
  {
    SmallWord(w & 0xFF);
    (w & 0xFF) as Byte
  }

  /** The four octets of a word, the most significant first. */
  ghost function ToBE(w: Word): (s: Octets)
    ensures |s| == 4
  {
    [LowOctet(w >> 24), LowOctet(w >> 16), LowOctet(w >> 8), LowOctet(w)]
  }

  lemma JoinsBack(w: Word)
    ensures Then(Then(Then((w >> 24) & 0xFF, (w >> 16) & 0xFF), (w >> 8) & 0xFF), w & 0xFF) == w
  {}

  lemma TopOctet(w: Word)
    ensures (w >> 24) & 0xFF == w >> 24
  {}

  /** Writing a word out and reading it in again keeps it. */
  lemma WordRoundTrip(w: Word)
    ensures var s := ToBE(w); FromBE(s[0], s[1], s[2], s[3]) == w && s[0] as Word == w >> 24 && s[3] as Word == w & 0xFF
  {
    hide LowOctet;
    JoinsBack(w);
    TopOctet(w);
  }

  /** Message schedule word W_t of one block (section 6.2.2 step 1; the order of a sum modulo 2^32 is immaterial). */
  ghost function W(block: Octets, t: nat): Word
    requires |block| == 64
  {
    if t < 16 then
      FromBE(block[4 * t], block[4 * t + 1], block[4 * t + 2], block[4 * t + 3])
    else
      Add(Add(Add(W(block, t - 16), SmallSigma0(W(block, t - 15))), W(block, t - 7)), SmallSigma1(W(block, t - 2)))
  }

  /** One iteration of section 6.2.2 step 3. */
  ghost function Round(v: Vars, k: Word, w: Word): Vars {
    var t1 := Add(Add(Add(Add(v.h, BigSigma1(v.e)), Ch(v.e, v.f, v.g)), k), w);
    var t2 := Add(BigSigma0(v.a), Maj(v.a, v.b, v.c));
    Vars(Add(t1, t2), v.a, v.b, v.c, Add(v.d, t1), v.e, v.f, v.g)
  }

  /** The working variables after t rounds on one block. */
  ghost function Rounds(v: Vars, block: Octets, t: nat): Vars
    requires |block| == 64 && t <= |K|
  {
    if t == 0 then v else Round(Rounds(v, block, t - 1), K[t - 1], W(block, t - 1))
  }

  ghost function AddVars(x: Vars, y: Vars): Vars {
    Vars(Add(x.a, y.a), Add(x.b, y.b), Add(x.c, y.c), Add(x.d, y.d),
         Add(x.e, y.e), Add(x.f, y.f), Add(x.g, y.g), Add(x.h, y.h))
  }

  ghost function Compress(h: Vars, block: Octets): Vars
    requires |block| == 64
  {
    AddVars(h, Rounds(h, block, |K|))
  }

  /** The chaining value after every block of `msg` (section 6.2.2). */
  ghost function HashBlocks(h: Vars, msg: Octets): Vars
    requires |msg| % 64 == 0
    decreases |msg|
  {
    if msg == [] then h else Compress(HashBlocks(h, msg[..|msg| - 64]), msg[|msg| - 64..])
  }

  /** Section 5.1.1: a one bit, the fewest zero bits that leave 64 bits in the last block, the bit length. */
  ghost function Pad(data: Octets): Octets
    requires |data| < 0x2000_0000_0000_0000
  {
    data + [0x80] + Repeat(0, (55 - |data|) % 64) + BigEndian(8 * |data|, 8)
  }

  ghost function WordsToOctets(v: Vars): (s: Octets)
    ensures |s| == 32
  {
    ToBE(v.a) + ToBE(v.b) + ToBE(v.c) + ToBE(v.d) + ToBE(v.e) + ToBE(v.f) + ToBE(v.g) + ToBE(v.h)
  }

  lemma PaddedLength(n: nat)
    ensures (n + 1 + (55 - n) % 64 + 8) % 64 == 0
  {}

  lemma PadBlocks(data: Octets)
    requires |data| < 0x2000_0000_0000_0000
    ensures |Pad(data)| % 64 == 0
  {
    PaddedLength(|data|);
  }

  /** The SHA-256 digest of any message FIPS 180-4 admits. */
  ghost function Digest(data: Octets): Octets
    requires |data| < 0x2000_0000_0000_0000
  {
    PadBlocks(data);
    WordsToOctets(HashBlocks(H0, Pad(data)))
  }
}
