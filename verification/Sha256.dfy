/** The array-and-loop SHA-256 of src/hash.rs (and its copy in src/update/download.rs), refined to FIPS 180-4. */
module Sha256 {
  import opened Bytes
  import opened Fips180

  /** The eight-word state array read as the standard's working variables. */
  ghost function VarsOf(v: seq<Word>): Vars
    requires |v| == 8
  {
    Vars(v[0], v[1], v[2], v[3], v[4], v[5], v[6], v[7])
  }

  // The source spells each sigma with rotate_right; the standard spells it with shifts.

  function RotateRight(x: Word, n: nat): Word
    requires n < 32
  {
    x.RotateRight(n)
  }

  lemma RotationsAgree(x: Word)
    ensures RotateRight(x, 7) == RotR(x, 7) && RotateRight(x, 18) == RotR(x, 18)
    ensures RotateRight(x, 17) == RotR(x, 17) && RotateRight(x, 19) == RotR(x, 19)
    ensures RotateRight(x, 6) == RotR(x, 6) && RotateRight(x, 11) == RotR(x, 11) && RotateRight(x, 25) == RotR(x, 25)
    ensures RotateRight(x, 2) == RotR(x, 2) && RotateRight(x, 13) == RotR(x, 13) && RotateRight(x, 22) == RotR(x, 22)
  {}

  function Sum0(x: Word): (r: Word)
    ensures r == BigSigma0(x)
  {
    hide RotR, RotateRight;
    RotationsAgree(x);
    RotateRight(x, 2) ^ RotateRight(x, 13) ^ RotateRight(x, 22)
  }

  function Sum1(x: Word): (r: Word)
    ensures r == BigSigma1(x)
  {
    hide RotR, RotateRight;
    RotationsAgree(x);
    RotateRight(x, 6) ^ RotateRight(x, 11) ^ RotateRight(x, 25)
  }

  function Sched0(x: Word): (r: Word)
    ensures r == SmallSigma0(x)
  {
    hide RotR, RotateRight;
    RotationsAgree(x);
    RotateRight(x, 7) ^ RotateRight(x, 18) ^ (x >> 3)
  }

  function Sched1(x: Word): (r: Word)
    ensures r == SmallSigma1(x)
  {
    hide RotR, RotateRight;
    RotationsAgree(x);
    RotateRight(x, 17) ^ RotateRight(x, 19) ^ (x >> 10)
  }

  function Choose(x: Word, y: Word, z: Word): (r: Word)
    ensures r == Ch(x, y, z)
  {
    (x & y) ^ (!x & z)
  }

  function Majority(x: Word, y: Word, z: Word): (r: Word)
    ensures r == Maj(x, y, z)
  {
    (x & y) ^ (x & z) ^ (y & z)
  }

  /** `wrapping_add`. */
  function WrappingAdd(x: Word, y: Word): (r: Word)
    ensures r == Add(x, y)
  {
    x + y
  }

  /** `u32::from_be_bytes`. */
  function FromBeBytes(b0: Byte, b1: Byte, b2: Byte, b3: Byte): (w: Word)
    ensures w == FromBE(b0, b1, b2, b3)
  {
    ByteFits(b0);
    ByteFits(b1);
    ByteFits(b2);
    ByteFits(b3);
    SameShifts(b0 as Word, b1 as Word, b2 as Word, b3 as Word);
    (b0 as Word << 24) | (b1 as Word << 16) | (b2 as Word << 8) | (b3 as Word)
  }

  /** `u32::to_be_bytes`. */
  function ToBeBytes(w: Word): (s: Octets)
    ensures s == ToBE(w)
  {
    [((w >> 24) & 0xFF) as Byte, ((w >> 16) & 0xFF) as Byte, ((w >> 8) & 0xFF) as Byte, (w & 0xFF) as Byte]
  }

  /** What the source appends to a message of any length: its 64-bit length counter wraps. */
  ghost function Padded(data: Octets): (msg: Octets)
    ensures |msg| % 64 == 0
  {
    PaddedLength(|data|);
    data + [0x80] + Repeat(0, (55 - |data|) % 64) + BigEndian(8 * |data| % 0x1_0000_0000_0000_0000, 8)
  }

  /** Up to the standard's limit the source pads exactly as section 5.1.1 says. */
  lemma PaddedIsPad(data: Octets)
    requires |data| < 0x2000_0000_0000_0000
    ensures Padded(data) == Pad(data)
  {
    assert 8 * |data| % 0x1_0000_0000_0000_0000 == 8 * |data|;
  }

  lemma Pow256Eight()
    ensures Pow256(8) == 0x1_0000_0000_0000_0000
  {
    assert Pow256(2) == 0x1_0000;
    assert Pow256(4) == 0x1_0000_0000;
    assert Pow256(6) == 0x1_0000_0000_0000;
  }

  /** The trailing length field is the true bit length exactly for the messages FIPS 180-4 admits. */
  lemma LengthFieldExact(data: Octets)
    ensures var msg := Padded(data);
            FromBigEndian(msg[|msg| - 8..]) == 8 * |data| <==> |data| < 0x2000_0000_0000_0000
  {
    var msg := Padded(data);
    var wrapped := 8 * |data| % 0x1_0000_0000_0000_0000;
    assert msg[|msg| - 8..] == BigEndian(wrapped, 8);
    Pow256Eight();
    BigEndianRoundTrip(wrapped, 8);
  }

  /** No two admitted messages share a padded form. */
  lemma PaddingInjective(a: Octets, b: Octets)
    requires |a| < 0x2000_0000_0000_0000 && |b| < 0x2000_0000_0000_0000
    requires Padded(a) == Padded(b)
    ensures a == b
  {
    LengthFieldExact(a);
    LengthFieldExact(b);
    assert Padded(a)[..|a|] == a;
    assert Padded(b)[..|b|] == b;
  }

  /** The padding loop: push 0x80, push zeros until 56 modulo 64, append the wrapped bit length. */
  method PadMessage(data: Octets) returns (msg: Octets)
    ensures msg == Padded(data)
  {
    var bitLen := 8 * |data| % 0x1_0000_0000_0000_0000;
    msg := data + [0x80];
    ghost var zeros := 0;
    while |msg| % 64 != 56
      invariant 0 <= zeros <= (55 - |data|) % 64
      invariant msg == data + [0x80] + Repeat(0, zeros)
      decreases (55 - |data|) % 64 - zeros
    {
      msg := msg + [0];
      zeros := zeros + 1;
    }
    assert zeros == (55 - |data|) % 64;
    msg := msg + BigEndian(bitLen, 8);
  }

  /** Fills the schedule array from one block; whatever the array held before is gone afterwards. */
  method ExpandSchedule(chunk: Octets, w: array<Word>)
    requires |chunk| == 64 && w.Length == 64
    modifies w
    ensures forall t :: 0 <= t < 64 ==> w[t] == W(chunk, t)
  {
    hide FromBE, FromBeBytes, Add, WrappingAdd, Sched0, Sched1, SmallSigma0, SmallSigma1;
    for i := 0 to 16
      invariant forall t :: 0 <= t < i ==> w[t] == W(chunk, t)
    {
      var j := i * 4;
      w[i] := FromBeBytes(chunk[j], chunk[j + 1], chunk[j + 2], chunk[j + 3]);
    }
    for i := 16 to 64
      invariant forall t :: 0 <= t < i ==> w[t] == W(chunk, t)
    {
      var s0 := Sched0(w[i - 15]);
      var s1 := Sched1(w[i - 2]);
      w[i] := WrappingAdd(WrappingAdd(WrappingAdd(w[i - 16], s0), w[i - 7]), s1);
    }
  }

  /** One in-place round: the eight working variables shift down and two are recomputed. */
  method StepRound(v: array<Word>, k: Word, w: Word)
    requires v.Length == 8
    modifies v
    ensures VarsOf(v[..]) == Round(VarsOf(old(v[..])), k, w)
  {
    hide Add, WrappingAdd, Sum0, Sum1, Choose, Majority, BigSigma0, BigSigma1, Ch, Maj;
    var t1 := WrappingAdd(WrappingAdd(WrappingAdd(WrappingAdd(v[7], Sum1(v[4])), Choose(v[4], v[5], v[6])), k), w);
    var t2 := WrappingAdd(Sum0(v[0]), Majority(v[0], v[1], v[2]));
    v[7] := v[6];
    v[6] := v[5];
    v[5] := v[4];
    v[4] := WrappingAdd(v[3], t1);
    v[3] := v[2];
    v[2] := v[1];
    v[1] := v[0];
    v[0] := WrappingAdd(t1, t2);
  }

  /** h[i] += v[i] for every word. */
  method AddInto(h: array<Word>, v: array<Word>)
    requires h.Length == 8 && v.Length == 8 && h != v
    modifies h
    ensures VarsOf(h[..]) == AddVars(VarsOf(old(h[..])), VarsOf(v[..]))
  {
    hide Add, WrappingAdd;
    for i := 0 to 8
      invariant forall k :: 0 <= k < i ==> h[k] == Add(old(h[k]), v[k])
      invariant forall k :: i <= k < 8 ==> h[k] == old(h[k])
    {
      h[i] := WrappingAdd(h[i], v[i]);
    }
  }

  /** Absorbs one block into the chaining array. */
  method CompressBlock(h: array<Word>, w: array<Word>, chunk: Octets)
    requires h.Length == 8 && w.Length == 64 && h != w && |chunk| == 64
    modifies h, w
    ensures VarsOf(h[..]) == Compress(VarsOf(old(h[..])), chunk)
  {
    hide Round, W, AddVars;
    ExpandSchedule(chunk, w);
    var v := new Word[8](i requires 0 <= i < 8 reads h => h[i]);
    assert v[..] == h[..];
    for i := 0 to 64
      invariant h[..] == old(h[..])
      invariant forall t :: 0 <= t < 64 ==> w[t] == W(chunk, t)
      invariant VarsOf(v[..]) == Rounds(VarsOf(h[..]), chunk, i)
    {
      StepRound(v, K[i], w[i]);
    }
    AddInto(h, v);
  }

  /** The octets of the first n state words. */
  ghost function WordOctets(v: seq<Word>, n: nat): Octets
    requires n <= |v|
  {
    if n == 0 then [] else WordOctets(v, n - 1) + ToBE(v[n - 1])
  }

  lemma WordOctetsAre(v: seq<Word>)
    requires |v| == 8
    ensures WordOctets(v, 8) == WordsToOctets(VarsOf(v))
  {
    hide ToBE;
    assert WordOctets(v, 1) == ToBE(v[0]);
    assert WordOctets(v, 2) == ToBE(v[0]) + ToBE(v[1]);
    assert WordOctets(v, 4) == WordOctets(v, 2) + ToBE(v[2]) + ToBE(v[3]);
    assert WordOctets(v, 6) == WordOctets(v, 4) + ToBE(v[4]) + ToBE(v[5]);
  }

  method WriteDigest(h: array<Word>) returns (out: Octets)
    requires h.Length == 8
    ensures out == WordsToOctets(VarsOf(h[..]))
  {
    hide ToBE, ToBeBytes, WordsToOctets;
    out := [];
    for i := 0 to 8
      invariant out == WordOctets(h[..], i)
    {
      out := out + ToBeBytes(h[i]);
    }
    WordOctetsAre(h[..]);
  }

  /** The function `Digest` computes: FIPS 180-4 hashing of the padded message. */
  ghost function HashOf(data: Octets): (s: Octets)
    ensures |s| == 32
    ensures |data| < 0x2000_0000_0000_0000 ==> s == Fips180.Digest(data)
  {
    if |data| < 0x2000_0000_0000_0000 then
      PaddedIsPad(data);
      WordsToOctets(HashBlocks(H0, Padded(data)))
    else
      WordsToOctets(HashBlocks(H0, Padded(data)))
  }

  lemma NoBlocks(h: Vars, msg: Octets)
    ensures HashBlocks(h, msg[..0]) == h
  {}

  lemma BlockAppend(h: Vars, msg: Octets, i: nat)
    requires i + 64 <= |msg| && i % 64 == 0
    ensures HashBlocks(h, msg[..i + 64]) == Compress(HashBlocks(h, msg[..i]), msg[i..i + 64])
  {
    hide Compress;
    assert msg[..i + 64][..i] == msg[..i];
    assert msg[..i + 64][i..] == msg[i..i + 64];
  }

  method InitialState() returns (h: array<Word>)
    ensures fresh(h) && h.Length == 8 && VarsOf(h[..]) == H0
  {
    h := new Word[8] [
      0x6a09e667, 0xbb67ae85, 0x3c6ef372, 0xa54ff53a, 0x510e527f, 0x9b05688c, 0x1f83d9ab, 0x5be0cd19];
  }

  /** The whole hash: pad, absorb 64-octet chunks through one reused schedule array, write the state out. */
  method Digest(data: Octets) returns (out: Octets)
    ensures out == HashOf(data)
    ensures |data| < 0x2000_0000_0000_0000 ==> out == Fips180.Digest(data)
  {
    hide Compress, WordsToOctets, Padded, VarsOf, HashBlocks;
    var h := InitialState();
    var msg := PadMessage(data);
    var w := new Word[64](_ => 0);
    var i := 0;
    NoBlocks(H0, msg);
    while i < |msg|
      invariant 0 <= i <= |msg| && i % 64 == 0
      invariant VarsOf(h[..]) == HashBlocks(H0, msg[..i])
    {
      CompressBlock(h, w, msg[i..i + 64]);
      BlockAppend(H0, msg, i);
      i := i + 64;
    }
    assert msg[..i] == msg;
    out := WriteDigest(h);
  }
}
