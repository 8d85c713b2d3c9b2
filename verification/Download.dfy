/** Archive checksum verification (src/update/download.rs). */
module Download {
  import opened Bytes
  import Ascii
  import Fips180
  import Hex
  import Sha256

  function ToLower(s: string): (t: string)
    ensures |t| == |s|
    ensures forall i :: 0 <= i < |s| ==> t[i] == Ascii.Lower(s[i])
  {
    seq(|s|, i requires 0 <= i < |s| => Ascii.Lower(s[i]))
  }

  method DigestHex(data: Octets) returns (out: string)
    ensures out == Hex.Text(Sha256.HashOf(data))
  {
    var digest := Sha256.Digest(data);
    out := Hex.Encode(digest);
  }

  lemma DigitIgnoresCase(c: char)
    ensures Hex.DigitValue(Ascii.Lower(c)) == Hex.DigitValue(c)
  {}

  lemma {:induction false} ValueIgnoresCase(s: string)
    ensures Hex.Value(ToLower(s)) == Hex.Value(s)
  {
    hide Hex.DigitValue, Ascii.Lower;
    var n := |s|;
    if n >= 2 {
      if n % 2 == 1 {
        ValueIgnoresCase(s[..n - 1]);
        assert ToLower(s)[..n - 1] == ToLower(s[..n - 1]);
      } else {
        ValueIgnoresCase(s[..n - 2]);
        assert ToLower(s)[..n - 2] == ToLower(s[..n - 2]);
        DigitIgnoresCase(s[n - 2]);
        DigitIgnoresCase(s[n - 1]);
      }
    }
  }

  lemma HexInEitherCase(c: char)
    ensures Hex.IsLowerHex(Ascii.Lower(c)) <==> '0' <= c <= '9' || 'a' <= c <= 'f' || 'A' <= c <= 'F'
  {}

  /** A text lowers to the hex of the octets exactly when it is hex in either case and denotes them. */
  lemma LowersToTextIff(s: string, bytes: Octets)
    ensures ToLower(s) == Hex.Text(bytes) <==>
              && |s| == 2 * |bytes|
              && Hex.Value(s) == bytes
              && forall i :: 0 <= i < |s| ==> '0' <= s[i] <= '9' || 'a' <= s[i] <= 'f' || 'A' <= s[i] <= 'F'
  {
    hide Hex.IsLowerHex, Ascii.Lower, Hex.Value, Hex.Text;
    forall c
      ensures Hex.IsLowerHex(Ascii.Lower(c)) <==> '0' <= c <= '9' || 'a' <= c <= 'f' || 'A' <= c <= 'F'
    {
      HexInEitherCase(c);
    }
    ValueIgnoresCase(s);
    Hex.ValueOfText(bytes);
    Hex.TextIsLower(bytes);
    Hex.TextOfValue(ToLower(s));
  }

  /** Accepts exactly when the published sum is 64 hex digits, of either case, that denote the digest of the data. */
  method VerifySum(data: Octets, expected: string) returns (ok: bool)
    ensures ok <==> ToLower(expected) == Hex.Text(Sha256.HashOf(data))
    ensures ok <==> |expected| == 64 && Hex.Value(expected) == Sha256.HashOf(data)
                    && forall i :: 0 <= i < 64 ==>
                         '0' <= expected[i] <= '9' || 'a' <= expected[i] <= 'f' || 'A' <= expected[i] <= 'F'
    ensures ok && |data| < 0x2000_0000_0000_0000 ==> Hex.Value(expected) == Fips180.Digest(data)
  {
    hide ToLower, Hex.Text, Hex.Value, Sha256.HashOf;
    var actual := DigestHex(data);
    ok := actual == ToLower(expected);
    LowersToTextIff(expected, Sha256.HashOf(data));
  }

  /** One published sum never accepts two archives with different digests. */
  lemma SumPinsDigest(a: Octets, b: Octets, expected: string)
    requires ToLower(expected) == Hex.Text(Sha256.HashOf(a)) == Hex.Text(Sha256.HashOf(b))
    ensures Sha256.HashOf(a) == Sha256.HashOf(b)
  {
    Hex.ValueOfText(Sha256.HashOf(a));
    Hex.ValueOfText(Sha256.HashOf(b));
  }
}
