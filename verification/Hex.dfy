/** Lower-case hexadecimal text and its lenient reader (src/otlp.rs, src/hash.rs). */
module Hex {
  import opened Bits
  import opened Bytes

  predicate IsLowerHex(c: char) { '0' <= c <= '9' || 'a' <= c <= 'f' }

  function Digit(n: nat): (c: char)
    requires n < 16
    ensures IsLowerHex(c)
  {
    if n < 10 then '0' + n as char else 'a' + (n - 10) as char
  }

  /** `to_digit(16).unwrap_or(0)`: either case is read, anything else is zero. */
  function DigitValue(c: char): (n: nat)
    ensures n < 16
  {
    if '0' <= c <= '9' then c as nat - '0' as nat
    else if 'a' <= c <= 'f' then c as nat - 'a' as nat + 10
    else if 'A' <= c <= 'F' then c as nat - 'A' as nat + 10
    else 0
  }

  lemma DigitRoundTrip(n: nat)
    requires n < 16
    ensures DigitValue(Digit(n)) == n
  {}

  lemma ValueRoundTrip(c: char)
    requires IsLowerHex(c)
    ensures Digit(DigitValue(c)) == c
  {}

  function Pair(b: Byte): (s: string)
    ensures |s| == 2
  {
    [Digit(b / 16), Digit(b % 16)]
  }

  /** The text form: two digits an octet, most significant first. */
  ghost function Text(bytes: Octets): (s: string)
    ensures |s| == 2 * |bytes|
  {
    if bytes == [] then [] else Text(bytes[..|bytes| - 1]) + Pair(bytes[|bytes| - 1])
  }

  /** The octets that pairs of digits denote; an odd last character is dropped. */
  ghost function Value(s: string): (bytes: Octets)
    ensures |bytes| == |s| / 2
  {
    if |s| < 2 then []
    else if |s| % 2 == 1 then Value(s[..|s| - 1])
    else Value(s[..|s| - 2]) + [16 * DigitValue(s[|s| - 2]) + DigitValue(s[|s| - 1])]
  }

  method Encode(bytes: Octets) returns (out: string)
    ensures out == Text(bytes)
  {
    out := "";
    for i := 0 to |bytes|
      invariant out == Text(bytes[..i])
    {
      assert bytes[..i + 1][..i] == bytes[..i];
      out := out + Pair(bytes[i]);
    }
    assert bytes[..|bytes|] == bytes;
  }

  method Decode(s: string) returns (out: Octets)
    ensures out == Value(s)
  {
    hide Nibbles, DigitValue;
    out := [];
    var i := 0;
    while i + 1 < |s|
      invariant 0 <= i <= |s| && i % 2 == 0
      invariant out == Value(s[..i])
    {
      assert s[..i + 2][..i] == s[..i];
      out := out + [Nibbles(DigitValue(s[i]), DigitValue(s[i + 1]))];
      i := i + 2;
    }
    assert s[..|s|] == s;
  }

  lemma ValueAppend(s: string, t: string)
    requires |t| == |s| + 2 && t[..|s|] == s && |s| % 2 == 0
    ensures Value(t) == Value(s) + [16 * DigitValue(t[|s|]) + DigitValue(t[|s| + 1])]
  {
    hide DigitValue;
  }

  lemma ValueOfNothing()
    ensures Value([]) == []
  {}

  /** Reading back written octets is the identity. */
  lemma {:induction false} ValueOfText(bytes: Octets)
    ensures Value(Text(bytes)) == bytes
  {
    hide DigitValue, Digit, Value;
    if bytes == [] {
      ValueOfNothing();
    } else {
      var n := |bytes| - 1;
      ValueOfText(bytes[..n]);
      DigitRoundTrip(bytes[n] / 16);
      DigitRoundTrip(bytes[n] % 16);
      ValueAppend(Text(bytes[..n]), Text(bytes));
      assert bytes == bytes[..n] + [bytes[n]];
    }
  }

  lemma TextAppend(bytes: Octets, b: Byte)
    ensures Text(bytes + [b]) == Text(bytes) + Pair(b)
  {
    assert (bytes + [b])[..|bytes|] == bytes;
  }

  lemma PairOfLower(high: char, low: char)
    requires IsLowerHex(high) && IsLowerHex(low)
    ensures var b := 16 * DigitValue(high) + DigitValue(low); b < 256 && Pair(b) == [high, low]
  {
    hide DigitValue, Digit;
    ValueRoundTrip(high);
    ValueRoundTrip(low);
    var b := 16 * DigitValue(high) + DigitValue(low);
    assert b / 16 == DigitValue(high) && b % 16 == DigitValue(low);
  }

  lemma NoText()
    ensures Text([]) == []
  {}

  lemma {:induction false} TextOfLower(s: string)
    requires |s| % 2 == 0 && forall i :: 0 <= i < |s| ==> IsLowerHex(s[i])
    ensures Text(Value(s)) == s
  {
    hide DigitValue, Pair, IsLowerHex, Text, Value;
    if s == [] {
      ValueOfNothing();
      NoText();
    } else {
      var n := |s| - 2;
      TextOfLower(s[..n]);
      PairOfLower(s[n], s[n + 1]);
      ValueAppend(s[..n], s);
      TextAppend(Value(s[..n]), 16 * DigitValue(s[n]) + DigitValue(s[n + 1]));
      assert s == s[..n] + [s[n], s[n + 1]];
    }
  }

  lemma {:induction false} TextIsLower(bytes: Octets)
    ensures forall i :: 0 <= i < |Text(bytes)| ==> IsLowerHex(Text(bytes)[i])
  {
    if bytes != [] {
      TextIsLower(bytes[..|bytes| - 1]);
    }
  }

  /** Writing back what was read is the identity on, and only on, even-length lower-case hex. */
  lemma TextOfValue(s: string)
    ensures Text(Value(s)) == s <==> |s| % 2 == 0 && forall i :: 0 <= i < |s| ==> IsLowerHex(s[i])
  {
    if |s| % 2 == 0 && forall i :: 0 <= i < |s| ==> IsLowerHex(s[i]) {
      TextOfLower(s);
    }
    TextIsLower(Value(s));
  }
}
