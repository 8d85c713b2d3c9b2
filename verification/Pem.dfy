/** The base64 and PEM readers of src/chain.rs against the encoder of RFC 4648 section 4. */
module Pem {
  import opened Sequences
  import opened Wrappers
  import opened BitVectors

  /** Octets as bit vectors: this codec is all shifts. */
  type BitOctets = seq<bv8>

  // ---------------------------------------------------------------------------
  // The alphabet
  // ---------------------------------------------------------------------------

  predicate InAlphabet(c: char) {
    'A' <= c <= 'Z' || 'a' <= c <= 'z' || '0' <= c <= '9' || c == '+' || c == '/'
  }

  function Val(c: char): (v: Option<bv8>)
    ensures v.Some? <==> InAlphabet(c)
  {
    if 'A' <= c <= 'Z' then Some((c as nat - 'A' as nat) as bv8)
    else if 'a' <= c <= 'z' then Some((c as nat - 'a' as nat + 26) as bv8)
    else if '0' <= c <= '9' then Some((c as nat - '0' as nat + 52) as bv8)
    else if c == '+' then Some(62)
    else if c == '/' then Some(63)
    else None
  }

  ghost function Letter(v: bv8): (c: char)
    ensures v < 64 ==> InAlphabet(c)
  {
    if v < 26 then (v as nat + 'A' as nat) as char
    else if v < 52 then (v as nat - 26 + 'a' as nat) as char
    else if v < 62 then (v as nat - 52 + '0' as nat) as char
    else if v == 62 then '+'
    else '/'
  }

  lemma UpperCaseValue(v: bv8)
    requires v < 26
    ensures Val(Letter(v)) == Some(v)
  {}

  lemma LowerCaseValue(v: bv8)
    requires 26 <= v < 52
    ensures Val(Letter(v)) == Some(v)
  {}

  lemma DigitOrSignValue(v: bv8)
    requires 52 <= v < 64
    ensures Val(Letter(v)) == Some(v)
  {}

  lemma ValLetter(v: bv8)
    requires v < 64
    ensures Val(Letter(v)) == Some(v)
  {
    hide Letter, Val;
    if v < 26 {
      UpperCaseValue(v);
    } else if v < 52 {
      LowerCaseValue(v);
    } else {
      DigitOrSignValue(v);
    }
  }

  // ---------------------------------------------------------------------------
  // The encoder
  // ---------------------------------------------------------------------------

  // The four sextets of three octets.

  ghost function Sextet0(a: bv8): (v: bv8)
    ensures v < 64
  {
    a >> 2
  }

  ghost function Sextet1(a: bv8, b: bv8): (v: bv8)
    ensures v < 64
  {
    ((a & 0x03) << 4) | (b >> 4)
  }

  ghost function Sextet2(b: bv8, c: bv8): (v: bv8)
    ensures v < 64
  {
    ((b & 0x0F) << 2) | (c >> 6)
  }

  ghost function Sextet3(c: bv8): (v: bv8)
    ensures v < 64
  {
    c & 0x3F
  }

  /** The letters without padding: every 24 bits become four, a last 8 or 16 bits become two or three. */
  ghost function Letters(data: BitOctets): string {
    if data == [] then []
    else if |data| == 1 then [Letter(Sextet0(data[0])), Letter(Sextet1(data[0], 0))]
    else if |data| == 2 then
      [Letter(Sextet0(data[0])), Letter(Sextet1(data[0], data[1])), Letter(Sextet2(data[1], 0))]
    else
      [Letter(Sextet0(data[0])), Letter(Sextet1(data[0], data[1])), Letter(Sextet2(data[1], data[2])),
       Letter(Sextet3(data[2]))] + Letters(data[3..])
  }

  ghost function Encode(data: BitOctets): string {
    Letters(data) + (if |data| % 3 == 1 then "==" else if |data| % 3 == 2 then "=" else "")
  }

  // ---------------------------------------------------------------------------
  // The decoder
  // ---------------------------------------------------------------------------

  /** `is_ascii_whitespace`: space, tab, line feed, form feed, carriage return. */
  predicate IsAsciiSpace(c: char) {
    c == ' ' || c == '\t' || c == '\n' || c == 12 as char || c == '\r'
  }

  predicate Kept(c: char) { c != '=' && !IsAsciiSpace(c) }

  // The octets of a chunk of sextets.

  function First(s0: bv8, s1: bv8): bv8 { (s0 << 2) | (s1 >> 4) }

  function Second(s1: bv8, s2: bv8): bv8 { (s1 << 4) | (s2 >> 2) }

  function Third(s2: bv8, s3: bv8): bv8 { (s2 << 6) | s3 }

  lemma SextetsJoin(a: bv8, b: bv8, c: bv8)
    ensures First(Sextet0(a), Sextet1(a, b)) == a
    ensures Second(Sextet1(a, b), Sextet2(b, c)) == b
    ensures Third(Sextet2(b, c), Sextet3(c)) == c
  {}

  ghost predicate AllLetters(s: string) {
    forall i :: 0 <= i < |s| ==> InAlphabet(s[i])
  }

  ghost function Sextet(c: char): bv8
    requires InAlphabet(c)
  {
    Val(c).value
  }

  /** What a run of letters decodes to, four at a time; a single leftover letter is refused. */
  ghost function Denoted(s: string): Option<BitOctets>
    requires AllLetters(s)
  {
    if s == [] then Some([])
    else if |s| == 1 then None
    else if |s| == 2 then Some([First(Sextet(s[0]), Sextet(s[1]))])
    else if |s| == 3 then Some([First(Sextet(s[0]), Sextet(s[1])), Second(Sextet(s[1]), Sextet(s[2]))])
    else
      var rest := Denoted(s[4..]);
      if rest.None? then None
      else Some([First(Sextet(s[0]), Sextet(s[1])), Second(Sextet(s[1]), Sextet(s[2])), Third(Sextet(s[2]), Sextet(s[3]))]
                + rest.value)
  }

  ghost function Decoded(s: string): Option<BitOctets> {
    var t := Filter(s, Kept);
    if AllLetters(t) then Denoted(t) else None
  }

  lemma OctetsOfFour(s: string)
    requires |s| == 4 && AllLetters(s)
    ensures Denoted(s) == Some([First(Sextet(s[0]), Sextet(s[1])), Second(Sextet(s[1]), Sextet(s[2])),
                               Third(Sextet(s[2]), Sextet(s[3]))])
  {
    hide First, Second, Third, Sextet, InAlphabet;
    assert s[4..] == [];
    assert Denoted(s[4..]) == Some([]);
    var three := [First(Sextet(s[0]), Sextet(s[1])), Second(Sextet(s[1]), Sextet(s[2])),
                  Third(Sextet(s[2]), Sextet(s[3]))];
    assert three + [] == three;
  }

  /** The first refused letter or the octets of one chunk of one to four characters. */
  method DecodeChunk(chunk: string) returns (r: Option<BitOctets>)
    requires 1 <= |chunk| <= 4
    ensures r.None? <==> |chunk| == 1 || !AllLetters(chunk)
    ensures r.Some? ==> r == Denoted(chunk)
  {
    hide First, Second, Third, Val;
    var buf := new bv8[4](_ => 0);
    var n := |chunk|;
    if n < 2 {
      return None;
    }
    for i := 0 to n
      invariant forall k :: 0 <= k < i ==> InAlphabet(chunk[k]) && buf[k] == Sextet(chunk[k])
    {
      var v := Val(chunk[i]);
      if v.None? {
        return None;
      }
      buf[i] := v.value;
    }
    var out := [First(buf[0], buf[1])];
    if n >= 3 {
      out := out + [Second(buf[1], buf[2])];
      assert out == [First(buf[0], buf[1]), Second(buf[1], buf[2])];
    }
    if n == 4 {
      out := out + [Third(buf[2], buf[3])];
      OctetsOfFour(chunk);
      assert out == [First(buf[0], buf[1]), Second(buf[1], buf[2]), Third(buf[2], buf[3])];
    }
    return Some(out);
  }

  /** Octets already decoded in front of what the rest decodes to. */
  ghost function Prefixed(out: BitOctets, rest: string): Option<BitOctets>
    requires AllLetters(rest)
  {
    var r := Denoted(rest);
    if r.Some? then Some(out + r.value) else None
  }

  lemma PrefixedEnd(out: BitOctets)
    ensures Prefixed(out, []) == Some(out)
  {
    assert out + [] == out;
  }

  lemma PrefixedNothing(s: string)
    ensures AllLetters(s) ==> Denoted(s) == Prefixed([], s[0..])
  {
    assert s[0..] == s;
    if AllLetters(s) && Denoted(s).Some? {
      assert [] + Denoted(s).value == Denoted(s).value;
    }
  }

  /** The first chunk of a run of letters can be decoded on its own. */
  lemma ChunkSplits(s: string, n: nat)
    requires AllLetters(s) && 0 < n <= |s| && (n == 4 || (n < 4 && n == |s|))
    ensures AllLetters(s[..n]) && AllLetters(s[n..])
    ensures Denoted(s[..n]).Some? ==> Denoted(s) == Prefixed(Denoted(s[..n]).value, s[n..])
  {
    hide First, Second, Third, Sextet, InAlphabet;
    if n == 4 {
      OctetsOfFour(s[..4]);
    } else {
      assert s[..n] == s && s[n..] == [];
      if Denoted(s).Some? {
        assert Denoted(s).value + [] == Denoted(s).value;
      }
    }
  }

  lemma ChunkTaken(bytes: string, out: BitOctets, pos: nat, end: nat, octets: BitOctets)
    requires pos < end <= |bytes| && (end == pos + 4 || (end < pos + 4 && end == |bytes|))
    requires AllLetters(bytes[pos..end]) && Denoted(bytes[pos..end]) == Some(octets)
    ensures AllLetters(bytes[..pos]) ==> AllLetters(bytes[..end])
    ensures AllLetters(bytes) ==> Prefixed(out, bytes[pos..]) == Prefixed(out + octets, bytes[end..])
  {
    hide First, Second, Third, Sextet, InAlphabet;
    forall i | 0 <= i < end && AllLetters(bytes[..pos])
      ensures InAlphabet(bytes[..end][i])
    {
      if i >= pos {
        assert InAlphabet(bytes[pos..end][i - pos]);
      } else {
        assert InAlphabet(bytes[..pos][i]);
      }
    }
    if AllLetters(bytes) {
      ChunkSplits(bytes[pos..], end - pos);
      assert bytes[pos..][..end - pos] == bytes[pos..end];
      assert bytes[pos..][end - pos..] == bytes[end..];
      if Denoted(bytes[end..]).Some? {
        assert out + (octets + Denoted(bytes[end..]).value) == out + octets + Denoted(bytes[end..]).value;
      }
    }
  }

  lemma ChunkRefused(bytes: string, out: BitOctets, pos: nat, end: nat)
    requires pos < end <= |bytes| && (end == pos + 4 || (end < pos + 4 && end == |bytes|))
    requires AllLetters(bytes) ==> Denoted(bytes) == Prefixed(out, bytes[pos..])
    requires end - pos == 1 || !AllLetters(bytes[pos..end])
    ensures AllLetters(bytes) ==> Denoted(bytes).None?
  {
    if AllLetters(bytes) {
      assert bytes[pos..end] == bytes[pos..];
    }
  }

  method Base64Decode(s: string) returns (r: Option<BitOctets>)
    ensures r == Decoded(s)
  {
    hide Kept, First, Second, Third, Sextet, Denoted, Prefixed, InAlphabet;
    var bytes := Filter(s, Kept);
    var out: BitOctets := [];
    var pos := 0;
    PrefixedNothing(bytes);
    while pos < |bytes|
      invariant 0 <= pos <= |bytes| && (pos % 4 == 0 || pos == |bytes|)
      invariant AllLetters(bytes[..pos])
      invariant AllLetters(bytes) ==> Denoted(bytes) == Prefixed(out, bytes[pos..])
    {
      var end := if pos + 4 <= |bytes| then pos + 4 else |bytes|;
      var chunk := bytes[pos..end];
      var octets := DecodeChunk(chunk);
      if octets.None? {
        ChunkRefused(bytes, out, pos, end);
        return None;
      }
      ChunkTaken(bytes, out, pos, end, octets.value);
      out := out + octets.value;
      pos := end;
    }
    assert bytes[..pos] == bytes;
    assert bytes[pos..] == [];
    PrefixedEnd(out);
    return Some(out);
  }

  // ---------------------------------------------------------------------------
  // What it accepts, and round trip
  // ---------------------------------------------------------------------------

  lemma TailLetters(s: string)
    requires AllLetters(s) && |s| >= 4
    ensures AllLetters(s[4..])
  {}

  lemma DenotedStep(s: string)
    requires AllLetters(s)
    ensures |s| < 4 ==> (Denoted(s).Some? <==> |s| != 1)
    ensures |s| >= 4 ==> AllLetters(s[4..]) && (Denoted(s).Some? <==> Denoted(s[4..]).Some?)
  {
    hide First, Second, Third, Sextet, InAlphabet;
  }

  lemma FourFewer(n: nat, m: nat)
    requires n == m + 4
    ensures n % 4 == m % 4
  {}

  lemma {:induction false} OctetsIff(s: string)
    requires AllLetters(s)
    ensures Denoted(s).Some? <==> |s| % 4 != 1
    decreases |s|
  {
    hide Denoted, AllLetters;
    DenotedStep(s);
    if |s| >= 4 {
      var rest := s[4..];
      OctetsIff(rest);
      FourFewer(|s|, |rest|);
    }
  }

  /** Decoding succeeds exactly when every significant character is in the alphabet and none is left over alone. */
  lemma DecodesIff(s: string)
    ensures Decoded(s).Some? <==> AllLetters(Filter(s, Kept)) && |Filter(s, Kept)| % 4 != 1
  {
    var t := Filter(s, Kept);
    if AllLetters(t) {
      OctetsIff(t);
    }
  }

  lemma NoLetters()
    ensures Denoted([]) == Some([]) && Letters([]) == []
  {}

  lemma DenotedByTwo(s: string)
    requires |s| == 2 && AllLetters(s)
    ensures Denoted(s) == Some([First(Sextet(s[0]), Sextet(s[1]))])
  {}

  lemma DenotedByThree(s: string)
    requires |s| == 3 && AllLetters(s)
    ensures Denoted(s) == Some([First(Sextet(s[0]), Sextet(s[1])), Second(Sextet(s[1]), Sextet(s[2]))])
  {}

  lemma SextetOfLetter(v: bv8)
    requires v < 64
    ensures InAlphabet(Letter(v)) && Sextet(Letter(v)) == v
  {
    ValLetter(v);
  }

  lemma LastLetters(data: BitOctets)
    requires |data| < 3
    ensures AllLetters(Letters(data)) && Denoted(Letters(data)) == Some(data)
  {
    hide First, Second, Third, Sextet, Sextet0, Sextet1, Sextet2, Letter, Val, InAlphabet, Denoted;
    if data == [] {
      NoLetters();
    } else if |data| == 1 {
      SextetOfLetter(Sextet0(data[0]));
      SextetOfLetter(Sextet1(data[0], 0));
      SextetsJoin(data[0], 0, 0);
      DenotedByTwo(Letters(data));
      assert data == [data[0]];
    } else {
      SextetOfLetter(Sextet0(data[0]));
      SextetOfLetter(Sextet1(data[0], data[1]));
      SextetOfLetter(Sextet2(data[1], 0));
      SextetsJoin(data[0], data[1], 0);
      DenotedByThree(Letters(data));
      assert data == [data[0], data[1]];
    }
  }

  lemma FourLetters(a: bv8, b: bv8, c: bv8, rest: BitOctets)
    requires AllLetters(Letters(rest)) && Denoted(Letters(rest)) == Some(rest)
    ensures var s := [Letter(Sextet0(a)), Letter(Sextet1(a, b)), Letter(Sextet2(b, c)), Letter(Sextet3(c))]
                     + Letters(rest);
            AllLetters(s) && Denoted(s) == Some([a, b, c] + rest)
  {
    hide First, Second, Third, Sextet0, Sextet1, Sextet2, Sextet3, Letter, Val, Letters, Sextet;
    var four := [Letter(Sextet0(a)), Letter(Sextet1(a, b)), Letter(Sextet2(b, c)), Letter(Sextet3(c))];
    var s := four + Letters(rest);
    SextetOfLetter(Sextet0(a));
    SextetOfLetter(Sextet1(a, b));
    SextetOfLetter(Sextet2(b, c));
    SextetOfLetter(Sextet3(c));
    SextetsJoin(a, b, c);
    assert s[4..] == Letters(rest);
    assert s[0] == four[0] && s[1] == four[1] && s[2] == four[2] && s[3] == four[3];
  }

  lemma {:induction false} LettersDecode(data: BitOctets)
    ensures AllLetters(Letters(data)) && Denoted(Letters(data)) == Some(data)
  {
    hide First, Second, Third, Sextet, Sextet0, Sextet1, Sextet2, Sextet3, Letter, Val, InAlphabet;
    if |data| < 3 {
      LastLetters(data);
    } else {
      LettersDecode(data[3..]);
      FourLetters(data[0], data[1], data[2], data[3..]);
      assert data == [data[0], data[1], data[2]] + data[3..];
    }
  }

  lemma PaddingDropped()
    ensures Filter("", Kept) == [] && Filter("=", Kept) == [] && Filter("==", Kept) == []
  {
    var one, two := "=", "==";
    assert one[..0] == [] && two[..1] == one;
    assert Filter(one, Kept) == Filter(one[..0], Kept);
  }

  lemma {:induction false} LettersKept(s: string)
    requires AllLetters(s)
    ensures Filter(s, Kept) == s
  {
    if s != [] {
      assert InAlphabet(s[|s| - 1]);
      LettersKept(s[..|s| - 1]);
    }
  }

  lemma EncodeSignificant(data: BitOctets)
    ensures Filter(Encode(data), Kept) == Letters(data)
  {
    hide Filter, Kept, Letters;
    LettersDecode(data);
    LettersKept(Letters(data));
    PaddingDropped();
    FilterConcat(Letters(data), if |data| % 3 == 1 then "==" else if |data| % 3 == 2 then "=" else "", Kept);
    assert Letters(data) + [] == Letters(data);
  }

  /**
   * Any text whose significant characters are those of an encoding decodes to the encoded octets: line breaks, other
   * ASCII whitespace and padding may be added or dropped anywhere.
   */
  lemma DecodeInvertsEncode(data: BitOctets, s: string)
    requires Filter(s, Kept) == Filter(Encode(data), Kept)
    ensures Decoded(s) == Some(data)
  {
    LettersDecode(data);
    EncodeSignificant(data);
  }

  // ---------------------------------------------------------------------------
  // When an accepted text is an encoding
  // ---------------------------------------------------------------------------

  /** No bit of the last letter lies beyond the last whole octet. */
  ghost predicate NoLeftoverBits(s: string)
    requires AllLetters(s)
  {
    && (|s| % 4 == 2 ==> Sextet(s[|s| - 1]) & 0x0F == 0)
    && (|s| % 4 == 3 ==> Sextet(s[|s| - 1]) & 0x03 == 0)
  }

  lemma SextetRanges(v: bv8)
    ensures v < 26 <==> v as int < 26
    ensures v < 52 <==> v as int < 52
    ensures v < 62 <==> v as int < 62
    ensures v < 64 <==> v as int < 64
  {}

  lemma SmallNumber(n: nat)
    requires n < 64
    ensures var v := n as bv8; v as nat == n && (v < 26 <==> n < 26) && (v < 52 <==> n < 52) && (v < 62 <==> n < 62) && v < 64
  {
    OctetRoundTrip(n);
    SextetRanges(n as bv8);
  }

  lemma LetterOfSextet(c: char)
    requires InAlphabet(c)
    ensures Sextet(c) < 64 && Letter(Sextet(c)) == c
  {
    if 'A' <= c <= 'Z' {
      SmallNumber(c as nat - 'A' as nat);
    } else if 'a' <= c <= 'z' {
      SmallNumber(c as nat - 'a' as nat + 26);
    } else if '0' <= c <= '9' {
      SmallNumber(c as nat - '0' as nat + 52);
    }
  }

  lemma OctetsSplit(s0: bv8, s1: bv8, s2: bv8, s3: bv8)
    requires s0 < 64 && s1 < 64 && s2 < 64 && s3 < 64
    ensures Sextet0(First(s0, s1)) == s0 && Sextet1(First(s0, s1), Second(s1, s2)) == s1
    ensures Sextet2(Second(s1, s2), Third(s2, s3)) == s2 && Sextet3(Third(s2, s3)) == s3
    ensures Sextet1(First(s0, s1), 0) == s1 <==> s1 & 0x0F == 0
    ensures Sextet2(Second(s1, s2), 0) == s2 <==> s2 & 0x03 == 0
  {}

  /** Two or three last letters are those of their octets exactly when the leftover bits are zero. */
  lemma LastLettersReadBack(s: string)
    requires AllLetters(s) && 2 <= |s| <= 3
    ensures Letters(Denoted(s).value) == s <==> NoLeftoverBits(s)
  {
    hide First, Second, Third, Sextet, Sextet0, Sextet1, Sextet2, Sextet3, Letter, Val, InAlphabet;
    var s0, s1, s2 := Sextet(s[0]), Sextet(s[1]), if |s| == 3 then Sextet(s[2]) else 0;
    LetterOfSextet(s[0]);
    LetterOfSextet(s[1]);
    if |s| == 3 {
      LetterOfSextet(s[2]);
    }
    OctetsSplit(s0, s1, s2, 0);
    SextetOfLetter(Sextet1(First(s0, s1), 0));
    SextetOfLetter(Sextet2(Second(s1, s2), 0));
  }

  lemma FourLettersReadBack(s: string)
    requires AllLetters(s) && |s| >= 4 && Denoted(s).Some?
    ensures Denoted(s[4..]).Some? && Letters(Denoted(s).value) == s[..4] + Letters(Denoted(s[4..]).value)
  {
    hide First, Second, Third, Sextet, Sextet0, Sextet1, Sextet2, Sextet3, Letter, Val, InAlphabet;
    LetterOfSextet(s[0]);
    LetterOfSextet(s[1]);
    LetterOfSextet(s[2]);
    LetterOfSextet(s[3]);
    OctetsSplit(Sextet(s[0]), Sextet(s[1]), Sextet(s[2]), Sextet(s[3]));
    assert Denoted(s).value[3..] == Denoted(s[4..]).value;
    assert s[..4] == [s[0], s[1], s[2], s[3]];
  }

  lemma LeftoverInTail(s: string)
    requires AllLetters(s) && |s| >= 4 && |s| != 5
    ensures AllLetters(s[4..]) && (NoLeftoverBits(s) <==> NoLeftoverBits(s[4..]))
  {
    hide Sextet, InAlphabet;
  }

  /** Accepted letters are the RFC 4648 letters of what they decode to exactly when they leave no bit over. */
  lemma {:induction false} LettersReadBackIff(s: string)
    requires AllLetters(s) && Denoted(s).Some?
    ensures Letters(Denoted(s).value) == s <==> NoLeftoverBits(s)
  {
    hide Letters, Denoted, Sextet, AllLetters;
    OctetsIff(s);
    if s == [] {
      NoLetters();
    } else if |s| < 4 {
      LastLettersReadBack(s);
    } else {
      TailLetters(s);
      FourLettersReadBack(s);
      LettersReadBackIff(s[4..]);
      LeftoverInTail(s);
      assert s == s[..4] + s[4..];
    }
  }

  /** A decoded text carries an encoding, up to padding and white space, exactly when it leaves no bit over. */
  lemma EncodingIff(s: string)
    requires Decoded(s).Some?
    ensures Filter(s, Kept) == Filter(Encode(Decoded(s).value), Kept) <==> NoLeftoverBits(Filter(s, Kept))
  {
    hide Filter, Encode, NoLeftoverBits;
    EncodeSignificant(Decoded(s).value);
    LettersReadBackIff(Filter(s, Kept));
  }

  lemma SignificantPair(a: char, b: char)
    requires Kept(a) && Kept(b)
    ensures Filter([a, b, '=', '='], Kept) == [a, b]
  {
    var s := [a, b, '=', '='];
    assert s[..3][..2] == [a, b] && s[..3] == [a, b, '='] && [a, b][..1] == [a] && [a][..0] == [];
    assert Filter([a], Kept) == [a] && Filter([a, b], Kept) == [a, b];
    assert Filter(s[..3], Kept) == [a, b];
  }

  /** "QR==" leaves a bit over and is no encoding, yet it decodes like "QQ==", the encoding of one octet 0x41. */
  lemma LeftoverBitsAreAccepted()
    ensures Encode([0x41]) == "QQ==" && Decoded("QQ==") == Some([0x41])
    ensures Decoded("QR==") == Some([0x41])
  {
    SignificantPair('Q', 'Q');
    SignificantPair('Q', 'R');
    assert "QQ==" == ['Q', 'Q', '=', '='] && "QR==" == ['Q', 'R', '=', '='];
  }

  // ---------------------------------------------------------------------------
  // Which characters matter
  // ---------------------------------------------------------------------------

  lemma SoleCharacter(c: char)
    ensures Filter([c], Kept) == if Kept(c) then [c] else []
  {
    assert [c][..0] == [];
  }

  /** '=', space, tab, line feed, form feed and carriage return change nothing wherever they stand. */
  lemma IgnoredAnywhere(before: string, c: char, after: string)
    requires c in "= \t\n\r" || c as nat == 12
    ensures Decoded(before + [c] + after) == Decoded(before + after)
  {
    hide Filter, Denoted, InAlphabet;
    assert before + [c] + after == before + ([c] + after);
    FilterConcat(before, [c] + after, Kept);
    FilterConcat([c], after, Kept);
    FilterConcat(before, after, Kept);
    SoleCharacter(c);
    assert [] + Filter(after, Kept) == Filter(after, Kept);
  }

  lemma Alphabet()
    ensures "ABCDEFGHIJKLMNOPQRSTUVWXYZabcdefghijklmnopqrstuvwxyz0123456789+/"
         == "ABCDEFGHIJKLMNOPQRSTUVWXYZ" + "abcdefghijklmnopqrstuvwxyz" + "0123456789+/"
  {}

  lemma LettersInOrder(i: nat)
    requires i < 64
    ensures var c := "ABCDEFGHIJKLMNOPQRSTUVWXYZabcdefghijklmnopqrstuvwxyz0123456789+/"[i];
            c as nat == if i < 26 then 65 + i else if i < 52 then 71 + i else if i < 62 then i - 4
                        else if i == 62 then 43 else 47
  {
    Alphabet();
    var upper, lower, rest := "ABCDEFGHIJKLMNOPQRSTUVWXYZ", "abcdefghijklmnopqrstuvwxyz", "0123456789+/";
    assert forall k :: 0 <= k < 26 ==> upper[k] as nat == 65 + k && lower[k] as nat == 97 + k;
    assert forall k :: 0 <= k < 10 ==> rest[k] as nat == 48 + k;
    assert rest[10] as nat == 43 && rest[11] as nat == 47;
  }

  lemma OutsideAlphabet(c: char)
    requires c !in "ABCDEFGHIJKLMNOPQRSTUVWXYZabcdefghijklmnopqrstuvwxyz0123456789+/"
    ensures !InAlphabet(c)
  {
    if InAlphabet(c) {
      var u := c as nat;
      var i := if 65 <= u <= 90 then u - 65 else if 97 <= u <= 122 then u - 71 else if 48 <= u <= 57 then u + 4
               else if u == 43 then 62 else 63;
      LettersInOrder(i);
    }
  }

  /** Every other character that is not one of the sixty-four letters makes the whole text unreadable. */
  lemma ForeignRefused(s: string, i: nat)
    requires i < |s| && s[i] !in "= \t\n\r" && s[i] as nat != 12
    requires s[i] !in "ABCDEFGHIJKLMNOPQRSTUVWXYZabcdefghijklmnopqrstuvwxyz0123456789+/"
    ensures Decoded(s).None?
  {
    hide Filter, Denoted;
    FilterMembers(s, Kept);
    OutsideAlphabet(s[i]);
    assert s[i] in Filter(s, Kept);
    var k :| 0 <= k < |Filter(s, Kept)| && Filter(s, Kept)[k] == s[i];
    assert !InAlphabet(Filter(s, Kept)[k]);
  }

  /** The i-th letter of the RFC 4648 alphabet has the value i. */
  lemma AlphabetInOrder(i: nat)
    requires i < 64
    ensures var c := "ABCDEFGHIJKLMNOPQRSTUVWXYZabcdefghijklmnopqrstuvwxyz0123456789+/"[i];
            InAlphabet(c) && Sextet(c) as nat == i
  {
    LettersInOrder(i);
    SmallNumber(i);
  }

  // ---------------------------------------------------------------------------
  // PEM
  // ---------------------------------------------------------------------------

  const BEGIN: string := "-----BEGIN CERTIFICATE-----"
  const END: string := "-----END CERTIFICATE-----"

  ghost predicate OccursAt(text: string, pat: string, i: nat) {
    i + |pat| <= |text| && text[i..i + |pat|] == pat
  }

  lemma ShiftOccurrences(text: string, pat: string)
    requires text != []
    ensures forall i: nat :: i > 0 ==> (OccursAt(text, pat, i) <==> OccursAt(text[1..], pat, i - 1))
  {
    forall i: nat | i > 0 && i + |pat| <= |text|
      ensures OccursAt(text, pat, i) <==> OccursAt(text[1..], pat, i - 1)
    {
      assert text[1..] == text[1..|text|];
      SliceOfSlice(text, 1, |text|, i, i + |pat|);
    }
  }

  /** `str::find`: the first occurrence. */
  function Find(text: string, pat: string): (r: Option<nat>)
    ensures r.Some? ==> OccursAt(text, pat, r.value) && forall i: nat :: i < r.value ==> !OccursAt(text, pat, i)
    ensures r.None? ==> forall i: nat :: !OccursAt(text, pat, i)
  {
    if |text| < |pat| then None
    else if text[..|pat|] == pat then Some(0)
    else
      var rest := Find(text[1..], pat);
      ShiftOccurrences(text, pat);
      if rest.None? then None else Some(rest.value + 1)
  }

  /** `char::is_whitespace`: the Unicode White_Space property. */
  predicate IsWhitespace(c: char) {
    var u := c as nat;
    || 0x09 <= u <= 0x0D || u == 0x20 || u == 0x85 || u == 0xA0 || u == 0x1680 || 0x2000 <= u <= 0x200A
    || u == 0x2028 || u == 0x2029 || u == 0x202F || u == 0x205F || u == 0x3000
  }

  predicate NotWhitespace(c: char) { !IsWhitespace(c) }

  /** The twenty-five characters that have the property. */
  lemma WhitespaceIs(c: char)
    ensures IsWhitespace(c) <==>
              || c in "\t\n\U{0B}\U{0C}\r \U{85}\U{A0}\U{1680}\U{2028}\U{2029}\U{202F}\U{205F}\U{3000}"
              || c in "\U{2000}\U{2001}\U{2002}\U{2003}\U{2004}\U{2005}\U{2006}\U{2007}\U{2008}\U{2009}\U{200A}"
  {}

  /** What `FirstPemCertificate` returns. */
  ghost function PemContents(text: string): Option<BitOctets> {
    var begin := Find(text, BEGIN);
    if begin.None? then None
    else
      var start := begin.value + |BEGIN|;
      var end := Find(text[start..], END);
      if end.None? then None else Decoded(Filter(text[start..start + end.value], NotWhitespace))
  }

  method FirstPemCertificate(text: string) returns (r: Option<BitOctets>)
    ensures r == PemContents(text)
  {
    hide Find, IsWhitespace, Decoded;
    var begin := Find(text, BEGIN);
    if begin.None? {
      return None;
    }
    var start := begin.value + |BEGIN|;
    var end := Find(text[start..], END);
    if end.None? {
      return None;
    }
    var b64 := Filter(text[start..start + end.value], NotWhitespace);
    r := Base64Decode(b64);
  }

  /** Characters of a PEM body: letters, padding, line breaks and other white space. */
  ghost predicate BodyChar(c: char) {
    InAlphabet(c) || c == '=' || IsWhitespace(c)
  }

  lemma OccurrenceStarts(text: string, pat: string, i: nat)
    requires pat != []
    ensures OccursAt(text, pat, i) ==> text[i] == pat[0]
  {
    if OccursAt(text, pat, i) {
      assert text[i..i + |pat|][0] == text[i];
    }
  }

  /** The end marker of a block is found right after its body. */
  lemma EndFollowsBody(body: string, post: string)
    requires forall i :: 0 <= i < |body| ==> BodyChar(body[i])
    ensures Find(body + END + post, END) == Some(|body|)
  {
    hide Find;
    var rest := body + END + post;
    assert rest[|body|..|body| + |END|] == END;
    assert OccursAt(rest, END, |body|);
    forall i: nat | i < |body|
      ensures !OccursAt(rest, END, i)
    {
      assert rest[i] == body[i] && BodyChar(body[i]) && body[i] != '-';
      OccurrenceStarts(rest, END, i);
    }
    var found := Find(rest, END);
    assert found.Some?;
    assert !(|body| < found.value) && !(found.value < |body|);
  }

  /**
   * Any PEM block that wraps an encoding, with white space anywhere in its body and any text around it, yields the
   * encoded octets, provided its begin marker is the first one in the text.
   */
  lemma PemReadsBack(pre: string, body: string, post: string, data: BitOctets)
    requires Find(pre + BEGIN + body + END + post, BEGIN) == Some(|pre|)
    requires forall i :: 0 <= i < |body| ==> BodyChar(body[i])
    requires Filter(Filter(body, NotWhitespace), Kept) == Filter(Encode(data), Kept)
    ensures PemContents(pre + BEGIN + body + END + post) == Some(data)
  {
    hide Find, Filter, Decoded, Encode;
    var text := pre + BEGIN + body + END + post;
    var start := |pre| + |BEGIN|;
    assert text[start..] == body + END + post;
    EndFollowsBody(body, post);
    assert text[start..start + |body|] == body;
    DecodeInvertsEncode(data, Filter(body, NotWhitespace));
  }

  /** An encoding consists of letters and padding. */
  lemma EncodedCharacters(data: BitOctets)
    ensures forall c :: c in Encode(data) ==> InAlphabet(c) || c == '='
  {
    hide Letters;
    LettersDecode(data);
  }

  lemma BlanksAreWhitespace()
    ensures forall c :: c in " \t\n\r" ==> IsWhitespace(c)
  {}

  lemma LettersAreNotWhitespace(c: char)
    requires InAlphabet(c) || c == '='
    ensures NotWhitespace(c)
  {}

  lemma WrappedBody(body: string, data: BitOctets)
    requires Filter(body, (c: char) => c !in " \t\n\r") == Encode(data)
    ensures forall i :: 0 <= i < |body| ==> BodyChar(body[i])
    ensures Filter(Filter(body, NotWhitespace), Kept) == Filter(Encode(data), Kept)
  {
    hide Filter, Encode, IsWhitespace;
    EncodedCharacters(data);
    FilterMembers(body, (c: char) => c !in " \t\n\r");
    BlanksAreWhitespace();
    forall i | 0 <= i < |body|
      ensures BodyChar(body[i])
    {
      assert body[i] in body;
      if body[i] !in " \t\n\r" {
        assert body[i] in Encode(data);
      }
    }
    forall c | c in body
      ensures (NotWhitespace(c) && Kept(c)) == (c !in " \t\n\r" && Kept(c))
    {
      if c !in " \t\n\r" {
        assert c in Filter(body, (d: char) => d !in " \t\n\r");
        assert c in Encode(data);
        LettersAreNotWhitespace(c);
      }
    }
    FilterTwiceAgree(body, NotWhitespace, Kept, (c: char) => c !in " \t\n\r", Kept);
  }

  /**
   * A line-wrapped PEM block: the encoding with spaces, tabs, line feeds and carriage returns put in anywhere, between
   * the two marker lines, yields the encoded octets if its begin marker is the first in the text.
   */
  lemma WrappedPemReadsBack(pre: string, body: string, post: string, data: BitOctets)
    requires Find(pre + "-----BEGIN CERTIFICATE-----" + body + "-----END CERTIFICATE-----" + post,
                  "-----BEGIN CERTIFICATE-----") == Some(|pre|)
    requires Filter(body, (c: char) => c !in " \t\n\r") == Encode(data)
    ensures PemContents(pre + "-----BEGIN CERTIFICATE-----" + body + "-----END CERTIFICATE-----" + post) == Some(data)
  {
    hide Find, Filter, Decoded, Encode, PemContents, BodyChar;
    WrappedBody(body, data);
    PemReadsBack(pre, body, post, data);
  }
}
