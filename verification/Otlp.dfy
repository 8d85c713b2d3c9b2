/** Span timing and trace identifiers of src/otlp.rs. */
module Otlp {
  import opened Bytes
  import opened Types
  import Hex
  import Sha256

  const U64_MAX: nat := 0xFFFF_FFFF_FFFF_FFFF

  // ---------------------------------------------------------------------------
  // Spans
  // ---------------------------------------------------------------------------

  datatype Phase = Phase(name: string, ms: real)

  datatype Span = Span(name: string, start: nat, end: nat)

  function NonNegative(ms: real): real { if ms < 0.0 then 0.0 else ms }

  /** The phases a probe went through, in time order: DNS and TLS only if they took place. */
  ghost function PhasesOf(t: PhaseTimings): (v: seq<Phase>)
    ensures |v| >= 3 && forall i :: 0 <= i < |v| ==> v[i].ms >= 0.0
  {
    (if t.dnsMs.Some? then [Phase("dns", NonNegative(t.dnsMs.value))] else [])
    + [Phase("tcp", NonNegative(t.tcpMs))]
    + (if t.tlsMs.Some? then [Phase("tls", NonNegative(t.tlsMs.value))] else [])
    + [Phase("ttfb", NonNegative(t.ttfbMs)), Phase("download", NonNegative(t.downloadMs))]
  }

  method PhaseDurations(t: PhaseTimings) returns (v: seq<Phase>)
    ensures v == PhasesOf(t)
  {
    v := [];
    if t.dnsMs.Some? {
      v := v + [Phase("dns", NonNegative(t.dnsMs.value))];
    }
    v := v + [Phase("tcp", NonNegative(t.tcpMs))];
    if t.tlsMs.Some? {
      v := v + [Phase("tls", NonNegative(t.tlsMs.value))];
    }
    v := v + [Phase("ttfb", NonNegative(t.ttfbMs))];
    v := v + [Phase("download", NonNegative(t.downloadMs))];
  }

  /** Whole nanoseconds, zero for nothing or less, the largest 64-bit value for too much. */
  function MsToNanos(ms: real): (n: nat)
    ensures n <= U64_MAX
    ensures ms >= 0.0 && ms * 1000000.0 < (U64_MAX + 1) as real ==> n as real <= ms * 1000000.0 < n as real + 1.0
  {
    if ms <= 0.0 then 0
    else
      var nanos := ms * 1000000.0;
      if nanos >= (U64_MAX + 1) as real then U64_MAX else nanos.Floor
  }

  lemma MsToNanosMonotone(a: real, b: real)
    requires a <= b
    ensures MsToNanos(a) <= MsToNanos(b)
  {
    assert a * 1000000.0 <= b * 1000000.0;
  }

  function SaturatingAdd(a: nat, b: nat): nat {
    if a + b > U64_MAX then U64_MAX else a + b
  }

  ghost function Elapsed(phases: seq<Phase>): real {
    if phases == [] then 0.0 else Elapsed(phases[..|phases| - 1]) + phases[|phases| - 1].ms
  }

  /** The moment the first n phases are over. */
  ghost function Moment(base: nat, phases: seq<Phase>, n: nat): nat
    requires n <= |phases|
  {
    SaturatingAdd(base, MsToNanos(Elapsed(phases[..n])))
  }

  lemma ElapsedGrows(phases: seq<Phase>, n: nat)
    requires n < |phases| && phases[n].ms >= 0.0
    ensures Elapsed(phases[..n + 1]) == Elapsed(phases[..n]) + phases[n].ms
  {
    assert phases[..n + 1][..n] == phases[..n];
  }

  /** The spans tile the time of the probe: from the base, each starting where the one before ended. */
  ghost predicate Tiles(spans: seq<Span>, base: nat) {
    && (spans != [] ==> spans[0].start == base)
    && (forall i :: 0 <= i < |spans| ==> spans[i].start <= spans[i].end)
    && (forall i :: 0 < i < |spans| ==> spans[i - 1].end == spans[i].start)
  }

  lemma ElapsedOfNone(phases: seq<Phase>)
    ensures Elapsed(phases[..0]) == 0.0 && MsToNanos(0.0) == 0
  {}

  /** The spans the export builds for these timings. */
  ghost predicate SpansFor(spans: seq<Span>, base: nat, t: PhaseTimings) {
    && |spans| == |PhasesOf(t)|
    && forall i :: 0 <= i < |spans| ==>
         spans[i] == Span(PhasesOf(t)[i].name, Moment(base, PhasesOf(t), i), Moment(base, PhasesOf(t), i + 1))
  }

  /** One span a phase, and never the catch-all span: the TCP phase is always there. */
  method BuildSpans(base: nat, t: PhaseTimings) returns (spans: seq<Span>)
    requires base <= U64_MAX
    ensures |spans| == |PhasesOf(t)| >= 3
    ensures Tiles(spans, base)
    ensures SpansFor(spans, base, t)
  {
    hide MsToNanos, Elapsed, PhasesOf;
    ghost var phases := PhasesOf(t);
    var durations := PhaseDurations(t);
    spans := [];
    var offsetMs := 0.0;
    ElapsedOfNone(phases);
    for i := 0 to |durations|
      invariant |spans| == i && offsetMs == Elapsed(phases[..i])
      invariant Tiles(spans, base)
      invariant i > 0 ==> spans[i - 1].end == Moment(base, phases, i)
      invariant forall k :: 0 <= k < i ==>
                  spans[k] == Span(phases[k].name, Moment(base, phases, k), Moment(base, phases, k + 1))
    {
      var start := SaturatingAdd(base, MsToNanos(offsetMs));
      var end := SaturatingAdd(base, MsToNanos(offsetMs + durations[i].ms));
      ElapsedGrows(phases, i);
      MsToNanosMonotone(offsetMs, offsetMs + durations[i].ms);
      spans := spans + [Span(durations[i].name, start, end)];
      offsetMs := offsetMs + durations[i].ms;
    }
    if spans == [] {
      assert false;
    }
  }

  ghost function TotalLength(spans: seq<Span>): int {
    if spans == [] then 0
    else TotalLength(spans[..|spans| - 1]) + (spans[|spans| - 1].end - spans[|spans| - 1].start)
  }

  /** Tiling spans add up to the whole: nothing is counted twice and nothing is left out. */
  lemma {:induction false} TilingConserves(spans: seq<Span>, base: nat)
    requires spans != [] && Tiles(spans, base)
    ensures TotalLength(spans) == spans[|spans| - 1].end - base
  {
    if |spans| > 1 {
      TilingConserves(spans[..|spans| - 1], base);
    }
  }

  /** The measured length of a named phase; absent or negative counts as nothing. */
  ghost function LengthOf(t: PhaseTimings, name: string): real {
    var ms := if name == "dns" then (if t.dnsMs.Some? then t.dnsMs.value else 0.0)
              else if name == "tcp" then t.tcpMs
              else if name == "tls" then (if t.tlsMs.Some? then t.tlsMs.value else 0.0)
              else if name == "ttfb" then t.ttfbMs
              else t.downloadMs;
    if ms < 0.0 then 0.0 else ms
  }

  /** The phases that come before a named one. */
  ghost function TimeBefore(t: PhaseTimings, name: string): real {
    if name == "dns" then 0.0
    else if name == "tcp" then LengthOf(t, "dns")
    else if name == "tls" then LengthOf(t, "dns") + LengthOf(t, "tcp")
    else if name == "ttfb" then LengthOf(t, "dns") + LengthOf(t, "tcp") + LengthOf(t, "tls")
    else LengthOf(t, "dns") + LengthOf(t, "tcp") + LengthOf(t, "tls") + LengthOf(t, "ttfb")
  }

  /** The names of the spans: DNS and TLS only where they took place. */
  ghost function NamesOf(t: PhaseTimings): seq<string> {
    (if t.dnsMs.Some? then ["dns"] else []) + ["tcp"] + (if t.tlsMs.Some? then ["tls"] else []) + ["ttfb", "download"]
  }

  /** `n` is the nanosecond `ms` milliseconds after `base`, rounded down, or the last one there is. */
  ghost predicate IsMoment(n: nat, base: nat, ms: real) {
    if base as real + ms * 1000000.0 >= 18446744073709551616.0 then n == 18446744073709551615
    else n as real <= base as real + ms * 1000000.0 < n as real + 1.0
  }

  lemma SaturatedMoment(base: nat, ms: real)
    requires ms >= 0.0 && base <= U64_MAX
    ensures IsMoment(SaturatingAdd(base, MsToNanos(ms)), base, ms)
  {
    var x := ms * 1000000.0;
    if x >= (U64_MAX + 1) as real {
      assert MsToNanos(ms) == U64_MAX;
    } else {
      assert MsToNanos(ms) as real <= x < MsToNanos(ms) as real + 1.0;
    }
  }

  /** Elapsed time spelled out for the at most five phases there are. */
  lemma ElapsedTo(phases: seq<Phase>, i: nat)
    requires i < |phases| <= 5
    ensures Elapsed(phases[..i]) == (if i > 0 then phases[0].ms else 0.0) + (if i > 1 then phases[1].ms else 0.0)
                                    + (if i > 2 then phases[2].ms else 0.0) + (if i > 3 then phases[3].ms else 0.0)
  {
    assert Elapsed(phases[..0]) == 0.0;
    if i > 0 {
      assert phases[..1][..0] == phases[..0];
      assert Elapsed(phases[..1]) == phases[0].ms;
    }
    if i > 1 {
      assert phases[..2][..1] == phases[..1];
      assert Elapsed(phases[..2]) == phases[0].ms + phases[1].ms;
    }
    if i > 2 {
      assert phases[..3][..2] == phases[..2];
      assert Elapsed(phases[..3]) == phases[0].ms + phases[1].ms + phases[2].ms;
    }
    if i > 3 {
      assert phases[..4][..3] == phases[..3];
      assert Elapsed(phases[..4]) == phases[0].ms + phases[1].ms + phases[2].ms + phases[3].ms;
    }
  }

  lemma PhaseStarts(t: PhaseTimings, i: nat)
    requires i < |PhasesOf(t)|
    ensures |PhasesOf(t)| == |NamesOf(t)| && PhasesOf(t)[i].name == NamesOf(t)[i]
    ensures PhasesOf(t)[i].ms == LengthOf(t, NamesOf(t)[i])
    ensures Elapsed(PhasesOf(t)[..i]) == TimeBefore(t, NamesOf(t)[i])
  {
    var phases := PhasesOf(t);
    var none: seq<Phase> := phases[..0];
    assert Elapsed(none) == 0.0;
    ElapsedTo(phases, i);
  }

  lemma NeverNegative(t: PhaseTimings, name: string)
    ensures LengthOf(t, name) >= 0.0 && TimeBefore(t, name) >= 0.0
  {}

  /** Every span stands under its own name and covers, to the nanosecond, the time its phase was measured to take. */
  lemma NamedSpans(base: nat, t: PhaseTimings, spans: seq<Span>, i: nat)
    requires base <= U64_MAX && SpansFor(spans, base, t) && i < |spans|
    ensures |spans| == |NamesOf(t)| && spans[i].name == NamesOf(t)[i]
    ensures IsMoment(spans[i].start, base, TimeBefore(t, spans[i].name))
    ensures IsMoment(spans[i].end, base, TimeBefore(t, spans[i].name) + LengthOf(t, spans[i].name))
  {
    hide PhasesOf, NamesOf, IsMoment, MsToNanos, SaturatingAdd, Elapsed, TimeBefore, LengthOf;
    PhaseStarts(t, i);
    ElapsedGrows(PhasesOf(t), i);
    NeverNegative(t, spans[i].name);
    assert spans[i] == Span(PhasesOf(t)[i].name, Moment(base, PhasesOf(t), i), Moment(base, PhasesOf(t), i + 1));
    assert Elapsed(PhasesOf(t)[..i + 1]) == TimeBefore(t, spans[i].name) + LengthOf(t, spans[i].name);
    SaturatedMoment(base, TimeBefore(t, spans[i].name));
    SaturatedMoment(base, TimeBefore(t, spans[i].name) + LengthOf(t, spans[i].name));
  }

  // ---------------------------------------------------------------------------
  // Identifiers
  // ---------------------------------------------------------------------------

  ghost predicate AllZero(s: Octets) {
    forall i :: 0 <= i < |s| ==> s[i] == 0
  }

  /** An identifier, with its last octet set to one should it be all zero. */
  ghost function Repaired(id: Octets): (r: Octets)
    requires id != []
    ensures |r| == |id| && !AllZero(r)
  {
    var r := if AllZero(id) then id[|id| - 1 := 1] else id;
    assert AllZero(id) ==> r[|id| - 1] == 1;
    r
  }

  /** The all-zero repair. */
  method Repair(id: Octets) returns (r: Octets)
    requires id != []
    ensures r == Repaired(id)
  {
    r := id;
    if forall i :: 0 <= i < |id| ==> id[i] == 0 {
      r := r[|id| - 1 := 1];
    }
  }

  /** The trace and span identifiers a seed yields. */
  ghost function TraceOf(seed: Octets): (id: Octets)
    ensures |id| == 16 && !AllZero(id)
  {
    Repaired(Sha256.HashOf(seed)[..16])
  }

  ghost function SpanOf(seed: Octets): (id: Octets)
    ensures |id| == 8 && !AllZero(id)
  {
    Repaired(Sha256.HashOf(seed)[16..24])
  }

  /** A zeroed buffer of n octets overwritten with as many of `bytes` from `offset` as there are. */
  function Copied(bytes: Octets, offset: nat, n: nat): (r: Octets)
    ensures |r| == n
    ensures offset + n <= |bytes| ==> r == bytes[offset..offset + n]
  {
    var available := if |bytes| <= offset then 0 else if |bytes| - offset < n then |bytes| - offset else n;
    (if available > 0 then bytes[offset..offset + available] else []) + Repeat(0, n - available)
  }

  /** Identifiers from a seed: 16 and 8 octets of its digest, repaired if all zero. */
  method NewIds(seed: Octets) returns (traceId: Octets, spanId: Octets)
    ensures traceId == TraceOf(seed) && spanId == SpanOf(seed)
    ensures |traceId| == 16 && !AllZero(traceId) && |spanId| == 8 && !AllZero(spanId)
  {
    hide Repaired, AllZero, Hex.Text, Hex.Value, Sha256.HashOf;
    var digest := Sha256.Digest(seed);
    var text := Hex.Encode(digest);
    var bytes := Hex.Decode(text);
    Hex.ValueOfText(digest);
    traceId := Copied(bytes, 0, 16);
    spanId := Copied(bytes, 16, 8);
    traceId := Repair(traceId);
    spanId := Repair(spanId);
  }

  predicate IsHexDigit(c: char) {
    '0' <= c <= '9' || 'a' <= c <= 'f' || 'A' <= c <= 'F'
  }

  /** The digits are the twenty-two characters that write hexadecimal. */
  lemma HexDigitsAre(c: char)
    ensures IsHexDigit(c) <==> c in "0123456789abcdefABCDEF"
  {
    var digits := "0123456789abcdefABCDEF";
    assert forall k :: 0 <= k < 10 ==> digits[k] as nat == '0' as nat + k;
    assert forall k :: 10 <= k < 16 ==> digits[k] as nat == 'a' as nat + k - 10;
    assert forall k :: 16 <= k < 22 ==> digits[k] as nat == 'A' as nat + k - 16;
    if '0' <= c <= '9' {
      assert digits[c as nat - '0' as nat] == c;
    } else if 'a' <= c <= 'f' {
      assert digits[10 + c as nat - 'a' as nat] == c;
    } else if 'A' <= c <= 'F' {
      assert digits[16 + c as nat - 'A' as nat] == c;
    }
  }

  predicate IsTraceHex(s: string) {
    |s| == 32 && forall i :: 0 <= i < |s| ==> IsHexDigit(s[i])
  }

  /** The fields of a version 00 traceparent. */
  ghost function TraceField(s: string): Octets
    requires |s| == 55
  {
    Hex.Value(s[3..35])
  }

  ghost function SpanField(s: string): Octets
    requires |s| == 55
  {
    Hex.Value(s[36..52])
  }

  /** The version 00 header with these two hex fields. */
  function Traceparent(traceHex: string, spanHex: string): string {
    "00-" + traceHex + "-" + spanHex + "-01"
  }

  lemma FieldsOf(traceHex: string, spanHex: string)
    requires |traceHex| == 32 && |spanHex| == 16
    ensures var s := Traceparent(traceHex, spanHex);
            && |s| == 55 && s[..3] == "00-" && s[3..35] == traceHex && s[35] == '-'
            && s[36..52] == spanHex && s[52..] == "-01"
  {
    var s := Traceparent(traceHex, spanHex);
    assert s[3..35] == traceHex;
    assert s[36..52] == spanHex;
  }

  ghost predicate LowerCase(s: string) {
    forall i :: 0 <= i < |s| ==> Hex.IsLowerHex(s[i])
  }

  /** Both fields are lower-case hex, as the W3C Trace Context format demands. */
  ghost predicate LowerCaseFields(s: string)
    requires |s| == 55
  {
    LowerCase(s[3..35]) && LowerCase(s[36..52])
  }

  method MakeTraceparent(seed: Octets) returns (s: string)
    ensures s == Traceparent(Hex.Text(TraceOf(seed)), Hex.Text(SpanOf(seed)))
    ensures |s| == 55 && LowerCaseFields(s) && !AllZero(TraceField(s)) && !AllZero(SpanField(s))
    ensures s[..3] == "00-" && s[35] == '-' && s[52..] == "-01"
  {
    hide Repaired, Hex.Text, Hex.Value, Hex.IsLowerHex, AllZero, Sha256.HashOf, Traceparent;
    var traceId, spanId := NewIds(seed);
    var traceHex := Hex.Encode(traceId);
    var spanHex := Hex.Encode(spanId);
    s := Traceparent(traceHex, spanHex);
    Hex.ValueOfText(traceId);
    Hex.ValueOfText(spanId);
    Hex.TextIsLower(traceId);
    Hex.TextIsLower(spanId);
    FieldsOf(traceHex, spanHex);
  }

  /**
   * A given trace identifier is used verbatim if it is 32 hex digits, otherwise a fresh one. The span identifier is
   * fresh and never zero. The trace identifier is zero exactly when 32 digits of a zero identifier were passed in, and
   * the fields are lower-case hex exactly when no upper-case digit was passed in.
   */
  method MakeTraceparentFrom(traceHex: string, seed: Octets) returns (s: string)
    ensures IsTraceHex(traceHex) ==> s == Traceparent(traceHex, Hex.Text(SpanOf(seed)))
    ensures !IsTraceHex(traceHex) ==> s == Traceparent(Hex.Text(TraceOf(seed)), Hex.Text(SpanOf(seed)))
    ensures |s| == 55 && !AllZero(SpanField(s))
    ensures AllZero(TraceField(s)) <==> IsTraceHex(traceHex) && AllZero(Hex.Value(traceHex))
    ensures LowerCaseFields(s) <==> IsTraceHex(traceHex) ==> LowerCase(traceHex)
    ensures s[..3] == "00-" && s[35] == '-' && s[52..] == "-01"
  {
    hide Repaired, Hex.Text, Hex.Value, Hex.IsLowerHex, AllZero, IsHexDigit, Sha256.HashOf, Traceparent;
    if |traceHex| != 32 || !(forall i :: 0 <= i < |traceHex| ==> IsHexDigit(traceHex[i])) {
      s := MakeTraceparent(seed);
      return;
    }
    var _, spanId := NewIds(seed);
    var spanHex := Hex.Encode(spanId);
    s := Traceparent(traceHex, spanHex);
    Hex.ValueOfText(spanId);
    Hex.TextIsLower(spanId);
    FieldsOf(traceHex, spanHex);
  }

  lemma {:induction false} ZerosDenoteZero(s: string)
    requires forall i :: 0 <= i < |s| ==> s[i] == '0'
    ensures AllZero(Hex.Value(s))
  {
    if |s| >= 2 {
      if |s| % 2 == 1 {
        ZerosDenoteZero(s[..|s| - 1]);
      } else {
        ZerosDenoteZero(s[..|s| - 2]);
      }
    }
  }

  /** Thirty-two zeros are accepted as a trace identifier, so a header with an all-zero trace can be produced. */
  lemma ZeroTraceIsAccepted()
    ensures IsTraceHex("00000000000000000000000000000000")
    ensures AllZero(Hex.Value("00000000000000000000000000000000"))
  {
    ZerosDenoteZero("00000000000000000000000000000000");
  }

  /** Upper-case digits are accepted too and reach the header as they are. */
  lemma UpperCaseIsAccepted()
    ensures var traceHex := "ABCDEFABCDEFABCDEFABCDEFABCDEFAB"; IsTraceHex(traceHex) && !LowerCase(traceHex)
  {
    var traceHex := "ABCDEFABCDEFABCDEFABCDEFABCDEFAB";
    assert !Hex.IsLowerHex(traceHex[0]);
  }

  /** A fresh trace identifier in hex. */
  method NewTraceIdHex(seed: Octets) returns (s: string)
    ensures s == Hex.Text(TraceOf(seed))
  {
    hide TraceOf, SpanOf, Sha256.HashOf, Hex.Text;
    var traceId, _ := NewIds(seed);
    s := Hex.Encode(traceId);
  }

  /** It always passes the check, is lower-case and does not denote the zero identifier. */
  lemma FreshTraceIsWellFormed(seed: Octets)
    ensures var traceHex := Hex.Text(TraceOf(seed));
            IsTraceHex(traceHex) && LowerCase(traceHex) && Hex.Value(traceHex) == TraceOf(seed)
  {
    hide TraceOf, Sha256.HashOf, Hex.Text, Hex.Value;
    Hex.ValueOfText(TraceOf(seed));
    Hex.TextIsLower(TraceOf(seed));
  }

  /** How a request gets its header: a fresh trace identifier, kept for the export, and a header made from it. */
  method InjectTraceparent(seed: Octets, spanSeed: Octets) returns (traceHex: string, header: string)
    ensures traceHex == Hex.Text(TraceOf(seed)) && header == Traceparent(traceHex, Hex.Text(SpanOf(spanSeed)))
    ensures |header| == 55 && header[3..35] == traceHex
    ensures LowerCaseFields(header) && !AllZero(TraceField(header)) && !AllZero(SpanField(header))
  {
    hide TraceOf, SpanOf, Sha256.HashOf, Hex.Text, Hex.Value, Traceparent, IsTraceHex, LowerCaseFields, LowerCase, AllZero;
    traceHex := NewTraceIdHex(seed);
    FreshTraceIsWellFormed(seed);
    header := MakeTraceparentFrom(traceHex, spanSeed);
    FieldsOf(traceHex, Hex.Text(SpanOf(spanSeed)));
  }
}
