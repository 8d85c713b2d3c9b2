/** Service fingerprints and their difference: src/diff.rs. */
module Diff {
  import opened Wrappers
  import opened Types
  import opened Sequences
  import opened Sorting
  import opened Decimal
  import Headers
  import Lexical

  const IDENTITY_HEADERS: seq<string> := [
    "server", "content-type", "x-powered-by", "via", "x-served-by", "cf-ray", "x-amz-cf-id", "x-vercel-id"]

  datatype Fingerprint = Fingerprint(
    resolvedIps: seq<string>, connectedIp: Option<string>, httpVersion: Option<string>, status: Option<nat>,
    tlsVersion: Option<string>, alpn: Option<string>, certSerial: Option<string>, certSpki: Option<string>,
    certNotAfter: Option<string>, headers: seq<(string, string)>)

  const NO_FINGERPRINT := Fingerprint([], None, None, None, None, None, None, None, None, [])

  // ---------------------------------------------------------------------------
  // Extraction
  // ---------------------------------------------------------------------------

  /** The identity headers present in a response, under their listed names and in listed order. */
  function IdentityHeaders(headers: seq<(string, string)>, names: seq<string>): seq<(string, string)> {
    if names == [] then []
    else
      var n := |names| - 1;
      var v := Headers.Find(headers, names[n]);
      IdentityHeaders(headers, names[..n]) + if v.Some? then [(names[n], v.value)] else []
  }

  function FingerprintOf(r: ProbeResult): Fingerprint {
    if r.FinalHop().None? then NO_FINGERPRINT
    else
      var hop := r.FinalHop().value;
      var leaf := r.LeafCert();
      Fingerprint(
        Sort(hop.resolvedIps, Lexical.Le), Some(hop.ip), Some(hop.httpVersion), r.Status(),
        if hop.tls.Some? then Some(hop.tls.value.version) else None,
        if hop.tls.Some? then hop.tls.value.alpn else None,
        if leaf.Some? then Some(leaf.value.serial) else None,
        if leaf.Some? then Some(leaf.value.spkiSha256) else None,
        if leaf.Some? then Some(leaf.value.notAfter) else None,
        IdentityHeaders(hop.responseHeaders, IDENTITY_HEADERS))
  }

  // ---------------------------------------------------------------------------
  // Difference lines
  // ---------------------------------------------------------------------------

  function Shown(v: Option<string>): string { if v.Some? then v.value else "(none)" }

  /** At most one line, for two values that differ. */
  function DiffOpt(name: string, old_: Option<string>, new_: Option<string>, note: string): seq<string> {
    if old_ == new_ then [] else [name + ": " + Shown(old_) + " -> " + Shown(new_) + note]
  }

  function StatusText(status: Option<nat>): Option<string> {
    if status.Some? then Some(Digits(status.value)) else None
  }

  /** The entries of `s` that `other` lacks. */
  function Missing(s: seq<string>, other: seq<string>): seq<string> {
    Filter(s, (x: string) => x !in other)
  }

  function Signed(sign: string, ips: seq<string>): seq<string> {
    seq(|ips|, i requires 0 <= i < |ips| => sign + ips[i])
  }

  const IP_LABEL: string := "resolved IPs: "

  function HeaderLine(name: string, o: Option<string>, n: Option<string>): seq<string> {
    match (o, n)
    case (Some(ov), Some(nv)) => if ov != nv then ["header[" + name + "]: " + ov + " -> " + nv] else []
    case (Some(ov), None) => ["header[" + name + "]: " + ov + " -> (removed)"]
    case (None, Some(nv)) => ["header[" + name + "]: (added) -> " + nv]
    case (None, None) => []
  }

  ghost function HeaderLines(old_: seq<(string, string)>, new_: seq<(string, string)>, n: nat): seq<string>
    requires n <= |IDENTITY_HEADERS|
  {
    if n == 0 then []
    else
      HeaderLines(old_, new_, n - 1)
      + HeaderLine(IDENTITY_HEADERS[n - 1], Headers.Find(old_, IDENTITY_HEADERS[n - 1]),
                   Headers.Find(new_, IDENTITY_HEADERS[n - 1]))
  }

  ghost function IpLine(old_: seq<string>, new_: seq<string>): seq<string> {
    var tokens := Signed("+", Missing(new_, old_)) + Signed("-", Missing(old_, new_));
    if old_ == new_ || tokens == [] then [] else [IP_LABEL + Join(tokens, ' ')]
  }

  ghost function FieldLines(a: Fingerprint, b: Fingerprint): seq<string> {
    DiffOpt("connected_ip", a.connectedIp, b.connectedIp, "")
    + DiffOpt("http_version", a.httpVersion, b.httpVersion, "")
    + (if a.status == b.status then [] else DiffOpt("status", StatusText(a.status), StatusText(b.status), ""))
    + DiffOpt("tls_version", a.tlsVersion, b.tlsVersion, "")
    + DiffOpt("alpn", a.alpn, b.alpn, "")
    + DiffOpt("cert_serial", a.certSerial, b.certSerial, "  (certificate rotated)")
    + DiffOpt("cert_spki", a.certSpki, b.certSpki, "  (key pinning changed)")
    + DiffOpt("cert_not_after", a.certNotAfter, b.certNotAfter, "")
  }

  ghost function Lines(a: Fingerprint, b: Fingerprint): seq<string> {
    IpLine(a.resolvedIps, b.resolvedIps) + FieldLines(a, b) + HeaderLines(a.headers, b.headers, |IDENTITY_HEADERS|)
  }

  method DiffHeaderLines(old_: seq<(string, string)>, new_: seq<(string, string)>, lines: seq<string>)
    returns (out: seq<string>)
    ensures out == lines + HeaderLines(old_, new_, |IDENTITY_HEADERS|)
  {
    out := lines;
    for i := 0 to |IDENTITY_HEADERS|
      invariant out == lines + HeaderLines(old_, new_, i)
    {
      var name := IDENTITY_HEADERS[i];
      out := out + HeaderLine(name, Headers.Find(old_, name), Headers.Find(new_, name));
    }
  }

  method DiffFingerprints(a: Fingerprint, b: Fingerprint) returns (lines: seq<string>)
    ensures lines == Lines(a, b)
  {
    hide DiffOpt, Digits, HeaderLines;
    lines := [];
    if a.resolvedIps != b.resolvedIps {
      var added := Signed("+", Missing(b.resolvedIps, a.resolvedIps));
      var removed := Signed("-", Missing(a.resolvedIps, b.resolvedIps));
      var tokens := added + removed;
      if tokens != [] {
        lines := lines + [IP_LABEL + Join(tokens, ' ')];
      }
    }
    ghost var ipLine := lines;
    assert ipLine == IpLine(a.resolvedIps, b.resolvedIps);
    lines := lines + DiffOpt("connected_ip", a.connectedIp, b.connectedIp, "");
    lines := lines + DiffOpt("http_version", a.httpVersion, b.httpVersion, "");
    if a.status != b.status {
      lines := lines + DiffOpt("status", StatusText(a.status), StatusText(b.status), "");
    }
    lines := lines + DiffOpt("tls_version", a.tlsVersion, b.tlsVersion, "");
    lines := lines + DiffOpt("alpn", a.alpn, b.alpn, "");
    lines := lines + DiffOpt("cert_serial", a.certSerial, b.certSerial, "  (certificate rotated)");
    lines := lines + DiffOpt("cert_spki", a.certSpki, b.certSpki, "  (key pinning changed)");
    lines := lines + DiffOpt("cert_not_after", a.certNotAfter, b.certNotAfter, "");
    assert lines == ipLine + FieldLines(a, b);
    lines := DiffHeaderLines(a.headers, b.headers, lines);
  }

  // ---------------------------------------------------------------------------
  // When nothing is reported
  // ---------------------------------------------------------------------------

  ghost predicate SameMembers(s: seq<string>, t: seq<string>) {
    forall x :: x in s <==> x in t
  }

  ghost predicate SameIdentityHeaders(a: seq<(string, string)>, b: seq<(string, string)>, n: nat)
    requires n <= |IDENTITY_HEADERS|
  {
    forall i :: 0 <= i < n ==> Headers.Find(a, IDENTITY_HEADERS[i]) == Headers.Find(b, IDENTITY_HEADERS[i])
  }

  ghost predicate SameFields(a: Fingerprint, b: Fingerprint) {
    && a.connectedIp == b.connectedIp && a.httpVersion == b.httpVersion && a.status == b.status
    && a.tlsVersion == b.tlsVersion && a.alpn == b.alpn && a.certSerial == b.certSerial
    && a.certSpki == b.certSpki && a.certNotAfter == b.certNotAfter
  }

  lemma MissingMembers(s: seq<string>, other: seq<string>)
    ensures forall x :: x in Missing(s, other) <==> x in s && x !in other
  {
    FilterMembers(s, (x: string) => x !in other);
  }

  lemma MissingEmptyIff(s: seq<string>, other: seq<string>)
    ensures Missing(s, other) == [] <==> forall x :: x in s ==> x in other
  {
    hide Missing;
    MissingMembers(s, other);
    assert Missing(s, other) != [] ==> Missing(s, other)[0] in Missing(s, other);
  }

  lemma IpLineEmptyIff(s: seq<string>, t: seq<string>)
    ensures IpLine(s, t) == [] <==> SameMembers(s, t)
  {
    MissingEmptyIff(s, t);
    MissingEmptyIff(t, s);
  }

  lemma FieldLinesEmptyIff(a: Fingerprint, b: Fingerprint)
    ensures FieldLines(a, b) == [] <==> SameFields(a, b)
  {
    hide Digits;
    if a.status.Some? && b.status.Some? && Digits(a.status.value) == Digits(b.status.value) {
      DigitsInjective(a.status.value, b.status.value);
    }
  }

  lemma HeaderLineEmptyIff(name: string, o: Option<string>, n: Option<string>)
    ensures HeaderLine(name, o, n) == [] <==> o == n
  {}

  lemma {:induction false} HeaderLinesEmptyIff(a: seq<(string, string)>, b: seq<(string, string)>, n: nat)
    requires n <= |IDENTITY_HEADERS|
    ensures HeaderLines(a, b, n) == [] <==> SameIdentityHeaders(a, b, n)
  {
    hide Headers.Find, HeaderLine;
    if n > 0 {
      HeaderLinesEmptyIff(a, b, n - 1);
      var name := IDENTITY_HEADERS[n - 1];
      HeaderLineEmptyIff(name, Headers.Find(a, name), Headers.Find(b, name));
    }
  }

  /** For any two fingerprints, nothing is reported exactly when they agree up to the order and repetition of IPs. */
  lemma NothingReportedIff(a: Fingerprint, b: Fingerprint)
    ensures Lines(a, b) == [] <==>
              && SameMembers(a.resolvedIps, b.resolvedIps)
              && SameFields(a, b)
              && SameIdentityHeaders(a.headers, b.headers, |IDENTITY_HEADERS|)
  {
    hide IpLine, FieldLines, HeaderLines, SameMembers, SameFields, SameIdentityHeaders;
    IpLineEmptyIff(a.resolvedIps, b.resolvedIps);
    FieldLinesEmptyIff(a, b);
    HeaderLinesEmptyIff(a.headers, b.headers, |IDENTITY_HEADERS|);
  }

  // ---------------------------------------------------------------------------
  // Fingerprints extracted from probes
  // ---------------------------------------------------------------------------

  /** No two listed names match one another. */
  lemma IdentityNamesDistinct()
    ensures forall i, j :: 0 <= i < j < |IDENTITY_HEADERS| ==>
              !Headers.EqIgnoreAsciiCase(IDENTITY_HEADERS[i], IDENTITY_HEADERS[j])
              && !Headers.EqIgnoreAsciiCase(IDENTITY_HEADERS[j], IDENTITY_HEADERS[i])
  {
    var h := IDENTITY_HEADERS;
    assert |h[0]| == 6 && |h[1]| == 12 && |h[2]| == 12 && |h[3]| == 3;
    assert |h[4]| == 11 && |h[5]| == 6 && |h[6]| == 11 && |h[7]| == 11;
    assert h[0][0] == 's' && h[5][0] == 'c';
    assert h[1][0] == 'c' && h[2][0] == 'x';
    assert h[4][2] == 's' && h[6][2] == 'a' && h[7][2] == 'v';
  }

  lemma {:induction false} FindConcat(a: seq<(string, string)>, b: seq<(string, string)>, name: string)
    ensures Headers.Find(a + b, name) ==
            if Headers.Find(a, name).Some? then Headers.Find(a, name) else Headers.Find(b, name)
    decreases |a|
  {
    hide Headers.EqIgnoreAsciiCase;
    if a == [] {
      assert a + b == b;
    } else {
      FindConcat(a[1..], b, name);
      assert (a + b)[1..] == a[1..] + b;
    }
  }

  lemma FindNothing(name: string)
    ensures Headers.Find([], name) == None
  {}

  lemma FindSingle(name: string, v: Option<string>, wanted: string, same: bool)
    requires same ==> name == wanted
    requires !same ==> !Headers.EqIgnoreAsciiCase(name, wanted)
    ensures Headers.Find(if v.Some? then [(name, v.value)] else [], wanted) == if same then v else None
  {
    if v.Some? {
      assert [(name, v.value)][1..] == [];
    }
  }

  /** Extraction keeps the value of every listed header extracted so far and adds no other. */
  lemma {:induction false} ExtractedLookup(headers: seq<(string, string)>, n: nat, i: nat)
    requires n <= |IDENTITY_HEADERS| && i < |IDENTITY_HEADERS|
    ensures Headers.Find(IdentityHeaders(headers, IDENTITY_HEADERS[..n]), IDENTITY_HEADERS[i]) ==
            if i < n then Headers.Find(headers, IDENTITY_HEADERS[i]) else None
    decreases n
  {
    hide Headers.Find, Headers.EqIgnoreAsciiCase;
    var names := IDENTITY_HEADERS[..n];
    if n == 0 {
      FindNothing(IDENTITY_HEADERS[i]);
    } else {
      ExtractedLookup(headers, n - 1, i);
      assert names[..n - 1] == IDENTITY_HEADERS[..n - 1];
      var name := IDENTITY_HEADERS[n - 1];
      var v := Headers.Find(headers, name);
      var last := if v.Some? then [(name, v.value)] else [];
      FindConcat(IdentityHeaders(headers, IDENTITY_HEADERS[..n - 1]), last, IDENTITY_HEADERS[i]);
      IdentityNamesDistinct();
      FindSingle(name, v, IDENTITY_HEADERS[i], i == n - 1);
    }
  }

  lemma {:induction false} SameLookupsSameHeaders(a: seq<(string, string)>, b: seq<(string, string)>, n: nat)
    requires n <= |IDENTITY_HEADERS| && SameIdentityHeaders(a, b, n)
    ensures IdentityHeaders(a, IDENTITY_HEADERS[..n]) == IdentityHeaders(b, IDENTITY_HEADERS[..n])
  {
    hide Headers.Find;
    if n > 0 {
      SameLookupsSameHeaders(a, b, n - 1);
      assert IDENTITY_HEADERS[..n][..n - 1] == IDENTITY_HEADERS[..n - 1];
    }
  }

  /** Extracted header lists are compared faithfully. */
  lemma ExtractedHeadersCompare(a: seq<(string, string)>, b: seq<(string, string)>)
    ensures var x, y := IdentityHeaders(a, IDENTITY_HEADERS), IdentityHeaders(b, IDENTITY_HEADERS);
            SameIdentityHeaders(x, y, |IDENTITY_HEADERS|) <==> x == y
  {
    hide Headers.Find, IdentityHeaders;
    var all := |IDENTITY_HEADERS|;
    assert IDENTITY_HEADERS[..all] == IDENTITY_HEADERS;
    var x, y := IdentityHeaders(a, IDENTITY_HEADERS), IdentityHeaders(b, IDENTITY_HEADERS);
    if SameIdentityHeaders(x, y, all) {
      forall i | 0 <= i < all
        ensures Headers.Find(a, IDENTITY_HEADERS[i]) == Headers.Find(b, IDENTITY_HEADERS[i])
      {
        ExtractedLookup(a, all, i);
        ExtractedLookup(b, all, i);
        assert Headers.Find(x, IDENTITY_HEADERS[i]) == Headers.Find(y, IDENTITY_HEADERS[i]);
      }
      SameLookupsSameHeaders(a, b, all);
    }
  }

  ghost predicate NoDuplicates(s: seq<string>) {
    forall i, j :: 0 <= i < j < |s| ==> s[i] != s[j]
  }

  /** Where `x` first occurs. */
  ghost function FirstIndex(s: seq<string>, x: string): (k: nat)
    requires x in s
    ensures k < |s| && s[k] == x && x !in s[..k]
  {
    if s[0] == x then 0
    else
      var k := FirstIndex(s[1..], x) + 1;
      assert s[..k] == [s[0]] + s[1..][..k - 1];
      k
  }

  lemma FirstOccurrence(s: seq<string>, i: nat)
    requires i < |s| && s[i] !in s[..i]
    ensures FirstIndex(s, s[i]) == i
  {
    var k := FirstIndex(s, s[i]);
    assert forall j :: 0 <= j < i ==> s[..i][j] == s[j] != s[i];
    assert forall j :: 0 <= j < k ==> s[..k][j] == s[j] != s[i];
  }

  /** How a connection records its addresses: the acceptable ones, each once, in the order of their first occurrence. */
  method CollectAddresses(addrs: seq<string>, accepts: string -> bool) returns (ips: seq<string>)
    ensures NoDuplicates(ips)
    ensures forall x :: x in ips <==> x in addrs && accepts(x)
    ensures forall i, j :: 0 <= i < j < |ips| ==> FirstIndex(addrs, ips[i]) < FirstIndex(addrs, ips[j])
  {
    hide FirstIndex;
    ips := [];
    for i := 0 to |addrs|
      invariant NoDuplicates(ips)
      invariant forall x :: x in ips <==> x in addrs[..i] && accepts(x)
      invariant forall k :: 0 <= k < |ips| ==> ips[k] in addrs && FirstIndex(addrs, ips[k]) < i
      invariant forall k, l :: 0 <= k < l < |ips| ==> FirstIndex(addrs, ips[k]) < FirstIndex(addrs, ips[l])
    {
      if accepts(addrs[i]) && addrs[i] !in ips {
        FirstOccurrence(addrs, i);
        ips := ips + [addrs[i]];
      }
    }
  }

  lemma {:induction false} CountOfDistinct(s: seq<string>, x: string)
    requires NoDuplicates(s)
    ensures multiset(s)[x] == if x in s then 1 else 0
  {
    if s != [] {
      CountOfDistinct(s[1..], x);
      assert s == [s[0]] + s[1..];
    }
  }

  /** Duplicate-free lists with the same members sort to the same list. */
  lemma SortedSetsAgree(a: seq<string>, b: seq<string>)
    requires NoDuplicates(a) && NoDuplicates(b)
    ensures SameMembers(Sort(a, Lexical.Le), Sort(b, Lexical.Le)) <==> Sort(a, Lexical.Le) == Sort(b, Lexical.Le)
  {
    hide Lexical.Le, Sort;
    if SameMembers(Sort(a, Lexical.Le), Sort(b, Lexical.Le)) {
      forall x
        ensures multiset(a)[x] == multiset(b)[x]
      {
        SortKeepsMembers(a, Lexical.Le, x);
        SortKeepsMembers(b, Lexical.Le, x);
        CountOfDistinct(a, x);
        CountOfDistinct(b, x);
      }
      assert multiset(a) == multiset(b);
      Lexical.LeIsTotalOrder();
      SortForgetsOrder(a, b, Lexical.Le);
    }
  }

  ghost function FinalIps(r: ProbeResult): seq<string> {
    if r.FinalHop().Some? then r.FinalHop().value.resolvedIps else []
  }

  ghost function FinalHeaders(r: ProbeResult): seq<(string, string)> {
    if r.FinalHop().Some? then r.FinalHop().value.responseHeaders else []
  }

  lemma ExtractedIps(r: ProbeResult)
    ensures FingerprintOf(r).resolvedIps == Sort(FinalIps(r), Lexical.Le)
  {}

  lemma {:induction false} NoIdentityHeaders(names: seq<string>)
    ensures IdentityHeaders([], names) == []
  {
    if names != [] {
      NoIdentityHeaders(names[..|names| - 1]);
    }
  }

  lemma ExtractedHeaders(r: ProbeResult)
    ensures FingerprintOf(r).headers == IdentityHeaders(FinalHeaders(r), IDENTITY_HEADERS)
  {
    if r.FinalHop().None? {
      NoIdentityHeaders(IDENTITY_HEADERS);
    }
  }

  /**
   * Between probes whose answers hold no repeated address, as every connection the probe engine makes records them,
   * nothing is reported exactly when the fingerprints are equal.
   */
  lemma ReportIsFaithful(r: ProbeResult, q: ProbeResult)
    requires NoDuplicates(FinalIps(r)) && NoDuplicates(FinalIps(q))
    ensures Lines(FingerprintOf(r), FingerprintOf(q)) == [] <==> FingerprintOf(r) == FingerprintOf(q)
  {
    hide Lines, SameMembers, SameIdentityHeaders, IdentityHeaders, Sort, Lexical.Le, LeafOf;
    var a, b := FingerprintOf(r), FingerprintOf(q);
    NothingReportedIff(a, b);
    ExtractedIps(r);
    ExtractedIps(q);
    SortedSetsAgree(FinalIps(r), FinalIps(q));
    ExtractedHeaders(r);
    ExtractedHeaders(q);
    ExtractedHeadersCompare(FinalHeaders(r), FinalHeaders(q));
  }

  /** A repeated address is invisible: two different fingerprints can have nothing to report. */
  lemma RepetitionIsInvisible(f: Fingerprint, ip: string)
    ensures var a, b := f.(resolvedIps := [ip]), f.(resolvedIps := [ip, ip]);
            a != b && Lines(a, b) == []
  {
    var a, b := f.(resolvedIps := [ip]), f.(resolvedIps := [ip, ip]);
    assert |a.resolvedIps| != |b.resolvedIps|;
    NothingReportedIff(a, b);
  }

  // ---------------------------------------------------------------------------
  // What an extracted fingerprint and a printed line say
  // ---------------------------------------------------------------------------

  /** Without hops nothing is known. */
  lemma NoHopNoFingerprint(r: ProbeResult)
    requires r.hops == []
    ensures FingerprintOf(r) == Fingerprint([], None, None, None, None, None, None, None, None, [])
  {}

  /** Every field comes from the last hop, except the certificate's, which come from the leaf of the last chain seen. */
  lemma FingerprintFields(r: ProbeResult)
    requires r.hops != []
    ensures var f, hop := FingerprintOf(r), r.hops[|r.hops| - 1];
            && multiset(f.resolvedIps) == multiset(hop.resolvedIps) && SortedBy(f.resolvedIps, Lexical.Le)
            && f.connectedIp == Some(hop.ip) && f.httpVersion == Some(hop.httpVersion) && f.status == Some(hop.status)
            && (hop.tls.Some? ==> f.tlsVersion == Some(hop.tls.value.version) && f.alpn == hop.tls.value.alpn)
            && (hop.tls.None? ==> f.tlsVersion == None && f.alpn == None)
            && (r.LeafCert().Some? ==>
                  && f.certSerial == Some(r.LeafCert().value.serial)
                  && f.certSpki == Some(r.LeafCert().value.spkiSha256)
                  && f.certNotAfter == Some(r.LeafCert().value.notAfter))
            && (r.LeafCert().None? ==> f.certSerial == None && f.certSpki == None && f.certNotAfter == None)
  {
    hide Lexical.Le, IdentityHeaders, LeafOf;
    var ips := r.hops[|r.hops| - 1].resolvedIps;
    Lexical.LeIsTotalOrder();
    SortPermutes(ips, Lexical.Le);
    SortSorts(ips, Lexical.Le);
  }

  lemma {:induction false} ExtractedNames(headers: seq<(string, string)>, names: seq<string>)
    ensures forall h :: h in IdentityHeaders(headers, names) ==> h.0 in names
  {
    hide Headers.Find;
    if names != [] {
      ExtractedNames(headers, names[..|names| - 1]);
    }
  }

  /** An extracted list has, for each whitelisted name, the first header of that name in the response, and no other. */
  lemma FingerprintHeaders(r: ProbeResult, name: string)
    requires r.hops != []
    ensures var listed := ["server", "content-type", "x-powered-by", "via", "x-served-by", "cf-ray", "x-amz-cf-id",
                           "x-vercel-id"];
            && (name in listed ==>
                  Headers.Find(FingerprintOf(r).headers, name)
                  == Headers.Find(r.hops[|r.hops| - 1].responseHeaders, name))
            && forall h :: h in FingerprintOf(r).headers ==> h.0 in listed
  {
    hide Headers.Find, IdentityHeaders, Sort, LeafOf;
    var headers := r.hops[|r.hops| - 1].responseHeaders;
    ExtractedNames(headers, IDENTITY_HEADERS);
    if i :| 0 <= i < |IDENTITY_HEADERS| && IDENTITY_HEADERS[i] == name {
      assert IDENTITY_HEADERS[..|IDENTITY_HEADERS|] == IDENTITY_HEADERS;
      ExtractedLookup(headers, |IDENTITY_HEADERS|, i);
    }
  }

  ghost predicate NoArrow(s: string) { '>' !in s }

  lemma SplitsInTwo(before: string, after: string)
    requires NoArrow(before) && NoArrow(after)
    ensures Split(before + ">" + after, '>') == [before, after]
  {
    var pieces := [before, after];
    assert pieces[..1] == [before];
    SplitJoin(pieces, '>');
    assert Join(pieces, '>') == before + ">" + after;
  }

  lemma ArrowLine(head: string, left: string, right: string, line: string)
    requires NoArrow(head) && NoArrow(left) && NoArrow(right)
    requires line == head + left + " -> " + right
    ensures Split(line, '>') == [head + left + " -", " " + right]
  {
    hide Split;
    assert line == (head + left + " -") + ">" + (" " + right);
    SplitsInTwo(head + left + " -", " " + right);
  }

  /** A reader splitting a field line at its arrow finds the old value before it and the new one behind it. */
  lemma FieldLineReads(name: string, old_: Option<string>, new_: Option<string>, note: string)
    requires old_ != new_ && NoArrow(name) && NoArrow(note)
    requires (old_.Some? ==> NoArrow(old_.value)) && (new_.Some? ==> NoArrow(new_.value))
    ensures |DiffOpt(name, old_, new_, note)| == 1
    ensures Split(DiffOpt(name, old_, new_, note)[0], '>')
         == [name + ": " + (if old_.Some? then old_.value else "(none)") + " -",
             " " + (if new_.Some? then new_.value else "(none)") + note]
  {
    hide Split;
    var o, n := if old_.Some? then old_.value else "(none)", if new_.Some? then new_.value else "(none)";
    ArrowLine(name + ": ", o, n + note, name + ": " + o + " -> " + n + note);
    assert " " + (n + note) == " " + n + note;
  }

  /** The same for a header line, where an absent value reads as added or removed. */
  lemma HeaderLineReads(name: string, o: Option<string>, n: Option<string>)
    requires o != n && NoArrow(name) && (o.Some? ==> NoArrow(o.value)) && (n.Some? ==> NoArrow(n.value))
    ensures |HeaderLine(name, o, n)| == 1
    ensures Split(HeaderLine(name, o, n)[0], '>')
         == ["header[" + name + "]: " + (if o.Some? then o.value else "(added)") + " -",
             " " + if n.Some? then n.value else "(removed)"]
  {
    hide Split;
    var left, right := if o.Some? then o.value else "(added)", if n.Some? then n.value else "(removed)";
    ArrowLine("header[" + name + "]: ", left, right, HeaderLine(name, o, n)[0]);
  }

  /** A status is shown as the decimal number it is. */
  lemma StatusShown(status: nat)
    ensures StatusText(Some(status)).Some? && Read(StatusText(Some(status)).value) == status
    ensures StatusText(None) == None
  {
    DigitsRead(status);
  }

  // ---------------------------------------------------------------------------
  // The printed addresses
  // ---------------------------------------------------------------------------

  /** The tokens a reader finds in the address line: what follows its label, split at spaces. */
  ghost function PrintedTokens(line: string): seq<string> {
    if |line| < |IP_LABEL| then [] else Split(line[|IP_LABEL|..], ' ')
  }

  predicate HasSign(token: string, sign: char) { token != [] && token[0] == sign }

  ghost function WithoutSign(tokens: seq<string>): seq<string> {
    seq(|tokens|, i requires 0 <= i < |tokens| => if tokens[i] == [] then [] else tokens[i][1..])
  }

  /** The addresses printed behind this sign; none without an address line. */
  ghost function Printed(lines: seq<string>, sign: char): seq<string> {
    if lines == [] then [] else WithoutSign(Filter(PrintedTokens(lines[0]), (x: string) => HasSign(x, sign)))
  }

  ghost predicate NoSpaces(ips: seq<string>) {
    forall i :: 0 <= i < |ips| ==> ' ' !in ips[i]
  }

  /** Filtering by a sign picks out the tokens that were given it. */
  lemma PickSigned(ips: seq<string>, given: char, sign: char)
    ensures Filter(Signed([given], ips), (x: string) => HasSign(x, sign)) == if given == sign then Signed([given], ips) else []
    ensures WithoutSign(Signed([given], ips)) == ips
  {
    var tokens := Signed([given], ips);
    forall x | x in tokens
      ensures HasSign(x, given)
    {
      var i :| 0 <= i < |tokens| && tokens[i] == x;
      assert x == [given] + ips[i];
    }
    if given == sign {
      FilterAll(tokens, (x: string) => HasSign(x, sign));
    } else {
      FilterNone(tokens, (x: string) => HasSign(x, sign));
    }
    forall i | 0 <= i < |ips|
      ensures WithoutSign(tokens)[i] == ips[i]
    {
      assert ([given] + ips[i])[1..] == ips[i];
    }
  }

  lemma MissingNoSpaces(s: seq<string>, other: seq<string>)
    requires NoSpaces(s)
    ensures NoSpaces(Missing(s, other))
  {
    MissingMembers(s, other);
    forall i | 0 <= i < |Missing(s, other)|
      ensures ' ' !in Missing(s, other)[i]
    {
      assert Missing(s, other)[i] in Missing(s, other);
    }
  }

  lemma SignedNoSpaces(given: char, ips: seq<string>)
    requires given != ' ' && NoSpaces(ips)
    ensures NoSpaces(Signed([given], ips))
  {}

  lemma TokensReadBack(a: seq<string>, b: seq<string>)
    requires NoSpaces(a) && NoSpaces(b) && a + b != []
    ensures PrintedTokens(IP_LABEL + Join(a + b, ' ')) == a + b
  {
    hide Split, Join;
    SplitJoin(a + b, ' ');
    assert (IP_LABEL + Join(a + b, ' '))[|IP_LABEL|..] == Join(a + b, ' ');
  }

  /** What a reader finds printed is exactly what is missing on either side, in order. */
  lemma PrintedAddresses(s: seq<string>, t: seq<string>)
    requires NoSpaces(s) && NoSpaces(t)
    ensures Printed(IpLine(s, t), '+') == Missing(t, s)
    ensures Printed(IpLine(s, t), '-') == Missing(s, t)
  {
    hide Missing, Signed, WithoutSign, HasSign, Filter, Join, Split, NoSpaces;
    var added, removed := Missing(t, s), Missing(s, t);
    if IpLine(s, t) == [] {
      IpLineEmptyIff(s, t);
      MissingEmptyIff(s, t);
      MissingEmptyIff(t, s);
    } else {
      var tokens := Signed("+", added) + Signed("-", removed);
      assert IpLine(s, t) == [IP_LABEL + Join(tokens, ' ')];
      MissingNoSpaces(s, t);
      MissingNoSpaces(t, s);
      SignedNoSpaces('+', added);
      SignedNoSpaces('-', removed);
      TokensReadBack(Signed("+", added), Signed("-", removed));
      FilterConcat(Signed("+", added), Signed("-", removed), (x: string) => HasSign(x, '+'));
      FilterConcat(Signed("+", added), Signed("-", removed), (x: string) => HasSign(x, '-'));
      PickSigned(added, '+', '+');
      PickSigned(added, '+', '-');
      PickSigned(removed, '-', '+');
      PickSigned(removed, '-', '-');
      assert Signed("+", added) + [] == Signed("+", added) && [] + Signed("-", removed) == Signed("-", removed);
    }
  }

  /**
   * Swapping the arguments exactly swaps what is printed as added and as removed, in the same order. Addresses hold no
   * space.
   */
  lemma SwapExchangesTokens(s: seq<string>, t: seq<string>)
    requires NoSpaces(s) && NoSpaces(t)
    ensures Printed(IpLine(s, t), '+') == Printed(IpLine(t, s), '-')
    ensures Printed(IpLine(s, t), '-') == Printed(IpLine(t, s), '+')
    ensures forall x :: x in Printed(IpLine(s, t), '+') <==> x in t && x !in s
  {
    hide Printed, IpLine, Missing;
    PrintedAddresses(s, t);
    PrintedAddresses(t, s);
    MissingMembers(t, s);
  }
}
