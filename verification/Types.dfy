/** The shared probe result types of src/types.rs. Addresses and dates appear by their canonical text. */
module Types {
  import opened Wrappers

  datatype PhaseTimings = PhaseTimings(
    dnsMs: Option<real>, tcpMs: real, tlsMs: Option<real>, ttfbMs: real, downloadMs: real, totalMs: real)

  datatype TlsInfo = TlsInfo(version: string, cipher: string, alpn: Option<string>, kxGroup: Option<string>)

  datatype CertInfo = CertInfo(subject: string, serial: string, spkiSha256: string, notAfter: string)

  datatype HopResult = HopResult(
    url: string, ip: string, port: nat, reusedConn: bool, localAddr: Option<string>, resolvedIps: seq<string>,
    httpVersion: string, status: nat, timings: PhaseTimings, tls: Option<TlsInfo>, certChain: seq<CertInfo>,
    responseHeaders: seq<(string, string)>, bodyBytes: nat, redirectTo: Option<string>)

  datatype ErrorPhase = Setup | Dns | Tcp | Tls | Request | Download | Redirect

  datatype ProbeError = ProbeError(phase: ErrorPhase, message: string, timedOut: bool)

  function LeafOf(hops: seq<HopResult>): Option<CertInfo> {
    if hops == [] then None
    else if hops[|hops| - 1].certChain != [] then Some(hops[|hops| - 1].certChain[0])
    else LeafOf(hops[..|hops| - 1])
  }

  function AddOptional(sum: Option<real>, d: Option<real>): Option<real> {
    if d.None? then sum else Some((if sum.Some? then sum.value else 0.0) + d.value)
  }

  function SumTimings(hops: seq<HopResult>): PhaseTimings {
    if hops == [] then PhaseTimings(None, 0.0, None, 0.0, 0.0, 0.0)
    else
      var sum := SumTimings(hops[..|hops| - 1]);
      var t := hops[|hops| - 1].timings;
      PhaseTimings(AddOptional(sum.dnsMs, t.dnsMs), sum.tcpMs + t.tcpMs, AddOptional(sum.tlsMs, t.tlsMs),
                   sum.ttfbMs + t.ttfbMs, sum.downloadMs + t.downloadMs, sum.totalMs + t.totalMs)
  }

  datatype ProbeResult = ProbeResult(
    target: string, seqNo: nat, hops: seq<HopResult>, error: Option<ProbeError>, expectFailures: seq<string>,
    totalMs: real)
  {
    predicate IsSuccess() { error.None? }

    function FinalHop(): Option<HopResult> {
      if hops == [] then None else Some(hops[|hops| - 1])
    }

    function Status(): Option<nat> {
      if hops == [] then None else Some(hops[|hops| - 1].status)
    }

    /** The first certificate of the last hop that presented any. */
    function LeafCert(): Option<CertInfo> { LeafOf(hops) }

    function SummedTimings(): PhaseTimings { SumTimings(hops) }
  }

  /** The summing loop of `summed_timings`. */
  method SumOverHops(hops: seq<HopResult>) returns (sum: PhaseTimings)
    ensures sum == SumTimings(hops)
  {
    sum := PhaseTimings(None, 0.0, None, 0.0, 0.0, 0.0);
    for i := 0 to |hops|
      invariant sum == SumTimings(hops[..i])
    {
      var t := hops[i].timings;
      if t.dnsMs.Some? {
        sum := sum.(dnsMs := Some((if sum.dnsMs.Some? then sum.dnsMs.value else 0.0) + t.dnsMs.value));
      }
      sum := sum.(tcpMs := sum.tcpMs + t.tcpMs);
      if t.tlsMs.Some? {
        sum := sum.(tlsMs := Some((if sum.tlsMs.Some? then sum.tlsMs.value else 0.0) + t.tlsMs.value));
      }
      sum := sum.(ttfbMs := sum.ttfbMs + t.ttfbMs, downloadMs := sum.downloadMs + t.downloadMs,
                  totalMs := sum.totalMs + t.totalMs);
      assert hops[..i + 1][..i] == hops[..i];
    }
    assert hops[..|hops|] == hops;
  }

  /** The leaf certificate is the first one of the last hop that presented any. */
  lemma {:induction false} LeafIsOfLastChain(hops: seq<HopResult>)
    ensures LeafOf(hops).None? <==> forall k :: 0 <= k < |hops| ==> hops[k].certChain == []
    ensures LeafOf(hops).Some? ==>
              exists k :: 0 <= k < |hops| && hops[k].certChain != [] && LeafOf(hops).value == hops[k].certChain[0]
                          && forall j :: k < j < |hops| ==> hops[j].certChain == []
  {
    if hops != [] && hops[|hops| - 1].certChain == [] {
      LeafIsOfLastChain(hops[..|hops| - 1]);
    }
  }

  /** One measured time added up over all hops. */
  ghost function SumOf(hops: seq<HopResult>, time: PhaseTimings -> real): real {
    if hops == [] then 0.0 else time(hops[0].timings) + SumOf(hops[1..], time)
  }

  lemma {:induction false} SumOfAppend(hops: seq<HopResult>, hop: HopResult, time: PhaseTimings -> real)
    ensures SumOf(hops + [hop], time) == SumOf(hops, time) + time(hop.timings)
  {
    if hops == [] {
      assert [hop][1..] == [];
    } else {
      SumOfAppend(hops[1..], hop, time);
      assert (hops + [hop])[1..] == hops[1..] + [hop];
    }
  }

  /** An optional time, counting as nothing where it is absent. */
  ghost function OrZero(v: Option<real>): real { if v.Some? then v.value else 0.0 }

  lemma NoSum(time: PhaseTimings -> real)
    ensures SumOf([], time) == 0.0
  {}

  /** Summed timings, field by field; DNS and TLS are absent only if no hop has them. */
  lemma {:induction false} SumsByField(hops: seq<HopResult>)
    ensures var sum := SumTimings(hops);
            && sum.tcpMs == SumOf(hops, (t: PhaseTimings) => t.tcpMs)
            && sum.ttfbMs == SumOf(hops, (t: PhaseTimings) => t.ttfbMs)
            && sum.downloadMs == SumOf(hops, (t: PhaseTimings) => t.downloadMs)
            && sum.totalMs == SumOf(hops, (t: PhaseTimings) => t.totalMs)
            && OrZero(sum.dnsMs) == SumOf(hops, (t: PhaseTimings) => OrZero(t.dnsMs))
            && OrZero(sum.tlsMs) == SumOf(hops, (t: PhaseTimings) => OrZero(t.tlsMs))
            && (sum.dnsMs.Some? <==> exists k :: 0 <= k < |hops| && hops[k].timings.dnsMs.Some?)
            && (sum.tlsMs.Some? <==> exists k :: 0 <= k < |hops| && hops[k].timings.tlsMs.Some?)
  {
    hide SumOf;
    if hops == [] {
      NoSum((t: PhaseTimings) => t.tcpMs);
      NoSum((t: PhaseTimings) => t.ttfbMs);
      NoSum((t: PhaseTimings) => t.downloadMs);
      NoSum((t: PhaseTimings) => t.totalMs);
      NoSum((t: PhaseTimings) => OrZero(t.dnsMs));
      NoSum((t: PhaseTimings) => OrZero(t.tlsMs));
    } else {
      var front, last := hops[..|hops| - 1], hops[|hops| - 1];
      SumsByField(front);
      assert hops == front + [last];
      SumOfAppend(front, last, (t: PhaseTimings) => t.tcpMs);
      SumOfAppend(front, last, (t: PhaseTimings) => t.ttfbMs);
      SumOfAppend(front, last, (t: PhaseTimings) => t.downloadMs);
      SumOfAppend(front, last, (t: PhaseTimings) => t.totalMs);
      SumOfAppend(front, last, (t: PhaseTimings) => OrZero(t.dnsMs));
      SumOfAppend(front, last, (t: PhaseTimings) => OrZero(t.tlsMs));
    }
  }
}
