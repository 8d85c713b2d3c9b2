/** The statistics collector of src/stats.rs: every counter as a function of the probes recorded since the last reset. */
module Stats {
  import opened Wrappers
  import opened Sequences
  import opened Types
  import opened Sorting
  import opened PhaseAccumulation
  import Lexical

  const MIN_GOODPUT_BODY_BYTES: nat := 4096

  // ---------------------------------------------------------------------------
  // Tallies
  // ---------------------------------------------------------------------------

  function Bump<K>(m: map<K, nat>, k: K): map<K, nat> {
    m[k := (if k in m then m[k] else 0) + 1]
  }

  ghost function Tally<K>(keys: seq<K>): map<K, nat> {
    if keys == [] then map[] else Bump(Tally(keys[..|keys| - 1]), keys[|keys| - 1])
  }

  ghost function SumValues<K>(m: map<K, nat>): nat
    decreases |m|
  {
    if m == map[] then 0
    else
      var k :| k in m;
      m[k] + SumValues(m - {k})
  }

  lemma {:induction false} SumRemove<K>(m: map<K, nat>, k: K)
    requires k in m
    ensures SumValues(m) == m[k] + SumValues(m - {k})
    decreases |m|
  {
    var j :| j in m && SumValues(m) == m[j] + SumValues(m - {j});
    if j != k {
      SumRemove(m - {j}, k);
      SumRemove(m - {k}, j);
      assert m - {j} - {k} == m - {k} - {j};
    }
  }

  lemma SumBump<K>(m: map<K, nat>, k: K)
    ensures SumValues(Bump(m, k)) == SumValues(m) + 1
  {
    var b := Bump(m, k);
    SumRemove(b, k);
    if k in m {
      SumRemove(m, k);
      assert b - {k} == m - {k};
    } else {
      assert b - {k} == m;
    }
  }

  /** A tally counts every key it was given once. */
  lemma {:induction false} TallyTotal<K>(keys: seq<K>)
    ensures SumValues(Tally(keys)) == |keys|
  {
    if keys != [] {
      TallyTotal(keys[..|keys| - 1]);
      SumBump(Tally(keys[..|keys| - 1]), keys[|keys| - 1]);
    }
  }

  lemma TallyAppend<K>(keys: seq<K>, k: K)
    ensures Tally(keys + [k]) == Bump(Tally(keys), k)
  {
    assert (keys + [k])[..|keys|] == keys;
  }

  // ---------------------------------------------------------------------------
  // What one probe contributes
  // ---------------------------------------------------------------------------

  predicate Succeeded(r: ProbeResult) { r.IsSuccess() }

  predicate Violates(r: ProbeResult) { r.expectFailures != [] }

  predicate Reused(h: HopResult) { h.reusedConn }

  function HopsOf(r: ProbeResult): seq<HopResult> { r.hops }

  function StatusOf(r: ProbeResult): seq<nat> {
    if r.Status().Some? then [r.Status().value] else []
  }

  /** Labels of the six known versions; anything else keeps what follows "HTTP/", or is unknown. */
  function NormalizeHttpVersion(v: string): string {
    if v == "HTTP/2" then "http2"
    else if v == "HTTP/1.1" then "http1.1"
    else if v == "HTTP/1.0" then "http1.0"
    else if v == "HTTP/3" then "http3"
    else if v == "HTTP/0.9" then "http0.9"
    else if v == "HTTP/?" then "unknown"
    else if |v| >= 5 && v[..5] == "HTTP/" then "http" + v[5..]
    else "unknown"
  }

  function VersionOf(h: HopResult): seq<string> { [NormalizeHttpVersion(h.httpVersion)] }

  /** The sorted answer of the final hop, if it has any addresses. */
  function AnswerOf(r: ProbeResult): seq<seq<string>> {
    if r.FinalHop().Some? && r.FinalHop().value.resolvedIps != []
    then [Sort(r.FinalHop().value.resolvedIps, Lexical.Le)] else []
  }

  function Optional(v: Option<real>): seq<real> {
    if v.Some? then [v.value] else []
  }

  predicate AllReused(hops: seq<HopResult>) {
    hops != [] && forall i :: 0 <= i < |hops| ==> hops[i].reusedConn
  }

  function BodyBytes(hops: seq<HopResult>): nat {
    if hops == [] then 0 else BodyBytes(hops[..|hops| - 1]) + hops[|hops| - 1].bodyBytes
  }

  function DnsSample(r: ProbeResult): seq<real> { Optional(r.SummedTimings().dnsMs) }

  function TcpSample(r: ProbeResult): seq<real> { if AllReused(r.hops) then [] else [r.SummedTimings().tcpMs] }

  function TlsSample(r: ProbeResult): seq<real> { Optional(r.SummedTimings().tlsMs) }

  function TtfbSample(r: ProbeResult): seq<real> { [r.SummedTimings().ttfbMs] }

  function DownloadSample(r: ProbeResult): seq<real> { [r.SummedTimings().downloadMs] }

  function TotalSample(r: ProbeResult): seq<real> { [r.SummedTimings().totalMs] }

  /** Bytes per second, for a large enough body that took time to arrive. */
  function Goodput(r: ProbeResult): seq<real> {
    var body, ms := BodyBytes(r.hops), r.SummedTimings().downloadMs;
    if body >= MIN_GOODPUT_BODY_BYTES && ms > 0.0 then [body as real / (ms / 1000.0)] else []
  }

  predicate Satisfied(threshold: Option<real>, r: ProbeResult) {
    threshold.Some? && r.SummedTimings().totalMs <= threshold.value
  }

  predicate Tolerating(threshold: Option<real>, r: ProbeResult) {
    && threshold.Some?
    && r.SummedTimings().totalMs > threshold.value
    && r.SummedTimings().totalMs <= 4.0 * threshold.value
  }

  /** How many neighbours in a list of answers differ. */
  ghost function Changes(answers: seq<seq<string>>): nat {
    if |answers| <= 1 then 0
    else Changes(answers[..|answers| - 1]) + if answers[|answers| - 2] != answers[|answers| - 1] then 1 else 0
  }

  ghost function LastAnswer(answers: seq<seq<string>>): Option<seq<string>> {
    if answers == [] then None else Some(answers[|answers| - 1])
  }

  // ---------------------------------------------------------------------------
  // What the collector holds after a history of probes
  // ---------------------------------------------------------------------------

  ghost function Successes(h: seq<ProbeResult>): seq<ProbeResult> { Filter(h, Succeeded) }

  /** Everything but `sent` and `failed`, as a function of the successful probes. */
  datatype Totals = Totals(
    succeeded: nat, expectFailed: nat, statusCounts: map<nat, nat>, hopsTotal: nat, hopsReused: nat,
    httpVersionCounts: map<string, nat>, lastSortedIps: Option<seq<string>>, dnsAnswerChanges: nat,
    apdexSatisfied: nat, apdexTolerating: nat)

  ghost function TotalsOf(ok: seq<ProbeResult>, threshold: Option<real>): Totals {
    var hops := FlatMap(ok, HopsOf);
    var answers := FlatMap(ok, AnswerOf);
    Totals(|ok|, |Filter(ok, Violates)|, Tally(FlatMap(ok, StatusOf)), |hops|, |Filter(hops, Reused)|,
           Tally(FlatMap(hops, VersionOf)), LastAnswer(answers), Changes(answers),
           |Filter(ok, (r: ProbeResult) => Satisfied(threshold, r))|,
           |Filter(ok, (r: ProbeResult) => Tolerating(threshold, r))|)
  }

  lemma NoSamples()
    ensures FlatMap([], DnsSample) == [] && FlatMap([], TcpSample) == [] && FlatMap([], TlsSample) == []
    ensures FlatMap([], TtfbSample) == [] && FlatMap([], DownloadSample) == [] && FlatMap([], TotalSample) == []
    ensures FlatMap([], Goodput) == []
  {}

  /** `if let Some(v)` and guarded pushes: at most one sample. */
  method PushAll(accum: PhaseAccum, values: seq<real>)
    requires accum.Valid() && |values| <= 1
    modifies accum
    ensures accum.Valid() && accum.samples == old(accum.samples) + values
  {
    if |values| == 1 {
      accum.Push(values[0]);
    } else {
      assert accum.samples + values == accum.samples;
    }
  }

  lemma SamplesAppend(ok: seq<ProbeResult>, r: ProbeResult)
    ensures FlatMap(ok + [r], DnsSample) == FlatMap(ok, DnsSample) + DnsSample(r)
    ensures FlatMap(ok + [r], TcpSample) == FlatMap(ok, TcpSample) + TcpSample(r)
    ensures FlatMap(ok + [r], TlsSample) == FlatMap(ok, TlsSample) + TlsSample(r)
    ensures FlatMap(ok + [r], TtfbSample) == FlatMap(ok, TtfbSample) + TtfbSample(r)
    ensures FlatMap(ok + [r], DownloadSample) == FlatMap(ok, DownloadSample) + DownloadSample(r)
    ensures FlatMap(ok + [r], TotalSample) == FlatMap(ok, TotalSample) + TotalSample(r)
    ensures FlatMap(ok + [r], Goodput) == FlatMap(ok, Goodput) + Goodput(r)
  {
    assert (ok + [r])[..|ok|] == ok;
  }

  /** The accumulators of one collector: six phases and the goodput distribution. */
  class PhaseTable {
    const dns: PhaseAccum
    const tcp: PhaseAccum
    const tls: PhaseAccum
    const ttfb: PhaseAccum
    const download: PhaseAccum
    const total: PhaseAccum
    const throughput: PhaseAccum

    ghost function Accums(): set<PhaseAccum> {
      {dns, tcp, tls, ttfb, download, total, throughput}
    }

    ghost predicate Distinct() {
      && dns !in {tcp, tls, ttfb, download, total, throughput}
      && tcp !in {tls, ttfb, download, total, throughput}
      && tls !in {ttfb, download, total, throughput}
      && ttfb !in {download, total, throughput}
      && download !in {total, throughput}
      && total != throughput
    }

    /** Each accumulator has been fed exactly the samples of the successful probes. */
    ghost predicate Holds(ok: seq<ProbeResult>)
      reads Accums()
    {
      && Distinct()
      && dns.Valid() && dns.samples == FlatMap(ok, DnsSample)
      && tcp.Valid() && tcp.samples == FlatMap(ok, TcpSample)
      && tls.Valid() && tls.samples == FlatMap(ok, TlsSample)
      && ttfb.Valid() && ttfb.samples == FlatMap(ok, TtfbSample)
      && download.Valid() && download.samples == FlatMap(ok, DownloadSample)
      && total.Valid() && total.samples == FlatMap(ok, TotalSample)
      && throughput.Valid() && throughput.samples == FlatMap(ok, Goodput)
    }

    constructor ()
      ensures Holds([]) && fresh(Accums())
    {
      hide PhaseAccum.Valid, FlatMap;
      dns := new PhaseAccum();
      tcp := new PhaseAccum();
      tls := new PhaseAccum();
      ttfb := new PhaseAccum();
      download := new PhaseAccum();
      total := new PhaseAccum();
      throughput := new PhaseAccum();
      new;
      NoSamples();
    }

    method RecordConnection(r: ProbeResult)
      requires Distinct() && dns.Valid() && tcp.Valid() && tls.Valid()
      modifies dns, tcp, tls
      ensures dns.Valid() && dns.samples == old(dns.samples) + DnsSample(r)
      ensures tcp.Valid() && tcp.samples == old(tcp.samples) + TcpSample(r)
      ensures tls.Valid() && tls.samples == old(tls.samples) + TlsSample(r)
    {
      hide SumTimings, PhaseAccum.Valid;
      var t := r.SummedTimings();
      PushAll(dns, Optional(t.dnsMs));
      PushAll(tcp, if AllReused(r.hops) then [] else [t.tcpMs]);
      PushAll(tls, Optional(t.tlsMs));
    }

    method RecordTransfer(r: ProbeResult)
      requires Distinct() && ttfb.Valid() && download.Valid() && total.Valid() && throughput.Valid()
      modifies ttfb, download, total, throughput
      ensures ttfb.Valid() && ttfb.samples == old(ttfb.samples) + TtfbSample(r)
      ensures download.Valid() && download.samples == old(download.samples) + DownloadSample(r)
      ensures total.Valid() && total.samples == old(total.samples) + TotalSample(r)
      ensures throughput.Valid() && throughput.samples == old(throughput.samples) + Goodput(r)
    {
      hide BodyBytes, SumTimings, PhaseAccum.Valid;
      var t := r.SummedTimings();
      ttfb.Push(t.ttfbMs);
      download.Push(t.downloadMs);
      total.Push(t.totalMs);
      var body := BodyBytes(r.hops);
      PushAll(throughput,
        if body >= MIN_GOODPUT_BODY_BYTES && t.downloadMs > 0.0 then [body as real / (t.downloadMs / 1000.0)] else []);
    }

    method Record(r: ProbeResult, ghost ok: seq<ProbeResult>)
      requires Holds(ok)
      modifies Accums()
      ensures Holds(ok + [r])
    {
      hide FlatMap, BodyBytes, SumTimings, PhaseAccum.Valid;
      SamplesAppend(ok, r);
      RecordConnection(r);
      RecordTransfer(r);
    }
  }

  lemma NothingRecorded(threshold: Option<real>)
    ensures Successes([]) == []
    ensures TotalsOf([], threshold) == Totals(0, 0, map[], 0, 0, map[], None, 0, 0, 0)
  {}

  lemma StatusesAppend(ok: seq<ProbeResult>, r: ProbeResult)
    ensures Tally(FlatMap(ok + [r], StatusOf)) ==
            if r.Status().Some? then Bump(Tally(FlatMap(ok, StatusOf)), r.Status().value) else Tally(FlatMap(ok, StatusOf))
  {
    hide FlatMap, Tally;
    FlatMapAppend(ok, r, StatusOf);
    if r.Status().Some? {
      TallyAppend(FlatMap(ok, StatusOf), r.Status().value);
    } else {
      assert FlatMap(ok, StatusOf) + [] == FlatMap(ok, StatusOf);
    }
  }

  lemma ApdexAppend(ok: seq<ProbeResult>, r: ProbeResult, threshold: Option<real>)
    ensures var before, after := TotalsOf(ok, threshold), TotalsOf(ok + [r], threshold);
            && after.apdexSatisfied == before.apdexSatisfied + (if Satisfied(threshold, r) then 1 else 0)
            && after.apdexTolerating == before.apdexTolerating + (if Tolerating(threshold, r) then 1 else 0)
  {
    hide FlatMap, Filter, Tally, Changes, Satisfied, Tolerating;
    FilterAppend(ok, r, (x: ProbeResult) => Satisfied(threshold, x));
    FilterAppend(ok, r, (x: ProbeResult) => Tolerating(threshold, x));
  }

  class StatsCollector {
    /** Every probe recorded since construction or the last reset, oldest first. */
    ghost var history: seq<ProbeResult>

    var sent: nat
    var succeeded: nat
    var failed: nat
    var expectFailed: nat
    var phases: PhaseTable
    var statusCounts: map<nat, nat>
    var hopsTotal: nat
    var hopsReused: nat
    var httpVersionCounts: map<string, nat>
    var lastSortedIps: Option<seq<string>>
    var dnsAnswerChanges: nat
    var apdexThreshold: Option<real>
    var apdexSatisfied: nat
    var apdexTolerating: nat

    ghost function View(): Totals
      reads this
    {
      Totals(succeeded, expectFailed, statusCounts, hopsTotal, hopsReused, httpVersionCounts, lastSortedIps,
             dnsAnswerChanges, apdexSatisfied, apdexTolerating)
    }

    /** Every field is what the history says it is. */
    ghost predicate Valid()
      reads this, phases.Accums()
    {
      && sent == |history|
      && failed == |history| - |Successes(history)|
      && View() == TotalsOf(Successes(history), apdexThreshold)
      && phases.Holds(Successes(history))
    }

    constructor (threshold: Option<real>)
      ensures Valid() && history == [] && apdexThreshold == threshold
      ensures fresh(phases.Accums())
    {
      history := [];
      sent, succeeded, failed, expectFailed := 0, 0, 0, 0;
      phases := new PhaseTable();
      statusCounts, httpVersionCounts := map[], map[];
      hopsTotal, hopsReused := 0, 0;
      lastSortedIps, dnsAnswerChanges := None, 0;
      apdexThreshold, apdexSatisfied, apdexTolerating := threshold, 0, 0;
    }

    method ClearTotals()
      modifies this`succeeded, this`expectFailed, this`statusCounts, this`hopsTotal, this`hopsReused,
               this`httpVersionCounts, this`lastSortedIps, this`dnsAnswerChanges, this`apdexSatisfied,
               this`apdexTolerating
      ensures View() == Totals(0, 0, map[], 0, 0, map[], None, 0, 0, 0)
    {
      succeeded, expectFailed := 0, 0;
      statusCounts, httpVersionCounts := map[], map[];
      hopsTotal, hopsReused := 0, 0;
      lastSortedIps, dnsAnswerChanges := None, 0;
      apdexSatisfied, apdexTolerating := 0, 0;
    }

    /** Clears every total and keeps the threshold. */
    method Reset()
      requires Valid()
      modifies this
      ensures Valid() && history == [] && apdexThreshold == old(apdexThreshold)
      ensures fresh(phases.Accums())
    {
      hide PhaseTable.Holds, PhaseTable.Distinct, TotalsOf, Filter, Tally, FlatMap;
      phases := new PhaseTable();
      ClearTotals();
      history := [];
      sent, failed := 0, 0;
      NothingRecorded(apdexThreshold);
    }

    method RecordCounts(r: ProbeResult, ghost ok: seq<ProbeResult>)
      requires succeeded == |ok| && expectFailed == |Filter(ok, Violates)| && statusCounts == Tally(FlatMap(ok, StatusOf))
      modifies this`succeeded, this`expectFailed, this`statusCounts
      ensures succeeded == |ok + [r]| && expectFailed == |Filter(ok + [r], Violates)|
      ensures statusCounts == Tally(FlatMap(ok + [r], StatusOf))
    {
      hide FlatMap, Filter, Tally;
      FilterAppend(ok, r, Violates);
      StatusesAppend(ok, r);
      succeeded := succeeded + 1;
      if r.expectFailures != [] {
        expectFailed := expectFailed + 1;
      }
      var status := r.Status();
      if status.Some? {
        statusCounts := Bump(statusCounts, status.value);
      }
    }

    method RecordHops(hops: seq<HopResult>, ghost seen: seq<HopResult>)
      requires hopsTotal == |seen| && hopsReused == |Filter(seen, Reused)|
      requires httpVersionCounts == Tally(FlatMap(seen, VersionOf))
      modifies this`hopsTotal, this`hopsReused, this`httpVersionCounts
      ensures hopsTotal == |seen + hops| && hopsReused == |Filter(seen + hops, Reused)|
      ensures httpVersionCounts == Tally(FlatMap(seen + hops, VersionOf))
    {
      hide NormalizeHttpVersion, Tally, FlatMap, Filter;
      hopsTotal := hopsTotal + |hops|;
      assert seen + hops[..0] == seen;
      for i := 0 to |hops|
        invariant hopsTotal == |seen + hops|
        invariant hopsReused == |Filter(seen + hops[..i], Reused)|
        invariant httpVersionCounts == Tally(FlatMap(seen + hops[..i], VersionOf))
      {
        var hop := hops[i];
        ghost var before := seen + hops[..i];
        assert seen + hops[..i + 1] == before + [hop];
        FilterAppend(before, hop, Reused);
        FlatMapAppend(before, hop, VersionOf);
        TallyAppend(FlatMap(before, VersionOf), NormalizeHttpVersion(hop.httpVersion));
        if hop.reusedConn {
          hopsReused := hopsReused + 1;
        }
        httpVersionCounts := Bump(httpVersionCounts, NormalizeHttpVersion(hop.httpVersion));
      }
      assert hops[..|hops|] == hops;
    }

    method RecordAnswer(r: ProbeResult, ghost answers: seq<seq<string>>)
      requires lastSortedIps == LastAnswer(answers) && dnsAnswerChanges == Changes(answers)
      modifies this`lastSortedIps, this`dnsAnswerChanges
      ensures lastSortedIps == LastAnswer(answers + AnswerOf(r)) && dnsAnswerChanges == Changes(answers + AnswerOf(r))
    {
      var finalHop := r.FinalHop();
      var curIps := if finalHop.Some? then Sort(finalHop.value.resolvedIps, Lexical.Le) else [];
      if curIps != [] {
        assert (answers + [curIps])[..|answers|] == answers;
        if lastSortedIps.Some? && lastSortedIps.value != curIps {
          dnsAnswerChanges := dnsAnswerChanges + 1;
        }
        lastSortedIps := Some(curIps);
      } else {
        assert answers + AnswerOf(r) == answers;
      }
    }

    method RecordApdex(r: ProbeResult)
      modifies this`apdexSatisfied, this`apdexTolerating
      ensures apdexSatisfied == old(apdexSatisfied) + if Satisfied(apdexThreshold, r) then 1 else 0
      ensures apdexTolerating == old(apdexTolerating) + if Tolerating(apdexThreshold, r) then 1 else 0
    {
      hide SumTimings;
      if apdexThreshold.Some? {
        var t, threshold := r.SummedTimings(), apdexThreshold.value;
        if t.totalMs <= threshold {
          apdexSatisfied := apdexSatisfied + 1;
        } else if t.totalMs <= 4.0 * threshold {
          apdexTolerating := apdexTolerating + 1;
        }
      }
    }

    method RecordTotals(r: ProbeResult, ghost ok: seq<ProbeResult>)
      requires View() == TotalsOf(ok, apdexThreshold)
      modifies this`succeeded, this`expectFailed, this`statusCounts, this`hopsTotal, this`hopsReused,
               this`httpVersionCounts, this`lastSortedIps, this`dnsAnswerChanges, this`apdexSatisfied,
               this`apdexTolerating
      ensures View() == TotalsOf(ok + [r], apdexThreshold)
    {
      hide FlatMap, Filter, Tally, Changes, LastAnswer, AnswerOf, SumTimings, Satisfied, Tolerating;
      FlatMapAppend(ok, r, HopsOf);
      FlatMapAppend(ok, r, AnswerOf);
      RecordCounts(r, ok);
      RecordHops(r.hops, FlatMap(ok, HopsOf));
      RecordAnswer(r, FlatMap(ok, AnswerOf));
      ApdexAppend(ok, r, apdexThreshold);
      RecordApdex(r);
    }

    /** Folds one probe in: the history grows by it and every field follows. */
    method Record(r: ProbeResult)
      requires Valid()
      modifies this, phases.Accums()
      ensures Valid() && history == old(history) + [r] && apdexThreshold == old(apdexThreshold)
      ensures phases == old(phases)
    {
      hide TotalsOf, FlatMap, PhaseTable.Holds, Filter;
      ghost var ok := Successes(history);
      FilterAppend(history, r, Succeeded);
      history := history + [r];
      sent := sent + 1;
      if !r.IsSuccess() {
        failed := failed + 1;
        assert Successes(history) == ok;
        return;
      }
      assert Successes(history) == ok + [r];
      RecordTotals(r, ok);
      phases.Record(r, ok);
    }
  }
}
