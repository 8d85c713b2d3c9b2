/**
 * `KeepAliveProber` of src/probe.rs: one connection reused across probes. What the network does during one call
 * (connection closed meanwhile, connect failure, request failure, response) is an arbitrary `Weather`.
 */
module KeepAlive {
  import opened Wrappers
  import opened Sequences
  import opened Types
  import opened PhaseAccumulation
  import opened Stats
  import opened StatsLaws
  import Headers

  /** What connecting yields. */
  datatype Connected = Connected(
    ip: string, port: nat, localAddr: Option<string>, resolvedIps: seq<string>, dnsMs: Option<real>, tcpMs: real,
    tlsMs: Option<real>, tls: Option<TlsInfo>, certChain: seq<CertInfo>)

  /** What one request and response yield. */
  datatype Exchange = Exchange(
    status: nat, httpVersion: string, responseHeaders: seq<(string, string)>, bodyBytes: nat, ttfbMs: real,
    downloadMs: real, totalMs: real)

  /** The connection kept for reuse, with what was observed when it was made. */
  datatype Established = Established(
    ip: string, port: nat, localAddr: Option<string>, resolvedIps: seq<string>, httpVersion: string,
    tls: Option<TlsInfo>, certChain: seq<CertInfo>)

  datatype Weather = Weather(
    closed: bool, connect: Result<Connected, ProbeError>, ready: Result<(), ProbeError>,
    build: Result<(), ProbeError>, exchange: Result<Exchange, ProbeError>, expectFailures: seq<string>, totalMs: real)

  datatype Config = Config(url: string, join: (string, string) -> Option<string>)

  function ResolveRedirectTo(cfg: Config, x: Exchange): Option<string> {
    if !(300 <= x.status < 400) then None
    else
      var loc := Headers.Find(x.responseHeaders, "location");
      if loc.None? then None else cfg.join(cfg.url, loc.value)
  }

  // ---------------------------------------------------------------------------
  // One call
  // ---------------------------------------------------------------------------

  function ReusedHop(cfg: Config, e: Established, x: Exchange): HopResult {
    HopResult(cfg.url, e.ip, e.port, true, e.localAddr, e.resolvedIps, e.httpVersion, x.status,
              PhaseTimings(None, 0.0, None, x.ttfbMs, x.downloadMs, x.totalMs), e.tls, e.certChain,
              x.responseHeaders, x.bodyBytes, ResolveRedirectTo(cfg, x))
  }

  function FreshHop(cfg: Config, c: Connected, x: Exchange): HopResult {
    HopResult(cfg.url, c.ip, c.port, false, c.localAddr, c.resolvedIps, x.httpVersion, x.status,
              PhaseTimings(c.dnsMs, c.tcpMs, c.tlsMs, x.ttfbMs, x.downloadMs, x.totalMs), c.tls, c.certChain,
              x.responseHeaders, x.bodyBytes, ResolveRedirectTo(cfg, x))
  }

  function Kept(c: Connected, x: Exchange): Established {
    Established(c.ip, c.port, c.localAddr, c.resolvedIps, x.httpVersion, c.tls, c.certChain)
  }

  /** The hop of a call, and the connection held after it. */
  datatype Outcome = Outcome(hop: Result<HopResult, ProbeError>, next: Option<Established>)

  ghost function Call(cfg: Config, held: Option<Established>, w: Weather): Outcome {
    if held.Some? && !w.closed then
      if w.ready.Err? then Outcome(Err(w.ready.error), None)
      else if w.build.Err? then Outcome(Err(w.build.error), None)
      else if w.exchange.Err? then Outcome(Err(w.exchange.error), None)
      else Outcome(Ok(ReusedHop(cfg, held.value, w.exchange.value)), held)
    else
      if w.connect.Err? then Outcome(Err(w.connect.error), None)
      else if w.build.Err? then Outcome(Err(w.build.error), None)
      else if w.exchange.Err? then Outcome(Err(w.exchange.error), None)
      else Outcome(Ok(FreshHop(cfg, w.connect.value, w.exchange.value)), Some(Kept(w.connect.value, w.exchange.value)))
  }

  function ResultOf(cfg: Config, seqNo: nat, hop: Result<HopResult, ProbeError>, w: Weather): ProbeResult {
    match hop
    case Ok(h) => ProbeResult(cfg.url, seqNo, [h], None, w.expectFailures, w.totalMs)
    case Err(e) => ProbeResult(cfg.url, seqNo, [], Some(e), [], w.totalMs)
  }

  class KeepAliveProber {
    const cfg: Config
    var established: Option<Established>

    constructor (cfg: Config)
      ensures this.cfg == cfg && established == None
    {
      this.cfg := cfg;
      established := None;
    }

    /** A request on the held connection; any failure drops the connection. */
    method ProbeReused(w: Weather) returns (hop: Result<HopResult, ProbeError>)
      modifies this
      ensures old(established).Some? ==> Outcome(hop, established) == Call(cfg, old(established), w.(closed := false))
      ensures old(established).None? ==>
                established.None? && hop == Err(ProbeError(Setup, "no established connection", false))
    {
      if established.None? {
        return Err(ProbeError(Setup, "no established connection", false));
      }
      if w.ready.Err? {
        hop := Err(w.ready.error);
      } else if w.build.Err? {
        hop := Err(w.build.error);
      } else if w.exchange.Err? {
        hop := Err(w.exchange.error);
      } else {
        hop := Ok(ReusedHop(cfg, established.value, w.exchange.value));
      }
      if hop.Err? {
        established := None;
      }
    }

    /** A fresh connection and its first request; it replaces what is held only when both succeed. */
    method ProbeConnect(w: Weather) returns (hop: Result<HopResult, ProbeError>)
      modifies this
      ensures hop == Call(cfg, None, w).hop
      ensures established == if hop.Ok? then Call(cfg, None, w).next else old(established)
    {
      if w.connect.Err? {
        return Err(w.connect.error);
      }
      if w.build.Err? {
        return Err(w.build.error);
      }
      if w.exchange.Err? {
        return Err(w.exchange.error);
      }
      var conn, out := w.connect.value, w.exchange.value;
      hop := Ok(FreshHop(cfg, conn, out));
      established := Some(Kept(conn, out));
    }

    /** Drops a connection that closed meanwhile, then reuses the held one or connects afresh. */
    method Probe(seqNo: nat, w: Weather) returns (r: ProbeResult)
      modifies this
      ensures var call := Call(cfg, old(established), w);
              r == ResultOf(cfg, seqNo, call.hop, w) && established == call.next
    {
      if established.Some? && w.closed {
        established := None;
      }
      var hop;
      if established.Some? {
        hop := ProbeReused(w);
      } else {
        hop := ProbeConnect(w);
      }
      r := ResultOf(cfg, seqNo, hop, w);
    }
  }

  // ---------------------------------------------------------------------------
  // Whole runs
  // ---------------------------------------------------------------------------

  /** The connection held after a run of calls on a new prober. */
  ghost function Held(cfg: Config, run: seq<Weather>): Option<Established> {
    if run == [] then None
    else
      var n := |run| - 1;
      Call(cfg, Held(cfg, run[..n]), run[n]).next
  }

  /** The result of call k of a run. */
  ghost function ResultAt(cfg: Config, run: seq<Weather>, k: nat): ProbeResult
    requires k < |run|
  {
    ResultOf(cfg, k, Call(cfg, Held(cfg, run[..k]), run[k]).hop, run[k])
  }

  ghost function Results(cfg: Config, run: seq<Weather>): (rs: seq<ProbeResult>)
    ensures |rs| == |run|
  {
    if run == [] then []
    else Results(cfg, run[..|run| - 1]) + [ResultAt(cfg, run, |run| - 1)]
  }

  /** Driving the object call by call gives the results of the run. */
  method DriveRun(cfg: Config, run: seq<Weather>) returns (rs: seq<ProbeResult>)
    ensures rs == Results(cfg, run)
  {
    var prober := new KeepAliveProber(cfg);
    rs := [];
    for k := 0 to |run|
      invariant prober.cfg == cfg && prober.established == Held(cfg, run[..k])
      invariant rs == Results(cfg, run[..k])
    {
      var r := prober.Probe(k, run[k]);
      rs := rs + [r];
      assert run[..k + 1][..k] == run[..k];
    }
    assert run[..|run|] == run;
  }

  ghost predicate IsFresh(r: ProbeResult) { r.IsSuccess() && |r.hops| == 1 && !r.hops[0].reusedConn }

  ghost predicate IsReuse(r: ProbeResult) { r.IsSuccess() && |r.hops| == 1 && r.hops[0].reusedConn }

  /** The connection-time facts of two hops coincide. */
  ghost predicate SameConnection(a: HopResult, b: HopResult) {
    && a.ip == b.ip && a.port == b.port && a.localAddr == b.localAddr && a.resolvedIps == b.resolvedIps
    && a.httpVersion == b.httpVersion && a.tls == b.tls && a.certChain == b.certChain
  }

  ghost predicate Carries(e: Established, h: HopResult) {
    && e.ip == h.ip && e.port == h.port && e.localAddr == h.localAddr && e.resolvedIps == h.resolvedIps
    && e.httpVersion == h.httpVersion && e.tls == h.tls && e.certChain == h.certChain
  }

  /** Call j made the connection held before call k, and every call between reused it. */
  ghost predicate MadeAt(cfg: Config, run: seq<Weather>, e: Established, j: nat, k: nat)
    requires k <= |run|
  {
    && j < k
    && IsFresh(ResultAt(cfg, run, j)) && Carries(e, ResultAt(cfg, run, j).hops[0])
    && forall i :: j < i < k ==> IsReuse(ResultAt(cfg, run, i))
  }

  lemma ReuseShape(cfg: Config, e: Established, x: Exchange)
    ensures ReusedHop(cfg, e, x).reusedConn && Carries(e, ReusedHop(cfg, e, x))
  {}

  lemma FreshShape(cfg: Config, c: Connected, x: Exchange)
    ensures !FreshHop(cfg, c, x).reusedConn && Carries(Kept(c, x), FreshHop(cfg, c, x))
  {}

  /** Whatever connection is held was made by an earlier fresh success and only reused since. */
  lemma {:induction false} HeldIsGrounded(cfg: Config, run: seq<Weather>, k: nat)
    requires k <= |run| && Held(cfg, run[..k]).Some?
    ensures exists j :: MadeAt(cfg, run, Held(cfg, run[..k]).value, j, k)
    decreases k
  {
    hide ReusedHop, FreshHop;
    var n := k - 1;
    assert run[..k][..n] == run[..n];
    var e := Held(cfg, run[..k]).value;
    var before := Held(cfg, run[..n]);
    if before.Some? && !run[n].closed {
      HeldIsGrounded(cfg, run, n);
      var j :| MadeAt(cfg, run, e, j, n);
      ReuseShape(cfg, e, run[n].exchange.value);
      assert MadeAt(cfg, run, e, j, k);
    } else {
      FreshShape(cfg, run[n].connect.value, run[n].exchange.value);
      assert MadeAt(cfg, run, e, n, k);
    }
  }

  /**
   * A reused hop at call k comes from an earlier fresh hop, every call from there to k succeeded, the ones between
   * reused too, and the connection facts are the ones observed when the connection was made.
   */
  lemma ReuseIsGrounded(cfg: Config, run: seq<Weather>, k: nat)
    requires k < |run| && IsReuse(ResultAt(cfg, run, k))
    ensures !run[k].closed
    ensures exists j :: 0 <= j < k && IsFresh(ResultAt(cfg, run, j))
                        && SameConnection(ResultAt(cfg, run, j).hops[0], ResultAt(cfg, run, k).hops[0])
                        && forall i :: j < i < k ==> IsReuse(ResultAt(cfg, run, i))
  {
    hide ReusedHop, FreshHop;
    var held := Held(cfg, run[..k]);
    if held.None? || run[k].closed {
      FreshShape(cfg, run[k].connect.value, run[k].exchange.value);
    }
    HeldIsGrounded(cfg, run, k);
    var j :| MadeAt(cfg, run, held.value, j, k);
    ReuseShape(cfg, held.value, run[k].exchange.value);
    assert SameConnection(ResultAt(cfg, run, j).hops[0], ResultAt(cfg, run, k).hops[0]);
  }

  /** A call reuses exactly when the previous call succeeded, its connection is still open, and the request goes through. */
  lemma ReuseIffPreviousSucceeded(cfg: Config, run: seq<Weather>, k: nat)
    requires k < |run|
    ensures IsReuse(ResultAt(cfg, run, k)) <==>
              k > 0 && ResultAt(cfg, run, k - 1).IsSuccess() && !run[k].closed && ResultAt(cfg, run, k).IsSuccess()
    ensures ResultAt(cfg, run, k).IsSuccess() ==> |ResultAt(cfg, run, k).hops| == 1
    ensures !ResultAt(cfg, run, k).IsSuccess() ==> ResultAt(cfg, run, k).hops == []
  {
    if k > 0 {
      assert run[..k][..k - 1] == run[..k - 1];
    }
  }

  /** What every successful call reports, whether it reused a connection or made one. */
  lemma SuccessfulCall(cfg: Config, run: seq<Weather>, k: nat)
    requires k < |run| && ResultAt(cfg, run, k).IsSuccess()
    ensures var r, w := ResultAt(cfg, run, k), run[k];
            && r.target == cfg.url && r.seqNo == k && r.expectFailures == w.expectFailures && r.totalMs == w.totalMs
            && |r.hops| == 1 && w.exchange.Ok?
            && var hop, x := r.hops[0], w.exchange.value;
               && hop.url == cfg.url && hop.status == x.status && hop.responseHeaders == x.responseHeaders
               && hop.bodyBytes == x.bodyBytes && hop.timings.ttfbMs == x.ttfbMs
               && hop.timings.downloadMs == x.downloadMs && hop.timings.totalMs == x.totalMs
  {}

  /** Its redirect target: the first Location of a 3xx joined to the URL, recorded and not followed. */
  lemma CallTarget(cfg: Config, run: seq<Weather>, k: nat)
    requires k < |run| && ResultAt(cfg, run, k).IsSuccess()
    ensures run[k].exchange.Ok? && |ResultAt(cfg, run, k).hops| == 1
    ensures var x := run[k].exchange.value;
            var location := Headers.Find(x.responseHeaders, "location");
            ResultAt(cfg, run, k).hops[0].redirectTo ==
            if 300 <= x.status <= 399 && location.Some? then cfg.join(cfg.url, location.value) else None
  {}

  /** A call that connects reports the connection's facts and phases; one that reuses reports no connection phases. */
  lemma CallConnection(cfg: Config, run: seq<Weather>, k: nat)
    requires k < |run| && ResultAt(cfg, run, k).IsSuccess()
    ensures |ResultAt(cfg, run, k).hops| == 1
    ensures var hop, w := ResultAt(cfg, run, k).hops[0], run[k];
            if hop.reusedConn
            then hop.timings.dnsMs == None && hop.timings.tcpMs == 0.0 && hop.timings.tlsMs == None
            else
              && w.connect.Ok? && w.exchange.Ok?
              && var c := w.connect.value;
                 && hop.ip == c.ip && hop.port == c.port && hop.localAddr == c.localAddr
                 && hop.resolvedIps == c.resolvedIps && hop.tls == c.tls && hop.certChain == c.certChain
                 && hop.timings.dnsMs == c.dnsMs && hop.timings.tcpMs == c.tcpMs && hop.timings.tlsMs == c.tlsMs
                 && hop.httpVersion == w.exchange.value.httpVersion
  {}

  /**
   * A failed call reports no hop, no broken expectation and the error of the first stage that failed: waiting for the
   * held connection or connecting, then building the request, then the exchange.
   */
  lemma FailedCall(cfg: Config, run: seq<Weather>, k: nat)
    requires k < |run| && !ResultAt(cfg, run, k).IsSuccess()
    ensures var r, w := ResultAt(cfg, run, k), run[k];
            var reuses := k > 0 && ResultAt(cfg, run, k - 1).IsSuccess() && !w.closed;
            && r.target == cfg.url && r.seqNo == k && r.hops == [] && r.expectFailures == [] && r.totalMs == w.totalMs
            && (reuses && w.ready.Err? ==> r.error == Some(w.ready.error))
            && (!reuses && w.connect.Err? ==> r.error == Some(w.connect.error))
            && (!(if reuses then w.ready.Err? else w.connect.Err?) ==>
                  if w.build.Err? then r.error == Some(w.build.error)
                  else w.exchange.Err? && r.error == Some(w.exchange.error))
  {
    if k > 0 {
      assert run[..k][..k - 1] == run[..k - 1];
    }
  }

  // ---------------------------------------------------------------------------
  // Together with the statistics collector
  // ---------------------------------------------------------------------------

  lemma {:induction false} RunShape(cfg: Config, run: seq<Weather>)
    ensures forall r :: r in Results(cfg, run) ==> (r.IsSuccess() ==> |r.hops| == 1)
  {
    if run != [] {
      RunShape(cfg, run[..|run| - 1]);
    }
  }

  lemma {:induction false} SingleHopTotals(ok: seq<ProbeResult>)
    requires forall r :: r in ok ==> |r.hops| == 1
    ensures |FlatMap(ok, HopsOf)| == |ok|
    ensures |Filter(FlatMap(ok, HopsOf), Reused)| == |Filter(ok, WhollyReused)|
  {
    if ok != [] {
      var n := |ok| - 1;
      SingleHopTotals(ok[..n]);
      assert ok[n] in ok;
      var hop := ok[n].hops[0];
      assert ok[n].hops == [hop];
      FilterAppend(FlatMap(ok[..n], HopsOf), hop, Reused);
    }
  }

  /** A collector fed a keep-alive run: every success is one hop, counted either as reused or as a TCP sample. */
  lemma KeepAliveConservation(cfg: Config, run: seq<Weather>, c: StatsCollector)
    requires c.Valid() && c.history == Results(cfg, run)
    ensures c.hopsReused + c.phases.tcp.count == c.succeeded == c.hopsTotal
  {
    hide FlatMap, Filter, Tally, Changes, SumTimings, PhaseAccum.Valid;
    var ok := Successes(c.history);
    RunShape(cfg, run);
    FilterMembers(c.history, Succeeded);
    SingleHopTotals(ok);
    Conservation(c);
  }
}
