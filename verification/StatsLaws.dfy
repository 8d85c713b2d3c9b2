/** Laws every history of probes obeys in the collector of src/stats.rs. */
module StatsLaws {
  import opened Wrappers
  import opened Sequences
  import opened Types
  import opened Sorting
  import opened PhaseAccumulation
  import opened Stats
  import Lexical

  lemma {:induction false} OneEach<A, B>(s: seq<A>, f: A -> seq<B>)
    requires forall x :: x in s ==> |f(x)| == 1
    ensures |FlatMap(s, f)| == |s|
  {
    if s != [] {
      OneEach(s[..|s| - 1], f);
      assert s[|s| - 1] in s;
    }
  }

  lemma {:induction false} AtMostOneEach<A, B>(s: seq<A>, f: A -> seq<B>)
    requires forall x :: x in s ==> |f(x)| <= 1
    ensures |FlatMap(s, f)| <= |s|
  {
    if s != [] {
      AtMostOneEach(s[..|s| - 1], f);
      assert s[|s| - 1] in s;
    }
  }

  lemma {:induction false} FilterDisjoint<A>(s: seq<A>, p: A -> bool, q: A -> bool)
    requires forall x :: x in s ==> !(p(x) && q(x))
    ensures |Filter(s, p)| + |Filter(s, q)| <= |s|
  {
    if s != [] {
      FilterDisjoint(s[..|s| - 1], p, q);
      assert s[|s| - 1] in s;
    }
  }

  predicate WhollyReused(r: ProbeResult) { AllReused(r.hops) }

  /** Every success either gives a TCP sample or reused its connections throughout. */
  lemma {:induction false} TcpSamplesSplit(ok: seq<ProbeResult>)
    ensures |FlatMap(ok, TcpSample)| + |Filter(ok, WhollyReused)| == |ok|
  {
    if ok != [] {
      TcpSamplesSplit(ok[..|ok| - 1]);
    }
  }

  lemma CountsAreLengths(t: PhaseTable, ok: seq<ProbeResult>)
    requires t.Holds(ok)
    ensures t.ttfb.count == |FlatMap(ok, TtfbSample)| && t.download.count == |FlatMap(ok, DownloadSample)|
    ensures t.total.count == |FlatMap(ok, TotalSample)| && t.tcp.count == |FlatMap(ok, TcpSample)|
    ensures t.dns.count == |FlatMap(ok, DnsSample)| && t.tls.count == |FlatMap(ok, TlsSample)|
    ensures t.throughput.count == |FlatMap(ok, Goodput)|
  {}

  lemma ApdexSplit(ok: seq<ProbeResult>, threshold: Option<real>)
    ensures var t := TotalsOf(ok, threshold);
            && t.apdexSatisfied + t.apdexTolerating <= |ok|
            && (threshold.None? ==> t.apdexSatisfied == 0 && t.apdexTolerating == 0)
  {
    var p := (r: ProbeResult) => Satisfied(threshold, r);
    var q := (r: ProbeResult) => Tolerating(threshold, r);
    FilterDisjoint(ok, p, q);
    if threshold.None? {
      FilterNone(ok, p);
      FilterNone(ok, q);
    }
  }

  /** The counters agree with one another after any run of records and resets. */
  lemma Conservation(c: StatsCollector)
    requires c.Valid()
    ensures c.sent == c.succeeded + c.failed
    ensures c.expectFailed <= c.succeeded
    ensures SumValues(c.httpVersionCounts) == c.hopsTotal && c.hopsReused <= c.hopsTotal
    ensures SumValues(c.statusCounts) <= c.succeeded
    ensures c.apdexSatisfied + c.apdexTolerating <= c.succeeded
    ensures c.apdexThreshold.None? ==> c.apdexSatisfied == 0 && c.apdexTolerating == 0
    ensures c.phases.ttfb.count == c.phases.download.count == c.phases.total.count == c.succeeded
    ensures c.phases.tcp.count + |Filter(Successes(c.history), WhollyReused)| == c.succeeded
    ensures c.phases.dns.count <= c.succeeded && c.phases.tls.count <= c.succeeded
    ensures c.phases.throughput.count <= c.succeeded
  {
    hide FlatMap, Filter, Tally, Changes, SumTimings, Lexical.Le, PhaseAccum.Valid;
    var ok := Successes(c.history);
    FilterIdempotent(ok, Violates);
    var hops := FlatMap(ok, HopsOf);
    FilterIdempotent(hops, Reused);
    TallyTotal(FlatMap(hops, VersionOf));
    OneEach(hops, VersionOf);
    TallyTotal(FlatMap(ok, StatusOf));
    AtMostOneEach(ok, StatusOf);
    ApdexSplit(ok, c.apdexThreshold);
    TcpSamplesSplit(ok);
    OneEach(ok, TtfbSample);
    OneEach(ok, DownloadSample);
    OneEach(ok, TotalSample);
    AtMostOneEach(ok, DnsSample);
    AtMostOneEach(ok, TlsSample);
    AtMostOneEach(ok, Goodput);
    CountsAreLengths(c.phases, ok);
  }

  /** Two collectors whose histories differ only in failed probes differ only in `sent` and `failed`. */
  lemma FailuresAreInvisible(c: StatsCollector, d: StatsCollector)
    requires c.Valid() && d.Valid() && c.apdexThreshold == d.apdexThreshold
    requires d.history == Successes(c.history)
    ensures c.View() == d.View()
    ensures c.phases.dns.samples == d.phases.dns.samples && c.phases.tcp.samples == d.phases.tcp.samples
    ensures c.phases.tls.samples == d.phases.tls.samples && c.phases.ttfb.samples == d.phases.ttfb.samples
    ensures c.phases.download.samples == d.phases.download.samples
    ensures c.phases.total.samples == d.phases.total.samples
    ensures c.phases.throughput.samples == d.phases.throughput.samples
    ensures d.failed == 0 && d.sent == c.sent - c.failed
  {
    hide TotalsOf, FlatMap, PhaseAccum.Valid;
    FilterIdempotent(c.history, Succeeded);
  }

  // ---------------------------------------------------------------------------
  // DNS answer changes
  // ---------------------------------------------------------------------------

  ghost predicate ChangesAt(answers: seq<seq<string>>, i: int) {
    1 <= i < |answers| && answers[i - 1] != answers[i]
  }

  ghost function ChangePlaces(answers: seq<seq<string>>): set<int> {
    set i | 1 <= i < |answers| && ChangesAt(answers, i)
  }

  /** `dns_answer_changes` is the number of places where consecutive nonempty sorted answers differ. */
  lemma {:induction false} ChangesCounted(answers: seq<seq<string>>)
    ensures Changes(answers) == |ChangePlaces(answers)|
  {
    if |answers| <= 1 {
      assert ChangePlaces(answers) == {};
    } else {
      var n := |answers| - 1;
      var t := answers[..n];
      ChangesCounted(t);
      assert forall i :: 1 <= i < n ==> (ChangesAt(t, i) <==> ChangesAt(answers, i));
      if ChangesAt(answers, n) {
        assert ChangePlaces(answers) == ChangePlaces(t) + {n};
      } else {
        assert ChangePlaces(answers) == ChangePlaces(t);
      }
    }
  }

  /** Same outcome and the same final addresses, in whatever order the resolver gave them. */
  ghost predicate SameUpToOrder(r: ProbeResult, q: ProbeResult) {
    && (r.IsSuccess() <==> q.IsSuccess())
    && r.FinalHop().Some? == q.FinalHop().Some?
    && (r.FinalHop().Some? ==> multiset(r.FinalHop().value.resolvedIps) == multiset(q.FinalHop().value.resolvedIps))
  }

  lemma SameAnswer(r: ProbeResult, q: ProbeResult)
    requires SameUpToOrder(r, q)
    ensures AnswerOf(r) == AnswerOf(q)
  {
    if r.FinalHop().Some? {
      var a, b := r.FinalHop().value.resolvedIps, q.FinalHop().value.resolvedIps;
      Lexical.LeIsTotalOrder();
      SortForgetsOrder(a, b, Lexical.Le);
      assert |multiset(a)| == |a| && |multiset(b)| == |b|;
    }
  }

  /** Permuting the addresses of any probes changes neither the answers seen nor the change counter. */
  lemma {:induction false} AnswerOrderIsInvisible(h: seq<ProbeResult>, g: seq<ProbeResult>)
    requires |h| == |g| && forall i :: 0 <= i < |h| ==> SameUpToOrder(h[i], g[i])
    ensures FlatMap(Successes(h), AnswerOf) == FlatMap(Successes(g), AnswerOf)
    decreases |h|
  {
    hide AnswerOf, Filter, FlatMap;
    if h != [] {
      var n := |h| - 1;
      AnswerOrderIsInvisible(h[..n], g[..n]);
      SameAnswer(h[n], g[n]);
      assert h == h[..n] + [h[n]] && g == g[..n] + [g[n]];
      FilterAppend(h[..n], h[n], Succeeded);
      FilterAppend(g[..n], g[n], Succeeded);
      if h[n].IsSuccess() {
        assert Successes(h) == Successes(h[..n]) + [h[n]] && Successes(g) == Successes(g[..n]) + [g[n]];
        FlatMapAppend(Successes(h[..n]), h[n], AnswerOf);
        FlatMapAppend(Successes(g[..n]), g[n], AnswerOf);
      } else {
        assert Successes(h) == Successes(h[..n]) && Successes(g) == Successes(g[..n]);
      }
    } else {
      assert g == h;
    }
  }

  lemma AnswerChangesIgnoreOrder(c: StatsCollector, d: StatsCollector)
    requires c.Valid() && d.Valid() && |c.history| == |d.history|
    requires forall i :: 0 <= i < |c.history| ==> SameUpToOrder(c.history[i], d.history[i])
    ensures c.dnsAnswerChanges == d.dnsAnswerChanges && c.lastSortedIps == d.lastSortedIps
  {
    hide FlatMap, Filter, SameUpToOrder;
    AnswerOrderIsInvisible(c.history, d.history);
  }

  // ---------------------------------------------------------------------------
  // What is counted, in terms of the probes alone
  // ---------------------------------------------------------------------------

  ghost function Count<K>(m: map<K, nat>, k: K): nat { if k in m then m[k] else 0 }

  /** A tally holds for each key how often it occurs. */
  lemma {:induction false} TallyCounts<K>(keys: seq<K>, k: K)
    ensures Count(Tally(keys), k) == multiset(keys)[k]
    ensures k in Tally(keys) <==> k in keys
  {
    if keys != [] {
      var n := |keys| - 1;
      TallyCounts(keys[..n], k);
      assert keys == keys[..n] + [keys[n]];
    }
  }

  ghost function EndsWith(status: nat): ProbeResult -> bool {
    (r: ProbeResult) => r.hops != [] && r.hops[|r.hops| - 1].status == status
  }

  lemma LastStatus(r: ProbeResult, status: nat)
    ensures multiset(StatusOf(r))[status] == if EndsWith(status)(r) then 1 else 0
  {}

  lemma MultisetConcat<A>(s: seq<A>, t: seq<A>, x: A)
    ensures multiset(s + t)[x] == multiset(s)[x] + multiset(t)[x]
  {}

  lemma {:induction false} StatusesCounted(ok: seq<ProbeResult>, status: nat)
    ensures multiset(FlatMap<ProbeResult, nat>(ok, StatusOf))[status] == |Filter(ok, EndsWith(status))|
  {
    hide EndsWith, StatusOf;
    if ok != [] {
      var front, r := ok[..|ok| - 1], ok[|ok| - 1];
      StatusesCounted(front, status);
      LastStatus(r, status);
      MultisetConcat<nat>(FlatMap<ProbeResult, nat>(front, StatusOf), StatusOf(r), status);
    }
  }

  /** The status counters: for each status, the successful probes whose last hop answered it. */
  lemma StatusCountsAre(c: StatsCollector, status: nat)
    requires c.Valid()
    ensures Count(c.statusCounts, status)
         == |Filter(Filter(c.history, (r: ProbeResult) => r.error.None?), EndsWith(status))|
  {
    hide FlatMap, Filter, Tally, Changes, PhaseTable.Holds;
    var ok := Successes(c.history);
    assert c.statusCounts == c.View().statusCounts == Tally<nat>(FlatMap<ProbeResult, nat>(ok, StatusOf));
    TallyCounts<nat>(FlatMap<ProbeResult, nat>(ok, StatusOf), status);
    StatusesCounted(ok, status);
    FilterAgree(c.history, Succeeded, (r: ProbeResult) => r.error.None?);
    assert ok == Filter(c.history, (r: ProbeResult) => r.error.None?);
  }

  lemma {:induction false} FilterSplits<A(!new)>(s: seq<A>, p: A -> bool, q: A -> bool)
    requires forall x :: p(x) != q(x)
    ensures |Filter(s, p)| + |Filter(s, q)| == |s|
  {
    if s != [] {
      FilterSplits(s[..|s| - 1], p, q);
    }
  }

  /** Failed are the probes with an error, expectation-failed the others that broke an expectation. */
  lemma FailuresCounted(c: StatsCollector)
    requires c.Valid()
    ensures c.failed == |Filter(c.history, (r: ProbeResult) => r.error.Some?)|
    ensures c.expectFailed
         == |Filter(Filter(c.history, (r: ProbeResult) => r.error.None?), (r: ProbeResult) => r.expectFailures != [])|
  {
    hide FlatMap, Filter, Tally, Changes, PhaseAccum.Valid;
    FilterSplits(c.history, Succeeded, (r: ProbeResult) => r.error.Some?);
    FilterAgree(c.history, Succeeded, (r: ProbeResult) => r.error.None?);
    FilterAgree(Successes(c.history), Violates, (r: ProbeResult) => r.expectFailures != []);
  }

  lemma {:induction false} FlatMapSame<A(!new), B>(s: seq<A>, f: A -> seq<B>, g: A -> seq<B>)
    requires forall x :: f(x) == g(x)
    ensures FlatMap(s, f) == FlatMap(s, g)
  {
    if s != [] {
      FlatMapSame(s[..|s| - 1], f, g);
    }
  }

  lemma {:induction false} VersionsCounted(hops: seq<HopResult>, version: string)
    ensures multiset(FlatMap(hops, VersionOf))[version]
         == |Filter(hops, (h: HopResult) => NormalizeHttpVersion(h.httpVersion) == version)|
  {
    hide NormalizeHttpVersion;
    if hops != [] {
      VersionsCounted(hops[..|hops| - 1], version);
    }
  }

  /** The version counters: for each label, the hops of successful probes whose version has it. */
  lemma VersionCountsAre(c: StatsCollector, version: string)
    requires c.Valid()
    ensures var hops := FlatMap(Filter(c.history, (r: ProbeResult) => r.error.None?), (r: ProbeResult) => r.hops);
            Count(c.httpVersionCounts, version)
            == |Filter(hops, (h: HopResult) => NormalizeHttpVersion(h.httpVersion) == version)|
  {
    hide FlatMap, Filter, Tally, Changes, PhaseAccum.Valid, NormalizeHttpVersion;
    var hops := FlatMap(Successes(c.history), HopsOf);
    TallyCounts(FlatMap(hops, VersionOf), version);
    VersionsCounted(hops, version);
    FilterAgree(c.history, Succeeded, (r: ProbeResult) => r.error.None?);
    FlatMapSame(Successes(c.history), HopsOf, (r: ProbeResult) => r.hops);
  }

  /** The labels of the six versions the probe engine reports. */
  lemma KnownVersionLabels()
    ensures NormalizeHttpVersion("HTTP/0.9") == "http0.9" && NormalizeHttpVersion("HTTP/1.0") == "http1.0"
    ensures NormalizeHttpVersion("HTTP/1.1") == "http1.1" && NormalizeHttpVersion("HTTP/2") == "http2"
    ensures NormalizeHttpVersion("HTTP/3") == "http3" && NormalizeHttpVersion("HTTP/?") == "unknown"
  {
    assert "HTTP/3"[5] != "HTTP/2"[5] && "HTTP/?"[5] != "HTTP/2"[5] && "HTTP/?"[5] != "HTTP/3"[5];
    assert "HTTP/1.0"[7] != "HTTP/1.1"[7] && "HTTP/0.9"[5] != "HTTP/1.1"[5] && "HTTP/0.9"[5] != "HTTP/1.0"[5];
  }

  /** Any other version keeps what follows the slash, and what is no version at all is unknown. */
  lemma OtherVersionLabels(rest: string, other: string)
    ensures rest != "?" ==> NormalizeHttpVersion("HTTP/" + rest) == "http" + rest
    ensures |other| < 5 || other[..5] != "HTTP/" ==> NormalizeHttpVersion(other) == "unknown"
  {
    var v := "HTTP/" + rest;
    assert v[..5] == "HTTP/" && v[5..] == rest;
    assert "HTTP/?"[5..] == "?" && "HTTP/2"[5..] == "2" && "HTTP/3"[5..] == "3";
    assert "HTTP/1.1"[5..] == "1.1" && "HTTP/1.0"[5..] == "1.0" && "HTTP/0.9"[5..] == "0.9";
    assert "HTTP/2"[..5] == "HTTP/" && "HTTP/1.1"[..5] == "HTTP/" && "HTTP/1.0"[..5] == "HTTP/";
    assert "HTTP/3"[..5] == "HTTP/" && "HTTP/0.9"[..5] == "HTTP/" && "HTTP/?"[..5] == "HTTP/";
  }

  ghost function TotalBytes(hops: seq<HopResult>): nat {
    if hops == [] then 0 else hops[0].bodyBytes + TotalBytes(hops[1..])
  }

  lemma {:induction false} TotalBytesAppend(hops: seq<HopResult>, hop: HopResult)
    ensures TotalBytes(hops + [hop]) == TotalBytes(hops) + hop.bodyBytes
  {
    if hops == [] {
      assert [hop][1..] == [];
    } else {
      TotalBytesAppend(hops[1..], hop);
      assert (hops + [hop])[1..] == hops[1..] + [hop];
    }
  }

  lemma {:induction false} BodyBytesAreTotal(hops: seq<HopResult>)
    ensures BodyBytes(hops) == TotalBytes(hops)
  {
    if hops != [] {
      var front, last := hops[..|hops| - 1], hops[|hops| - 1];
      BodyBytesAreTotal(front);
      assert hops == front + [last];
      TotalBytesAppend(front, last);
    }
  }

  /**
   * The samples one success gives. DNS and TLS where some hop has them, TCP unless there are hops and all reused their
   * connection, the others always: the sums over all hops. Goodput in bytes per second where at least 4096 bytes took
   * time to download.
   */
  lemma SamplesOf(r: ProbeResult)
    ensures DnsSample(r) != [] <==> exists k :: 0 <= k < |r.hops| && r.hops[k].timings.dnsMs.Some?
    ensures DnsSample(r) != [] ==> DnsSample(r) == [SumOf(r.hops, (t: PhaseTimings) => OrZero(t.dnsMs))]
    ensures TlsSample(r) != [] <==> exists k :: 0 <= k < |r.hops| && r.hops[k].timings.tlsMs.Some?
    ensures TlsSample(r) != [] ==> TlsSample(r) == [SumOf(r.hops, (t: PhaseTimings) => OrZero(t.tlsMs))]
    ensures TcpSample(r) == if r.hops != [] && forall k :: 0 <= k < |r.hops| ==> r.hops[k].reusedConn then []
                            else [SumOf(r.hops, (t: PhaseTimings) => t.tcpMs)]
    ensures TtfbSample(r) == [SumOf(r.hops, (t: PhaseTimings) => t.ttfbMs)]
    ensures DownloadSample(r) == [SumOf(r.hops, (t: PhaseTimings) => t.downloadMs)]
    ensures TotalSample(r) == [SumOf(r.hops, (t: PhaseTimings) => t.totalMs)]
  {
    hide SumTimings, SumOf;
    SumsByField(r.hops);
  }

  lemma PerSecond(x: real, ms: real)
    requires ms > 0.0
    ensures ms / 1000.0 > 0.0 && x / (ms / 1000.0) * ms == 1000.0 * x
  {
    var s := ms / 1000.0;
    assert ms == s * 1000.0;
    Quotient(x, s);
    assert x / s * ms == x / s * s * 1000.0;
  }

  lemma GoodputIs(r: ProbeResult)
    ensures var bytes, ms := TotalBytes(r.hops), SumOf(r.hops, (t: PhaseTimings) => t.downloadMs);
            && (Goodput(r) != [] <==> bytes >= 4096 && ms > 0.0)
            && (Goodput(r) != [] ==> |Goodput(r)| == 1 && Goodput(r)[0] * ms == 1000.0 * bytes as real)
  {
    hide SumTimings, SumOf, BodyBytes, TotalBytes;
    SumsByField(r.hops);
    BodyBytesAreTotal(r.hops);
    var bytes, ms := TotalBytes(r.hops), r.SummedTimings().downloadMs;
    if bytes >= 4096 && ms > 0.0 {
      PerSecond(bytes as real, ms);
    }
  }

  ghost function TotalTime(r: ProbeResult): real { SumOf(r.hops, (t: PhaseTimings) => t.totalMs) }

  /** Apdex with threshold T: satisfied up to T, tolerating above T up to 4T, by the total time of a success. */
  lemma ApdexCounted(c: StatsCollector, limit: real)
    requires c.Valid() && c.apdexThreshold == Some(limit)
    ensures var ok := Filter(c.history, (r: ProbeResult) => r.error.None?);
            && c.apdexSatisfied == |Filter(ok, (r: ProbeResult) => TotalTime(r) <= limit)|
            && c.apdexTolerating == |Filter(ok, (r: ProbeResult) => limit < TotalTime(r) <= 4.0 * limit)|
  {
    hide FlatMap, Filter, Tally, Changes, SumTimings, SumOf, PhaseAccum.Valid;
    forall r: ProbeResult
      ensures TotalTime(r) == r.SummedTimings().totalMs
    {
      SumsByField(r.hops);
    }
    var ok, threshold := Successes(c.history), c.apdexThreshold;
    FilterAgree(c.history, Succeeded, (r: ProbeResult) => r.error.None?);
    FilterAgree(ok, (r: ProbeResult) => Satisfied(threshold, r), (r: ProbeResult) => TotalTime(r) <= limit);
    FilterAgree(ok, (r: ProbeResult) => Tolerating(threshold, r), (r: ProbeResult) => limit < TotalTime(r) <= 4.0 * limit);
  }

  /** The answer of a probe: the addresses of its last hop in ascending order, if there are any. */
  lemma AnswerIsFinalAddresses(r: ProbeResult)
    ensures AnswerOf(r) != [] <==> r.hops != [] && r.hops[|r.hops| - 1].resolvedIps != []
    ensures AnswerOf(r) != [] ==>
              && |AnswerOf(r)| == 1
              && multiset(AnswerOf(r)[0]) == multiset(r.hops[|r.hops| - 1].resolvedIps)
              && SortedBy(AnswerOf(r)[0], Lexical.Le)
  {
    hide Lexical.Le;
    if AnswerOf(r) != [] {
      Lexical.LeIsTotalOrder();
      SortPermutes(r.hops[|r.hops| - 1].resolvedIps, Lexical.Le);
      SortSorts(r.hops[|r.hops| - 1].resolvedIps, Lexical.Le);
    }
  }
}
