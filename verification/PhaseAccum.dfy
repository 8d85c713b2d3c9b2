/** Per-phase accumulation of src/stats.rs over exact reals: Welford moments and a bounded percentile window. */
module PhaseAccumulation {
  import opened Wrappers
  import opened Sorting

  const RING_CAP: nat := 8192

  // ---------------------------------------------------------------------------
  // What the accumulator stands for
  // ---------------------------------------------------------------------------

  ghost function Sum(s: seq<real>): real {
    if s == [] then 0.0 else Sum(s[..|s| - 1]) + s[|s| - 1]
  }

  ghost function Mean(s: seq<real>): real
    requires s != []
  {
    Sum(s) / |s| as real
  }

  /** The sum of squared deviations from a centre. */
  ghost function Deviation(s: seq<real>, centre: real): real {
    if s == [] then 0.0
    else Deviation(s[..|s| - 1], centre) + (s[|s| - 1] - centre) * (s[|s| - 1] - centre)
  }

  ghost predicate IsMin(m: real, s: seq<real>) {
    m in s && forall x :: x in s ==> m <= x
  }

  ghost predicate IsMax(m: real, s: seq<real>) {
    m in s && forall x :: x in s ==> x <= m
  }

  /** The last min(|s|, RING_CAP) samples. */
  ghost function Window(s: seq<real>): (w: seq<real>)
    ensures |w| == if |s| <= RING_CAP then |s| else RING_CAP
  {
    if |s| <= RING_CAP then s else s[|s| - RING_CAP..]
  }

  lemma SumUnfolds(s: seq<real>)
    ensures Sum([]) == 0.0
    ensures s != [] ==> Sum(s) == Sum(s[..|s| - 1]) + s[|s| - 1]
  {}

  lemma DeviationUnfolds(s: seq<real>, c: real)
    ensures Deviation([], c) == 0.0
    ensures s != [] ==> Deviation(s, c) == Deviation(s[..|s| - 1], c) + (s[|s| - 1] - c) * (s[|s| - 1] - c)
  {}

  lemma ShiftStep(devC: real, devD: real, devC': real, devD': real, sum: real, sum': real, n: real, n': real,
                  x: real, c: real, d: real)
    requires n' == n + 1.0 && sum' == sum + x
    requires devC' == devC + (x - c) * (x - c) && devD' == devD + (x - d) * (x - d)
    requires devD == devC + 2.0 * (c - d) * (sum - n * c) + n * ((c - d) * (c - d))
    ensures devD' == devC' + 2.0 * (c - d) * (sum' - n' * c) + n' * ((c - d) * (c - d))
  {
    var e, y := c - d, x - c;
    assert x - d == y + e;
    assert (x - d) * (x - d) == y * y + 2.0 * e * y + e * e;
    assert sum' - n' * c == (sum - n * c) + y;
    assert 2.0 * e * ((sum - n * c) + y) == 2.0 * e * (sum - n * c) + 2.0 * e * y;
    assert n' * (e * e) == n * (e * e) + e * e;
  }

  /** Moving the centre from the mean to anywhere adds |s| times the squared distance. */
  lemma {:induction false} ShiftCentre(s: seq<real>, c: real, d: real)
    ensures Deviation(s, d) == Deviation(s, c) + 2.0 * (c - d) * (Sum(s) - |s| as real * c) + |s| as real * ((c - d) * (c - d))
  {
    hide Sum, Deviation;
    SumUnfolds(s);
    DeviationUnfolds(s, c);
    DeviationUnfolds(s, d);
    if s != [] {
      var t := s[..|s| - 1];
      ShiftCentre(t, c, d);
      ShiftStep(Deviation(t, c), Deviation(t, d), Deviation(s, c), Deviation(s, d), Sum(t), Sum(s),
                |t| as real, |s| as real, s[|s| - 1], c, d);
    }
  }

  lemma Quotient(x: real, n: real)
    requires n > 0.0
    ensures x / n * n == x
  {}

  lemma QuotientUnique(q: real, x: real, n: real)
    requires n > 0.0 && q * n == x
    ensures q == x / n
  {}

  /** Welford's update of the mean. */
  lemma MeanStep(s: seq<real>, v: real)
    requires s != []
    ensures Mean(s) + (v - Mean(s)) / (|s| as real + 1.0) == Mean(s + [v])
  {
    var k, n := |s| as real, |s| as real + 1.0;
    var mu := Mean(s);
    var mean := mu + (v - mu) / n;
    assert (s + [v])[..|s|] == s;
    Quotient(Sum(s), k);
    Quotient(v - mu, n);
    assert mean * n == mu * n + (v - mu) / n * n;
    assert mu * n == mu * k + mu;
    QuotientUnique(mean, Sum(s + [v]), n);
  }

  lemma SumIsMean(s: seq<real>)
    requires s != []
    ensures Sum(s) == |s| as real * Mean(s)
  {
    Quotient(Sum(s), |s| as real);
  }

  lemma MeanMoves(s: seq<real>, v: real)
    requires s != []
    ensures (Mean(s + [v]) - Mean(s)) * (|s| as real + 1.0) == v - Mean(s)
  {
    hide Mean;
    MeanStep(s, v);
    Quotient(v - Mean(s), |s| as real + 1.0);
  }

  lemma DeviationAppend(s: seq<real>, v: real, centre: real)
    ensures Deviation(s + [v], centre) == Deviation(s, centre) + (v - centre) * (v - centre)
  {
    assert (s + [v])[..|s|] == s;
  }

  lemma WelfordAlgebra(mu: real, v: real, k: real, n: real, mean: real)
    requires n == k + 1.0 && n > 0.0 && (mean - mu) * n == v - mu
    ensures k * ((mu - mean) * (mu - mean)) + (v - mean) * (v - mean) == (v - mu) * (v - mean)
  {
    var e := mean - mu;
    assert v - mu == e * n;
    assert v - mean == e * n - e == e * k;
    assert k * (e * e) + (e * k) * (e * k) == (e * n) * (e * k) by {
      assert (e * k) * (e * k) == (e * e) * (k * k);
      assert (e * n) * (e * k) == (e * e) * (n * k);
      assert n * k == k * k + k;
      assert (e * e) * (k * k + k) == (e * e) * (k * k) + (e * e) * k;
    }
  }

  lemma DeviationAlgebra(dev: real, sum: real, mu: real, v: real, k: real, n: real, mean: real)
    requires sum == k * mu && n == k + 1.0 && n > 0.0 && (mean - mu) * n == v - mu
    ensures dev + (v - mu) * (v - mean)
         == dev + 2.0 * (mu - mean) * (sum - k * mu) + k * ((mu - mean) * (mu - mean)) + (v - mean) * (v - mean)
  {
    assert sum - k * mu == 0.0;
    assert 2.0 * (mu - mean) * (sum - k * mu) == 0.0;
    WelfordAlgebra(mu, v, k, n, mean);
  }

  /** Welford's update keeps the sum of squared deviations from the moving mean exact. */
  lemma DeviationStep(s: seq<real>, v: real)
    requires s != []
    ensures Deviation(s, Mean(s)) + (v - Mean(s)) * (v - Mean(s + [v])) == Deviation(s + [v], Mean(s + [v]))
  {
    hide Sum, Mean, Deviation;
    var k, n := |s| as real, |s| as real + 1.0;
    var mu, mean := Mean(s), Mean(s + [v]);
    SumIsMean(s);
    MeanMoves(s, v);
    DeviationAppend(s, v, mean);
    ShiftCentre(s, mu, mean);
    DeviationAlgebra(Deviation(s, mu), Sum(s), mu, v, k, n, mean);
  }

  lemma FirstSample(v: real)
    ensures Mean([v]) == v && Deviation([v], v) == 0.0
  {
    assert [v][..0] == [];
    assert Sum([v]) == v;
  }

  /** Welford's update in one piece, the first sample included. */
  lemma MomentsExtend(s: seq<real>, v: real)
    ensures s == [] ==> Mean(s + [v]) == v && Deviation(s + [v], v) == 0.0
    ensures s != [] ==> Mean(s) + (v - Mean(s)) / (|s| as real + 1.0) == Mean(s + [v])
    ensures s != [] ==>
              Deviation(s, Mean(s)) + (v - Mean(s)) * (v - Mean(s + [v])) == Deviation(s + [v], Mean(s + [v]))
  {
    hide Mean, Deviation;
    if s == [] {
      FirstSample(v);
      assert s + [v] == [v];
    } else {
      MeanStep(s, v);
      DeviationStep(s, v);
    }
  }

  lemma WindowAppend(s: seq<real>, v: real)
    ensures Window(s + [v]) == (if |Window(s)| == RING_CAP then Window(s)[1..] else Window(s)) + [v]
  {}

  // ---------------------------------------------------------------------------
  // Percentiles
  // ---------------------------------------------------------------------------

  predicate RealLe(a: real, b: real) { a <= b }

  lemma RealLeIsTotalOrder()
    ensures TotalOrder(RealLe)
  {}

  /** ceil(p / 100 * n), clamped to 1..n. */
  function Rank(p: real, n: nat): (rank: nat)
    requires n > 0
    ensures 1 <= rank <= n
  {
    var exact := p / 100.0 * n as real;
    var ceil := -((-exact).Floor);
    if ceil < 1 then 1 else if ceil > n then n else ceil
  }

  function Percentile(window: seq<real>, p: real): real
    requires window != []
  {
    Sort(window, RealLe)[Rank(p, |window|) - 1]
  }

  ghost function CountLe(s: seq<real>, v: real): nat {
    if s == [] then 0 else CountLe(s[1..], v) + if s[0] <= v then 1 else 0
  }

  ghost function CountLt(s: seq<real>, v: real): nat {
    if s == [] then 0 else CountLt(s[1..], v) + if s[0] < v then 1 else 0
  }

  lemma {:induction false} InsertCounts(x: real, s: seq<real>, v: real)
    ensures CountLe(Insert(x, s, RealLe), v) == CountLe(s, v) + if x <= v then 1 else 0
    ensures CountLt(Insert(x, s, RealLe), v) == CountLt(s, v) + if x < v then 1 else 0
  {
    if s == [] {
    } else if RealLe(x, s[0]) {
      assert ([x] + s)[1..] == s;
    } else {
      InsertCounts(x, s[1..], v);
    }
  }

  lemma {:induction false} SortCounts(s: seq<real>, v: real)
    ensures CountLe(Sort(s, RealLe), v) == CountLe(s, v)
    ensures CountLt(Sort(s, RealLe), v) == CountLt(s, v)
  {
    if s != [] {
      SortCounts(s[1..], v);
      InsertCounts(s[0], Sort(s[1..], RealLe), v);
    }
  }

  lemma {:induction false} NoneBelow(s: seq<real>, v: real)
    requires forall i :: 0 <= i < |s| ==> v <= s[i]
    ensures CountLt(s, v) == 0
  {
    if s != [] {
      NoneBelow(s[1..], v);
    }
  }

  lemma {:induction false} SortedCounts(s: seq<real>, k: nat, v: real)
    requires SortedBy(s, RealLe) && k < |s| && s[k] == v
    ensures CountLe(s, v) > k && CountLt(s, v) <= k
    decreases |s|
  {
    if k == 0 {
      NoneBelow(s, v);
    } else {
      SortedCounts(s[1..], k - 1, v);
    }
  }

  lemma CeilFacts(x: real)
    ensures var ceil := -((-x).Floor); ceil as real - 1.0 < x <= ceil as real
  {}

  lemma TimesMonotone(a: real, b: real, n: real)
    requires a <= b && n >= 0.0
    ensures a * n <= b * n
  {}

  lemma TimesStrict(a: real, b: real, n: real)
    requires a < b && n > 0.0
    ensures a * n < b * n
  {
  }

  lemma RankIs(p: real, n: nat)
    requires n > 0 && 0.0 < p <= 100.0
    ensures Rank(p, n) as real - 1.0 < p / 100.0 * n as real <= Rank(p, n) as real
  {
    var exact := p / 100.0 * n as real;
    CeilFacts(exact);
    TimesStrict(0.0, p / 100.0, n as real);
    TimesMonotone(p / 100.0, 1.0, n as real);
  }

  lemma CountsAsReals(le: nat, lt: nat, rank: nat)
    requires lt < rank <= le
    ensures le as real >= rank as real && lt as real <= rank as real - 1.0
  {}

  /** Nearest rank without sorting: at least `rank` samples do not exceed it, fewer than `rank` lie below it. */
  lemma PercentileIsNearestRank(window: seq<real>, p: real)
    requires window != []
    ensures var v := Percentile(window, p);
            && v in window
            && CountLe(window, v) >= Rank(p, |window|)
            && CountLt(window, v) < Rank(p, |window|)
  {
    var sorted := Sort(window, RealLe);
    var k := Rank(p, |window|) - 1;
    RealLeIsTotalOrder();
    SortSorts(window, RealLe);
    SortedCounts(sorted, k, sorted[k]);
    SortCounts(window, sorted[k]);
    SortKeepsMembers(window, RealLe, sorted[k]);
  }

  /** The same in percent: at least p percent of the samples do not exceed it, fewer than p percent lie below it. */
  lemma PercentileInPercent(window: seq<real>, p: real)
    requires window != [] && 0.0 < p <= 100.0
    ensures var v := Percentile(window, p);
            && v in window
            && CountLe(window, v) as real >= p / 100.0 * |window| as real
            && (CountLt(window, v) as real) < p / 100.0 * |window| as real
  {
    hide Percentile, CountLe, CountLt, Rank;
    var v := Percentile(window, p);
    PercentileIsNearestRank(window, p);
    RankIs(p, |window|);
    CountsAsReals(CountLe(window, v), CountLt(window, v), Rank(p, |window|));
  }

  lemma RankMonotone(p: real, q: real, n: nat)
    requires n > 0 && p <= q
    ensures Rank(p, n) <= Rank(q, n)
  {
    var x, y := p / 100.0 * n as real, q / 100.0 * n as real;
    TimesMonotone(p / 100.0, q / 100.0, n as real);
    assert (-y).Floor <= (-x).Floor;
  }

  lemma PercentilesOrdered(window: seq<real>, p: real, q: real)
    requires window != [] && p <= q
    ensures Percentile(window, p) <= Percentile(window, q)
  {
    RealLeIsTotalOrder();
    SortSorts(window, RealLe);
    RankMonotone(p, q, |window|);
    assert RealLe(Percentile(window, p), Percentile(window, q));
  }

  lemma {:induction false} MeanWithinBounds(s: seq<real>, lo: real, hi: real)
    requires forall i :: 0 <= i < |s| ==> lo <= s[i] <= hi
    ensures lo * |s| as real <= Sum(s) <= hi * |s| as real
  {
    if s != [] {
      MeanWithinBounds(s[..|s| - 1], lo, hi);
      assert lo * |s| as real == lo * (|s| - 1) as real + lo;
      assert hi * |s| as real == hi * (|s| - 1) as real + hi;
    }
  }

  datatype PhaseStats = PhaseStats(
    count: nat, min: real, max: real, mean: real, stddev: real, p50: real, p95: real, p99: real)

  /** The square root of the platform, as far as exact reals have one. */
  ghost predicate IsSquareRoot(root: real -> real) {
    forall x: real :: x >= 0.0 ==> root(x) >= 0.0 && root(x) * root(x) == x
  }

  lemma SquareNonNegative(x: real)
    ensures x * x >= 0.0
  {}

  lemma {:induction false} DeviationNonNegative(s: seq<real>, centre: real)
    ensures Deviation(s, centre) >= 0.0
  {
    if s != [] {
      DeviationNonNegative(s[..|s| - 1], centre);
      SquareNonNegative(s[|s| - 1] - centre);
    }
  }

  lemma QuotientNonNegative(x: real, n: real)
    requires x >= 0.0 && n > 0.0
    ensures x / n >= 0.0
  {}

  /** The summary of a nonempty run of samples, stated on the samples. */
  ghost predicate Summarizes(st: PhaseStats, samples: seq<real>)
    requires samples != []
  {
    var window := Window(samples);
    && st.count == |samples|
    && IsMin(st.min, samples) && IsMax(st.max, samples)
    && st.mean == Mean(samples)
    && st.stddev >= 0.0
    && st.stddev * st.stddev == Deviation(samples, Mean(samples)) / |samples| as real
    && st.p50 == Percentile(window, 50.0)
    && st.p95 == Percentile(window, 95.0)
    && st.p99 == Percentile(window, 99.0)
  }

  lemma PercentileWithinBounds(samples: seq<real>, p: real, lo: real, hi: real)
    requires samples != [] && IsMin(lo, samples) && IsMax(hi, samples)
    ensures lo <= Percentile(Window(samples), p) <= hi
  {
    hide Percentile, CountLe, CountLt;
    PercentileIsNearestRank(Window(samples), p);
    assert forall x :: x in Window(samples) ==> x in samples;
  }

  lemma MeanFromSum(s: seq<real>, lo: real, hi: real)
    requires s != [] && lo * |s| as real <= Sum(s) <= hi * |s| as real
    ensures lo <= Mean(s) <= hi
  {
    var n := |s| as real;
    Quotient(Sum(s), n);
    if Mean(s) < lo {
      TimesStrict(Mean(s), lo, n);
    }
    if hi < Mean(s) {
      TimesStrict(hi, Mean(s), n);
    }
  }

  lemma MeanBetween(samples: seq<real>, lo: real, hi: real)
    requires samples != [] && IsMin(lo, samples) && IsMax(hi, samples)
    ensures lo <= Mean(samples) <= hi
  {
    hide Mean, Sum;
    forall i | 0 <= i < |samples|
      ensures lo <= samples[i] <= hi
    {
      assert samples[i] in samples;
    }
    MeanWithinBounds(samples, lo, hi);
    MeanFromSum(samples, lo, hi);
  }

  /** The order every summary keeps, however the window has moved. */
  lemma SummaryOrdered(st: PhaseStats, samples: seq<real>)
    requires samples != [] && Summarizes(st, samples)
    ensures st.min <= st.p50 <= st.p95 <= st.p99 <= st.max
    ensures st.min <= st.mean <= st.max
  {
    hide Percentile, Mean, Deviation, Sum, CountLe, CountLt, Window;
    var window := Window(samples);
    PercentilesOrdered(window, 50.0, 95.0);
    PercentilesOrdered(window, 95.0, 99.0);
    PercentileWithinBounds(samples, 50.0, st.min, st.max);
    PercentileWithinBounds(samples, 99.0, st.min, st.max);
    MeanBetween(samples, st.min, st.max);
  }

  /** `v` splits the window at p percent. */
  ghost predicate SplitsAt(window: seq<real>, v: real, p: real) {
    && v in window
    && CountLe(window, v) as real >= p / 100.0 * |window| as real
    && (CountLt(window, v) as real) < p / 100.0 * |window| as real
  }

  /** The three percentiles of a summary split the last min(count, 8192) samples at 50, 95 and 99 percent. */
  lemma SummaryPercentiles(st: PhaseStats, samples: seq<real>)
    requires samples != [] && Summarizes(st, samples)
    ensures var window := if |samples| <= 8192 then samples else samples[|samples| - 8192..];
            SplitsAt(window, st.p50, 50.0) && SplitsAt(window, st.p95, 95.0) && SplitsAt(window, st.p99, 99.0)
  {
    hide Percentile, CountLe, CountLt, Mean, Deviation;
    PercentileInPercent(Window(samples), 50.0);
    PercentileInPercent(Window(samples), 95.0);
    PercentileInPercent(Window(samples), 99.0);
  }

  // ---------------------------------------------------------------------------
  // The accumulator
  // ---------------------------------------------------------------------------

  lemma ExtremesExtend(s: seq<real>, v: real)
    ensures forall m :: IsMin(m, s) ==> IsMin(if v < m then v else m, s + [v])
    ensures forall m :: IsMax(m, s) ==> IsMax(if m < v then v else m, s + [v])
    ensures s == [] ==> IsMin(v, s + [v]) && IsMax(v, s + [v])
  {}

  class PhaseAccum {
    /** Every sample pushed, oldest first. */
    ghost var samples: seq<real>

    var count: nat
    var mean: real
    var m2: real
    var min: real
    var max: real
    var recent: seq<real>

    ghost predicate Valid()
      reads this
    {
      && count == |samples|
      && recent == Window(samples)
      && (samples == [] ==> mean == 0.0 && m2 == 0.0)
      && (samples != [] ==>
            && mean == Mean(samples) && m2 == Deviation(samples, Mean(samples))
            && IsMin(min, samples) && IsMax(max, samples))
    }

    constructor ()
      ensures Valid() && samples == []
    {
      samples := [];
      count, mean, m2, min, max, recent := 0, 0.0, 0.0, 0.0, 0.0, [];
    }

    method Push(v: real)
      requires Valid()
      modifies this
      ensures Valid() && samples == old(samples) + [v]
    {
      hide Mean, Deviation, Sum, Window, IsMin, IsMax;
      if count == 0 {
        min := v;
        max := v;
      } else {
        min := if v < min then v else min;
        max := if max < v then v else max;
      }
      count := count + 1;
      var delta := v - mean;
      mean := mean + delta / count as real;
      m2 := m2 + delta * (v - mean);
      if |recent| == RING_CAP {
        recent := recent[1..];
      }
      recent := recent + [v];

      WindowAppend(samples, v);
      MomentsExtend(samples, v);
      ExtremesExtend(samples, v);
      samples := samples + [v];
    }

    method Snapshot(root: real -> real) returns (r: Option<PhaseStats>)
      requires Valid() && IsSquareRoot(root)
      ensures r.None? <==> samples == []
      ensures r.Some? ==> Summarizes(r.value, samples)
    {
      if count == 0 {
        return None;
      }
      hide Deviation, Mean, Sum, Sort, CountLe, CountLt;
      DeviationNonNegative(samples, Mean(samples));
      QuotientNonNegative(m2, count as real);
      var sorted := Sort(recent, RealLe);
      var n := |sorted|;
      return Some(PhaseStats(count, min, max, mean, root(m2 / count as real),
        sorted[Rank(50.0, n) - 1], sorted[Rank(95.0, n) - 1], sorted[Rank(99.0, n) - 1]));
    }
  }
}
