/** The breach tracker of src/watch.rs: debounce, cooldown and recovery over whole traces of probe verdicts. */
module Watch {
  import opened Arithmetic
  import opened Wrappers

  datatype Fire = Quiet | Breach | Recover

  /** The options that stay fixed for a run; times and durations are nanoseconds. */
  datatype Policy = Policy(breachAfter: nat, cooldown: nat, onRecover: bool)

  datatype Verdict = Verdict(breached: bool, now: nat)

  // ---------------------------------------------------------------------------
  // One evaluation
  // ---------------------------------------------------------------------------

  datatype Tracker = Tracker(consecutive: nat, breaching: bool, lastFire: Option<nat>)

  const IDLE := Tracker(0, false, None)

  function Threshold(p: Policy): nat { if p.breachAfter < 1 then 1 else p.breachAfter }

  /** `duration_since` saturates at zero. */
  function Since(now: nat, t: nat): nat { if now < t then 0 else now - t }

  ghost function Next(t: Tracker, p: Policy, v: Verdict): (Tracker, Fire) {
    if v.breached then
      var consecutive := t.consecutive + 1;
      var cooled := t.lastFire.None? || Since(v.now, t.lastFire.value) >= p.cooldown;
      if consecutive >= Threshold(p) && cooled then (Tracker(consecutive, true, Some(v.now)), Breach)
      else (Tracker(consecutive, true, t.lastFire), Quiet)
    else
      (Tracker(0, false, t.lastFire), if t.breaching && p.onRecover then Recover else Quiet)
  }

  class BreachTracker {
    var consecutive: nat
    var breaching: bool
    var lastFire: Option<nat>

    ghost function State(): Tracker
      reads this
    {
      Tracker(consecutive, breaching, lastFire)
    }

    constructor ()
      ensures State() == IDLE
    {
      consecutive, breaching, lastFire := 0, false, None;
    }

    method Evaluate(breached: bool, breachAfter: nat, cooldown: nat, onRecover: bool, now: nat) returns (fire: Fire)
      modifies this
      ensures (State(), fire) == Next(old(State()), Policy(breachAfter, cooldown, onRecover), Verdict(breached, now))
    {
      if breached {
        consecutive := consecutive + 1;
        breaching := true;
        if consecutive >= (if breachAfter < 1 then 1 else breachAfter) {
          var cooled := if lastFire.Some? then Since(now, lastFire.value) >= cooldown else true;
          if cooled {
            lastFire := Some(now);
            return Breach;
          }
        }
        return Quiet;
      } else {
        var was := breaching;
        breaching := false;
        consecutive := 0;
        return if was && onRecover then Recover else Quiet;
      }
    }
  }

  // ---------------------------------------------------------------------------
  // Whole traces
  // ---------------------------------------------------------------------------

  ghost function After(p: Policy, trace: seq<Verdict>): Tracker {
    if trace == [] then IDLE
    else Next(After(p, trace[..|trace| - 1]), p, trace[|trace| - 1]).0
  }

  /** What fires at step k of a trace. */
  ghost function FireAt(p: Policy, trace: seq<Verdict>, k: nat): Fire
    requires k < |trace|
  {
    Next(After(p, trace[..k]), p, trace[k]).1
  }

  /** Evaluating verdict by verdict on one tracker gives the fires of the trace. */
  method Drive(p: Policy, trace: seq<Verdict>) returns (fires: seq<Fire>)
    ensures |fires| == |trace| && forall k :: 0 <= k < |trace| ==> fires[k] == FireAt(p, trace, k)
  {
    var tracker := new BreachTracker();
    fires := [];
    for k := 0 to |trace|
      invariant tracker.State() == After(p, trace[..k])
      invariant |fires| == k && forall i :: 0 <= i < k ==> fires[i] == FireAt(p, trace, i)
    {
      var fire := tracker.Evaluate(trace[k].breached, p.breachAfter, p.cooldown, p.onRecover, trace[k].now);
      fires := fires + [fire];
      assert trace[..k + 1][..k] == trace[..k];
    }
  }

  ghost predicate Ordered(trace: seq<Verdict>) {
    forall i, j :: 0 <= i <= j < |trace| ==> trace[i].now <= trace[j].now
  }

  /** The `m` verdicts up to and including step k were all breaches. */
  ghost predicate LastBreached(trace: seq<Verdict>, k: nat, m: nat)
    requires k < |trace|
  {
    m <= k + 1 && forall i :: k + 1 - m <= i <= k ==> trace[i].breached
  }

  /** The length of the run of breaches that ends a trace. */
  ghost function TrailingBreaches(trace: seq<Verdict>): (n: nat)
    ensures n <= |trace|
    ensures forall i :: |trace| - n <= i < |trace| ==> trace[i].breached
    ensures n < |trace| ==> !trace[|trace| - n - 1].breached
  {
    if trace == [] || !trace[|trace| - 1].breached then 0 else TrailingBreaches(trace[..|trace| - 1]) + 1
  }

  lemma {:induction false} CountersTrackTrace(p: Policy, trace: seq<Verdict>)
    ensures After(p, trace).consecutive == TrailingBreaches(trace)
    ensures After(p, trace).breaching <==> trace != [] && trace[|trace| - 1].breached
  {
    if trace != [] {
      CountersTrackTrace(p, trace[..|trace| - 1]);
    }
  }

  lemma NothingFired(p: Policy)
    ensures After(p, []) == IDLE
  {}

  lemma LastFireStep(p: Policy, trace: seq<Verdict>, k: nat)
    requires k < |trace|
    ensures After(p, trace[..k + 1]).lastFire ==
            if FireAt(p, trace, k) == Breach then Some(trace[k].now) else After(p, trace[..k]).lastFire
  {
    assert trace[..k + 1][..k] == trace[..k];
  }

  /** The remembered time is that of the latest breach alert, and there is none only if none fired. */
  lemma {:induction false} LastFireTracksTrace(p: Policy, trace: seq<Verdict>, k: nat)
    requires k <= |trace|
    ensures After(p, trace[..k]).lastFire.None? ==> forall j :: 0 <= j < k ==> FireAt(p, trace, j) != Breach
    ensures After(p, trace[..k]).lastFire.Some? ==>
              exists j :: 0 <= j < k && FireAt(p, trace, j) == Breach && trace[j].now == After(p, trace[..k]).lastFire.value
                          && forall i :: j < i < k ==> FireAt(p, trace, i) != Breach
    decreases k
  {
    hide FireAt, After;
    if k > 0 {
      LastFireTracksTrace(p, trace, k - 1);
      LastFireStep(p, trace, k - 1);
    } else {
      assert trace[..k] == [];
      NothingFired(p);
    }
  }

  lemma DebounceIsExact(p: Policy, trace: seq<Verdict>, k: nat)
    requires k < |trace|
    ensures trace[k].breached && After(p, trace[..k]).consecutive + 1 >= Threshold(p)
            <==> LastBreached(trace, k, if p.breachAfter < 1 then 1 else p.breachAfter)
  {
    var prefix := trace[..k];
    CountersTrackTrace(p, prefix);
    var n := TrailingBreaches(prefix);
    var m := Threshold(p);
    assert forall i :: 0 <= i < k ==> prefix[i] == trace[i];
    if n + 1 < m && m <= k + 1 {
      assert !prefix[k - n - 1].breached;
    }
  }

  lemma CooldownIsExact(p: Policy, trace: seq<Verdict>, k: nat)
    requires k < |trace| && Ordered(trace)
    ensures var last := After(p, trace[..k]).lastFire;
            (last.None? || Since(trace[k].now, last.value) >= p.cooldown)
            <==> forall j :: 0 <= j < k && FireAt(p, trace, j) == Breach ==> trace[k].now - trace[j].now >= p.cooldown
  {
    hide FireAt;
    LastFireTracksTrace(p, trace, k);
    var last := After(p, trace[..k]).lastFire;
    if last.Some? {
      var j :| 0 <= j < k && FireAt(p, trace, j) == Breach && trace[j].now == last.value
               && forall i :: j < i < k ==> FireAt(p, trace, i) != Breach;
      forall i | 0 <= i < k && FireAt(p, trace, i) == Breach
        ensures trace[i].now <= trace[j].now
      {
        assert i <= j;
      }
    }
  }

  /**
   * A breach alert fires at step k exactly when the last max(1, breach_after) verdicts were all breaches and every
   * earlier alert is at least `cooldown` old.
   */
  lemma BreachIsExact(p: Policy, trace: seq<Verdict>, k: nat)
    requires k < |trace| && Ordered(trace)
    ensures FireAt(p, trace, k) == Breach <==>
              && LastBreached(trace, k, if p.breachAfter < 1 then 1 else p.breachAfter)
              && forall j :: 0 <= j < k && FireAt(p, trace, j) == Breach ==> trace[k].now - trace[j].now >= p.cooldown
  {
    DebounceIsExact(p, trace, k);
    CooldownIsExact(p, trace, k);
  }

  /** Recovery fires exactly when enabled, on the first good verdict after a breach. */
  lemma RecoverIsExact(p: Policy, trace: seq<Verdict>, k: nat)
    requires k < |trace|
    ensures FireAt(p, trace, k) == Recover <==> p.onRecover && !trace[k].breached && k > 0 && trace[k - 1].breached
  {
    CountersTrackTrace(p, trace[..k]);
  }

  // ---------------------------------------------------------------------------
  // Rate limit
  // ---------------------------------------------------------------------------

  ghost function Alerts(p: Policy, trace: seq<Verdict>, k: nat): nat
    requires k <= |trace|
  {
    if k == 0 then 0 else Alerts(p, trace, k - 1) + if FireAt(p, trace, k - 1) == Breach then 1 else 0
  }

  /** `last` is the time of the latest of `n` alerts that began no earlier than `first`, each a cooldown apart. */
  ghost predicate Spread(n: nat, first: nat, last: Option<nat>, cooldown: nat) {
    && (n == 0 <==> last.None?)
    && (n > 0 ==> (n - 1) * cooldown + first <= last.value)
  }

  lemma SpreadExtends(n: nat, first: nat, last: Option<nat>, cooldown: nat, now: nat)
    requires Spread(n, first, last, cooldown) && first <= now
    requires last.Some? ==> last.value <= now && now - last.value >= cooldown
    ensures Spread(n + 1, first, Some(now), cooldown)
  {
    if n > 0 {
      assert n * cooldown == (n - 1) * cooldown + cooldown;
    }
  }

  lemma NoAlerts(first: nat, cooldown: nat)
    ensures Spread(0, first, None, cooldown)
  {}

  /** Every alert after the first costs at least one cooldown. */
  lemma {:induction false} AlertsCostTime(p: Policy, trace: seq<Verdict>, k: nat)
    requires k <= |trace| && Ordered(trace) && trace != []
    ensures Spread(Alerts(p, trace, k), trace[0].now, After(p, trace[..k]).lastFire, p.cooldown)
    ensures After(p, trace[..k]).lastFire.Some? ==> k > 0 && After(p, trace[..k]).lastFire.value <= trace[k - 1].now
    decreases k
  {
    hide Spread;
    if k == 0 {
      assert Spread(0, trace[0].now, None, p.cooldown) by { NoAlerts(trace[0].now, p.cooldown); }
    } else {
      AlertsCostTime(p, trace, k - 1);
      assert trace[..k][..k - 1] == trace[..k - 1];
      if FireAt(p, trace, k - 1) == Breach {
        SpreadExtends(Alerts(p, trace, k - 1), trace[0].now, After(p, trace[..k - 1]).lastFire, p.cooldown,
                      trace[k - 1].now);
      }
    }
  }

  lemma DivisionFacts(d: nat, c: nat)
    requires c > 0
    ensures d < (d / c + 1) * c
  {
    assert d == c * (d / c) + d % c;
    assert (d / c + 1) * c == c * (d / c) + c;
  }

  lemma QuotientBound(n: nat, d: nat, c: nat)
    requires c > 0 && n * c <= d
    ensures n <= d / c
  {
    DivisionFacts(d, c);
    if d / c < n {
      TimesMonotone(d / c + 1, n, c);
    }
  }

  lemma SpreadBound(n: nat, first: nat, last: Option<nat>, cooldown: nat, end: nat)
    requires Spread(n, first, last, cooldown) && cooldown > 0 && first <= end
    requires last.Some? ==> last.value <= end
    ensures n <= (end - first) / cooldown + 1
  {
    if n > 0 {
      QuotientBound(n - 1, end - first, cooldown);
    }
  }

  /** A run of duration D with cooldown c > 0 raises at most floor(D / c) + 1 breach alerts. */
  lemma RateLimit(p: Policy, trace: seq<Verdict>)
    requires trace != [] && Ordered(trace) && p.cooldown > 0
    ensures Alerts(p, trace, |trace|) <= (trace[|trace| - 1].now - trace[0].now) / p.cooldown + 1
  {
    hide After, Alerts;
    AlertsCostTime(p, trace, |trace|);
    SpreadBound(Alerts(p, trace, |trace|), trace[0].now, After(p, trace[..|trace|]).lastFire, p.cooldown,
                trace[|trace| - 1].now);
  }

  // ---------------------------------------------------------------------------
  // Pairing of recoveries with alerts
  // ---------------------------------------------------------------------------

  /** Some breach alert fired in the unbroken run of breaches that ends just before step k. */
  ghost predicate Announced(p: Policy, trace: seq<Verdict>, k: nat)
    requires k < |trace|
  {
    exists j :: 0 <= j < k && FireAt(p, trace, j) == Breach && forall i :: j <= i < k ==> trace[i].breached
  }

  ghost predicate EveryRecoveryAnnounced(p: Policy) {
    forall trace: seq<Verdict>, k: nat :: Ordered(trace) && k < |trace| && FireAt(p, trace, k) == Recover
                                          ==> Announced(p, trace, k)
  }

  lemma SuppressedByCooldown(p: Policy)
    requires p.onRecover && p.breachAfter <= 1 && p.cooldown > 0
    ensures !EveryRecoveryAnnounced(p)
  {
    var trace := [Verdict(true, 0), Verdict(false, 0), Verdict(true, 0), Verdict(false, 0)];
    RecoverIsExact(p, trace, 3);
    BreachIsExact(p, trace, 0);
    BreachIsExact(p, trace, 2);
    assert FireAt(p, trace, 0) == Breach;
    assert FireAt(p, trace, 2) != Breach;
    assert !Announced(p, trace, 3);
  }

  /**
   * Debounce and cooldown suppress the alert but not the recovery: every recovery is paired with an alert of its own
   * incident exactly for policies that never suppress.
   */
  lemma RecoveriesPairedIff(p: Policy)
    ensures EveryRecoveryAnnounced(p) <==> !p.onRecover || (p.breachAfter <= 1 && p.cooldown == 0)
  {
    if p.onRecover && p.breachAfter > 1 {
      var trace := [Verdict(true, 0), Verdict(false, 0)];
      RecoverIsExact(p, trace, 1);
      assert trace[..0] == [];
      assert !Announced(p, trace, 1);
    } else if p.onRecover && p.cooldown > 0 {
      SuppressedByCooldown(p);
    } else {
      forall trace: seq<Verdict>, k: nat | Ordered(trace) && k < |trace| && FireAt(p, trace, k) == Recover
        ensures Announced(p, trace, k)
      {
        RecoverIsExact(p, trace, k);
        BreachIsExact(p, trace, k - 1);
      }
    }
  }
}
