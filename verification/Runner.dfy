/**
 * The probe scheduler of src/runner.rs as a transition system: one task per target, a bounded channel, pause and
 * cancel, in every interleaving. Times are nanoseconds.
 */
module Runner {
  import opened Arithmetic
  import opened Wrappers

  const CHANNEL_CAPACITY: nat := 64
  const PAUSE_POLL_INTERVAL: nat := 100_000_000

  /** `count` probes for each of `targets` targets, or endlessly. */
  datatype Config = Config(targets: nat, count: Option<nat>, interval: nat)

  /** Where a task stands between two of its atomic steps. */
  datatype Pc =
    | Spawned
    | CheckCount
    | Sleeping
    | CheckPause
    | PausePoll(until: nat)
    | Probing
    | Sending
    | Exited

  /** `starts` and `completed` record when probes began and how many finished. */
  datatype Task = Task(pc: Pc, seqNo: nat, nextStart: nat, starts: seq<nat>, completed: nat)

  datatype Message = Message(target: nat, seqNo: nat)

  datatype State = State(
    now: nat, tasks: seq<Task>, queue: seq<Message>, received: seq<Message>,
    cancelled: bool, paused: bool, receiverAlive: bool)

  /** Every atomic step of the tasks, their environment and the consumer. */
  datatype Step =
    | Tick(dt: nat)
    | SetPaused(paused: bool)
    | Cancel
    | Receive
    | DropReceiver
    | Begin(i: nat)          // first poll: fixes the first start time
    | Count(i: nat)          // loop head: count reached or not
    | Wake(i: nat)           // sleep_until elapsed
    | ReadPause(i: nat)      // paused flag read; if clear the probe starts
    | PollAgain(i: nat)      // pause poll interval elapsed
    | Complete(i: nat)       // probe finished
    | Send(i: nat)           // channel took the result
    | StopCancelled(i: nat)  // a cancellation branch won
    | StopOrphaned(i: nat)   // send failed: receiver gone

  function Init(cfg: Config): State {
    State(0, seq(cfg.targets, _ => Task(Spawned, 0, 0, [], 0)), [], [], false, false, true)
  }

  /** `interval * i / n` with n the number of targets, at least one. */
  function Offset(cfg: Config, i: nat): nat {
    cfg.interval * i / (if cfg.targets < 1 then 1 else cfg.targets)
  }

  predicate At(s: State, i: nat, pc: Pc) { i < |s.tasks| && s.tasks[i].pc == pc }

  predicate Enabled(cfg: Config, s: State, step: Step) {
    match step
    case Tick(_) => true
    case SetPaused(_) => true
    case Cancel => true
    case Receive => s.receiverAlive && s.queue != []
    case DropReceiver => s.receiverAlive
    case Begin(i) => At(s, i, Spawned)
    case Count(i) => At(s, i, CheckCount)
    case Wake(i) => At(s, i, Sleeping) && s.now >= s.tasks[i].nextStart
    case ReadPause(i) => At(s, i, CheckPause)
    case PollAgain(i) => i < |s.tasks| && s.tasks[i].pc.PausePoll? && s.now >= s.tasks[i].pc.until
    case Complete(i) => At(s, i, Probing)
    case Send(i) => At(s, i, Sending) && s.receiverAlive && |s.queue| < CHANNEL_CAPACITY
    case StopCancelled(i) =>
      s.cancelled && (At(s, i, Sleeping) || At(s, i, Probing) || (i < |s.tasks| && s.tasks[i].pc.PausePoll?))
    case StopOrphaned(i) => At(s, i, Sending) && !s.receiverAlive
  }

  function SetTask(s: State, i: nat, t: Task): State
    requires i < |s.tasks|
  {
    s.(tasks := s.tasks[i := t])
  }

  function Apply(cfg: Config, s: State, step: Step): State
    requires |s.tasks| == cfg.targets && Enabled(cfg, s, step)
  {
    match step
    case Tick(dt) => s.(now := s.now + dt)
    case SetPaused(p) => s.(paused := p)
    case Cancel => s.(cancelled := true)
    case Receive => s.(queue := s.queue[1..], received := s.received + [s.queue[0]])
    case DropReceiver => s.(receiverAlive := false, queue := [])
    case Begin(i) =>
      SetTask(s, i, s.tasks[i].(pc := CheckCount, nextStart := s.now + Offset(cfg, i)))
    case Count(i) =>
      var t := s.tasks[i];
      SetTask(s, i, t.(pc := if cfg.count.Some? && t.seqNo >= cfg.count.value then Exited else Sleeping))
    case Wake(i) => SetTask(s, i, s.tasks[i].(pc := CheckPause))
    case ReadPause(i) =>
      var t := s.tasks[i];
      SetTask(s, i,
        if s.paused then t.(pc := PausePoll(s.now + PAUSE_POLL_INTERVAL))
        else t.(pc := Probing, nextStart := s.now + cfg.interval, starts := t.starts + [s.now]))
    case PollAgain(i) => SetTask(s, i, s.tasks[i].(pc := CheckPause))
    case Complete(i) => SetTask(s, i, s.tasks[i].(pc := Sending, completed := s.tasks[i].completed + 1))
    case Send(i) =>
      var t := s.tasks[i];
      SetTask(s, i, t.(pc := CheckCount, seqNo := t.seqNo + 1)).(queue := s.queue + [Message(i, t.seqNo)])
    case StopCancelled(i) => SetTask(s, i, s.tasks[i].(pc := Exited))
    case StopOrphaned(i) => SetTask(s, i, s.tasks[i].(pc := Exited))
  }

  /** The state after a schedule, if every step of it was enabled when its turn came. */
  ghost function Run(cfg: Config, steps: seq<Step>): (r: Option<State>)
    ensures r.Some? ==> |r.value.tasks| == cfg.targets
  {
    if steps == [] then Some(Init(cfg))
    else
      var n := |steps| - 1;
      var p := Run(cfg, steps[..n]);
      if p.Some? && Enabled(cfg, p.value, steps[n]) then Some(Apply(cfg, p.value, steps[n])) else None
  }

  ghost predicate Reaches(cfg: Config, steps: seq<Step>, s: State) {
    Run(cfg, steps) == Some(s)
  }

  // ---------------------------------------------------------------------------
  // The invariant
  // ---------------------------------------------------------------------------

  ghost function Range(n: nat): (r: seq<nat>)
    ensures |r| == n
  {
    if n == 0 then [] else Range(n - 1) + [n - 1]
  }

  /** The sequence numbers of one target, in the order of the messages. */
  ghost function Seqs(msgs: seq<Message>, i: nat): seq<nat> {
    if msgs == [] then []
    else
      var n := |msgs| - 1;
      Seqs(msgs[..n], i) + if msgs[n].target == i then [msgs[n].seqNo] else []
  }

  /** What has entered the channel and is not lost. */
  ghost function Stream(s: State): seq<Message> { s.received + s.queue }

  ghost predicate Spaced(starts: seq<nat>, interval: nat) {
    forall k :: 0 < k < |starts| ==> starts[k - 1] + interval <= starts[k]
  }

  ghost predicate InFlight(t: Task) { t.pc.Probing? || t.pc.Sending? }

  /** What the channel holds of target i: all its sequence numbers so far, in order, while the receiver lives. */
  ghost predicate Delivered(s: State, i: nat)
    requires i < |s.tasks|
  {
    && (s.receiverAlive ==> Seqs(Stream(s), i) == Range(s.tasks[i].seqNo))
    && |Seqs(s.received, i)| <= s.tasks[i].seqNo
  }

  /** How the counters, start times and program counter of task i fit together. */
  ghost predicate Consistent(cfg: Config, s: State, i: nat)
    requires i < |s.tasks|
  {
    var t := s.tasks[i];
    && (t.pc.Spawned? ==> t.seqNo == 0 && t.starts == [])
    && (!t.pc.Exited? ==> t.completed == t.seqNo + if t.pc.Sending? then 1 else 0)
    && (t.pc.Exited? && s.receiverAlive ==> t.completed == t.seqNo)
    && (!t.pc.Exited? ==> |t.starts| == t.seqNo + if InFlight(t) then 1 else 0)
    && (cfg.count.Some? ==>
          && t.seqNo <= cfg.count.value
          && (!t.pc.Exited? && !t.pc.CheckCount? && !t.pc.Spawned? ==> t.seqNo < cfg.count.value))
    && (t.pc.Exited? ==> s.cancelled || !s.receiverAlive || cfg.count == Some(t.seqNo))
    && Spaced(t.starts, cfg.interval)
    && (t.starts != [] ==> t.starts[|t.starts| - 1] + cfg.interval <= t.nextStart)
    && (t.pc.CheckPause? || t.pc.PausePoll? ==> t.nextStart <= s.now)
    && (t.starts == [] && !t.pc.Spawned? ==> Offset(cfg, i) <= t.nextStart)
    && (t.starts != [] ==> Offset(cfg, i) <= t.starts[0])
  }

  ghost predicate TaskInv(cfg: Config, s: State, i: nat)
    requires i < |s.tasks|
  {
    Delivered(s, i) && Consistent(cfg, s, i)
  }

  ghost predicate Inv(cfg: Config, s: State) {
    && |s.tasks| == cfg.targets
    && |s.queue| <= CHANNEL_CAPACITY
    && (forall i :: 0 <= i < cfg.targets ==> TaskInv(cfg, s, i))
    && (forall i :: 0 <= i < cfg.targets ==> Seqs(s.received, i) == Range(|Seqs(s.received, i)|))
  }

  lemma SeqsAppend(msgs: seq<Message>, m: Message, i: nat)
    ensures Seqs(msgs + [m], i) == Seqs(msgs, i) + if m.target == i then [m.seqNo] else []
  {
    assert (msgs + [m])[..|msgs|] == msgs;
  }

  lemma {:induction false} SeqsConcat(a: seq<Message>, b: seq<Message>, i: nat)
    ensures Seqs(a + b, i) == Seqs(a, i) + Seqs(b, i)
  {
    if b == [] {
      assert a + b == a;
    } else {
      var n := |b| - 1;
      assert a + b == (a + b[..n]) + [b[n]] && b == b[..n] + [b[n]];
      SeqsConcat(a, b[..n], i);
      SeqsAppend(a + b[..n], b[n], i);
      SeqsAppend(b[..n], b[n], i);
    }
  }

  lemma {:induction false} RangeAt(n: nat, k: nat)
    requires k < n
    ensures Range(n)[k] == k
  {
    if k < n - 1 {
      RangeAt(n - 1, k);
    }
  }

  /** A prefix of consecutive numbers from zero is again such a list. */
  lemma RangePrefix(a: seq<nat>, b: seq<nat>, n: nat)
    requires a + b == Range(n)
    ensures a == Range(|a|)
  {
    forall k | 0 <= k < |a|
      ensures a[k] == Range(|a|)[k]
    {
      RangeAt(n, k);
      RangeAt(|a|, k);
      assert a[k] == (a + b)[k];
    }
  }

  lemma InitInv(cfg: Config)
    ensures Inv(cfg, Init(cfg))
  {}

  /** A step that changes only task i, nothing in the channel, leaves the other tasks' invariants alone. */
  lemma OthersKeep(cfg: Config, s: State, s': State, i: nat)
    requires Inv(cfg, s) && i < cfg.targets
    requires |s'.tasks| == cfg.targets && s'.received == s.received && s'.now >= s.now
    requires s'.cancelled == s.cancelled && s'.receiverAlive == s.receiverAlive
    requires forall j :: 0 <= j < cfg.targets && j != i ==> s'.tasks[j] == s.tasks[j]
    requires s'.queue == s.queue || exists q :: s'.queue == s.queue + [Message(i, q)]
    ensures forall j :: 0 <= j < cfg.targets && j != i ==> TaskInv(cfg, s', j)
  {
    forall j | 0 <= j < cfg.targets && j != i
      ensures TaskInv(cfg, s', j)
    {
      assert TaskInv(cfg, s, j);
      if s'.queue != s.queue {
        var q :| s'.queue == s.queue + [Message(i, q)];
        assert Stream(s') == Stream(s) + [Message(i, q)];
        SeqsAppend(Stream(s), Message(i, q), j);
      }
    }
  }

  /** A step taken by a task, not by its surroundings. */
  predicate ByTask(step: Step) {
    !step.Tick? && !step.SetPaused? && !step.Cancel? && !step.Receive? && !step.DropReceiver?
  }

  lemma StepDelivered(cfg: Config, s: State, step: Step)
    requires |s.tasks| == cfg.targets && Enabled(cfg, s, step) && ByTask(step) && Delivered(s, step.i)
    ensures Delivered(Apply(cfg, s, step), step.i)
  {
    hide Seqs, Offset;
    var s' := Apply(cfg, s, step);
    if step.Send? {
      var m := Message(step.i, s.tasks[step.i].seqNo);
      assert Stream(s') == Stream(s) + [m];
      SeqsAppend(Stream(s), m, step.i);
    } else {
      assert Stream(s') == Stream(s) && s'.tasks[step.i].seqNo == s.tasks[step.i].seqNo;
    }
  }

  lemma StepConsistent(cfg: Config, s: State, step: Step)
    requires |s.tasks| == cfg.targets && Enabled(cfg, s, step) && ByTask(step) && Consistent(cfg, s, step.i)
    ensures Consistent(cfg, Apply(cfg, s, step), step.i)
  {
    hide Offset;
  }

  lemma TaskStepInv(cfg: Config, s: State, step: Step)
    requires Inv(cfg, s) && Enabled(cfg, s, step) && ByTask(step)
    ensures Inv(cfg, Apply(cfg, s, step))
  {
    hide Seqs, Range, Offset, Delivered, Consistent;
    var s' := Apply(cfg, s, step);
    assert TaskInv(cfg, s, step.i);
    StepDelivered(cfg, s, step);
    StepConsistent(cfg, s, step);
    OthersKeep(cfg, s, s', step.i);
    assert TaskInv(cfg, s', step.i);
  }

  lemma ReceiveInv(cfg: Config, s: State)
    requires Inv(cfg, s) && Enabled(cfg, s, Receive)
    ensures Inv(cfg, Apply(cfg, s, Receive))
  {
    hide Seqs, Range;
    var s' := Apply(cfg, s, Receive);
    assert Stream(s') == Stream(s);
    forall i | 0 <= i < cfg.targets
      ensures TaskInv(cfg, s', i) && Seqs(s'.received, i) == Range(|Seqs(s'.received, i)|)
    {
      assert TaskInv(cfg, s, i);
      SeqsConcat(s'.received, s'.queue, i);
      RangePrefix(Seqs(s'.received, i), Seqs(s'.queue, i), s.tasks[i].seqNo);
    }
  }

  /** Time, the flags and a dropped receiver touch no task. */
  lemma EnvironmentStepInv(cfg: Config, s: State, step: Step)
    requires Inv(cfg, s) && Enabled(cfg, s, step) && !ByTask(step) && !step.Receive?
    ensures Inv(cfg, Apply(cfg, s, step))
  {
    hide Seqs, Range, Spaced, Offset;
    var s' := Apply(cfg, s, step);
    forall i | 0 <= i < cfg.targets
      ensures TaskInv(cfg, s', i)
    {
      assert TaskInv(cfg, s, i);
    }
  }

  lemma StepInv(cfg: Config, s: State, step: Step)
    requires Inv(cfg, s) && Enabled(cfg, s, step)
    ensures Inv(cfg, Apply(cfg, s, step))
  {
    hide Inv;
    if ByTask(step) {
      TaskStepInv(cfg, s, step);
    } else if step.Receive? {
      ReceiveInv(cfg, s);
    } else {
      EnvironmentStepInv(cfg, s, step);
    }
  }

  /** The invariant holds after every run of steps, whatever the interleaving. */
  lemma {:induction false} Invariance(cfg: Config, steps: seq<Step>, s: State)
    requires Reaches(cfg, steps, s)
    ensures Inv(cfg, s)
    decreases |steps|
  {
    if steps == [] {
      InitInv(cfg);
    } else {
      var n := |steps| - 1;
      var p := Run(cfg, steps[..n]).value;
      Invariance(cfg, steps[..n], p);
      StepInv(cfg, p, steps[n]);
    }
  }

  // ---------------------------------------------------------------------------
  // What the consumer can rely on
  // ---------------------------------------------------------------------------

  /**
   * For every target, what was received is 0, 1, 2, ... with no gap, repeat or reordering, and while the receiver
   * lives the same holds of received and queued results together. The channel never holds more than 64.
   */
  lemma DeliveredInOrder(cfg: Config, steps: seq<Step>, s: State, i: nat)
    requires Reaches(cfg, steps, s) && i < cfg.targets
    ensures |s.queue| <= 64 && |s.tasks| == cfg.targets
    ensures forall k :: 0 <= k < |Seqs(s.received, i)| ==> Seqs(s.received, i)[k] == k
    ensures s.receiverAlive ==>
              var all := Seqs(s.received + s.queue, i);
              |all| == s.tasks[i].seqNo && forall k :: 0 <= k < |all| ==> all[k] == k
  {
    Invariance(cfg, steps, s);
    assert TaskInv(cfg, s, i);
    forall k | 0 <= k < |Seqs(s.received, i)|
      ensures Seqs(s.received, i)[k] == k
    {
      RangeAt(|Seqs(s.received, i)|, k);
    }
    if s.receiverAlive {
      forall k | 0 <= k < s.tasks[i].seqNo
        ensures Seqs(s.received + s.queue, i)[k] == k
      {
        RangeAt(s.tasks[i].seqNo, k);
      }
    }
  }

  /**
   * While the receiver lives no finished probe is lost, cancelled or not: its result is in the channel, received, or
   * in the hands of a task that is still sending it and has not exited.
   */
  lemma NoCompletedProbeLost(cfg: Config, steps: seq<Step>, s: State, i: nat)
    requires Reaches(cfg, steps, s) && i < cfg.targets && s.receiverAlive
    ensures |s.tasks| == cfg.targets
    ensures s.tasks[i].completed == |Seqs(s.received + s.queue, i)| + if s.tasks[i].pc.Sending? then 1 else 0
    ensures s.tasks[i].pc.Exited? ==> s.tasks[i].completed == |Seqs(s.received + s.queue, i)|
  {
    Invariance(cfg, steps, s);
    assert TaskInv(cfg, s, i);
  }

  lemma {:induction false} SpacingAdds(starts: seq<nat>, interval: nat, j: nat, k: nat)
    requires Spaced(starts, interval) && j <= k < |starts|
    ensures starts[k] - starts[j] >= (k - j) * interval
    decreases k
  {
    if j < k {
      SpacingAdds(starts, interval, j, k - 1);
      assert (k - j) * interval == (k - 1 - j) * interval + interval;
    }
  }

  /** Consecutive probes of one target start at least one interval apart. */
  lemma StartsSpaced(cfg: Config, steps: seq<Step>, s: State, i: nat)
    requires Reaches(cfg, steps, s) && i < cfg.targets
    ensures |s.tasks| == cfg.targets
    ensures forall j, k :: 0 <= j < k < |s.tasks[i].starts| ==>
              s.tasks[i].starts[k] - s.tasks[i].starts[j] >= (k - j) * cfg.interval
  {
    Invariance(cfg, steps, s);
    assert TaskInv(cfg, s, i);
    forall j, k | 0 <= j < k < |s.tasks[i].starts|
      ensures s.tasks[i].starts[k] - s.tasks[i].starts[j] >= (k - j) * cfg.interval
    {
      SpacingAdds(s.tasks[i].starts, cfg.interval, j, k);
    }
  }

  /** Rounding down loses less than a nanosecond per target. */
  lemma OffsetRoundsDown(cfg: Config, i: nat)
    requires i < cfg.targets
    ensures Offset(cfg, i) * cfg.targets <= cfg.interval * i < (Offset(cfg, i) + 1) * cfg.targets
  {
    var x, n := cfg.interval * i, cfg.targets;
    assert x == n * (x / n) + x % n;
    assert (x / n + 1) * n == n * (x / n) + n;
  }

  /** The first probe of target i of n waits interval * i / n, to the nanosecond. */
  lemma FirstStartStaggered(cfg: Config, steps: seq<Step>, s: State, i: nat)
    requires Reaches(cfg, steps, s) && i < cfg.targets
    ensures |s.tasks| == cfg.targets
    ensures s.tasks[i].starts != [] ==> (s.tasks[i].starts[0] + 1) * cfg.targets > cfg.interval * i
  {
    hide Offset;
    Invariance(cfg, steps, s);
    assert TaskInv(cfg, s, i);
    if s.tasks[i].starts != [] {
      OffsetRoundsDown(cfg, i);
      TimesMonotone(Offset(cfg, i) + 1, s.tasks[i].starts[0] + 1, cfg.targets);
    }
  }

  /** A task polled first at time t is due no later than t plus interval * i / n, and less than a nanosecond earlier. */
  lemma FirstPollFixesStart(cfg: Config, s: State, i: nat)
    requires |s.tasks| == cfg.targets && Enabled(cfg, s, Begin(i))
    ensures var due := Apply(cfg, s, Begin(i)).tasks[i].nextStart;
            && s.now <= due
            && (due - s.now) * cfg.targets <= cfg.interval * i < (due - s.now + 1) * cfg.targets
  {
    hide Offset;
    OffsetRoundsDown(cfg, i);
    var due := Apply(cfg, s, Begin(i)).tasks[i].nextStart;
    assert due - s.now == Offset(cfg, i);
  }

  ghost predicate Due(cfg: Config, t: Task) {
    && (t.starts != [] ==> t.nextStart == t.starts[|t.starts| - 1] + cfg.interval)
    && (t.pc.Spawned? ==> t.starts == [])
  }

  lemma DueStep(cfg: Config, s: State, step: Step, i: nat)
    requires |s.tasks| == cfg.targets && Enabled(cfg, s, step) && i < cfg.targets && Due(cfg, s.tasks[i])
    ensures Due(cfg, Apply(cfg, s, step).tasks[i])
  {
    hide Offset;
  }

  /** Whenever a task has started a probe, it is due again exactly one interval after that start. */
  lemma {:induction false} DueAfterStart(cfg: Config, steps: seq<Step>, s: State, i: nat)
    requires Reaches(cfg, steps, s) && i < cfg.targets
    ensures |s.tasks| == cfg.targets
    ensures var t := s.tasks[i];
            && (t.starts != [] ==> t.nextStart == t.starts[|t.starts| - 1] + cfg.interval)
            && (t.pc.Spawned? ==> t.starts == [])
    decreases |steps|
  {
    hide Enabled, Apply;
    if steps != [] {
      var n := |steps| - 1;
      DueAfterStart(cfg, steps[..n], Run(cfg, steps[..n]).value, i);
      DueStep(cfg, Run(cfg, steps[..n]).value, steps[n], i);
    }
  }

  lemma CountedRunDeliversAll(cfg: Config, steps: seq<Step>, s: State, i: nat)
    requires Reaches(cfg, steps, s) && i < cfg.targets
    requires cfg.count.Some? && !s.cancelled && s.receiverAlive
    requires forall j :: 0 <= j < |s.tasks| ==> s.tasks[j].pc.Exited?
    ensures Seqs(s.received + s.queue, i) == Range(cfg.count.value)
    ensures |s.tasks| == cfg.targets && s.tasks[i].completed == cfg.count.value
  {
    Invariance(cfg, steps, s);
    assert TaskInv(cfg, s, i);
  }

  /** No run ever delivers more than the requested count. */
  lemma CountNeverExceeded(cfg: Config, steps: seq<Step>, s: State, i: nat)
    requires Reaches(cfg, steps, s) && i < cfg.targets && cfg.count.Some?
    ensures |Seqs(s.received, i)| <= cfg.count.value
  {
    Invariance(cfg, steps, s);
    assert TaskInv(cfg, s, i);
  }

  // ---------------------------------------------------------------------------
  // Progress
  // ---------------------------------------------------------------------------

  /** The next step of a task, once time has passed: none only for a task that exited or faces a full channel. */
  ghost function NextStep(s: State, i: nat): Step
    requires i < |s.tasks| && !s.tasks[i].pc.Exited?
  {
    match s.tasks[i].pc
    case Spawned => Begin(i)
    case CheckCount => Count(i)
    case Sleeping => Wake(i)
    case CheckPause => ReadPause(i)
    case PausePoll(_) => PollAgain(i)
    case Probing => Complete(i)
    case Sending => if s.receiverAlive then Send(i) else StopOrphaned(i)
  }

  /**
   * The system never wedges: after some wait every unfinished task can take its next step, unless it is blocked on a
   * full channel, and then the consumer can receive.
   */
  lemma NeverWedged(cfg: Config, steps: seq<Step>, s: State, i: nat)
    requires Reaches(cfg, steps, s) && i < cfg.targets
    ensures |s.tasks| == cfg.targets
    ensures !s.tasks[i].pc.Exited? ==>
              || (exists dt: nat :: Enabled(cfg, Apply(cfg, s, Tick(dt)), NextStep(s, i)))
              || (s.tasks[i].pc.Sending? && |s.queue| == CHANNEL_CAPACITY && Enabled(cfg, s, Receive))
  {
    hide Reaches, TaskInv;
    Invariance(cfg, steps, s);
    if !s.tasks[i].pc.Exited? {
      var dt := s.tasks[i].nextStart + if s.tasks[i].pc.PausePoll? then s.tasks[i].pc.until else 0;
      assert (s.tasks[i].pc.Sending? && s.receiverAlive && |s.queue| == CHANNEL_CAPACITY)
             || Enabled(cfg, Apply(cfg, s, Tick(dt)), NextStep(s, i));
    }
  }

  /** A task within the count, and short of it unless about to check. */
  ghost predicate Owes(cfg: Config, t: Task) {
    && cfg.count.Some?
    && t.seqNo <= cfg.count.value
    && (!t.pc.Exited? && !t.pc.CheckCount? && !t.pc.Spawned? ==> t.seqNo < cfg.count.value)
  }

  /** Steps a task still owes in a counted run; polling the pause flag does not use any up. */
  ghost function Owed(cfg: Config, t: Task): nat
    requires Owes(cfg, t)
  {
    var left := cfg.count.value - t.seqNo;
    match t.pc
    case Spawned => 5 * left + 2
    case CheckCount => 5 * left + 1
    case Sleeping => 5 * left
    case CheckPause => 5 * left - 1
    case PausePoll(_) => 5 * left - 1
    case Probing => 5 * left - 2
    case Sending => 5 * left - 3
    case Exited => 0
  }

  lemma InvAt(cfg: Config, s: State, i: nat)
    requires Inv(cfg, s) && i < cfg.targets
    ensures |s.tasks| == cfg.targets && TaskInv(cfg, s, i)
    ensures cfg.count.Some? ==> Owes(cfg, s.tasks[i])
  {}

  /** Everything the tasks up to n still owe. */
  ghost function TotalOwed(cfg: Config, s: State, n: nat): nat
    requires cfg.count.Some? && Inv(cfg, s) && n <= cfg.targets
  {
    if n == 0 then 0
    else
      InvAt(cfg, s, n - 1);
      TotalOwed(cfg, s, n - 1) + Owed(cfg, s.tasks[n - 1])
  }

  predicate IsTaskWork(s: State, step: Step) {
    match step
    case Tick(_) => false
    case SetPaused(_) => false
    case Cancel => false
    case Receive => false
    case DropReceiver => false
    case PollAgain(_) => false
    case ReadPause(_) => !s.paused
    case _ => true
  }

  lemma OwedOwnStep(cfg: Config, s: State, step: Step)
    requires |s.tasks| == cfg.targets && Enabled(cfg, s, step) && ByTask(step)
    requires Owes(cfg, s.tasks[step.i]) && Owes(cfg, Apply(cfg, s, step).tasks[step.i])
    ensures Owed(cfg, Apply(cfg, s, step).tasks[step.i]) + (if IsTaskWork(s, step) then 1 else 0)
            <= Owed(cfg, s.tasks[step.i])
  {
    hide Offset;
  }

  lemma OwedStep(cfg: Config, s: State, step: Step, i: nat)
    requires cfg.count.Some? && Inv(cfg, s) && Enabled(cfg, s, step) && i < cfg.targets
    ensures Inv(cfg, Apply(cfg, s, step))
    ensures var s' := Apply(cfg, s, step);
            && TaskInv(cfg, s, i) && TaskInv(cfg, s', i)
            && Owed(cfg, s'.tasks[i]) + (if IsTaskWork(s, step) && step.i == i then 1 else 0) <= Owed(cfg, s.tasks[i])
  {
    hide Inv, TaskInv, Owed;
    StepInv(cfg, s, step);
    InvAt(cfg, s, i);
    InvAt(cfg, Apply(cfg, s, step), i);
    if ByTask(step) && step.i == i {
      OwedOwnStep(cfg, s, step);
    }
  }

  /** In a counted run every working step of a task pays off one owed step and no other step adds any. */
  lemma {:induction false} WorkIsPaidOff(cfg: Config, s: State, step: Step, n: nat)
    requires cfg.count.Some? && Inv(cfg, s) && Enabled(cfg, s, step) && n <= cfg.targets
    ensures Inv(cfg, Apply(cfg, s, step))
    ensures var s' := Apply(cfg, s, step);
            TotalOwed(cfg, s', n) + (if IsTaskWork(s, step) && step.i < n then 1 else 0) <= TotalOwed(cfg, s, n)
    decreases n
  {
    hide TaskInv, Owed, Enabled, Apply;
    StepInv(cfg, s, step);
    if n > 0 {
      WorkIsPaidOff(cfg, s, step, n - 1);
      OwedStep(cfg, s, step, n - 1);
    }
  }

  /** How many steps of a schedule are task work. */
  ghost function Work(cfg: Config, steps: seq<Step>): nat
    requires Run(cfg, steps).Some?
  {
    if steps == [] then 0
    else
      var n := |steps| - 1;
      Work(cfg, steps[..n]) + if IsTaskWork(Run(cfg, steps[..n]).value, steps[n]) then 1 else 0
  }

  lemma {:induction false} InitOwed(cfg: Config, n: nat)
    requires cfg.count.Some? && n <= cfg.targets && Inv(cfg, Init(cfg))
    ensures TotalOwed(cfg, Init(cfg), n) == n * (5 * cfg.count.value + 2)
  {
    if n > 0 {
      InitOwed(cfg, n - 1);
      assert n * (5 * cfg.count.value + 2) == (n - 1) * (5 * cfg.count.value + 2) + (5 * cfg.count.value + 2);
    }
  }

  lemma {:induction false} WorkAccounted(cfg: Config, steps: seq<Step>, s: State)
    requires cfg.count.Some? && Reaches(cfg, steps, s)
    ensures Inv(cfg, s) && Inv(cfg, Init(cfg))
    ensures Work(cfg, steps) + TotalOwed(cfg, s, cfg.targets) <= TotalOwed(cfg, Init(cfg), cfg.targets)
    decreases |steps|
  {
    InitInv(cfg);
    if steps != [] {
      var n := |steps| - 1;
      var p := Run(cfg, steps[..n]).value;
      WorkAccounted(cfg, steps[..n], p);
      WorkIsPaidOff(cfg, p, steps[n], cfg.targets);
      if IsTaskWork(p, steps[n]) {
        assert steps[n].i < cfg.targets;
      }
    }
  }

  /** A counted run does at most 5n + 2 working steps per target, in any interleaving. */
  lemma WorkBound(cfg: Config, steps: seq<Step>)
    requires cfg.count.Some? && Run(cfg, steps).Some?
    ensures Work(cfg, steps) <= cfg.targets * (5 * cfg.count.value + 2)
  {
    WorkAccounted(cfg, steps, Run(cfg, steps).value);
    InitInv(cfg);
    InitOwed(cfg, cfg.targets);
  }

  // ---------------------------------------------------------------------------
  // Every counted run can still be finished
  // ---------------------------------------------------------------------------

  /** The circumstances in which a counted run delivers everything. */
  ghost predicate Undisturbed(s: State) { !s.cancelled && s.receiverAlive }

  lemma Extend(cfg: Config, steps: seq<Step>, s: State, step: Step)
    requires Reaches(cfg, steps, s) && |s.tasks| == cfg.targets && Enabled(cfg, s, step)
    ensures Reaches(cfg, steps + [step], Apply(cfg, s, step))
  {
    hide Enabled, Apply;
    assert (steps + [step])[..|steps|] == steps;
  }

  /** One more step that is no task work: the time passes, the pause ends, the consumer receives. */
  lemma Ease(cfg: Config, steps: seq<Step>, s: State, step: Step)
    requires Reaches(cfg, steps, s) && cfg.count.Some? && Undisturbed(s) && Inv(cfg, s)
    requires step.Tick? || step.SetPaused? || (step.Receive? && s.queue != []) || step.PollAgain?
    requires Enabled(cfg, s, step)
    ensures var s' := Apply(cfg, s, step);
            && Reaches(cfg, steps + [step], s') && Inv(cfg, s') && Undisturbed(s')
            && TotalOwed(cfg, s', cfg.targets) <= TotalOwed(cfg, s, cfg.targets)
  {
    hide Reaches, TaskInv, TotalOwed;
    Extend(cfg, steps, s, step);
    WorkIsPaidOff(cfg, s, step, cfg.targets);
  }

  /** Room in the channel, no pause, and time enough for task i: then its next step is enabled. */
  lemma MakeReady(cfg: Config, steps: seq<Step>, s: State, i: nat) returns (more: seq<Step>, s': State)
    requires Reaches(cfg, steps, s) && cfg.count.Some? && Undisturbed(s) && Inv(cfg, s)
    requires i < cfg.targets && !s.tasks[i].pc.Exited?
    ensures Reaches(cfg, steps + more, s') && Inv(cfg, s') && Undisturbed(s') && !s'.paused
    ensures TotalOwed(cfg, s', cfg.targets) <= TotalOwed(cfg, s, cfg.targets)
    ensures s'.tasks == s.tasks && Enabled(cfg, s', NextStep(s', i))
  {
    hide Reaches, TaskInv, TotalOwed;
    Ease(cfg, steps, s, SetPaused(false));
    more, s' := [SetPaused(false)], Apply(cfg, s, SetPaused(false));
    var dt := s.tasks[i].nextStart + if s.tasks[i].pc.PausePoll? then s.tasks[i].pc.until else 0;
    Ease(cfg, steps + more, s', Tick(dt));
    assert steps + (more + [Tick(dt)]) == steps + more + [Tick(dt)];
    more, s' := more + [Tick(dt)], Apply(cfg, s', Tick(dt));
    if |s'.queue| == CHANNEL_CAPACITY {
      Ease(cfg, steps + more, s', Receive);
      assert steps + (more + [Receive]) == steps + more + [Receive];
      more, s' := more + [Receive], Apply(cfg, s', Receive);
    }
  }

  /** An unfinished task can always be brought one working step further. */
  lemma Advance(cfg: Config, steps: seq<Step>, s: State, i: nat) returns (more: seq<Step>, s': State)
    requires Reaches(cfg, steps, s) && cfg.count.Some? && Undisturbed(s) && Inv(cfg, s)
    requires i < cfg.targets && !s.tasks[i].pc.Exited?
    ensures Reaches(cfg, steps + more, s') && Inv(cfg, s') && Undisturbed(s')
    ensures TotalOwed(cfg, s', cfg.targets) < TotalOwed(cfg, s, cfg.targets)
  {
    hide Reaches, TaskInv, TotalOwed;
    more, s' := MakeReady(cfg, steps, s, i);
    if s'.tasks[i].pc.PausePoll? {
      Ease(cfg, steps + more, s', PollAgain(i));
      assert steps + (more + [PollAgain(i)]) == steps + more + [PollAgain(i)];
      more, s' := more + [PollAgain(i)], Apply(cfg, s', PollAgain(i));
    }
    var step := NextStep(s', i);
    Extend(cfg, steps + more, s', step);
    WorkIsPaidOff(cfg, s', step, cfg.targets);
    assert steps + (more + [step]) == steps + more + [step];
    more, s' := more + [step], Apply(cfg, s', step);
  }

  ghost predicate AllExited(s: State) {
    forall i :: 0 <= i < |s.tasks| ==> s.tasks[i].pc.Exited?
  }

  lemma {:induction false} FinishTasks(cfg: Config, steps: seq<Step>, s: State) returns (more: seq<Step>, s': State)
    requires Reaches(cfg, steps, s) && cfg.count.Some? && Undisturbed(s) && Inv(cfg, s)
    ensures Reaches(cfg, steps + more, s') && Undisturbed(s') && Inv(cfg, s') && AllExited(s')
    decreases TotalOwed(cfg, s, cfg.targets)
  {
    hide Reaches, TaskInv, TotalOwed;
    if AllExited(s) {
      assert steps + [] == steps;
      more, s' := [], s;
    } else {
      var i :| 0 <= i < |s.tasks| && !s.tasks[i].pc.Exited?;
      var first, s1 := Advance(cfg, steps, s, i);
      var rest;
      rest, s' := FinishTasks(cfg, steps + first, s1);
      assert steps + (first + rest) == steps + first + rest;
      more := first + rest;
    }
  }

  lemma {:induction false} DrainQueue(cfg: Config, steps: seq<Step>, s: State) returns (more: seq<Step>, s': State)
    requires Reaches(cfg, steps, s) && cfg.count.Some? && Undisturbed(s) && Inv(cfg, s) && AllExited(s)
    ensures Reaches(cfg, steps + more, s') && Undisturbed(s') && AllExited(s') && s'.queue == []
    decreases |s.queue|
  {
    hide Reaches, TaskInv, TotalOwed;
    if s.queue == [] {
      assert steps + [] == steps;
      more, s' := [], s;
    } else {
      Ease(cfg, steps, s, Receive);
      var rest;
      rest, s' := DrainQueue(cfg, steps + [Receive], Apply(cfg, s, Receive));
      assert steps + ([Receive] + rest) == steps + [Receive] + rest;
      more := [Receive] + rest;
    }
  }

  /** After this schedule every task has exited and exactly 0 .. n-1 was received from each. */
  ghost predicate Finishes(cfg: Config, steps: seq<Step>, n: nat) {
    && Run(cfg, steps).Some?
    && AllExited(Run(cfg, steps).value)
    && forall i :: 0 <= i < cfg.targets ==> Seqs(Run(cfg, steps).value.received, i) == Range(n)
  }

  /**
   * From every reachable state of a counted run that was not cancelled and still has its receiver, whatever pauses and
   * interleavings came before, some continuation ends every task with everything delivered.
   */
  lemma CountedRunCanFinish(cfg: Config, steps: seq<Step>, s: State)
    requires Reaches(cfg, steps, s) && cfg.count.Some? && Undisturbed(s)
    ensures exists more: seq<Step> :: Finishes(cfg, steps + more, cfg.count.value)
  {
    hide Inv, Range, Seqs;
    Invariance(cfg, steps, s);
    var more, s1 := FinishTasks(cfg, steps, s);
    var rest, s2 := DrainQueue(cfg, steps + more, s1);
    assert steps + (more + rest) == steps + more + rest;
    forall i | 0 <= i < cfg.targets
      ensures Seqs(s2.received, i) == Range(cfg.count.value)
    {
      CountedRunDeliversAll(cfg, steps + (more + rest), s2, i);
      assert s2.received + s2.queue == s2.received;
    }
    assert Finishes(cfg, steps + (more + rest), cfg.count.value);
  }

  // ---------------------------------------------------------------------------
  // Cancel and pause
  // ---------------------------------------------------------------------------

  /** What ends an unfinished task soonest once cancel is set. */
  ghost function ClosingStep(s: State, i: nat): Step
    requires i < |s.tasks| && !s.tasks[i].pc.Exited?
  {
    if s.tasks[i].pc.Sleeping? || s.tasks[i].pc.Probing? || s.tasks[i].pc.PausePoll? then StopCancelled(i)
    else NextStep(s, i)
  }

  ghost predicate HeldBack(s: State, i: nat)
    requires i < |s.tasks|
  {
    s.tasks[i].pc.Sending? && s.receiverAlive && |s.queue| == CHANNEL_CAPACITY
  }

  /** After cancel nothing but a full channel with a live receiver can hold an unfinished task back. */
  lemma OnlyFullChannelHoldsBack(cfg: Config, steps: seq<Step>, s: State, i: nat)
    requires Reaches(cfg, steps, s) && s.cancelled && i < |s.tasks| && !s.tasks[i].pc.Exited?
    ensures Enabled(cfg, s, ClosingStep(s, i)) <==> !HeldBack(s, i)
  {
    hide Reaches, TaskInv;
    Invariance(cfg, steps, s);
  }

  /** Steps a task still needs to close. */
  ghost function ToClose(t: Task): nat {
    match t.pc
    case Spawned => 3
    case Sending => 3
    case CheckCount => 2
    case CheckPause => 2
    case Sleeping => 1
    case PausePoll(_) => 1
    case Probing => 1
    case Exited => 0
  }

  ghost function AllToClose(tasks: seq<Task>): nat {
    if tasks == [] then 0 else AllToClose(tasks[..|tasks| - 1]) + ToClose(tasks[|tasks| - 1])
  }

  lemma {:induction false} CloseOne(tasks: seq<Task>, i: nat, t: Task)
    requires i < |tasks|
    ensures AllToClose(tasks[i := t]) == AllToClose(tasks) - ToClose(tasks[i]) + ToClose(t)
  {
    hide ToClose;
    var n := |tasks| - 1;
    if i < n {
      CloseOne(tasks[..n], i, t);
      assert tasks[i := t][..n] == tasks[..n][i := t];
    } else {
      assert tasks[i := t][..n] == tasks[..n];
    }
  }

  lemma ClosingStepCloses(cfg: Config, s: State, i: nat)
    requires |s.tasks| == cfg.targets && s.cancelled && i < |s.tasks| && !s.tasks[i].pc.Exited?
    requires Enabled(cfg, s, ClosingStep(s, i))
    ensures var s' := Apply(cfg, s, ClosingStep(s, i));
            && s'.cancelled && s'.now == s.now && AllToClose(s'.tasks) < AllToClose(s.tasks)
  {
    hide AllToClose, Offset;
    var s' := Apply(cfg, s, ClosingStep(s, i));
    assert s'.tasks == s.tasks[i := s'.tasks[i]];
    CloseOne(s.tasks, i, s'.tasks[i]);
  }

  /** One task brought nearer its end in no time, after the consumer made room if that is what it waits for. */
  lemma CloseFurther(cfg: Config, steps: seq<Step>, s: State, i: nat) returns (more: seq<Step>, s': State)
    requires Reaches(cfg, steps, s) && s.cancelled && i < |s.tasks| && !s.tasks[i].pc.Exited?
    ensures Reaches(cfg, steps + more, s') && s'.cancelled && s'.now == s.now
    ensures AllToClose(s'.tasks) < AllToClose(s.tasks)
  {
    hide Reaches, TaskInv, AllToClose;
    Invariance(cfg, steps, s);
    more, s' := [], s;
    assert steps + [] == steps;
    if HeldBack(s, i) {
      Extend(cfg, steps, s, Receive);
      more, s' := [Receive], Apply(cfg, s, Receive);
    }
    var step := ClosingStep(s', i);
    OnlyFullChannelHoldsBack(cfg, steps + more, s', i);
    Extend(cfg, steps + more, s', step);
    ClosingStepCloses(cfg, s', i);
    assert steps + (more + [step]) == steps + more + [step];
    more, s' := more + [step], Apply(cfg, s', step);
  }

  lemma {:induction false} CloseAll(cfg: Config, steps: seq<Step>, s: State) returns (more: seq<Step>, s': State)
    requires Reaches(cfg, steps, s) && s.cancelled
    ensures Reaches(cfg, steps + more, s') && AllExited(s') && s'.now == s.now
    decreases AllToClose(s.tasks)
  {
    hide Reaches, AllToClose;
    if AllExited(s) {
      assert steps + [] == steps;
      more, s' := [], s;
    } else {
      var i :| 0 <= i < |s.tasks| && !s.tasks[i].pc.Exited?;
      var first, s1 := CloseFurther(cfg, steps, s, i);
      var rest;
      rest, s' := CloseAll(cfg, steps + first, s1);
      assert steps + (first + rest) == steps + first + rest;
      more := first + rest;
    }
  }

  /** After this schedule every task has exited and the clock shows `now`. */
  ghost predicate Ends(cfg: Config, steps: seq<Step>, now: nat) {
    Run(cfg, steps).Some? && AllExited(Run(cfg, steps).value) && Run(cfg, steps).value.now == now
  }

  /**
   * Cancel ends everything: from every reachable cancelled state, counted run or endless, paused or not, receiver alive
   * or not, some continuation ends every task without any time passing.
   */
  lemma CancelledRunCanEnd(cfg: Config, steps: seq<Step>, s: State)
    requires Reaches(cfg, steps, s) && s.cancelled
    ensures exists more: seq<Step> :: Ends(cfg, steps + more, s.now)
  {
    var more, s' := CloseAll(cfg, steps, s);
    assert Ends(cfg, steps + more, s.now);
  }

  lemma PausedStep(cfg: Config, s: State, step: Step, i: nat)
    requires |s.tasks| == cfg.targets && Enabled(cfg, s, step) && s.paused && step != SetPaused(false) && i < cfg.targets
    ensures var s' := Apply(cfg, s, step); s'.paused && s'.tasks[i].starts == s.tasks[i].starts
  {
    hide Offset;
  }

  /** Between a pause and the next resume no probe of any target starts, whatever else happens. */
  lemma {:induction false} PausedStartsNothing(cfg: Config, steps: seq<Step>, more: seq<Step>, s: State, s': State, i: nat)
    requires Reaches(cfg, steps, s) && s.paused && i < cfg.targets
    requires Reaches(cfg, steps + more, s') && SetPaused(false) !in more
    ensures |s.tasks| == |s'.tasks| == cfg.targets
    ensures s'.paused && s'.tasks[i].starts == s.tasks[i].starts
    decreases |more|
  {
    hide Enabled, Apply;
    if more == [] {
      assert steps + more == steps;
    } else {
      var n := |more| - 1;
      assert (steps + more)[..|steps| + n] == steps + more[..n];
      var p := Run(cfg, steps + more[..n]).value;
      PausedStartsNothing(cfg, steps, more[..n], s, p, i);
      assert more[n] in more;
      PausedStep(cfg, p, more[n], i);
    }
  }

  /** Task i waits out the poll interval that began at `since`, has waited, or has ended. */
  ghost predicate WaitsFrom(s: State, i: nat, since: nat)
    requires i < |s.tasks|
  {
    s.tasks[i].pc == PausePoll(since + 100_000_000) || s.tasks[i].pc.Exited? || s.now >= since + 100_000_000
  }

  lemma WaitStep(cfg: Config, s: State, step: Step, i: nat, since: nat)
    requires |s.tasks| == cfg.targets && Enabled(cfg, s, step) && i < cfg.targets && WaitsFrom(s, i, since)
    ensures WaitsFrom(Apply(cfg, s, step), i, since)
  {
    hide Offset;
  }

  lemma PauseBegins(cfg: Config, s: State, i: nat)
    requires |s.tasks| == cfg.targets && s.paused && Enabled(cfg, s, ReadPause(i))
    ensures Apply(cfg, s, ReadPause(i)).tasks[i].pc == PausePoll(s.now + 100_000_000)
  {}

  /** A task that finds the flag set reads it again no earlier than 100 ms later. */
  lemma {:induction false} PausedTaskWaits(cfg: Config, steps: seq<Step>, more: seq<Step>, s: State, s': State, i: nat)
    requires Reaches(cfg, steps, s) && |s.tasks| == cfg.targets && s.paused && Enabled(cfg, s, ReadPause(i))
    requires Reaches(cfg, steps + [ReadPause(i)] + more, s') && i < |s'.tasks|
    ensures s'.tasks[i].pc.CheckPause? ==> s'.now >= s.now + 100_000_000
    ensures WaitsFrom(s', i, s.now)
    decreases |more|
  {
    hide Enabled, Apply;
    var first := steps + [ReadPause(i)];
    if more == [] {
      assert first + more == first;
      Extend(cfg, steps, s, ReadPause(i));
      PauseBegins(cfg, s, i);
    } else {
      var n := |more| - 1;
      assert (first + more)[..|first| + n] == first + more[..n];
      var p := Run(cfg, first + more[..n]).value;
      PausedTaskWaits(cfg, steps, more[..n], s, p, i);
      WaitStep(cfg, p, more[n], i, s.now);
    }
  }
}
