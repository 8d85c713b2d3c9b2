/**
 * The bounded worker pool and report of src/cert_check.rs. Which running check finishes next, and with what result,
 * is arbitrary.
 */
module CertCheck {
  import opened Wrappers
  import opened Sorting
  import opened Decimal
  import Lexical

  const MAX_CONCURRENCY: nat := 16

  datatype Target = Host(host: string, port: nat) | Invalid(spec: string, reason: string)

  datatype Endpoint = Endpoint(host: string, port: nat)

  datatype LeafSummary = LeafSummary(daysRemaining: int, notAfter: string, issuer: string, subject: string)

  datatype CheckRow = CheckRow(display: string, host: string, port: nat, outcome: Result<LeafSummary, string>)

  /** IPv6 literals get brackets. */
  function DisplayTarget(e: Endpoint): string {
    if ':' in e.host then "[" + e.host + "]:" + Digits(e.port) else e.host + ":" + Digits(e.port)
  }

  function RowFor(e: Endpoint, outcome: Result<LeafSummary, string>): CheckRow {
    CheckRow(DisplayTarget(e), e.host, e.port, outcome)
  }

  ghost function Queue(parsed: seq<Target>): seq<Endpoint> {
    if parsed == [] then []
    else
      var n := |parsed| - 1;
      Queue(parsed[..n]) + if parsed[n].Host? then [Endpoint(parsed[n].host, parsed[n].port)] else []
  }

  ghost function InvalidRows(parsed: seq<Target>): seq<CheckRow> {
    if parsed == [] then []
    else
      var n := |parsed| - 1;
      InvalidRows(parsed[..n])
      + if parsed[n].Invalid? then [CheckRow(parsed[n].spec, parsed[n].spec, 0, Err(parsed[n].reason))] else []
  }

  // ---------------------------------------------------------------------------
  // The pool
  // ---------------------------------------------------------------------------

  /** `running` are the live task ids, `inflight` what each was started for; ids count up from zero. */
  datatype Pool = Pool(pending: seq<Endpoint>, running: set<nat>, inflight: map<nat, Endpoint>, nextId: nat,
                       rows: seq<CheckRow>)

  /** Starts the next pending check, if there is one. */
  function Refill(p: Pool): Pool {
    if p.pending == [] then p
    else p.(pending := p.pending[1..], running := p.running + {p.nextId},
            inflight := p.inflight[p.nextId := p.pending[0]], nextId := p.nextId + 1)
  }

  ghost function Fill(p: Pool, n: nat): Pool
    decreases n
  {
    if n == 0 then p else Fill(Refill(p), n - 1)
  }

  /** The row of a finished task; a task missing from the map would be reported as "unknown". */
  function Report(p: Pool, id: nat, outcome: Result<LeafSummary, string>): CheckRow {
    RowFor(if id in p.inflight then p.inflight[id] else Endpoint("unknown", 0), outcome)
  }

  /** A task ends: its row is pushed and its slot refilled. */
  function Finish(p: Pool, id: nat, outcome: Result<LeafSummary, string>): Pool {
    Refill(p.(running := p.running - {id}, inflight := p.inflight - {id}, rows := p.rows + [Report(p, id, outcome)]))
  }

  ghost function Start(queue: seq<Endpoint>, rows: seq<CheckRow>): Pool {
    Fill(Pool(queue, {}, map[], 0, rows), MAX_CONCURRENCY)
  }

  /** One completion: which running task ended and what it returned. */
  datatype Completion = Completion(id: nat, outcome: Result<LeafSummary, string>)

  ghost function Run(queue: seq<Endpoint>, rows: seq<CheckRow>, order: seq<Completion>): Option<Pool> {
    if order == [] then Some(Start(queue, rows))
    else
      var n := |order| - 1;
      var p := Run(queue, rows, order[..n]);
      if p.Some? && order[n].id in p.value.running then Some(Finish(p.value, order[n].id, order[n].outcome)) else None
  }

  /** The pool after `done` completions. */
  ghost predicate PoolInv(queue: seq<Endpoint>, done: nat, p: Pool) {
    && p.nextId <= |queue|
    && p.pending == queue[p.nextId..]
    && p.running == p.inflight.Keys
    && (forall id :: id in p.inflight ==> id < p.nextId && p.inflight[id] == queue[id])
    && |p.running| <= MAX_CONCURRENCY
    && (p.pending != [] ==> |p.running| == MAX_CONCURRENCY)
    && done + |p.running| == p.nextId
  }

  /** Bookkeeping that holds even between a completion and the refill. */
  ghost predicate Consistent(queue: seq<Endpoint>, done: nat, p: Pool) {
    && p.nextId <= |queue|
    && p.pending == queue[p.nextId..]
    && p.running == p.inflight.Keys
    && (forall id :: id in p.inflight ==> id < p.nextId && p.inflight[id] == queue[id])
    && done + |p.running| == p.nextId
  }

  lemma RefillConsistent(queue: seq<Endpoint>, done: nat, p: Pool)
    requires Consistent(queue, done, p)
    ensures Consistent(queue, done, Refill(p))
    ensures p.pending != [] ==> |Refill(p).running| == |p.running| + 1
    ensures Refill(p).rows == p.rows
  {
    if p.pending != [] {
      assert p.nextId !in p.inflight.Keys;
      assert Refill(p).inflight.Keys == p.inflight.Keys + {p.nextId};
    }
  }

  ghost function Below(n: nat): (s: set<nat>)
    ensures forall x: nat :: x in s <==> x < n
  {
    if n == 0 then {} else Below(n - 1) + {n - 1}
  }

  lemma RefillRunning(p: Pool)
    requires p.running == Below(p.nextId)
    ensures Refill(p).running == Below(Refill(p).nextId)
    ensures p.pending == [] ==> Refill(p) == p
  {}

  /** The initial fill leaves the pool full or the queue empty. */
  lemma {:induction false} FillInv(queue: seq<Endpoint>, p: Pool, n: nat)
    requires Consistent(queue, 0, p)
    requires |p.running| + n <= MAX_CONCURRENCY
    requires p.pending == [] || |p.running| + n == MAX_CONCURRENCY
    requires p.running == Below(p.nextId)
    ensures Fill(p, n).running == Below(Fill(p, n).nextId)
    ensures PoolInv(queue, 0, Fill(p, n)) && Fill(p, n).rows == p.rows
    decreases n
  {
    hide Refill, Below;
    if n > 0 {
      RefillConsistent(queue, 0, p);
      RefillRunning(p);
      FillInv(queue, Refill(p), n - 1);
    }
  }

  lemma StartInv(queue: seq<Endpoint>, rows: seq<CheckRow>)
    ensures PoolInv(queue, 0, Start(queue, rows)) && Start(queue, rows).rows == rows
    ensures Start(queue, rows).running == Below(Start(queue, rows).nextId)
  {
    FillInv(queue, Pool(queue, {}, map[], 0, rows), MAX_CONCURRENCY);
  }

  /** A completion keeps the pool full while work is pending; the finished task was always known. */
  lemma FinishInv(queue: seq<Endpoint>, done: nat, p: Pool, id: nat, outcome: Result<LeafSummary, string>)
    requires PoolInv(queue, done, p) && id in p.running
    ensures id in p.inflight && p.inflight[id] == queue[id]
    ensures PoolInv(queue, done + 1, Finish(p, id, outcome))
    ensures Finish(p, id, outcome).rows == p.rows + [RowFor(queue[id], outcome)]
  {
    var freed := p.(running := p.running - {id}, inflight := p.inflight - {id}, rows := p.rows + [Report(p, id, outcome)]);
    assert freed.running == freed.inflight.Keys;
    assert |freed.running| == |p.running| - 1;
    RefillConsistent(queue, done + 1, freed);
  }

  /** In every completion order at most 16 checks run, pending work keeps all 16 slots busy, no task is unknown. */
  lemma {:induction false} EveryOrderSafe(queue: seq<Endpoint>, rows: seq<CheckRow>, order: seq<Completion>)
    requires Run(queue, rows, order).Some?
    ensures PoolInv(queue, |order|, Run(queue, rows, order).value)
    decreases |order|
  {
    hide Finish, Start, PoolInv;
    if order == [] {
      StartInv(queue, rows);
    } else {
      var n := |order| - 1;
      EveryOrderSafe(queue, rows, order[..n]);
      FinishInv(queue, n, Run(queue, rows, order[..n]).value, order[n].id, order[n].outcome);
    }
  }

  /** The same in plain numbers: nothing is dropped, and the pool drains exactly when every check has completed. */
  lemma PoolBound(queue: seq<Endpoint>, rows: seq<CheckRow>, order: seq<Completion>)
    requires Run(queue, rows, order).Some?
    ensures var p := Run(queue, rows, order).value;
            && |p.running| <= 16
            && (p.pending != [] ==> |p.running| == 16)
            && (forall id :: id in p.running ==> id in p.inflight)
            && |order| + |p.running| + |p.pending| == |queue|
            && (p.running == {} <==> |order| == |queue|)
  {
    hide Run;
    EveryOrderSafe(queue, rows, order);
  }

  // ---------------------------------------------------------------------------
  // All rows, once each
  // ---------------------------------------------------------------------------

  /** The rows of a set of task ids. */
  ghost function RowsOf(ids: set<nat>, f: nat -> CheckRow): multiset<CheckRow> {
    if ids == {} then multiset{}
    else
      var id :| id in ids;
      multiset{f(id)} + RowsOf(ids - {id}, f)
  }

  lemma {:induction false} RowsOfRemove(ids: set<nat>, f: nat -> CheckRow, id: nat)
    requires id in ids
    ensures RowsOf(ids, f) == multiset{f(id)} + RowsOf(ids - {id}, f)
    decreases |ids|
  {
    var j :| j in ids && RowsOf(ids, f) == multiset{f(j)} + RowsOf(ids - {j}, f);
    if j != id {
      RowsOfRemove(ids - {j}, f, id);
      RowsOfRemove(ids - {id}, f, j);
      assert ids - {j} - {id} == ids - {id} - {j};
    }
  }

  lemma RowsOfAdd(ids: set<nat>, f: nat -> CheckRow, id: nat)
    requires id !in ids
    ensures RowsOf(ids + {id}, f) == RowsOf(ids, f) + multiset{f(id)}
  {
    RowsOfRemove(ids + {id}, f, id);
    assert ids + {id} - {id} == ids;
  }

  /** One row per queued endpoint, in queue order. */
  ghost function HostRows(queue: seq<Endpoint>, n: nat, outcome: nat -> Result<LeafSummary, string>): seq<CheckRow>
    requires n <= |queue|
  {
    if n == 0 then [] else HostRows(queue, n - 1, outcome) + [RowFor(queue[n - 1], outcome(n - 1))]
  }

  ghost function TaskRow(queue: seq<Endpoint>, outcome: nat -> Result<LeafSummary, string>): nat -> CheckRow {
    (id: nat) => if id < |queue| then RowFor(queue[id], outcome(id)) else RowFor(Endpoint("unknown", 0), outcome(id))
  }

  lemma NoRows(f: nat -> CheckRow)
    ensures RowsOf({}, f) == multiset{}
  {}

  lemma {:induction false} HostRowsAreAllTasks(queue: seq<Endpoint>, n: nat, outcome: nat -> Result<LeafSummary, string>)
    requires n <= |queue|
    ensures multiset(HostRows(queue, n, outcome)) == RowsOf(Below(n), TaskRow(queue, outcome))
  {
    hide RowFor, RowsOf;
    if n == 0 {
      NoRows(TaskRow(queue, outcome));
    } else {
      HostRowsAreAllTasks(queue, n - 1, outcome);
      RowsOfAdd(Below(n - 1), TaskRow(queue, outcome), n - 1);
    }
  }

  /** The ids already reported. */
  ghost function DoneIds(p: Pool): set<nat> { Below(p.nextId) - p.running }

  /** The rows pushed so far are the initial ones and one for each finished task. */
  ghost predicate Reported(queue: seq<Endpoint>, initial: seq<CheckRow>, outcome: nat -> Result<LeafSummary, string>,
                           p: Pool)
  {
    multiset(p.rows) == multiset(initial) + RowsOf(DoneIds(p), TaskRow(queue, outcome))
  }

  lemma StartReported(queue: seq<Endpoint>, initial: seq<CheckRow>, outcome: nat -> Result<LeafSummary, string>)
    ensures Reported(queue, initial, outcome, Start(queue, initial))
  {
    hide Start, TaskRow;
    StartInv(queue, initial);
    assert DoneIds(Start(queue, initial)) == {};
  }

  lemma FinishDone(queue: seq<Endpoint>, done: nat, p: Pool, id: nat, result: Result<LeafSummary, string>)
    requires PoolInv(queue, done, p) && id in p.running
    ensures id !in DoneIds(p) && DoneIds(Finish(p, id, result)) == DoneIds(p) + {id}
  {
    hide Report;
    var q := Finish(p, id, result);
    if p.pending != [] {
      assert q.running == p.running - {id} + {p.nextId};
    } else {
      assert q.running == p.running - {id};
    }
  }

  lemma FinishReported(queue: seq<Endpoint>, initial: seq<CheckRow>, done: nat, p: Pool, id: nat,
                       outcome: nat -> Result<LeafSummary, string>)
    requires PoolInv(queue, done, p) && id in p.running && Reported(queue, initial, outcome, p)
    ensures Reported(queue, initial, outcome, Finish(p, id, outcome(id)))
  {
    hide RowFor, RowsOf, Finish, DoneIds;
    FinishInv(queue, done, p, id, outcome(id));
    FinishDone(queue, done, p, id, outcome(id));
    RowsOfAdd(DoneIds(p), TaskRow(queue, outcome), id);
  }

  lemma DrainedReported(queue: seq<Endpoint>, initial: seq<CheckRow>, done: nat, p: Pool,
                        outcome: nat -> Result<LeafSummary, string>)
    requires PoolInv(queue, done, p) && p.running == {} && Reported(queue, initial, outcome, p)
    ensures multiset(p.rows) == multiset(initial) + multiset(HostRows(queue, |queue|, outcome))
  {
    hide RowsOf, HostRows, TaskRow;
    assert DoneIds(p) == Below(|queue|);
    HostRowsAreAllTasks(queue, |queue|, outcome);
  }

  // ---------------------------------------------------------------------------
  // The report
  // ---------------------------------------------------------------------------

  predicate IsError(row: CheckRow) { row.outcome.Err? }

  predicate Bad(outcome: Result<LeafSummary, string>) { outcome.Err? || outcome.value.daysRemaining < 0 }

  predicate IsFailure(row: CheckRow) { Bad(row.outcome) }

  /** Errors first, then by remaining days, ties by display name. */
  predicate RowLe(a: CheckRow, b: CheckRow) {
    if IsError(a) != IsError(b) then IsError(a)
    else if !IsError(a) && a.outcome.value.daysRemaining != b.outcome.value.daysRemaining
    then a.outcome.value.daysRemaining < b.outcome.value.daysRemaining
    else Lexical.Le(a.display, b.display)
  }

  lemma RowLeIsTotalPreorder()
    ensures TotalPreorder(RowLe)
  {
    Lexical.LeIsTotalOrder();
  }

  /** The printed order: no success above an error, days never decrease, and equals stand by display name. */
  lemma ReportOrder(rows: seq<CheckRow>, i: nat, j: nat)
    requires SortedBy(rows, RowLe) && i < j < |rows|
    ensures rows[j].outcome.Err? ==> rows[i].outcome.Err?
    ensures rows[i].outcome.Ok? ==>
              rows[j].outcome.Ok? && rows[i].outcome.value.daysRemaining <= rows[j].outcome.value.daysRemaining
    ensures rows[i].outcome.Err? && rows[j].outcome.Err? ==> Lexical.Le(rows[i].display, rows[j].display)
    ensures rows[i].outcome.Ok? && rows[j].outcome.Ok?
            && rows[i].outcome.value.daysRemaining == rows[j].outcome.value.daysRemaining ==>
              Lexical.Le(rows[i].display, rows[j].display)
  {
    hide Lexical.Le;
    assert RowLe(rows[i], rows[j]);
  }

  lemma FailureMeans(rows: seq<CheckRow>)
    ensures (exists i :: 0 <= i < |rows| && IsFailure(rows[i])) <==>
              exists row :: row in rows && (row.outcome.Err? || row.outcome.value.daysRemaining < 0)
  {
    if i :| 0 <= i < |rows| && IsFailure(rows[i]) {
      assert rows[i] in rows;
    }
    if row :| row in rows && (row.outcome.Err? || row.outcome.value.daysRemaining < 0) {
      var i :| 0 <= i < |rows| && rows[i] == row;
      assert IsFailure(rows[i]);
    }
  }

  datatype Summary = Summary(rows: seq<CheckRow>, exitCode: nat)

  lemma {:induction false} HostRowsLength(queue: seq<Endpoint>, n: nat, outcome: nat -> Result<LeafSummary, string>)
    requires n <= |queue|
    ensures |HostRows(queue, n, outcome)| == n
    ensures forall k :: 0 <= k < n ==> HostRows(queue, n, outcome)[k].outcome == outcome(k)
  {
    hide DisplayTarget;
    if n > 0 {
      HostRowsLength(queue, n - 1, outcome);
    }
  }

  lemma {:induction false} OneRowPerTarget(parsed: seq<Target>, outcome: nat -> Result<LeafSummary, string>)
    ensures |InvalidRows(parsed)| + |Queue(parsed)| == |parsed|
    ensures |HostRows(Queue(parsed), |Queue(parsed)|, outcome)| == |Queue(parsed)|
  {
    HostRowsLength(Queue(parsed), |Queue(parsed)|, outcome);
    if parsed != [] {
      OneRowPerTarget(parsed[..|parsed| - 1], outcome);
    }
  }

  lemma {:induction false} FillIdle(p: Pool, n: nat)
    requires p.pending == []
    ensures Fill(p, n) == p
    decreases n
  {
    if n > 0 {
      FillIdle(p, n - 1);
    }
  }

  /** The first fill: up to 16 checks start at once. */
  method FillPool(queue: seq<Endpoint>, initial: seq<CheckRow>) returns (pool: Pool)
    ensures pool == Start(queue, initial)
  {
    hide Refill;
    pool := Pool(queue, {}, map[], 0, initial);
    for i := 0 to MAX_CONCURRENCY
      invariant Fill(pool, MAX_CONCURRENCY - i) == Start(queue, initial)
    {
      if pool.pending == [] {
        FillIdle(pool, MAX_CONCURRENCY - i);
        break;
      }
      pool := Refill(pool);
    }
  }

  /** Completes every check in an arbitrary order, at most 16 at a time; completion order only permutes the rows. */
  method RunPool(queue: seq<Endpoint>, initial: seq<CheckRow>, outcome: nat -> Result<LeafSummary, string>)
    returns (rows: seq<CheckRow>)
    ensures multiset(rows) == multiset(initial) + multiset(HostRows(queue, |queue|, outcome))
  {
    hide Finish, Start, Reported, HostRows;
    var pool := FillPool(queue, initial);
    StartInv(queue, initial);
    StartReported(queue, initial, outcome);
    ghost var done: nat := 0;
    while pool.running != {}
      invariant PoolInv(queue, done, pool) && Reported(queue, initial, outcome, pool)
      decreases |queue| - done
    {
      var id :| id in pool.running;
      FinishInv(queue, done, pool, id, outcome(id));
      FinishReported(queue, initial, done, pool, id, outcome);
      pool := Finish(pool, id, outcome(id));
      done := done + 1;
    }
    DrainedReported(queue, initial, done, pool, outcome);
    rows := pool.rows;
  }

  /**
   * Runs every check and reports: a sorted permutation of one row per parsed target, and exit code 1 exactly when some
   * row is an error or expired. `outcome` gives the result of each task, a failed task being an error.
   */
  method RunCertCheck(parsed: seq<Target>, outcome: nat -> Result<LeafSummary, string>)
    returns (r: Result<Summary, string>)
    ensures r.Err? <==> parsed == []
    ensures r.Ok? ==> SortedBy(r.value.rows, RowLe)
    ensures r.Ok? ==>
              multiset(r.value.rows)
              == multiset(InvalidRows(parsed)) + multiset(HostRows(Queue(parsed), |Queue(parsed)|, outcome))
    ensures r.Ok? ==> |r.value.rows| == |parsed|
    ensures r.Ok? ==>
              r.value.exitCode
              == if exists row :: row in r.value.rows && (row.outcome.Err? || row.outcome.value.daysRemaining < 0)
                 then 1 else 0
  {
    hide RowLe, Sort, HostRows, RowFor, Bad, TotalPreorder, SortedBy;
    if parsed == [] {
      return Err("no cert-check targets");
    }
    var rows: seq<CheckRow> := [];
    var queue: seq<Endpoint> := [];
    for i := 0 to |parsed|
      invariant queue == Queue(parsed[..i]) && rows == InvalidRows(parsed[..i])
    {
      assert parsed[..i + 1][..i] == parsed[..i];
      match parsed[i] {
        case Host(host, port) => queue := queue + [Endpoint(host, port)];
        case Invalid(spec, reason) => rows := rows + [CheckRow(spec, spec, 0, Err(reason))];
      }
    }
    assert parsed[..|parsed|] == parsed;

    var pool := RunPool(queue, rows, outcome);
    var sorted := Sort(pool, RowLe);
    SortPermutes(pool, RowLe);
    RowLeIsTotalPreorder();
    SortSorts(pool, RowLe);
    OneRowPerTarget(parsed, outcome);
    assert |multiset(pool)| == |pool|;
    var hasFailure := exists i :: 0 <= i < |sorted| && IsFailure(sorted[i]);
    FailureMeans(sorted);
    return Ok(Summary(sorted, if hasFailure then 1 else 0));
  }

  lemma {:induction false} InvalidRowsExist(parsed: seq<Target>)
    ensures InvalidRows(parsed) != [] <==> exists i :: 0 <= i < |parsed| && parsed[i].Invalid?
    ensures forall row :: row in InvalidRows(parsed) ==> IsFailure(row)
  {
    if parsed != [] {
      var n := |parsed| - 1;
      InvalidRowsExist(parsed[..n]);
      if InvalidRows(parsed[..n]) != [] {
        var i :| 0 <= i < n && parsed[..n][i].Invalid?;
        assert parsed[i].Invalid?;
      }
      if i :| 0 <= i < |parsed| && parsed[i].Invalid? {
        assert i < n ==> parsed[..n][i].Invalid?;
      }
    }
  }

  /** Exit code 1 means exactly: some target was malformed, failed its check, or has an expired certificate. */
  lemma ExitCodeMeaning(parsed: seq<Target>, outcome: nat -> Result<LeafSummary, string>, rows: seq<CheckRow>)
    requires multiset(rows)
          == multiset(InvalidRows(parsed)) + multiset(HostRows(Queue(parsed), |Queue(parsed)|, outcome))
    ensures (exists row :: row in rows && (row.outcome.Err? || row.outcome.value.daysRemaining < 0)) <==>
              || (exists i :: 0 <= i < |parsed| && parsed[i].Invalid?)
              || (exists k :: 0 <= k < |Queue(parsed)| && (outcome(k).Err? || outcome(k).value.daysRemaining < 0))
  {
    hide InvalidRows, HostRows, Queue, RowFor;
    var invalid, hosts := InvalidRows(parsed), HostRows(Queue(parsed), |Queue(parsed)|, outcome);
    InvalidRowsExist(parsed);
    HostRowsLength(Queue(parsed), |Queue(parsed)|, outcome);
    forall row
      ensures row in rows <==> row in invalid || row in hosts
    {
      assert row in rows <==> row in multiset(rows);
    }
    if invalid != [] {
      assert invalid[0] in rows && IsFailure(invalid[0]);
    }
    if k :| 0 <= k < |Queue(parsed)| && Bad(outcome(k)) {
      assert hosts[k] in rows && IsFailure(hosts[k]);
    }
    if row :| row in rows && IsFailure(row) && row !in invalid {
      var k :| 0 <= k < |hosts| && hosts[k] == row;
      assert Bad(outcome(k));
    }
  }

  /** Two examples: only an address with colons is bracketed. */
  lemma DisplayExamples()
    ensures DisplayTarget(Endpoint("example.org", 443)) == "example.org:443"
    ensures DisplayTarget(Endpoint("::1", 443)) == "[::1]:443"
  {
    assert Digits(44) == "44" && Digits(443) == "443";
    assert "::1"[0] == ':';
    assert ':' !in "example.org";
  }

  ghost function Bracketed(host: string): string {
    if ':' in host then "[" + host + "]" else host
  }

  lemma BracketedInjective(a: string, b: string)
    requires a != b && (a != [] ==> a[0] != '[') && (b != [] ==> b[0] != '[')
    ensures Bracketed(a) != Bracketed(b)
  {
    if ':' in a && ':' in b {
      assert Bracketed(a)[1..|a| + 1] == a && Bracketed(b)[1..|b| + 1] == b;
    } else if ':' in a {
      assert Bracketed(a)[0] == '[';
    } else if ':' in b {
      assert Bracketed(b)[0] == '[';
    }
  }

  lemma SameAfterLastColon(x: string, y: string, d: string, e: string)
    requires x + ":" + d == y + ":" + e && ':' !in d && ':' !in e
    ensures x == y && d == e
  {
    var s, t := x + ":" + d, y + ":" + e;
    assert forall j :: |x| < j < |s| ==> s[j] == d[j - |x| - 1];
    assert forall j :: |y| < j < |t| ==> t[j] == e[j - |y| - 1];
    assert s[|x|] == ':' && t[|y|] == ':';
    assert s[..|x|] == x && t[..|y|] == y && s[|x| + 1..] == d && t[|y| + 1..] == e;
  }

  lemma DisplayParts(e: Endpoint)
    ensures DisplayTarget(e) == Bracketed(e.host) + ":" + Digits(e.port) && ':' !in Digits(e.port)
  {
    hide Digits;
    DigitsRead(e.port);
    if ':' in e.host {
      assert "[" + e.host + "]:" == "[" + e.host + "]" + ":";
    }
  }

  /** What the report shows: a checked endpoint in full with its own result, a malformed target as it was given. */
  lemma {:induction false} RowsShowTargets(queue: seq<Endpoint>, n: nat, outcome: nat -> Result<LeafSummary, string>,
                                           k: nat)
    requires k < n <= |queue|
    ensures |HostRows(queue, n, outcome)| == n
    ensures var row := HostRows(queue, n, outcome)[k];
            && row.host == queue[k].host
            && row.port == queue[k].port
            && row.display == Bracketed(queue[k].host) + ":" + Digits(queue[k].port)
            && row.outcome == outcome(k)
  {
    hide DisplayTarget, Digits, Bracketed;
    HostRowsLength(queue, n, outcome);
    DisplayParts(queue[k]);
    if k < n - 1 {
      HostRowsLength(queue, n - 1, outcome);
      RowsShowTargets(queue, n - 1, outcome, k);
    }
  }

  lemma {:induction false} InvalidRowsShowTargets(parsed: seq<Target>, row: CheckRow)
    ensures row in InvalidRows(parsed) <==>
              exists i :: 0 <= i < |parsed| && parsed[i].Invalid?
                          && row.display == row.host == parsed[i].spec && row.port == 0
                          && row.outcome == Err(parsed[i].reason)
  {
    if parsed != [] {
      var n := |parsed| - 1;
      InvalidRowsShowTargets(parsed[..n], row);
      forall i | 0 <= i < n
        ensures parsed[..n][i] == parsed[i]
      {}
    }
  }

  /** No two endpoints are displayed alike, as long as no host starts with a bracket of its own. */
  lemma DisplayInjective(a: Endpoint, b: Endpoint)
    requires DisplayTarget(a) == DisplayTarget(b)
    requires (a.host != [] ==> a.host[0] != '[') && (b.host != [] ==> b.host[0] != '[')
    ensures a == b
  {
    hide Digits, Bracketed;
    DisplayParts(a);
    DisplayParts(b);
    SameAfterLastColon(Bracketed(a.host), Bracketed(b.host), Digits(a.port), Digits(b.port));
    DigitsInjective(a.port, b.port);
    if a.host != b.host {
      BracketedInjective(a.host, b.host);
    }
  }
}
