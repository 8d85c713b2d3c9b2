/**
 * Server failover of `resolve_via_servers` and family merging of `query_server_family` in src/dns.rs. Times are
 * nanoseconds; what each server answers and how long it takes are arbitrary.
 */
module DnsFailover {
  import opened Bytes
  import opened Arithmetic
  import opened Wrappers
  import opened Sequences
  import opened Sorting
  import opened DnsMessage
  import opened Lexical

  const DNS_QUERY_CAP: nat := 3_000_000_000

  const DNS_SECOND_FAMILY_GRACE: nat := 150_000_000

  /** One question: how long it takes, and the addresses or failure it ends with. */
  datatype Query = Query(elapsed: nat, reply: Result<seq<IpAddr>, string>)

  /** How a server takes the A and the AAAA question when nothing cuts them short; `aOnTie` settles equal times. */
  datatype Server = Server(a: Query, aaaa: Query, aOnTie: bool)

  /** The reason carried by the error of the whole resolution. */
  datatype Failure = NoServers | DeadlineExceeded | NoAddresses(server: nat) | ServerFailed(server: nat, reason: string)

  /** Division of a duration by a count rounds down to whole nanoseconds. */
  function Share(remaining: nat, slots: nat): nat
    requires slots > 0
  {
    remaining / slots
  }

  /** An equal share of the remaining time, capped. */
  function Budget(remaining: nat, slots: nat): nat
    requires slots > 0
  {
    if Share(remaining, slots) < DNS_QUERY_CAP then Share(remaining, slots) else DNS_QUERY_CAP
  }

  // ---------------------------------------------------------------------------
  // Merging the two families of one server
  // ---------------------------------------------------------------------------

  datatype IpFamily = V4Only | V6Only | Auto

  predicate IsV4(ip: IpAddr) { ip.V4? }

  predicate IsV6(ip: IpAddr) { ip.V6? }

  predicate OctetLt(a: Byte, b: Byte) { a < b }

  /** IPv4 before IPv6, then octet by octet. */
  predicate IpLe(a: IpAddr, b: IpAddr) {
    if a.V4? != b.V4? then a.V4? else LeBy(a.octets, b.octets, OctetLt)
  }

  /** `dedup`: drops every element equal to the one before it. */
  function Dedup(s: seq<IpAddr>): seq<IpAddr> {
    if |s| <= 1 then s
    else Dedup(s[..|s| - 1]) + if s[|s| - 1] == s[|s| - 2] then [] else [s[|s| - 1]]
  }

  /** `retain`, `sort`, `dedup`. */
  function Canonical(ips: seq<IpAddr>, keep: IpAddr -> bool): seq<IpAddr> {
    Dedup(Sort(Filter(ips, keep), IpLe))
  }

  lemma {:induction false} DedupMembers(s: seq<IpAddr>)
    ensures forall x :: x in Dedup(s) <==> x in s
    ensures s != [] ==> Dedup(s) != [] && Dedup(s)[|Dedup(s)| - 1] == s[|s| - 1]
  {
    if |s| > 1 {
      DedupMembers(s[..|s| - 1]);
      assert s == s[..|s| - 1] + [s[|s| - 1]];
    }
  }

  /** A canonical list holds exactly the kept addresses of the reply. */
  lemma CanonicalKept(ips: seq<IpAddr>, keep: IpAddr -> bool)
    ensures forall x :: x in Canonical(ips, keep) <==> x in ips && keep(x)
  {
    FilterMembers(ips, keep);
    DedupMembers(Sort(Filter(ips, keep), IpLe));
    forall x
      ensures x in Sort(Filter(ips, keep), IpLe) <==> x in Filter(ips, keep)
    {
      SortKeepsMembers(Filter(ips, keep), IpLe, x);
    }
  }

  lemma IpLeIsTotalOrder()
    ensures TotalOrder(IpLe)
  {
    LeByIsTotalOrder(OctetLt);
  }

  ghost predicate StrictlySorted(s: seq<IpAddr>) {
    forall i, j :: 0 <= i < j < |s| ==> IpLe(s[i], s[j]) && s[i] != s[j]
  }

  lemma {:induction false} DedupOfSorted(s: seq<IpAddr>)
    requires SortedBy(s, IpLe) && TotalOrder(IpLe)
    ensures StrictlySorted(Dedup(s))
  {
    if |s| > 1 {
      var n := |s| - 1;
      DedupOfSorted(s[..n]);
      DedupMembers(s[..n]);
      var d, last := Dedup(s[..n]), s[n];
      if last != s[n - 1] {
        forall i | 0 <= i < |d|
          ensures IpLe(d[i], last) && d[i] != last
        {
          assert d[i] in s[..n];
          var k :| 0 <= k < n && s[k] == d[i];
          assert IpLe(s[k], s[n - 1]) || k == n - 1;
          assert IpLe(s[n - 1], s[n]) && IpLe(s[k], s[n]);
        }
      }
    }
  }

  /** A canonical list is strictly increasing, so free of duplicates. */
  lemma CanonicalDistinct(ips: seq<IpAddr>, keep: IpAddr -> bool)
    ensures StrictlySorted(Canonical(ips, keep))
  {
    IpLeIsTotalOrder();
    SortSorts(Filter(ips, keep), IpLe);
    DedupOfSorted(Sort(Filter(ips, keep), IpLe));
  }

  lemma ScaleSum(a: nat, p: nat, r: nat)
    ensures 256 * (a * p + r) == a * (256 * p) + 256 * r
  {}

  /** A big-endian number by its first octet and the rest. */
  lemma {:induction false} FromFront(s: Octets)
    requires s != []
    ensures FromBigEndian(s) == s[0] * Pow256(|s| - 1) + FromBigEndian(s[1..])
    ensures FromBigEndian(s) < Pow256(|s|)
  {
    var n := |s| - 1;
    if n == 0 {
      assert s[..0] == [] && s[1..] == [];
      assert Pow256(1) == 256;
    } else {
      FromFront(s[..n]);
      assert s[..n][1..] == s[1..][..n - 1];
      assert FromBigEndian(s[1..]) == 256 * FromBigEndian(s[1..][..n - 1]) + s[n];
      assert FromBigEndian(s) == 256 * FromBigEndian(s[..n]) + s[n];
      ScaleSum(s[0], Pow256(n - 1), FromBigEndian(s[1..][..n - 1]));
    }
  }

  lemma RestBelow(s: Octets)
    ensures FromBigEndian(s) < Pow256(|s|)
  {
    if s != [] {
      FromFront(s);
    }
  }

  lemma FirstDecides(a: nat, b: nat, p: nat, x: nat, y: nat)
    requires x < p && y < p
    ensures a == b ==> (a * p + x <= b * p + y <==> x <= y)
    ensures a < b ==> a * p + x <= b * p + y
    ensures b < a ==> b * p + y < a * p + x
  {
    if a < b {
      TimesMonotone(a + 1, b, p);
    }
    if b < a {
      TimesMonotone(b + 1, a, p);
    }
  }

  /** Octet by octet is by value, for addresses of one length. */
  lemma {:induction false} OctetOrderIsNumeric(a: Octets, b: Octets)
    requires |a| == |b|
    ensures LeBy(a, b, OctetLt) <==> FromBigEndian(a) <= FromBigEndian(b)
    decreases |a|
  {
    if a != [] {
      hide FromBigEndian, Pow256;
      OctetOrderIsNumeric(a[1..], b[1..]);
      FromFront(a);
      FromFront(b);
      RestBelow(a[1..]);
      RestBelow(b[1..]);
      FirstDecides(a[0], b[0], Pow256(|a| - 1), FromBigEndian(a[1..]), FromBigEndian(b[1..]));
    }
  }

  /** Addresses are ordered by family, IPv4 first, and then by the number their octets denote. */
  lemma IpOrderIsNumeric(a: IpAddr, b: IpAddr)
    ensures a.V4? && b.V6? ==> IpLe(a, b) && !IpLe(b, a)
    ensures a.V4? == b.V4? && |a.octets| == |b.octets| ==>
              (IpLe(a, b) <==> FromBigEndian(a.octets) <= FromBigEndian(b.octets))
  {
    hide FromBigEndian;
    if |a.octets| == |b.octets| {
      OctetOrderIsNumeric(a.octets, b.octets);
    }
  }

  /** The merge loop; on canonical families its membership test never skips anything. */
  method AppendMissing(v4: seq<IpAddr>, v6: seq<IpAddr>) returns (ips: seq<IpAddr>)
    requires (forall x :: x in v4 ==> x.V4?) && (forall x :: x in v6 ==> x.V6?) && StrictlySorted(v6)
    ensures ips == v4 + v6
  {
    ips := v4;
    for i := 0 to |v6|
      invariant ips == v4 + v6[..i]
    {
      assert v6[i] in v6 && v6[i] !in v4;
      assert v6[i] !in v6[..i];
      if v6[i] !in ips {
        ips := ips + [v6[i]];
      }
      assert v6[..i + 1] == v6[..i] + [v6[i]];
    }
    assert v6[..|v6|] == v6;
  }

  /**
   * When both families answer in time the merged list does not depend on which came first: all IPv4 addresses of the A
   * reply, then all IPv6 addresses of the AAAA reply, strictly increasing and so without repeats.
   */
  lemma MergeIsOrdered(a: seq<IpAddr>, aaaa: seq<IpAddr>)
    ensures var merged := Canonical(a, IsV4) + Canonical(aaaa, IsV6);
            && StrictlySorted(merged)
            && forall x :: x in merged <==> (x.V4? && x in a) || (x.V6? && x in aaaa)
  {
    hide Canonical;
    var x, y := Canonical(a, IsV4), Canonical(aaaa, IsV6);
    CanonicalDistinct(a, IsV4);
    CanonicalDistinct(aaaa, IsV6);
    CanonicalKept(a, IsV4);
    CanonicalKept(aaaa, IsV6);
    var merged := x + y;
    forall i, j | 0 <= i < j < |merged|
      ensures IpLe(merged[i], merged[j]) && merged[i] != merged[j]
    {
      if i < |x| <= j {
        assert x[i] in x && y[j - |x|] in y;
      } else if i >= |x| {
        assert merged[i] == y[i - |x|] && merged[j] == y[j - |x|];
      }
    }
  }

  /** What `collect` leaves in the address slot and the error slot. */
  function Collected(r: Result<seq<IpAddr>, string>): seq<IpAddr> {
    if r.Ok? then r.value else []
  }

  function FirstError(err: Option<string>, r: Result<seq<IpAddr>, string>): Option<string> {
    if err.Some? || r.Ok? then err else Some(r.error)
  }

  /** The timeout every single question runs under. */
  function Within(q: Query, budget: nat): Query {
    if q.elapsed <= budget then q else Query(budget, Err("timed out"))
  }

  /** One family alone. */
  ghost function OneFamily(q: Query, keep: IpAddr -> bool): Query {
    Query(q.elapsed, if q.reply.Ok? then Ok(Canonical(q.reply.value, keep)) else Err(q.reply.error))
  }

  /** Both families, A replying first or not, the other one in time or not. */
  ghost function BothFamilies(a: Result<seq<IpAddr>, string>, aaaa: Result<seq<IpAddr>, string>, aFirst: bool,
                              inTime: bool): Result<seq<IpAddr>, string>
  {
    var useA, useAaaa := aFirst || inTime, !aFirst || inTime;
    var merged := Canonical(if useA then Collected(a) else [], IsV4)
                  + Canonical(if useAaaa then Collected(aaaa) else [], IsV6);
    var firstReply, secondReply := if aFirst then a else aaaa, if aFirst then aaaa else a;
    var err := FirstError(FirstError(None, firstReply), if inTime then secondReply else Ok([]));
    if merged == [] && err.Some? then Err(err.value) else Ok(merged)
  }

  /** A server asked for a family: in `Auto` both questions at once, the later one for a grace period at most. */
  ghost function FamilyQuery(family: IpFamily, server: Server, budget: nat): Query {
    var a, aaaa := Within(server.a, budget), Within(server.aaaa, budget);
    match family
    case V4Only => OneFamily(a, IsV4)
    case V6Only => OneFamily(aaaa, IsV6)
    case Auto =>
      var aFirst := a.elapsed < aaaa.elapsed || (a.elapsed == aaaa.elapsed && server.aOnTie);
      var first, second := if aFirst then a else aaaa, if aFirst then aaaa else a;
      var inTime := second.elapsed <= first.elapsed + DNS_SECOND_FAMILY_GRACE;
      Query(if inTime then second.elapsed else first.elapsed + DNS_SECOND_FAMILY_GRACE,
            BothFamilies(a.reply, aaaa.reply, aFirst, inTime))
  }

  lemma OneFamilyTime(q: Query, keep: IpAddr -> bool)
    ensures OneFamily(q, keep).elapsed == q.elapsed
  {}

  /** The grace period never runs past the budget, since the second question is under the same timeout. */
  lemma FamilyKeepsBudget(family: IpFamily, server: Server, budget: nat)
    ensures FamilyQuery(family, server, budget).elapsed <= budget
  {
    hide BothFamilies, OneFamily;
    OneFamilyTime(Within(server.a, budget), IsV4);
    OneFamilyTime(Within(server.aaaa, budget), IsV6);
  }

  ghost predicate HasAddress(r: Result<seq<IpAddr>, string>, keep: IpAddr -> bool) {
    r.Ok? && exists ip :: ip in r.value && keep(ip)
  }

  /**
   * A server that is of use within `budget`: it has an address of the family and replies in time. In `Auto` in time
   * also means no later than the grace period after the other family's reply, whatever that reply says.
   */
  ghost predicate Live(family: IpFamily, server: Server, budget: nat) {
    var a, aaaa := server.a, server.aaaa;
    match family
    case V4Only => HasAddress(a.reply, IsV4) && a.elapsed <= budget
    case V6Only => HasAddress(aaaa.reply, IsV6) && aaaa.elapsed <= budget
    case Auto =>
      || (HasAddress(a.reply, IsV4) && a.elapsed <= budget && a.elapsed <= aaaa.elapsed + 150_000_000)
      || (HasAddress(aaaa.reply, IsV6) && aaaa.elapsed <= budget && aaaa.elapsed <= a.elapsed + 150_000_000)
  }

  /** The query ends with addresses. */
  ghost predicate Answers(q: Query) { q.reply.Ok? && q.reply.value != [] }

  lemma CanonicalNonEmpty(ips: seq<IpAddr>, keep: IpAddr -> bool)
    ensures Canonical(ips, keep) != [] <==> exists ip :: ip in ips && keep(ip)
  {
    hide Canonical;
    CanonicalKept(ips, keep);
    assert Canonical(ips, keep) != [] ==> Canonical(ips, keep)[0] in Canonical(ips, keep);
  }

  lemma CollectedNonEmpty(r: Result<seq<IpAddr>, string>, keep: IpAddr -> bool)
    ensures Canonical(Collected(r), keep) != [] <==> HasAddress(r, keep)
    ensures Canonical([], keep) == []
  {
    hide Canonical;
    CanonicalNonEmpty(Collected(r), keep);
    CanonicalNonEmpty([], keep);
  }

  lemma NoAddressInFailure(e: string)
    ensures !HasAddress(Err(e), IsV4) && !HasAddress(Err(e), IsV6)
  {}

  lemma CollectedOk(r: Result<seq<IpAddr>, string>)
    ensures r.Ok? ==> Collected(r) == r.value
  {}

  lemma NeedsOk(r: Result<seq<IpAddr>, string>, keep: IpAddr -> bool)
    ensures HasAddress(r, keep) ==> r.Ok?
  {}

  /** A server answers within a budget exactly when it is live for it. */
  lemma AnswersIffLive(family: IpFamily, server: Server, budget: nat)
    ensures Answers(FamilyQuery(family, server, budget)) <==> Live(family, server, budget)
  {
    hide Canonical, HasAddress, Collected;
    var a, aaaa := Within(server.a, budget), Within(server.aaaa, budget);
    CollectedNonEmpty(a.reply, IsV4);
    CollectedNonEmpty(aaaa.reply, IsV6);
    NoAddressInFailure("timed out");
    if family == V4Only {
      CollectedOk(a.reply);
    } else if family == V6Only {
      CollectedOk(aaaa.reply);
    }
    NeedsOk(a.reply, IsV4);
    NeedsOk(aaaa.reply, IsV6);
  }

  /** More time never makes a live server dead. */
  lemma LiveMonotone(family: IpFamily, server: Server, budget: nat, more: nat)
    requires Live(family, server, budget) && budget <= more
    ensures Live(family, server, more)
  {
    hide HasAddress;
  }

  /** When both questions fail, the failure that came first is reported. */
  lemma FirstFailureIsReported(server: Server, budget: nat)
    requires server.a.reply.Err? && server.aaaa.reply.Err?
    requires server.a.elapsed <= budget && server.aaaa.elapsed <= budget
    ensures server.a.elapsed < server.aaaa.elapsed ==>
              FamilyQuery(Auto, server, budget).reply == Err(server.a.reply.error)
    ensures server.aaaa.elapsed < server.a.elapsed ==>
              FamilyQuery(Auto, server, budget).reply == Err(server.aaaa.reply.error)
  {
    hide Canonical;
    CollectedNonEmpty(server.a.reply, IsV4);
    CollectedNonEmpty(server.aaaa.reply, IsV6);
    CollectedNonEmpty(server.aaaa.reply, IsV4);
    CollectedNonEmpty(server.a.reply, IsV6);
  }

  /** A lone failure is reported if the other family has no address. */
  lemma OneFailureIsReported(server: Server, budget: nat)
    requires server.a.elapsed <= server.aaaa.elapsed + 150_000_000 && server.a.elapsed <= budget
    requires server.aaaa.elapsed <= server.a.elapsed + 150_000_000 && server.aaaa.elapsed <= budget
    ensures server.a.reply.Err? && server.aaaa.reply == Ok([]) ==>
              FamilyQuery(Auto, server, budget).reply == Err(server.a.reply.error)
    ensures server.aaaa.reply.Err? && server.a.reply == Ok([]) ==>
              FamilyQuery(Auto, server, budget).reply == Err(server.aaaa.reply.error)
  {
    hide Canonical;
    CollectedNonEmpty(server.a.reply, IsV4);
    CollectedNonEmpty(server.aaaa.reply, IsV6);
  }

  method QueryServerFamily(family: IpFamily, server: Server, budget: nat) returns (q: Query)
    ensures q == FamilyQuery(family, server, budget)
  {
    hide Canonical;
    var a, aaaa := Within(server.a, budget), Within(server.aaaa, budget);
    match family {
      case V4Only =>
        return Query(a.elapsed, if a.reply.Err? then Err(a.reply.error) else Ok(Canonical(a.reply.value, IsV4)));
      case V6Only =>
        return Query(aaaa.elapsed,
                     if aaaa.reply.Err? then Err(aaaa.reply.error) else Ok(Canonical(aaaa.reply.value, IsV6)));
      case Auto =>
    }
    var v4: seq<IpAddr>, v6: seq<IpAddr>, err: Option<string> := [], [], None;
    var aDone, aaaaDone := false, false;
    var now: nat;
    if a.elapsed < aaaa.elapsed || (a.elapsed == aaaa.elapsed && server.aOnTie) {
      aDone := true;
      now, v4, err := a.elapsed, Collected(a.reply), FirstError(err, a.reply);
    } else {
      aaaaDone := true;
      now, v6, err := aaaa.elapsed, Collected(aaaa.reply), FirstError(err, aaaa.reply);
    }
    var limit := now + DNS_SECOND_FAMILY_GRACE;
    if !aDone {
      if a.elapsed <= limit {
        v4, err := Collected(a.reply), FirstError(err, a.reply);
      }
      now := if a.elapsed <= limit then a.elapsed else limit;
    }
    if !aaaaDone {
      if aaaa.elapsed <= limit {
        v6, err := Collected(aaaa.reply), FirstError(err, aaaa.reply);
      }
      now := if aaaa.elapsed <= limit then aaaa.elapsed else limit;
    }
    ghost var rawV4, rawV6 := v4, v6;
    v4 := Canonical(v4, IsV4);
    v6 := Canonical(v6, IsV6);
    CanonicalKept(rawV4, IsV4);
    CanonicalKept(rawV6, IsV6);
    CanonicalDistinct(rawV6, IsV6);
    var ips := AppendMissing(v4, v6);
    if ips == [] && err.Some? {
      return Query(now, Err(err.value));
    }
    return Query(now, Ok(ips));
  }

  // ---------------------------------------------------------------------------
  // Which servers are asked, and with what budget
  // ---------------------------------------------------------------------------

  /** The clock when server i would be asked. */
  ghost function ClockAt(queries: seq<Query>, start: nat, i: nat): nat
    requires i <= |queries|
  {
    if i == 0 then start else ClockAt(queries, start, i - 1) + queries[i - 1].elapsed
  }

  /** Server i is asked: the deadline has not passed at any turn up to i, and no earlier server answered. */
  ghost predicate Asked(queries: seq<Query>, start: nat, deadline: nat, i: nat)
    requires i < |queries|
  {
    && (forall j :: 0 <= j <= i ==> ClockAt(queries, start, j) < deadline)
    && (forall j :: 0 <= j < i ==> !Answers(queries[j]))
  }

  ghost function BudgetOf(queries: seq<Query>, start: nat, deadline: nat, i: nat): nat
    requires i < |queries| && Asked(queries, start, deadline, i)
  {
    assert ClockAt(queries, start, i) < deadline;
    Budget(deadline - ClockAt(queries, start, i), |queries| - i)
  }

  /** Every server that is asked returns within the budget it was given. */
  ghost predicate WithinBudgets(queries: seq<Query>, start: nat, deadline: nat) {
    forall i :: 0 <= i < |queries| && Asked(queries, start, deadline, i) ==>
                queries[i].elapsed <= BudgetOf(queries, start, deadline, i)
  }

  ghost function ReasonOf(i: nat, q: Query): Failure {
    if q.reply.Ok? then NoAddresses(i) else ServerFailed(i, q.reply.error)
  }

  /** The budget at a turn; past the deadline nothing is asked and it does not matter. */
  ghost function Allowance(now: nat, deadline: nat, slots: nat): nat
    requires slots > 0
  {
    if now < deadline then Budget(deadline - now, slots) else 0
  }

  /** The first i questions as they unfold: each server is given what its turn leaves it. */
  ghost function QueriesUpTo(family: IpFamily, servers: seq<Server>, start: nat, deadline: nat, i: nat): (qs: seq<Query>)
    requires i <= |servers|
    ensures |qs| == i
  {
    if i == 0 then []
    else
      var before := QueriesUpTo(family, servers, start, deadline, i - 1);
      before + [FamilyQuery(family, servers[i - 1], Allowance(ClockAt(before, start, i - 1), deadline, |servers| - (i - 1)))]
  }

  ghost function Queries(family: IpFamily, servers: seq<Server>, start: nat, deadline: nat): (qs: seq<Query>)
    ensures |qs| == |servers|
  {
    QueriesUpTo(family, servers, start, deadline, |servers|)
  }

  lemma {:induction false} ClockPrefix(a: seq<Query>, b: seq<Query>, start: nat, i: nat)
    requires i <= |a| <= |b| && b[..|a|] == a
    ensures ClockAt(a, start, i) == ClockAt(b, start, i)
  {
    if i > 0 {
      ClockPrefix(a, b, start, i - 1);
      assert a[i - 1] == b[i - 1];
    }
  }

  lemma {:induction false} QueriesPrefix(family: IpFamily, servers: seq<Server>, start: nat, deadline: nat, i: nat, n: nat)
    requires i <= n <= |servers|
    ensures QueriesUpTo(family, servers, start, deadline, n)[..i] == QueriesUpTo(family, servers, start, deadline, i)
    decreases n
  {
    hide FamilyQuery, Allowance, ClockAt;
    if i < n {
      QueriesPrefix(family, servers, start, deadline, i, n - 1);
    }
  }

  lemma QueryAt(family: IpFamily, servers: seq<Server>, start: nat, deadline: nat, i: nat)
    requires i < |servers|
    ensures var qs := Queries(family, servers, start, deadline);
            qs[i] == FamilyQuery(family, servers[i], Allowance(ClockAt(qs, start, i), deadline, |servers| - i))
  {
    hide FamilyQuery, Allowance, ClockAt;
    var qs := Queries(family, servers, start, deadline);
    QueriesPrefix(family, servers, start, deadline, i + 1, |servers|);
    QueriesPrefix(family, servers, start, deadline, i, |servers|);
    ClockPrefix(QueriesUpTo(family, servers, start, deadline, i), qs, start, i);
    assert qs[i] == qs[..i + 1][i];
  }

  lemma ReplyFacts(i: nat, q: Query)
    ensures Answers(q) <==> q.reply.Ok? && q.reply.value != []
    ensures ReasonOf(i, q) == if q.reply.Ok? then NoAddresses(i) else ServerFailed(i, q.reply.error)
  {}

  lemma AskedNext(queries: seq<Query>, start: nat, deadline: nat, i: nat)
    requires i < |queries| && ClockAt(queries, start, i) < deadline
    requires forall j :: 0 <= j < i ==> Asked(queries, start, deadline, j) && !Answers(queries[j])
    ensures Asked(queries, start, deadline, i)
    ensures BudgetOf(queries, start, deadline, i) == Budget(deadline - ClockAt(queries, start, i), |queries| - i)
  {
    hide Share, Budget, ClockAt, Answers;
    forall j | 0 <= j < i
      ensures ClockAt(queries, start, j) < deadline
    {
      assert Asked(queries, start, deadline, j);
    }
  }

  lemma StoppedByClock(queries: seq<Query>, start: nat, deadline: nat, i: nat)
    requires i < |queries| && ClockAt(queries, start, i) >= deadline
    ensures forall j :: i <= j < |queries| ==> !Asked(queries, start, deadline, j)
  {}

  lemma StoppedByAnswer(queries: seq<Query>, start: nat, deadline: nat, i: nat)
    requires i < |queries| && Answers(queries[i])
    ensures forall j :: i < j < |queries| ==> !Asked(queries, start, deadline, j)
  {}

  /**
   * What the failover loop may end with: the addresses of the first asked server that has any, otherwise the failure of
   * the last server asked, or the deadline if none was; and the budgets it gave out.
   */
  ghost predicate Resolves(queries: seq<Query>, start: nat, deadline: nat, r: Result<seq<IpAddr>, Failure>,
                           budgets: seq<nat>)
  {
    && |budgets| <= |queries|
    && (r.Ok? <==> exists i :: 0 <= i < |queries| && Asked(queries, start, deadline, i) && Answers(queries[i]))
    && (r.Ok? ==> exists i :: 0 <= i < |queries| && Asked(queries, start, deadline, i) && Answers(queries[i])
                              && queries[i].reply == Ok(r.value) && |budgets| == i + 1)
    && (r.Err? ==> r.error == if queries == [] then NoServers
                              else if budgets == [] then DeadlineExceeded
                              else ReasonOf(|budgets| - 1, queries[|budgets| - 1]))
    && (forall i :: 0 <= i < |queries| ==> (Asked(queries, start, deadline, i) <==> i < |budgets|))
    && (forall i :: 0 <= i < |budgets| ==> budgets[i] == BudgetOf(queries, start, deadline, i))
  }

  /** The failover loop. */
  method ResolveViaServers(family: IpFamily, servers: seq<Server>, start: nat, deadline: nat)
    returns (r: Result<seq<IpAddr>, Failure>, budgets: seq<nat>)
    ensures Resolves(Queries(family, servers, start, deadline), start, deadline, r, budgets)
  {
    hide Share, Asked, Answers, ReasonOf, Queries, FamilyQuery;
    ghost var queries := Queries(family, servers, start, deadline);
    budgets := [];
    if servers == [] {
      return Err(NoServers), budgets;
    }
    var lastErr: Option<Failure> := None;
    var now := start;
    for i := 0 to |servers|
      invariant |budgets| == i && now == ClockAt(queries, start, i)
      invariant forall j :: 0 <= j < i ==> Asked(queries, start, deadline, j) && !Answers(queries[j])
      invariant forall j :: 0 <= j < i ==> budgets[j] == BudgetOf(queries, start, deadline, j)
      invariant lastErr == if i == 0 then None else Some(ReasonOf(i - 1, queries[i - 1]))
    {
      if now >= deadline {
        if lastErr.None? {
          lastErr := Some(DeadlineExceeded);
        }
        StoppedByClock(queries, start, deadline, i);
        return Err(lastErr.value), budgets;
      }
      AskedNext(queries, start, deadline, i);
      var slots := |servers| - i;
      var budget := Budget(deadline - now, slots);
      budgets := budgets + [budget];
      QueryAt(family, servers, start, deadline, i);
      var query := QueryServerFamily(family, servers[i], budget);
      now := now + query.elapsed;
      ReplyFacts(i, query);
      match query.reply {
        case Ok(ips) =>
          if ips != [] {
            StoppedByAnswer(queries, start, deadline, i);
            return Ok(ips), budgets;
          }
          lastErr := Some(NoAddresses(i));
        case Err(e) =>
          lastErr := Some(ServerFailed(i, e));
      }
    }
    return Err(lastErr.value), budgets;
  }

  // ---------------------------------------------------------------------------
  // Fairness
  // ---------------------------------------------------------------------------

  ghost function Min(a: nat, b: nat): nat { if a < b then a else b }

  lemma ShareBounds(x: nat, d: nat)
    requires d > 0
    ensures Share(x, d) * d <= x < (Share(x, d) + 1) * d
  {
    assert x == d * (x / d) + x % d;
    assert (Share(x, d) + 1) * d == d * (x / d) + d;
  }

  lemma ShareAtLeast(x: nat, d: nat, q: nat)
    requires d > 0 && q * d <= x
    ensures Share(x, d) >= q
  {
    hide Share;
    ShareBounds(x, d);
    if Share(x, d) < q {
      TimesMonotone(Share(x, d) + 1, q, d);
    }
  }

  lemma ShareAtMost(x: nat, d: nat)
    requires d > 0
    ensures Share(x, d) <= x
  {
    hide Share;
    ShareBounds(x, d);
    TimesMonotone(1, d, Share(x, d));
    assert Share(x, d) * d == d * Share(x, d);
  }

  /** Spending at most one share leaves at least the same share for each of the others. */
  lemma ShareKeptOnce(r: nat, s: nat, spent: nat)
    requires s > 1 && spent <= Share(r, s)
    ensures spent <= r && Share(r - spent, s - 1) >= Share(r, s)
  {
    hide Share;
    ShareBounds(r, s);
    ShareAtMost(r, s);
    var q := Share(r, s);
    assert q * (s - 1) == q * s - q;
    ShareAtLeast(r - spent, s - 1, q);
  }

  lemma SpentWithinShare(queries: seq<Query>, start: nat, deadline: nat, i: nat)
    requires i < |queries| && WithinBudgets(queries, start, deadline) && Asked(queries, start, deadline, i)
    ensures ClockAt(queries, start, i) < deadline
    ensures queries[i].elapsed <= Share(deadline - ClockAt(queries, start, i), |queries| - i)
  {
    hide Share;
    assert ClockAt(queries, start, i) < deadline;
  }

  /** Time left when server i is asked, per remaining server, never falls below the initial share. */
  lemma {:induction false} ShareKept(queries: seq<Query>, start: nat, deadline: nat, i: nat)
    requires i < |queries| && start <= deadline && WithinBudgets(queries, start, deadline)
    requires forall j :: 0 <= j < i ==> Asked(queries, start, deadline, j)
    ensures ClockAt(queries, start, i) <= deadline
    ensures Share(deadline - ClockAt(queries, start, i), |queries| - i) >= Share(deadline - start, |queries|)
  {
    hide Share, WithinBudgets, Asked;
    if i > 0 {
      ShareKept(queries, start, deadline, i - 1);
      SpentWithinShare(queries, start, deadline, i - 1);
      ShareKeptOnce(deadline - ClockAt(queries, start, i - 1), |queries| - (i - 1), queries[i - 1].elapsed);
    }
  }

  /** No dead server starves a later one: each asked server gets at least an equal share of the whole time, capped. */
  lemma FairBudgets(queries: seq<Query>, start: nat, deadline: nat, i: nat)
    requires i < |queries| && WithinBudgets(queries, start, deadline) && Asked(queries, start, deadline, i)
    ensures start <= deadline
    ensures BudgetOf(queries, start, deadline, i) >= Min(Share(deadline - start, |queries|), DNS_QUERY_CAP)
  {
    hide Share;
    assert ClockAt(queries, start, 0) < deadline;
    forall j | 0 <= j < i
      ensures Asked(queries, start, deadline, j)
    {}
    ShareKept(queries, start, deadline, i);
  }

  /** With at least one nanosecond per server, every server before the first that answers is asked, and it too. */
  lemma {:induction false} EveryServerReached(queries: seq<Query>, start: nat, deadline: nat, i: nat)
    requires i < |queries| && start + |queries| <= deadline && WithinBudgets(queries, start, deadline)
    requires forall j :: 0 <= j < i ==> !Answers(queries[j])
    ensures Asked(queries, start, deadline, i)
  {
    hide Share, WithinBudgets, BudgetOf;
    forall j | 0 <= j < i
      ensures Asked(queries, start, deadline, j)
    {
      EveryServerReached(queries, start, deadline, j);
    }
    ShareKept(queries, start, deadline, i);
    ShareAtLeast(deadline - start, |queries|, 1);
    ShareAtMost(deadline - ClockAt(queries, start, i), |queries| - i);
    forall j | 0 <= j < i
      ensures ClockAt(queries, start, j) < deadline
    {
      assert Asked(queries, start, deadline, j);
    }
  }

  /** The first query that answers is reached, however many before it do not. */
  lemma FirstAnswerIsReached(queries: seq<Query>, start: nat, deadline: nat, i: nat)
    requires i < |queries| && start + |queries| <= deadline && WithinBudgets(queries, start, deadline)
    requires Answers(queries[i]) && forall j :: 0 <= j < i ==> !Answers(queries[j])
    ensures forall k :: 0 <= k < |queries| ==>
              (Asked(queries, start, deadline, k) && Answers(queries[k]) <==> k == i)
  {
    EveryServerReached(queries, start, deadline, i);
  }

  /** Asking servers never takes more than the whole time. */
  lemma NeverOverruns(queries: seq<Query>, start: nat, deadline: nat, i: nat)
    requires i < |queries| && WithinBudgets(queries, start, deadline) && Asked(queries, start, deadline, i)
    ensures ClockAt(queries, start, i + 1) <= deadline
  {
    hide Share;
    assert ClockAt(queries, start, i) < deadline;
    ShareAtMost(deadline - ClockAt(queries, start, i), |queries| - i);
  }

  // ---------------------------------------------------------------------------
  // The same for the code as it is: nothing is assumed of the servers
  // ---------------------------------------------------------------------------

  /** Whatever the servers do, every question stays within its budget. */
  lemma BudgetsKept(family: IpFamily, servers: seq<Server>, start: nat, deadline: nat)
    ensures WithinBudgets(Queries(family, servers, start, deadline), start, deadline)
  {
    hide Queries, FamilyQuery, Budget;
    var qs := Queries(family, servers, start, deadline);
    forall i | 0 <= i < |qs| && Asked(qs, start, deadline, i)
      ensures qs[i].elapsed <= BudgetOf(qs, start, deadline, i)
    {
      assert ClockAt(qs, start, i) < deadline;
      QueryAt(family, servers, start, deadline, i);
      FamilyKeepsBudget(family, servers[i], BudgetOf(qs, start, deadline, i));
    }
  }

  /**
   * Failover fairness. Each server that is asked gets at least an equal share of the whole time, capped, and is done
   * by the deadline; with a nanosecond per server, none is left out unless an earlier one answered.
   */
  lemma FailoverIsFair(family: IpFamily, servers: seq<Server>, start: nat, deadline: nat, i: nat)
    requires i < |servers|
    ensures var qs := Queries(family, servers, start, deadline);
            && (Asked(qs, start, deadline, i) ==>
                  && start <= deadline
                  && BudgetOf(qs, start, deadline, i) >= Min(Share(deadline - start, |servers|), DNS_QUERY_CAP)
                  && ClockAt(qs, start, i + 1) <= deadline)
            && (start + |servers| <= deadline && (forall j :: 0 <= j < i ==> !Answers(qs[j])) ==>
                  Asked(qs, start, deadline, i))
  {
    hide Queries, Share, Asked, Answers, WithinBudgets, BudgetOf;
    var qs := Queries(family, servers, start, deadline);
    BudgetsKept(family, servers, start, deadline);
    if Asked(qs, start, deadline, i) {
      FairBudgets(qs, start, deadline, i);
      NeverOverruns(qs, start, deadline, i);
    }
    if start + |servers| <= deadline && forall j :: 0 <= j < i ==> !Answers(qs[j]) {
      EveryServerReached(qs, start, deadline, i);
    }
  }

  /** A server that is asked answers exactly when it is live for the budget of its turn. */
  lemma AnswersAtTurn(family: IpFamily, servers: seq<Server>, start: nat, deadline: nat, i: nat)
    requires i < |servers| && Asked(Queries(family, servers, start, deadline), start, deadline, i)
    ensures var qs := Queries(family, servers, start, deadline);
            && qs[i] == FamilyQuery(family, servers[i], BudgetOf(qs, start, deadline, i))
            && (Answers(qs[i]) <==> Live(family, servers[i], BudgetOf(qs, start, deadline, i)))
  {
    hide Queries, FamilyQuery, Budget, Answers, Live;
    var qs := Queries(family, servers, start, deadline);
    assert ClockAt(qs, start, i) < deadline;
    QueryAt(family, servers, start, deadline, i);
    AnswersIffLive(family, servers[i], BudgetOf(qs, start, deadline, i));
  }

  /** An equal share of the whole time, capped. */
  ghost function FairShare(start: nat, deadline: nat, n: nat): nat
    requires n > 0 && start <= deadline
  {
    Min(Share(deadline - start, n), 3_000_000_000)
  }

  /**
   * The first server that is live for its fair share is used, if none before it answers: resolution succeeds with that
   * server's own addresses, within a budget of at least the share.
   */
  lemma LiveServerWins(family: IpFamily, servers: seq<Server>, start: nat, deadline: nat, i: nat,
                       r: Result<seq<IpAddr>, Failure>, budgets: seq<nat>)
    requires Resolves(Queries(family, servers, start, deadline), start, deadline, r, budgets)
    requires i < |servers| && start + |servers| <= deadline
    requires Live(family, servers[i], FairShare(start, deadline, |servers|))
    requires forall j :: 0 <= j < i ==> !Answers(Queries(family, servers, start, deadline)[j])
    ensures |budgets| == i + 1 && budgets[i] >= FairShare(start, deadline, |servers|)
    ensures r.Ok? && r.value != [] && FamilyQuery(family, servers[i], budgets[i]).reply == Ok(r.value)
  {
    hide Queries, FamilyQuery, Share, Live, BudgetOf;
    var qs := Queries(family, servers, start, deadline);
    FailoverIsFair(family, servers, start, deadline, i);
    AnswersAtTurn(family, servers, start, deadline, i);
    LiveMonotone(family, servers[i], FairShare(start, deadline, |servers|), BudgetOf(qs, start, deadline, i));
    StoppedByAnswer(qs, start, deadline, i);
    assert r.Ok?;
  }

  lemma DeadForTheCap(family: IpFamily, servers: seq<Server>, start: nat, deadline: nat, j: nat)
    requires j < |servers| && !Live(family, servers[j], DNS_QUERY_CAP)
    ensures !Answers(Queries(family, servers, start, deadline)[j])
  {
    hide Queries, FamilyQuery, Live, Answers, ClockAt, Share;
    var now := ClockAt(Queries(family, servers, start, deadline), start, j);
    var budget := Allowance(now, deadline, |servers| - j);
    QueryAt(family, servers, start, deadline, j);
    AnswersIffLive(family, servers[j], budget);
    if Live(family, servers[j], budget) {
      LiveMonotone(family, servers[j], budget, DNS_QUERY_CAP);
    }
  }

  /** The same with the earlier servers judged beforehand too: dead for the cap is dead for every budget. */
  lemma FirstLiveServerWins(family: IpFamily, servers: seq<Server>, start: nat, deadline: nat, i: nat,
                            r: Result<seq<IpAddr>, Failure>, budgets: seq<nat>)
    requires Resolves(Queries(family, servers, start, deadline), start, deadline, r, budgets)
    requires i < |servers| && start + |servers| <= deadline
    requires Live(family, servers[i], FairShare(start, deadline, |servers|))
    requires forall j :: 0 <= j < i ==> !Live(family, servers[j], 3_000_000_000)
    ensures |budgets| == i + 1 && budgets[i] >= FairShare(start, deadline, |servers|)
    ensures r.Ok? && r.value != [] && FamilyQuery(family, servers[i], budgets[i]).reply == Ok(r.value)
  {
    hide Queries, FamilyQuery, Live, Resolves, FairShare, Answers;
    forall j | 0 <= j < i
      ensures !Answers(Queries(family, servers, start, deadline)[j])
    {
      DeadForTheCap(family, servers, start, deadline, j);
    }
    LiveServerWins(family, servers, start, deadline, i, r, budgets);
  }

  // ---------------------------------------------------------------------------
  // A live A record behind a fast empty AAAA reply
  // ---------------------------------------------------------------------------

  /** Its only address needs 200 ms; that it has no AAAA record is known after 1 ms. */
  ghost const SLOW_A: Server := Server(Query(200_000_000, Ok([V4([10, 0, 0, 1])])), Query(1_000_000, Ok([])), true)

  lemma SlowAIsHidden()
    ensures !Live(Auto, SLOW_A, DNS_QUERY_CAP) && Live(V4Only, SLOW_A, DNS_QUERY_CAP)
    ensures FamilyQuery(Auto, SLOW_A, DNS_QUERY_CAP).reply == Ok([])
  {
    hide Canonical;
    var ip: IpAddr := V4([10, 0, 0, 1]);
    assert SLOW_A.a.reply.value == [ip];
    assert ip in SLOW_A.a.reply.value && IsV4(ip);
    assert HasAddress(SLOW_A.a.reply, IsV4);
    assert !HasAddress(SLOW_A.aaaa.reply, IsV6);
    CollectedNonEmpty(SLOW_A.aaaa.reply, IsV4);
    CollectedNonEmpty(SLOW_A.aaaa.reply, IsV6);
    assert Within(SLOW_A.a, DNS_QUERY_CAP) == SLOW_A.a && Within(SLOW_A.aaaa, DNS_QUERY_CAP) == SLOW_A.aaaa;
    var none: seq<IpAddr> := [];
    assert Canonical(none, IsV4) == none && Canonical(Collected(SLOW_A.aaaa.reply), IsV6) == none;
    assert FirstError(FirstError(None, SLOW_A.aaaa.reply), Ok([])) == None;
    assert none + none == none;
    assert BothFamilies(SLOW_A.a.reply, SLOW_A.aaaa.reply, false, false) == Ok(none);
  }

  lemma WholeShare()
    ensures FairShare(0, 3_000_000_000, 1) == DNS_QUERY_CAP == Budget(3_000_000_000, 1)
  {}

  lemma SoleServerFails(r: Result<seq<IpAddr>, Failure>, budgets: seq<nat>)
    requires Resolves(Queries(Auto, [SLOW_A], 0, 3_000_000_000), 0, 3_000_000_000, r, budgets)
    ensures r == Err(NoAddresses(0))
  {
    hide Queries, FamilyQuery, Share, Budget;
    var qs := Queries(Auto, [SLOW_A], 0, 3_000_000_000);
    SlowAIsHidden();
    WholeShare();
    QueryAt(Auto, [SLOW_A], 0, 3_000_000_000, 0);
    assert ClockAt(qs, 0, 0) == 0 && Asked(qs, 0, 3_000_000_000, 0);
    assert qs[0].reply == Ok([]);
  }

  /**
   * With three seconds left and no other server, `Auto` gives up on that server after 151 ms and reports that it has no
   * addresses, while asking for IPv4 alone finds the one it has.
   */
  lemma FastEmptyReplyHidesAddress(r: Result<seq<IpAddr>, Failure>, budgets: seq<nat>)
    ensures !Live(Auto, SLOW_A, DNS_QUERY_CAP) && Live(V4Only, SLOW_A, DNS_QUERY_CAP)
    ensures Resolves(Queries(Auto, [SLOW_A], 0, 3_000_000_000), 0, 3_000_000_000, r, budgets) ==> r == Err(NoAddresses(0))
    ensures Resolves(Queries(V4Only, [SLOW_A], 0, 3_000_000_000), 0, 3_000_000_000, r, budgets) ==> r.Ok?
  {
    hide Queries, Resolves, FairShare;
    SlowAIsHidden();
    if Resolves(Queries(Auto, [SLOW_A], 0, 3_000_000_000), 0, 3_000_000_000, r, budgets) {
      SoleServerFails(r, budgets);
    }
    if Resolves(Queries(V4Only, [SLOW_A], 0, 3_000_000_000), 0, 3_000_000_000, r, budgets) {
      WholeShare();
      FirstLiveServerWins(V4Only, [SLOW_A], 0, 3_000_000_000, 0, r, budgets);
    }
  }
}
