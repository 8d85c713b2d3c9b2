# httprove verification model

httprove probes HTTP services: it resolves a host, connects, sends a request, follows redirects, repeats on a schedule,
and summarizes, compares and exports what it saw. This project models the parts of it that are algorithms or state
machines of their own and proves what a user of the tool relies on:

* the DNS wire codec (query encoder, name reader and skipper, three answer walkers, client-subnet option), the order and
  time budget in which DNS servers are asked, and the merging of address families;
* SHA-256, hexadecimal text, archive checksums, base64 and PEM;
* the statistics collector, from the Welford accumulator to the counters;
* the redirect loop, the keep-alive prober, the probe scheduler, the breach tracker and the certificate-check pool;
* service fingerprints and their difference, span timing and trace identifiers.

Code that changes state step by step is written as methods over arrays, local buffers and class fields, each proved
against a ghost function or relation; the laws are lemmas about those. Reference sides (the FIPS 180-4 recursion, the
RFC 1035 message builder and name relation, the RFC 4648 encoder) are written independently of the code they judge.
Octets are numbers below 256 or 8-bit vectors, times are integer nanoseconds, `f64` is modelled as `real`. Everything
that comes from outside (responses, clocks, server replies, task completion order, URL joining) is an arbitrary
parameter, so each theorem holds for every behaviour of the outside world.

Layout: `Bytes`, `Bits`, `Sequences`, `Sorting`, `Text`, `Wrappers`, `Arithmetic`, `Types` and `Headers` are shared
vocabulary; every other file models one component and names the source file in its first line.

Findings where the code and its comments or the obvious expectation part:

* A `Recover` alert can come without a `Breach` alert of its own incident, since debounce and cooldown suppress only the
  latter. `Watch.RecoveriesPairedIff` gives the exact policies for which every recovery is announced.
* With both families asked for, a fast empty reply of one hides the addresses of the other: 150 ms after it the server
  counts as having none, however much of its budget is left. `DnsFailover.FastEmptyReplyHidesAddress` gives the server,
  `DnsFailover.AnswersIffLive` the exact condition, and `DnsFailover.FirstLiveServerWins` what failover then guarantees.
* `make_traceparent_from` passes an all-zero 32-digit trace id through, and upper-case digits too, though W3C Trace
  Context forbids both (`Otlp.ZeroTraceIsAccepted`, `Otlp.UpperCaseIsAccepted`; `Otlp.MakeTraceparentFrom` has the exact
  conditions). The one place that calls it, src/lib.rs:248-253, passes a fresh id, and then the header is always well
  formed (`Otlp.InjectTraceparent`).
* `base64_decode` accepts texts that no encoder writes, ignoring bits left over in the last letter: "QR==" decodes like
  "QQ==" (`Pem.LeftoverBitsAreAccepted`). `Pem.EncodingIff` gives the exact condition under which an accepted text is an
  encoding, `Pem.DecodesIff` what is accepted.
* `parse_name` refuses names whose chain of length octets exceeds 128 although they denote a name; the longest name
  RFC 1035 allows, one pointer away, is such a name (`DnsRoundTrip.LongestNameBehindPointer`).
  `DnsRoundTrip.DenotedNameReadsBack` gives the exact condition.
* The bit length SHA-256 appends is exact only below 2^61 octets (`Sha256.LengthFieldExact`).
* `diff_fingerprints` cannot see a repeated address. `Diff.RepetitionIsInvisible` gives the pair,
  `Diff.NothingReportedIff` the exact condition, and `Diff.ReportIsFaithful` shows that fingerprints of duplicate-free
  address lists are compared faithfully.

## Model

| member | source | states |
|---|---|---|
| Sha256.Digest | src/hash.rs:28-88 | For every message below 2^61 octets the array implementation returns the FIPS 180-4 digest; for longer ones, FIPS hashing of the wrapped-length padding |
| Sha256.PadMessage | src/hash.rs:34-40 | The push loop leaves exactly the message, one bit, the fewest zeros that complete a block, and the 64-bit length |
| Sha256.PaddedIsPad | src/hash.rs:34-40 | The source's padding is that of FIPS 180-4 section 5.1.1 on every admitted message |
| Sha256.LengthFieldExact | src/hash.rs:34-40 | The appended length field is the true bit length if and only if the message is below 2^61 octets |
| Sha256.PaddingInjective | src/hash.rs:34-40 | Two admitted messages with the same padded form are equal |
| Sha256.ExpandSchedule | src/hash.rs:44-55 | Whatever the reused schedule array held before, afterwards it holds exactly W_0..W_63 of the block |
| Sha256.StepRound | src/hash.rs:57-77 | The eight in-place assignments of a round compute the simultaneous update of FIPS 180-4 section 6.2.2 |
| Sha256.CompressBlock | src/hash.rs:43-81 | One chunk turns the chaining array into the standard's next intermediate hash value |
| Sha256.WriteDigest | src/hash.rs:83-87 | The state is written out big-endian, most significant word first |
| Fips180.FromBEOctets | src/hash.rs:46 | The first octet of a block word is its most significant one, each octet read off the word by shift and mask |
| Fips180.WordRoundTrip | src/hash.rs:85 | A word written out most significant octet first and read in again is the same word |
| Fips180Constants.RoundConstantsAreCubeRoots | src/hash.rs:17-26 | Every round constant is the first 32 fraction bits of the cube root of its prime (section 4.2.2), by integer inequalities |
| Fips180Constants.InitialValueIsSquareRoots | src/hash.rs:29-32 | The initial hash value is the first 32 fraction bits of the square roots of 2, 3, 5, 7, 11, 13, 17 and 19 (section 5.3.3) |
| Hex.Encode | src/otlp.rs:188-195 | Two lower-case digits an octet, in order |
| Hex.Decode | src/otlp.rs:174-185 | The octets that digit pairs denote; other characters read as zero and an odd last one is dropped |
| Hex.ValueOfText | src/otlp.rs:174-195 | Reading back written octets gives the same octets |
| Hex.TextOfValue | src/otlp.rs:174-195 | Writing back what was read gives the same text if and only if it was even-length lower-case hex |
| Download.DigestHex | src/update/download.rs:120-127 | The hex text of the hash |
| Download.VerifySum | src/update/download.rs:61-69 | Data is accepted exactly when the published sum is 64 hexadecimal digits, of either case, that denote its digest, the FIPS 180-4 one below 2^61 octets |
| Download.SumPinsDigest | src/update/download.rs:61-69 | One published sum never accepts data with two different digests |
| Download.LowersToTextIff | src/update/download.rs:63 | A sum lowers to the text of given octets exactly when it is hexadecimal in either case and denotes them |
| DnsName.ParseName | src/dns.rs:906-947 | On every buffer and offset: success if and only if the octets denote a name (RFC 1035 section 4.1.4) within 128 length octets, with that name and the skipper's end offset as result |
| DnsName.SkipName | src/dns.rs:954-992 | The end of a name without following pointers, with the exact error otherwise, on every buffer |
| DnsName.FollowIffDenotes | src/dns.rs:906-947 | The bounded walk finds labels if and only if some derivation of the RFC relation fits its budget |
| DnsName.DenotationUnique | src/dns.rs:906-947 | An offset denotes at most one name, along one chain of length octets |
| DnsName.FollowedNamesCanBeSkipped | src/dns.rs:906-992 | Whatever the name reader accepts the skipper accepts |
| DnsName.FollowBounds | src/dns.rs:906-947 | An accepted name has at most 127 labels (fewer than the budget), each of 1 to 63 octets |
| DnsName.NameAtIffDenotes | src/dns.rs:906-947 | The reader's verdict in terms of the RFC relation alone, both directions |
| DnsName.LoopErrorIff | src/dns.rs:912-916 | The loop error is returned if and only if the chain of length octets goes on for the whole budget |
| DnsName.CycleIsRefused | src/dns.rs:906-947 | A name whose labels and pointers lead into a cycle of any length denotes nothing and is refused with the loop error |
| DnsName.SelfPointerIsRefused | src/dns.rs:906-992 | The shortest cycle, a pointer at itself, is refused though the skipper passes it |
| DnsMessage.AnswerSectionStart | src/dns.rs:817-834 | Where the answers start and how many are announced, or the first error met |
| DnsMessage.ReadRecord | src/dns.rs:773-789 | Type and data extent of a record, never outside the buffer, with the exact error otherwise |
| DnsMessage.ParseAnswers | src/dns.rs:748-814 | The A records of 4 and AAAA records of 16 octets in order, or the first error |
| DnsMessage.ReadText | src/dns.rs:857-868 | The text of a TXT record: its segments run together, the last clipped to the record |
| DnsMessage.ParseTxt | src/dns.rs:837-873 | The text of every TXT record in order, or the first error |
| DnsMessage.ParsePtr | src/dns.rs:876-902 | The name of the first PTR record, nothing if there is none, or the first error |
| DnsMessage.RecordsByOctets | src/dns.rs:781-808 | On the wire: TYPE 0,1 with four octets is an IPv4 address, 0,28 with sixteen an IPv6 address, any other length nothing; 0,16 is a text, 0,12 the pointer |
| DnsMessage.AddressesAndTextsAgree | src/dns.rs:748-873 | On every buffer the address and text walkers succeed together and otherwise report the same error |
| DnsMessage.PtrWalkAgrees | src/dns.rs:748-902 | On every buffer the PTR walker finds nothing if and only if the answers can be reached, no record is bad and none is a PTR record, and then the address walker accepts; where the answers cannot be reached both report the same error |
| DnsMessage.PtrDecidedAt | src/dns.rs:748-902 | Otherwise the first bad or PTR record decides: the name its data denotes or the error of reading it, or the error the address walker reports too |
| DnsRoundTrip.AnswersReadBack | src/dns.rs:748-873 | Any built message (any questions, up to 65535 records, plain or compressed owner names, any trailing sections) is read back exactly: addresses in order and the text of each TXT record |
| DnsRoundTrip.SegmentsReadBack | src/dns.rs:857-868 | TXT segments encoded as in RFC 1035 section 3.3.14 read back concatenated |
| DnsRoundTrip.TxtReadsBack | src/dns.rs:837-873 | TXT lookup on any built message gives, for each TXT record in order, the segments it was built from run together |
| DnsRoundTrip.PtrReadsBack | src/dns.rs:876-902 | The first PTR target of any built message is returned in dotted form if and only if its whole chain fits 128 length octets, else the loop error |
| DnsRoundTrip.LocateSections | src/dns.rs:817-834 | In any built message the walkers find the answer section and its count |
| DnsRoundTrip.PointedNameDenotes | src/dns.rs:934-942 | Labels ending in a compression pointer denote themselves followed by what the target denotes |
| DnsRoundTrip.PlainNameReadsBack | src/dns.rs:906-947 | A pointer-free encoded name reads back exactly when it has at most 127 labels |
| DnsRoundTrip.DenotedNameReadsBack | src/dns.rs:906-947 | A denoted name is read back exactly when its chain fits the budget, and else refused as a loop |
| DnsRoundTrip.LongChainRunsOut | src/dns.rs:912-916 | A chain longer than the budget ends in the loop error and no other |
| DnsRoundTrip.LongestNameBehindPointer | src/dns.rs:912-916 | A 255-octet name of 127 labels is read where it stands, and refused as a loop one pointer away |
| DnsQuery.EncodeQName | src/dns.rs:721-742 | Succeeds if and only if every label of the host has 1 to 63 octets, appending its RFC 1035 encoding; the error names the first bad label |
| DnsQuery.HostIsItsLabels | src/dns.rs:723-729 | The labels of a host hold no dot and dotted together are the host less one trailing dot |
| DnsQuery.LabelsReadBack | src/dns.rs:723-729 | They are the only such labels: nonempty dot-free labels are those of their dotted form, with or without a trailing dot |
| Sequences.SplitJoin | src/dns.rs:729 | Splitting what was joined gives the pieces back when none holds the separator |
| DnsQuery.EncodeQuery | src/dns.rs:671-718 | The packet is the reference builder's message: one question, no answers, and the OPT record as tail |
| DnsQuery.AppendOpt | src/dns.rs:694-715 | The OPT record of RFC 6891 section 6.1.2 with the client-subnet option of RFC 7871 section 6, both lengths exact |
| DnsQuery.OptOctets | src/dns.rs:694-715 | The OPT record octet by octet: root name, TYPE 41, payload 4096, both lengths, option code 8, family, prefix, scope 0, address |
| DnsQuery.QueryOctets | src/dns.rs:679-691 | The packet octet by octet: id, recursion desired, the four counts, name, type, class IN |
| DnsQuery.QuestionReadsBack | src/dns.rs:671-742 | The response reader lands right after the question of every query with no answers, and reads the host less one trailing dot if and only if it has at most 127 labels |
| DnsQuery.SubnetReadsBack | src/dns.rs:693-715 | An OPT parser recovers family, prefix and address from the tail, which ends exactly at the packet's end |
| DnsEcs.ParseEcs | src/dns.rs:631-663 | Refused exactly when the prefix exceeds the address width; else ceil(prefix/8) octets of the masked address |
| DnsEcs.TruncatedBits | src/dns.rs:646-656 | The sent octets agree with the address on every prefix bit and are zero after |
| DnsEcs.TruncationIsCanonical | src/dns.rs:646-656 | Two addresses of one family are sent alike at a prefix if and only if they agree on its bits |
| DnsFailover.ResolveViaServers | src/dns.rs:302-328 | For servers of any behaviour: the answer of the first that has addresses among those whose turn comes before the deadline; otherwise the last failure; which servers are asked and with what budget |
| DnsFailover.FairBudgets | src/dns.rs:311-326 | For any queries within their budgets, every asked server gets at least min(floor(T/n), 3 s) |
| DnsFailover.ShareKept | src/dns.rs:317-319 | The share of the remaining time per remaining server never falls below the first share |
| DnsFailover.EveryServerReached | src/dns.rs:311-326 | With at least one nanosecond per server, a server is asked whenever none before it answered |
| DnsFailover.LiveServerWins | src/dns.rs:311-326 | A server that is live for its fair share of the time is used if no earlier one answers: resolution succeeds with its own addresses |
| DnsFailover.FirstLiveServerWins | src/dns.rs:311-326 | The same with every condition on the servers themselves: live for min(floor(T/n), 3 s), and each earlier one dead even for 3 s |
| DnsFailover.AnswersIffLive | src/dns.rs:339-405 | A server answers within a budget if and only if it has an address of the family, replies within the budget and, in `Auto`, at most 150 ms after the other family |
| DnsFailover.AnswersAtTurn | src/dns.rs:311-326 | So a server that is asked answers if and only if it is live for the budget of its turn |
| DnsFailover.LiveMonotone | src/dns.rs:339-405 | More time never makes a live server dead |
| DnsFailover.FastEmptyReplyHidesAddress | src/dns.rs:354-402 | A server whose A record takes 200 ms is reported to have no addresses in `Auto` because its empty AAAA reply took 1 ms, while IPv4 alone finds it |
| DnsFailover.FirstAnswerIsReached | src/dns.rs:311-326 | The first query that answers is reached, and no other answering query is asked |
| DnsFailover.NeverOverruns | src/dns.rs:311-326 | The time spent on servers never exceeds the whole budget |
| DnsFailover.QueryServerFamily | src/dns.rs:339-405 | Result, error and time taken by one server for every family, both question times and the 150 ms grace |
| DnsFailover.FirstFailureIsReported | src/dns.rs:365-418 | When both questions fail, the failure that came first is the one reported |
| DnsFailover.OneFailureIsReported | src/dns.rs:397-418 | A lone failure is reported when the other family has no address |
| DnsFailover.FamilyKeepsBudget | src/dns.rs:354-381 | Grace included, one server never takes longer than its budget, since each question is under its own timeout |
| DnsFailover.BudgetsKept | src/dns.rs:311-326 | So the failover loop keeps every query within its budget, whatever the servers do |
| DnsFailover.FailoverIsFair | src/dns.rs:311-326 | With nothing assumed of the servers: each asked one gets min(floor(T/n), 3 s) and is done by the deadline, and with T >= n none is left out unless an earlier one answered |
| DnsFailover.AppendMissing | src/dns.rs:391-396 | The membership test of the merge loop never drops an address |
| DnsFailover.CanonicalKept | src/dns.rs:342-344 | Retaining, sorting and deduplicating keeps exactly the addresses of the family |
| DnsFailover.CanonicalDistinct | src/dns.rs:383-388 | and leaves a strictly increasing list |
| DnsFailover.MergeIsOrdered | src/dns.rs:383-396 | The merged answer is strictly increasing, IPv4 first, and holds exactly the addresses of both replies, whichever came first |
| DnsFailover.IpOrderIsNumeric | src/dns.rs:385-388 | Addresses stand by family, IPv4 first, then by the number their octets denote |
| PhaseAccumulation.PhaseAccum.Push | src/stats.rs:96-116 | After any pushes: mean is the arithmetic mean, m2 the sum of squared deviations, min and max the extremes, `recent` the last min(count, 8192) samples |
| PhaseAccumulation.PhaseAccum.Snapshot | src/stats.rs:119-145 | The summary describes the samples pushed, the standard deviation being the non-negative root of their mean squared deviation; none if there are none |
| PhaseAccumulation.MeanStep | src/stats.rs:106-108 | Welford's update yields the mean of the longer run |
| PhaseAccumulation.DeviationStep | src/stats.rs:106-109 | Welford's update yields the squared deviations around the new mean |
| PhaseAccumulation.ShiftCentre | src/stats.rs:106-109 | Squared deviations around any two centres differ by the moment formula |
| PhaseAccumulation.PercentileIsNearestRank | src/stats.rs:124-132 | At least `rank` window samples do not exceed the percentile and fewer than `rank` lie below it, the rank being clamped for any percentage |
| PhaseAccumulation.PercentileInPercent | src/stats.rs:124-132 | For 0 < p <= 100 the percentile is a sample, at least p percent of the samples do not exceed it and fewer than p percent lie below it |
| PhaseAccumulation.SummaryPercentiles | src/stats.rs:124-144 | So do p50, p95 and p99 of a summary split the last min(count, 8192) samples |
| PhaseAccumulation.PercentilesOrdered | src/stats.rs:124-132 | A higher percentage never gives a smaller percentile |
| PhaseAccumulation.SummaryOrdered | src/stats.rs:134-144 | min <= p50 <= p95 <= p99 <= max and min <= mean <= max in every summary |
| Stats.StatsCollector.constructor | src/stats.rs:185-190 | A new collector stands for the empty history |
| Stats.StatsCollector.Record | src/stats.rs:193-275 | The history grows by the probe and every counter, map and accumulator follows from the new history |
| Stats.StatsCollector.Reset | src/stats.rs:355-359 | The empty history again, the threshold kept |
| Stats.StatsCollector.RecordCounts | src/stats.rs:201-208 | Success, expectation-failure and status counts of the longer list of successes |
| Stats.StatsCollector.RecordHops | src/stats.rs:211-220 | Hop, reuse and version counts of the longer list of hops |
| Stats.StatsCollector.RecordAnswer | src/stats.rs:224-236 | The change counter and baseline of the longer list of nonempty sorted answers |
| Stats.StatsCollector.RecordApdex | src/stats.rs:268-274 | Within T satisfied, within 4T tolerating, otherwise neither |
| Stats.PhaseTable.Record | src/stats.rs:239-263 | Each accumulator is fed exactly its samples of the successful probes |
| Stats.TallyTotal | src/stats.rs:216-219 | The counts of a map bumped once per key add up to the number of keys |
| StatsLaws.Conservation | src/stats.rs:193-275 | After any records and resets: sent = succeeded + failed, version counts add up to all hops, reused hops within them, Apdex classes within successes, and Ttfb, Download and Total have one sample a success |
| StatsLaws.TcpSamplesSplit | src/stats.rs:246-249 | Every success gives a TCP sample or reused all its connections |
| StatsLaws.FailuresAreInvisible | src/stats.rs:196-200 | Dropping the failed probes from a history changes nothing but `sent` and `failed` |
| StatsLaws.ChangesCounted | src/stats.rs:222-236 | `dns_answer_changes` is the number of neighbouring nonempty sorted answers that differ |
| StatsLaws.AnswerOrderIsInvisible | src/stats.rs:222-228 | Permuting any probes' addresses leaves the list of answers unchanged |
| StatsLaws.AnswerChangesIgnoreOrder | src/stats.rs:222-236 | and so the change counter and baseline of the collector |
| StatsLaws.AnswerIsFinalAddresses | src/stats.rs:224-229 | The answer of a probe is the ascending permutation of the addresses of its last hop, if there are any |
| StatsLaws.TallyCounts | src/stats.rs:206-219 | A bumped map holds, for each key, how often the key occurred |
| StatsLaws.StatusCountsAre | src/stats.rs:206-208 | Each status counter is the number of successful probes whose last hop answered that status |
| StatsLaws.FailuresCounted | src/stats.rs:196-204 | Failed are the probes with an error; expectation-failed the other ones with a broken expectation |
| StatsLaws.VersionCountsAre | src/stats.rs:211-220 | Each version counter is the number of hops of successful probes whose version has that label |
| StatsLaws.KnownVersionLabels | src/stats.rs:365-373 | The labels of the six versions the probe engine reports |
| StatsLaws.OtherVersionLabels | src/stats.rs:374-377 | Any other version keeps what follows "HTTP/"; what does not begin so is unknown |
| StatsLaws.SamplesOf | src/stats.rs:239-257 | The phase samples of one success: sums over its hops, DNS and TLS only where some hop has them, TCP only unless all hops reused their connection |
| StatsLaws.GoodputIs | src/stats.rs:259-266 | Goodput is sampled exactly from 4096 bytes on with a positive download time, and is bytes per second |
| StatsLaws.ApdexCounted | src/stats.rs:268-274 | Satisfied are the successes with total <= T, tolerating those with T < total <= 4T |
| Types.SumOverHops | src/types.rs:324-341 | Each phase added up over all hops of a probe, as the collector's samples and the exported spans use it |
| Types.SumsByField | src/types.rs:324-341 | Each field of the sum is that field added up over the hops; DNS and TLS are absent if and only if no hop has them |
| Types.LeafIsOfLastChain | src/types.rs:319-321 | The leaf certificate is the first one of the last hop that presented any |
| RedirectLoop.Probe | src/probe.rs:90-192 | Every run is a chain: hop i answers request i; GET without body if and only if an earlier hop was 301, 302 or 303; the resolve override only on hop 0; each followed hop redirects to the next; the reason it stops |
| RedirectLoop.BodyDropIsExact | src/probe.rs:185-189 | A request is a bodiless GET exactly from the first 301, 302 or 303 on, and the configured one before |
| RedirectLoop.TargetIsExact | src/probe.rs:123-137 | A hop has a redirect target exactly when its status is 300 to 399 and its first Location header, in any letter case, joins to its URL |
| RedirectLoop.ChainIsBoundedAndLinked | src/probe.rs:102-192 | At most max_redirects + 1 hops, and every non-final hop is a 3xx whose target is the next hop's URL |
| RedirectLoop.SuccessEndsTheChain | src/probe.rs:156-163 | Success means at least one hop and, when redirects are followed, a last hop that points nowhere |
| RedirectLoop.LimitIsExact | src/probe.rs:161-172 | "Too many redirects" if and only if redirects are followed and max_redirects + 1 hops all redirected |
| Headers.FindIsFirstMatch | src/probe.rs:1094-1099 | Header lookup gives the first header of that name in any letter case, nothing if and only if there is none |
| KeepAlive.KeepAliveProber.constructor | src/probe.rs:1156-1161 | A new prober holds no connection |
| KeepAlive.KeepAliveProber.Probe | src/probe.rs:1164-1206 | Result and held connection of one call, a connection closed meanwhile being replaced in the same call |
| KeepAlive.KeepAliveProber.ProbeReused | src/probe.rs:1209-1297 | A request on the held connection; any failure drops it |
| KeepAlive.KeepAliveProber.ProbeConnect | src/probe.rs:1300-1366 | A fresh connection is kept only if connecting and the first request both succeed |
| KeepAlive.DriveRun | src/probe.rs:1155-1367 | Driving the object over any weather yields the modelled run |
| KeepAlive.HeldIsGrounded | src/probe.rs:1164-1366 | A held connection was made by an earlier fresh success and only reused since |
| KeepAlive.ReuseIsGrounded | src/probe.rs:1164-1366 | A reused hop has an earlier fresh hop with every call between successful and the same address, TLS, chain and version |
| KeepAlive.ReuseIffPreviousSucceeded | src/probe.rs:1176-1189 | A successful call reuses if and only if the previous call succeeded and its connection is still open; never right after an error |
| KeepAlive.SuccessfulCall | src/probe.rs:1209-1366 | A successful call reports one hop with status, headers, size and times of its exchange, and the broken expectations |
| KeepAlive.CallTarget | src/probe.rs:1103-1109 | and the target of the first Location of a 3xx, recorded though not followed |
| KeepAlive.CallConnection | src/probe.rs:1209-1366 | A call that connects reports the facts and phases of its connection; one that reuses reports no connection phases |
| KeepAlive.FailedCall | src/probe.rs:1209-1366 | A failed call reports no hop, no broken expectation, and the error of the first stage that failed |
| KeepAlive.KeepAliveConservation | src/stats.rs:210-249 | A collector fed a keep-alive run has hops_reused + TCP samples = succeeded = hops_total |
| Runner.StepInv | src/runner.rs:67-126 | Every step of a task, the environment or the consumer keeps the scheduler's invariant |
| Runner.Invariance | src/runner.rs:39-126 | so it holds in every interleaving of any number of tasks |
| Runner.DeliveredInOrder | src/runner.rs:44-125 | For every target the received results, and received with queued ones, are 0, 1, 2, ... without gap, repeat or reordering, and the channel holds at most 64 |
| Runner.NoCompletedProbeLost | src/runner.rs:108-124 | While the receiver lives every completed probe is received, queued or still being sent, cancelled or not |
| Runner.StartsSpaced | src/runner.rs:91-106 | Starts j and k of one target are at least (k - j) intervals apart |
| Runner.FirstStartStaggered | src/runner.rs:48-54 | The first probe of target i of n never starts before interval * i / n, to the nanosecond |
| Runner.FirstPollFixesStart | src/runner.rs:54-81 | A task first polled at t is due no later than t + interval * i / n and less than a nanosecond earlier |
| Runner.DueAfterStart | src/runner.rs:105-106 | In every reachable state a task that has started a probe is due exactly one interval after that start |
| Runner.PausedTaskWaits | src/runner.rs:98-103 | A task that finds the pause flag set reads it again no earlier than 100 ms later, in any interleaving |
| Runner.CountedRunDeliversAll | src/runner.rs:84-89 | An uncancelled run of n probes per target whose tasks have ended delivered exactly 0..n-1 of each |
| Runner.CountNeverExceeded | src/runner.rs:84-89 | No target ever delivers more than the count |
| Runner.NeverWedged | src/runner.rs:83-125 | Every unfinished task can move after some wait, or faces a full channel the consumer can drain |
| Runner.CountedRunCanFinish | src/runner.rs:67-126 | From every reachable uncancelled state of a counted run with a live receiver some continuation ends every task with exactly 0..n-1 received from each |
| Runner.CancelledRunCanEnd | src/runner.rs:92-117 | From every reachable cancelled state, counted or endless, paused or not, some continuation ends every task without time passing |
| Runner.OnlyFullChannelHoldsBack | src/runner.rs:92-122 | After cancel an unfinished task can close at once unless it is sending into a full channel whose receiver lives, and only then |
| Runner.PausedStartsNothing | src/runner.rs:98-106 | Between a pause and the next resume no probe of any target starts, in any interleaving |
| Runner.WorkIsPaidOff | src/runner.rs:83-125 | In a counted run each working step lowers the work left and no other step raises it |
| Runner.WorkBound | src/runner.rs:83-125 | A counted run takes at most 5n + 2 working steps per target in any interleaving |
| Watch.BreachTracker.Evaluate | src/watch.rs:42-74 | New state and event of one evaluation |
| Watch.Drive | src/watch.rs:42-74 | Evaluating a trace on one tracker gives the fires the laws below speak of |
| Watch.BreachIsExact | src/watch.rs:50-63 | Breach at step k if and only if the last max(1, breach_after) verdicts were breaches and every earlier alert is a cooldown old |
| Watch.DebounceIsExact | src/watch.rs:51-53 | The counter condition says exactly that the last verdicts were all breaches |
| Watch.CooldownIsExact | src/watch.rs:54-59 | The remembered time decides exactly whether any earlier alert is too recent |
| Watch.LastFireTracksTrace | src/watch.rs:59 | The remembered time is that of the latest breach alert |
| Watch.RecoverIsExact | src/watch.rs:64-73 | Recover at step k if and only if enabled, k good and k-1 a breach |
| Watch.RateLimit | src/watch.rs:50-63 | A run of duration D with cooldown c > 0 raises at most floor(D/c) + 1 breach alerts |
| Watch.AlertsCostTime | src/watch.rs:50-63 | n alerts take at least n - 1 cooldowns |
| Watch.RecoveriesPairedIff | src/watch.rs:50-73 | Every recovery follows an alert of its own incident if and only if recovery is off or nothing is suppressed |
| CertCheck.RunCertCheck | src/cert_check.rs:102-207 | A sorted permutation of one row per parsed target; exit 1 exactly when some row is an error or has fewer than zero days left |
| CertCheck.RunPool | src/cert_check.rs:122-162 | The pool terminates and in every completion order reports each queued target once |
| CertCheck.FillPool | src/cert_check.rs:129-135 | The first fill starts checks from the front of the queue until 16 run or none is left |
| CertCheck.StartInv | src/cert_check.rs:129-135 | The first fill leaves the pool full or the queue empty |
| CertCheck.FinishInv | src/cert_check.rs:137-162 | A completion reports the task's own target, so the "unknown" fallback is unreachable, and keeps the pool invariant |
| CertCheck.EveryOrderSafe | src/cert_check.rs:129-162 | The pool invariant holds after every sequence of completions |
| CertCheck.PoolBound | src/cert_check.rs:129-162 | At most 16 in flight, pending work implies 16 in flight, nothing dropped, drained exactly when all have completed |
| CertCheck.FinishReported | src/cert_check.rs:147-155 | The rows so far are the initial ones and one for each finished task |
| CertCheck.RowLeIsTotalPreorder | src/cert_check.rs:341-349 | The comparison is a total preorder, so the report is well defined |
| CertCheck.ReportOrder | src/cert_check.rs:341-349 | Errors first, then remaining days ascending, equals by display name |
| Lexical.LeIff | src/cert_check.rs:348 | Display names compare by the first difference, a prefix first |
| CertCheck.RowsShowTargets | src/cert_check.rs:147-155 | The row of the k-th queued endpoint shows its host, port, bracketed display and own outcome |
| CertCheck.InvalidRowsShowTargets | src/cert_check.rs:107-120 | A malformed target is a row showing the text as given, port 0 and its reason, and there are no other such rows |
| CertCheck.DisplayInjective | src/cert_check.rs:328-334 | Different endpoints are displayed differently as long as no host begins with a bracket |
| CertCheck.DisplayExamples | src/cert_check.rs:328-334 | A host name and an IPv6 literal as displayed |
| CertCheck.OneRowPerTarget | src/cert_check.rs:107-120 | Invalid and valid targets together account for every target once |
| CertCheck.ExitCodeMeaning | src/cert_check.rs:198-206 | Some row is an error or below zero days if and only if a target was malformed, failed its check or has fewer than zero days left |
| Pem.Base64Decode | src/chain.rs:252-286 | Ignoring '=' and ASCII white space, the octets of the letters in groups of four, or nothing |
| Pem.DecodeChunk | src/chain.rs:268-284 | One chunk is refused exactly when it is a single letter or holds a foreign one |
| Pem.DecodesIff | src/chain.rs:252-286 | Success if and only if all significant characters are in the alphabet and their count is not 1 modulo 4 |
| Pem.AlphabetInOrder | src/chain.rs:253-262 | The i-th letter of the RFC 4648 alphabet has the value i |
| Pem.IgnoredAnywhere | src/chain.rs:263-266 | '=', space, tab, line feed, form feed and carriage return change nothing wherever they stand |
| Pem.ForeignRefused | src/chain.rs:253-275 | Any other character outside the alphabet makes the whole text unreadable |
| Pem.LettersReadBackIff | src/chain.rs:268-284 | Accepted letters are the RFC 4648 letters of what they decode to if and only if the last one leaves no bit over |
| Pem.EncodingIff | src/chain.rs:252-286 | An accepted text carries an encoding, up to padding and white space, if and only if it leaves no bit over |
| Pem.LeftoverBitsAreAccepted | src/chain.rs:252-286 | "QR==" is no encoding yet decodes like "QQ==" |
| Pem.LettersDecode | src/chain.rs:252-286 | The letters RFC 4648 section 4 assigns to any octets decode to those octets |
| Pem.DecodeInvertsEncode | src/chain.rs:252-286 | Decoding inverts encoding with white space or padding inserted or dropped anywhere |
| Pem.FirstPemCertificate | src/chain.rs:222-232 | What stands between the first begin marker and the next end marker, decoded |
| Pem.EndFollowsBody | src/chain.rs:226 | The end marker found is the one right after the body |
| Pem.PemReadsBack | src/chain.rs:222-232 | Any line-wrapped PEM block whose begin marker is the first in the text gives back its octets |
| Pem.WrappedPemReadsBack | src/chain.rs:222-232 | The same with the two marker lines and the inserted blanks written out |
| Diff.DiffFingerprints | src/diff.rs:135-211 | The report lines, in order |
| Diff.DiffHeaderLines | src/diff.rs:215-228 | The header lines, in whitelist order |
| Diff.NothingReportedIff | src/diff.rs:135-228 | For any two fingerprints nothing is reported if and only if they agree up to order and repetition of addresses |
| Diff.ReportIsFaithful | src/diff.rs:80-211 | For probes with duplicate-free address lists the report is empty if and only if the fingerprints are equal |
| Diff.RepetitionIsInvisible | src/diff.rs:139-158 | Two different fingerprints that differ by a repeated address give an empty report |
| Diff.SwapExchangesTokens | src/diff.rs:139-157 | What is printed as added one way is printed as removed the other way, in the same order, and is exactly what is new |
| Diff.PrintedAddresses | src/diff.rs:140-156 | Splitting the printed line at spaces gives back exactly the added and the removed addresses, in order |
| Diff.ExtractedHeadersCompare | src/diff.rs:101-107 | Extracted header lists look alike to the comparison only if they are equal |
| Diff.FingerprintFields | src/diff.rs:80-121 | Every field of an extracted fingerprint: the last hop, its TLS session, and the leaf certificate |
| Diff.FingerprintHeaders | src/diff.rs:101-107 | Its header list has, for each whitelisted name, the first header of that name in the response |
| Diff.FieldLineReads | src/diff.rs:125-132 | A reader splitting a field line at its arrow finds the old value before it and the new one behind it |
| Diff.HeaderLineReads | src/diff.rs:215-228 | The same for header lines, an absent value reading as added or removed |
| Diff.CollectAddresses | src/probe.rs:484-491 | A connection records each acceptable address once, in the order of first occurrence, which is why the lists are duplicate-free |
| Decimal.DigitsInjective | src/diff.rs:168-169 | Different statuses print differently, so none is lost in text |
| Decimal.DigitsRead | src/diff.rs:168-169 | A number prints as the decimal digits that denote it |
| Otlp.BuildSpans | src/otlp.rs:249-269 | The spans tile time: first at the base, each end the next start, start <= end even when saturating; never empty, so the fallback is unreachable; and they are those of the phases of the timings |
| Otlp.NamedSpans | src/otlp.rs:249-261 | Each span covers, in whole nanoseconds from the base, the time of the phase whose name it bears, after the phases named before it |
| Otlp.PhaseDurations | src/otlp.rs:300-312 | The phases that took place, in time order, none negative |
| Otlp.MsToNanosMonotone | src/otlp.rs:350-360 | Longer times never convert to fewer nanoseconds, clamping and saturation included |
| Otlp.TilingConserves | src/otlp.rs:252-261 | Span lengths add up to the end of the last span less the base |
| Otlp.NewIds | src/otlp.rs:144-170 | 16 and 8 octets of the seed's SHA-256, neither ever all zero |
| Otlp.Repair | src/otlp.rs:163-169 | An identifier is left alone unless it is all zero |
| Otlp.MakeTraceparent | src/otlp.rs:110-115 | The version 00 header with the lower-case hex of the fresh trace and span identifiers, neither zero |
| Otlp.MakeTraceparentFrom | src/otlp.rs:126-132 | A given trace id is used verbatim and the span is fresh and not zero; the trace is zero if and only if a zero id was given, and the fields are lower-case hex if and only if no upper-case digit was |
| Otlp.ZeroTraceIsAccepted | src/otlp.rs:126-132 | Thirty-two zeros pass the check and denote the zero trace id |
| Otlp.UpperCaseIsAccepted | src/otlp.rs:126-132 | So do 32 upper-case digits, which reach the header as they are |
| Otlp.NewTraceIdHex | src/otlp.rs:119-122 | The lower-case hex of the fresh trace identifier |
| Otlp.FreshTraceIsWellFormed | src/otlp.rs:119-132 | A fresh trace id passes the check, is lower-case and denotes a non-zero identifier |
| Otlp.InjectTraceparent | src/lib.rs:248-253 | The header the program sends carries the trace id kept for the export and has lower-case non-zero fields |

## Left out

- DnsFailover.ResolveViaServers: starts after the client-subnet text has been parsed; a bad one fails before any server.
- DnsFailover.QueryServerFamily: binding and connecting the socket take no time, and timers fire exactly on time.
- DnsEcs.ParseEcs: starts from the parsed address and prefix; splitting and parsing the CIDR text is library behaviour.
- PhaseAccumulation.PhaseAccum.Snapshot: the square root is a parameter with the law of a square root; rounding and the
  ordering of NaN are not modelled.
- Otlp.MsToNanosMonotone: over exact reals, so the non-finite inputs the source maps to zero do not occur.
- Runner.PausedStartsNothing: reading the pause flag and recording the start are one step; a pause set between the two
  instructions still lets that probe start.
- Runner.CountedRunCanFinish: states that the run can be finished from everywhere, not that a scheduler does it; so does
  `Runner.CancelledRunCanEnd`.
- CertCheck.RunPool: tasks carry consecutive ids and the one to finish next is arbitrary; a crashed task is an error
  result.
- KeepAlive.KeepAliveProber.Probe: expectation failures of a result are an input.
- Download.DigestHex: the second SHA-256 in src/update/download.rs:143-204 is statement for statement the one in
  src/hash.rs and both are the one method `Sha256.Digest`. Code and standard share one table of round constants, which
  `Fips180Constants` ties to the cube roots that define it.
- Sockets, TLS, HTTP framing, timers and the tokio runtime: their outcomes are arbitrary parameters.
- URL parsing and joining, JSON, YAML, date formatting and UTF-8 replacement: names and TXT data are octets, joining and
  scheme are uninterpreted functions, addresses and dates appear as canonical text.
- The width of `u32` and `u64` counters: they are unbounded naturals.
- The library sort: a stable insertion sort proved to sort and permute stands for it.
- Query identifiers, reply matching and retries in `query_server`.
- Randomness quality of identifiers; only their shape and non-zero guarantee.
- Expectation evaluation, verdicts, TLS grade, cache audit, chain analysis, target-text parsing: single-pass rules.
- Terminal, HTML and Prometheus output, command-line wiring, self-update file handling, traceroute.
