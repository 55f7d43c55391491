# OxiGate: a verified model

This project models the decision and bookkeeping code of the OxiGate reverse proxy in Dafny and
proves properties of it that hold over whole runs: every input, every interleaving, every chunking
of a stream. Check it with `dafny verify dfyconfig.toml`.

| file | what it models |
|---|---|
| `RateLimit.dfy` | the per-IP GCRA rate limiter |
| `ProxyProtocol.dfy` | the PROXY protocol v1/v2 reader and the stream that replays a prefix |
| `LoadBalancer.dfy`, `Cyclic.dfy` | the four balancing algorithms; counting facts about cyclic reads |
| `Retry.dfy` | the retry loop of a proxied request |
| `ConnectionCounts.dfy` | `active_connections` under interleaved requests |
| `LoadShed.dfy` | the load-shedding middleware as a concurrent protocol |
| `Dispatcher.dfy` | accept loop, bounded channel, dispatcher, shutdown |
| `Health.dfy` | health-check hysteresis |
| `Router.dfy` | the route table |
| `Acl.dfy` | CIDR blocks and access lists |
| `BodyLimit.dfy` | body size limit and idle timeout |
| `Sticky.dfy` | cookie affinity, from Set-Cookie back to the balancer |
| `Text.dfy`, `Net.dfy`, `Arith.dfy`, `Counting.dfy`, `Runs.dfy` | Rust string functions, addresses, arithmetic, counting, runs of a transition system |

## How the model is set up

Objects whose methods update fields are classes; each method is proved against a function on values,
and the run-level theorems are lemmas about those functions. Concurrent code is a transition system
with one step per atomic operation; a step that is not enabled changes nothing, so every list of
steps is a run, and the theorems quantify over all lists.

Clocks, the network, the transport and the user agent are parameters. Times are natural numbers.
The tolerance `max_credit` of the rate limiter is a parameter because the source computes it in
floating point. IPv6 text is parsed by a function passed as a parameter; IPv4 text, decimal
numbers, white-space splitting and UTF-8 are modelled. An attempt on an upstream succeeds or fails
as the parameter `net` says. What other tasks do to the balancer while attempt `k` is awaited is the
parameter `env(k)`: by how much they advance the counter, how they set the health flags and how they
move the connection counts. Nothing is required of `net` and `env`; together with the state of the
balancer they determine the execution of a request (`RunIsDetermined`).

## Where the code does not do what one might expect

- The timestamp of a check is read before the entry is locked, so a check can be late for an
  eviction pass, and then the window bound can fail (`LateCheckBreaksBound`). Checks that are late by
  no more than a positive retention time are harmless (`WithinSkew`); how late they may be exactly is
  `WindowBoundIff`. When a pass goes unnoticed altogether is `CleanupUnobservableIff`, also for
  `max_idle + window == 0`, where buckets ahead of the clock are forgotten.
- A future dropped mid-await is never uncounted: `in_flight` and `active_connections` leak one unit
  each time (`LeakSlots`, `LeakAnyNumber`), and after `max_concurrency` drops the middleware sheds
  everything; for every limit there is such a run (`AllSlotsLeaked`, `CanShutForGood`).
- A call that is about to undo its increment still counts, so for every limit a call can be shed
  while nothing is running (`SpuriousShed`).
- The counter behind power-of-two-choices moves in steps of two from zero. With an even number of
  eligible upstreams the same pairs are compared for ever (`EvenPairsOnly`); all neighbours are
  compared exactly when the number is odd or two (`NeighboursIff`).
- The comment at src/main.rs:300-301 says that connection tasks are capped at `max_conn`. The code
  caps them at `max(max_conn, 64)`, so the comment is right exactly when `max_conn >= 64`
  (`CappedIff`).
- A task that panics leaves the connection gauge one too high (`GaugeDrift`), without bound
  (`DriftAnyAmount`).
- A route prefix written with a trailing slash does not match the path without it
  (`MatchIsSegmentPrefix`, `TrailingSlashMisses`).
- The order of the routes in the configuration can decide where a path goes: validation accepts two
  routes with the same prefix (`SamePrefixTies`), and a doubled trailing slash ties with a longer path
  (`DoubledSlashTies`). `OrderIndependentIff` gives the exact condition. The table itself also treats
  the prefixes "" and "/" alike (`EmptyAndRootTie`), but validation refuses an empty prefix
  (src/config/validator.rs:20-22).
- Only the first Cookie header of a request is read (`LaterHeadersIgnored`).
- Upstream objects that share an address share its probe counter, so one can be marked after a single
  probe of its own (`EarlyDown`). Thresholds count per object in every history exactly when no two
  objects share an address, or both thresholds are one (`OwnThresholdsIff`).
- The connection handler ignores an access list that does not parse; validation at load time is what
  keeps it enforced (`EnforcedIffParses`, `ValidatedIsEnforced`).

## Model

| member | source | states |
|---|---|---|
| `RateLimit.Limiter.constructor` | src/ratelimit.rs:45-54 | the emission interval is the window divided by `max(rate, 1)`, truncated; no bucket, counters zero |
| `RateLimit.Limiter.Check` | src/ratelimit.rs:57-83 | decision, new buckets and both counters are those of the value-level step, for any timestamp |
| `RateLimit.Limiter.Cleanup` | src/ratelimit.rs:94-98 | exactly the buckets idle for the retention time are evicted |
| `RateLimit.WindowBound` | src/ratelimit.rs:57-83 | any two allowed checks of a client satisfy `(j-i)*E + a[i] <= a[j] + C`, with timestamps in any order and other clients interleaved |
| `RateLimit.PassesIff` | src/ratelimit.rs:57-83 | the decision in closed form: after checks in any order with allowed stamps `a`, a check stamped `t` passes exactly when `(n-i)*E + a[i] <= t + C` for each of the `n` stamps, and likewise for the TAT the client started with |
| `RateLimit.BurstBound` | src/ratelimit.rs:60-83 | with a tolerance of `B-1` emissions at most `B + (t-s)/E` checks are allowed between stamps `s` and `t` |
| `RateLimit.BurstIsExact` | src/ratelimit.rs:60-83 | of simultaneous first requests number `k` is allowed exactly when `k*E <= C`, so the bound is reached |
| `RateLimit.IsolatedAndCleanupUnobservable` | src/ratelimit.rs:57-98 | with stamps out of order but late for an eviction by no more than its positive retention time, other clients and evictions change no decision of a client |
| `RateLimit.CleanupUnobservableIff` | src/ratelimit.rs:94-98 | checks stamped `from` or later, in any order, cannot tell that an eviction pass happened, exactly when no evicted bucket is ahead of `from` (with a zero emission interval, ahead by more than the tolerance) |
| `RateLimit.RetentionHidesCleanup` | src/ratelimit.rs:94-98 | so a positive retention time hides the pass from checks that are late by no more than it |
| `RateLimit.WindowBoundWithCleanup` | src/ratelimit.rs:57-98 | the window bound also holds across evictions under the same bounded skew |
| `RateLimit.MonotoneRuns` | src/ratelimit.rs:57-98 | in particular isolation, the window bound and the refinement hold when time is monotone |
| `RateLimit.WindowBoundIff` | src/ratelimit.rs:57-98 | with checks late for an eviction by at most `d` beyond the retention time, the window bound holds in every run exactly when `d` is zero, or emissions are free and `d` is within the tolerance |
| `RateLimit.LateCheckBreaksBound` | src/ratelimit.rs:57-98 | whenever it can fail, a run that breaks it, for every tolerance and every positive retention time |
| `RateLimit.RefinesLeakyBucket` | src/ratelimit.rs:57-98 | within the same skew every client is decided as by its own continuous-state leaky bucket (Annex A of ITU-T I.371), in any interleaving with evictions |
| `ProxyProtocol.PrefixedStream.constructor` | src/proxy_protocol.rs:27-33 | the contents are the prefix followed by the rest of the connection |
| `ProxyProtocol.PrefixedStream.PollRead` | src/proxy_protocol.rs:41-54 | a read returns the next bytes of the contents, none only at the end or for an empty buffer, and loses nothing |
| `ProxyProtocol.PrefixedStream.Drain` | src/proxy_protocol.rs:41-54 | reading with any buffer sizes yields the contents in order, all of them once there were enough non-empty buffers |
| `ProxyProtocol.FillTo` | src/proxy_protocol.rs:97-103 | buffered bytes and pending bytes together stay the same; stops at the target, at the end, or on an I/O error |
| `ProxyProtocol.MaybeReadProxyHeader` | src/proxy_protocol.rs:88-134 | for every chunking the outcome is the verdict on the bytes: no header and all bytes handed on, the header and exactly the bytes after it, or the error |
| `ProxyProtocol.ReadUntagged` | src/proxy_protocol.rs:111-134 | the same for the part after the version 1 tag is ruled out |
| `ProxyProtocol.ParseV1` | src/proxy_protocol.rs:136-158 | the outcome is the version 1 verdict on the bytes; leftover and pending bytes are what follows the line |
| `ProxyProtocol.ParseV2` | src/proxy_protocol.rs:180-228 | the outcome is the version 2 verdict; the stream is left right after the declared length |
| `ProxyProtocol.NoHeaderIff` | src/proxy_protocol.rs:88-134 | there is no header exactly when neither `PROXY ` nor the signature begins the bytes, and twelve bytes came or the connection ended regularly; a broken one before that is an error |
| `ProxyProtocol.V1Verdict` | src/proxy_protocol.rs:136-158 | with the version 1 tag, a line ending within 109 bytes is decided by its text; without one the header is too long, cut off or the connection broke |
| `ProxyProtocol.V1LineIff` | src/proxy_protocol.rs:160-178 | which word lists a line may have, and the addresses it then gives; all others are refused |
| `ProxyProtocol.V2Verdict` | src/proxy_protocol.rs:180-228 | with the signature, a header cut short is refused, LOCAL carries no address, every other command is read as PROXY, and that needs a known family and a full address block |
| `ProxyProtocol.ServeConnection` | src/main.rs:434-453 | only the header of a peer that the optional access list admits changes the client address, others are turned away, and what is served is the input without the header |
| `ProxyProtocol.ClientIsVouchedFor` | src/main.rs:83-88 | with the protocol enabled the process starts exactly when all trusted blocks parse; then a connection is served exactly when its peer is inside a block (if any) and sent no malformed header, under the address of the header, or without one the peer's own |
| `ProxyProtocol.HeaderIgnoresTail` | src/proxy_protocol.rs:88-158 | an accepted header is decided by its own bytes, at most 109 of them in version 1, whatever follows |
| `ProxyProtocol.V2RoundTrip` | src/proxy_protocol.rs:180-228 | every version 2 encoding of an IPv4 or IPv6 pair with any TLV bytes parses back, consuming 16 bytes and the length |
| `ProxyProtocol.V2Inverse` | src/proxy_protocol.rs:180-228 | every accepted version 2 PROXY header is the encoding of its result |
| `ProxyProtocol.V1RoundTrip` | src/proxy_protocol.rs:136-178 | the canonical TCP4 line of every IPv4 pair parses back |
| `LoadBalancer.EligibleMeaning` | src/lb/mod.rs:92-97 | the filtered list holds exactly the healthy, non-excluded upstreams, in order |
| `LoadBalancer.FirstMin` | src/lb/least_conn.rs:5-7 | the first upstream with the fewest connections |
| `LoadBalancer.Pick` | src/lb/mod.rs:91-136 | every algorithm selects an eligible upstream, and none exactly when there is none |
| `LoadBalancer.RoundRobinPicks` | src/lb/mod.rs:104-120 | the eligible upstream at the counter, or the slot of the list expanded by weights |
| `LoadBalancer.LeastConnectionsPicks` | src/lb/least_conn.rs:5-7 | no eligible upstream has fewer connections than the pick, and every earlier one has more |
| `LoadBalancer.TwoChoicesPicks` | src/lb/mod.rs:122-134 | of the eligible upstreams at `c` and `c + 1` the less loaded one, the first on a tie |
| `LoadBalancer.CounterMoves` | src/lb/mod.rs:103-136 | by how much each algorithm moves the counter |
| `LoadBalancer.FindSticky` | src/lb/mod.rs:79-83 | the first healthy upstream with the address |
| `LoadBalancer.UpstreamRuntime.constructor` | src/lb/mod.rs:18-25 | a new upstream is healthy and has no connections |
| `LoadBalancer.UpstreamRuntime.IncConnections` | src/lb/mod.rs:35-37 | adds one |
| `LoadBalancer.UpstreamRuntime.DecConnections` | src/lb/mod.rs:39-41 | subtracts one |
| `LoadBalancer.Balancer.constructor` | src/lb/mod.rs:56-66 | one new object per entry, all distinct, healthy and without connections, counter at zero |
| `LoadBalancer.Balancer.SelectExcluding` | src/lb/mod.rs:91-136 | selection and counter are those of the value-level functions |
| `LoadBalancer.Balancer.ChooseAmong` | src/lb/mod.rs:103-135 | the choice among the filtered upstreams and the counter step, per algorithm |
| `LoadBalancer.Balancer.BuildExpanded` | src/lb/mod.rs:109-114 | the nested loops build the weight-expanded list |
| `LoadBalancer.Balancer.SelectSticky` | src/lb/mod.rs:77-88 | a healthy sticky match wins, otherwise normal selection |
| `LoadBalancer.StickyDecides` | src/lb/mod.rs:77-88 | a cookie that names a healthy upstream selects it for every algorithm and counter and does not move the counter |
| `LoadBalancer.StickyFallsBack` | src/lb/mod.rs:77-88 | without a cookie that names a healthy upstream, selection and counter are the normal ones |
| `LoadBalancer.RoundRobinIsFair` | src/lb/mod.rs:104-120 | over any window of selections, from any counter value, an upstream is picked its weight `w` times per turn of `s` selections, and between `max(0, w - (s - r))` and `min(w, r)` times in `r` further ones; `s` is the number of eligible upstreams or the sum of their weights |
| `LoadBalancer.ExpandIsPrefixSum` | src/lb/mod.rs:109-119 | the expanded list agrees with lookup in the prefix sums of the weights |
| `LoadBalancer.TwoChoicesCoverage` | src/lb/mod.rs:122-134 | as many selections as there are eligible upstreams offer each of them exactly twice |
| `LoadBalancer.TwoChoicesAvoidsWorst` | src/lb/mod.rs:122-134 | the candidates differ and a uniquely most loaded upstream is never chosen |
| `LoadBalancer.TwoChoicesOfTwo` | src/lb/mod.rs:122-134 | with two upstreams the chosen load is that of least-connections |
| `LoadBalancer.CounterStaysEven` | src/lb/mod.rs:122-126 | the counter of this algorithm stays even |
| `LoadBalancer.NthOffer` | src/lb/mod.rs:122-134 | selection number `m` compares the candidates at counter value `c + 2m` |
| `LoadBalancer.EvenPairsOnly` | src/lb/mod.rs:126-128 | with an even number of eligible upstreams the candidates are an even position and the next one |
| `LoadBalancer.NeighboursIff` | src/lb/mod.rs:126-128 | selections compare every pair of neighbours sooner or later exactly when the number of eligible upstreams is odd or two |
| `Retry.SelectedAt` | src/proxy/handler.rs:168-180 | the next upstream is healthy and untried; none only if no upstream is |
| `Retry.Selected` | src/proxy/handler.rs:168-180 | its address; none only if every healthy address was tried |
| `Retry.SelectsNormally` | src/proxy/handler.rs:168-180 | but for such a cookie on the first attempt, every attempt goes where the algorithm picks among the healthy upstreams not tried |
| `Retry.MaxAttempts` | src/proxy/handler.rs:159-163 | at least one attempt, one more than `retries` unless that saturates |
| `Retry.RunIsDetermined` | src/proxy/handler.rs:165-263 | choices, limit and network admit one run only, so the contract of the loop fixes its outcome and the addresses tried |
| `Retry.AfterMeaning` | src/proxy/handler.rs:182-209 | after any attempts, addresses and weights are those configured, flags those of the last await, and every connection count the first one plus what others moved |
| `Retry.Await` | src/proxy/handler.rs:188-203 | the network decides, and the balancer has changed exactly as the environment says |
| `Retry.Attempt` | src/proxy/handler.rs:182-209 | increment and decrement cancel: the balancer has changed exactly as the environment says |
| `Retry.SelectNext` | src/proxy/handler.rs:169-179 | the first selection honours the cookie, later ones exclude what was tried; the counter moves accordingly |
| `Retry.TryNext` | src/proxy/handler.rs:168-209 | one turn of the loop, from the state the earlier attempts left: it ends the request or leaves the state for the next turn |
| `Retry.RetryLoop` | src/proxy/handler.rs:168-256 | outcome, tried addresses and final state are those of the execution from the present state |
| `Retry.ProxyRequest` | src/proxy/handler.rs:152-274 | the same for the policy of the request; the final connection counts are the first ones plus what others moved during the attempts made; an address that stays healthy and answers yields a response if the attempts cover all addresses ever healthy; a cookie naming a healthy address decides the first attempt |
| `Retry.ProxyUpgrade` | src/proxy/handler.rs:277-350 | one attempt on a normally selected upstream, 503 without one, 502 on failure; the balancer has otherwise changed exactly as the environment says |
| `Retry.AttemptsAreDistinct` | src/proxy/handler.rs:165-180 | tried addresses are distinct, healthy when tried, and at most `min(attempts, addresses)` many |
| `Retry.FailoverComplete` | src/proxy/handler.rs:152-263 | with as many attempts as addresses that are ever healthy, one of which stays healthy and always answers, the request gets a response, for every algorithm, counter, load and cookie |
| `Retry.AllAddresses` | src/lb/mod.rs:92-97 | no address outside the configured ones is ever healthy, so attempts for all of them always suffice |
| `Retry.FailoverWithRetries` | src/proxy/handler.rs:152-163 | the same in terms of the retry policy: a request that may be retried and `retries + 1` attempts |
| `Retry.FailoverIff` | src/proxy/handler.rs:152-263 | while the healthy addresses stay the same, every network on which one of them always answers yields a response exactly when there are as many attempts as healthy addresses |
| `Retry.FailoverNeedsEnoughAttempts` | src/proxy/handler.rs:152-263 | with fewer attempts some network with an always-answering healthy address yields 502, for every algorithm, cookie and environment |
| `Retry.AtMostOnce` | src/proxy/handler.rs:152-163 | a non-idempotent request with a body is sent at most once under the default policy, whatever `retries` is |
| `Retry.StickyGoesFirst` | src/proxy/handler.rs:170-171 | a cookie that names a healthy address decides the first attempt |
| `ConnectionCounts.StepKeepsInv` | src/proxy/handler.rs:165-209 | every step of requests and health checks keeps: each counter counts its holders, tried addresses are distinct, configured and within the limit |
| `ConnectionCounts.SelectKeepsRequest` | src/proxy/handler.rs:168-180 | the selection of the balancer never repeats an address of the request |
| `ConnectionCounts.OneAttempt` | src/proxy/handler.rs:168-262 | the steps of an undisturbed attempt are one attempt of the retry loop: counter moved by the selection, loads as before, the request ended or going on without this address |
| `ConnectionCounts.GivesUp` | src/proxy/handler.rs:168-180 | a request ends when its attempts are used up or no upstream is left |
| `ConnectionCounts.UnhealthyIsNotSelected` | src/lb/mod.rs:31-33 | marking an upstream changes its flag only, and an unhealthy one is not selected |
| `ConnectionCounts.CountsAttempts` | src/proxy/handler.rs:182-205 | in every interleaving a counter is the attempts in progress plus the attempts dropped mid-await |
| `ConnectionCounts.NeverUnderflows` | src/lb/mod.rs:39-41 | a decrement always finds a positive counter |
| `ConnectionCounts.QuiescentIffNothingDropped` | src/proxy/handler.rs:182-205 | with no attempt in progress a counter is zero exactly when no attempt on it was dropped |
| `ConnectionCounts.LeakIsPermanent` | src/proxy/handler.rs:296-313 | the number of dropped attempts held against an upstream never shrinks |
| `ConnectionCounts.LeakAnyNumber` | src/proxy/handler.rs:182-205 | for every balancer and every number, a run that leaves no request but that many connections counted |
| `ConnectionCounts.AttemptsBounded` | src/proxy/handler.rs:159-180 | in every interleaving a request tries distinct addresses, at most its limit and at most the number of distinct addresses |
| `LoadShed.StepKeepsInv` | src/middleware/load_shed.rs:51-78 | every atomic step keeps: `in_flight` counts the calls between add and subtract, at most `max_concurrency` of them admitted |
| `LoadShed.Safety` | src/middleware/load_shed.rs:51-78 | in every interleaving `in_flight` is in progress plus in transition plus dropped, and the first and last together never exceed the limit |
| `LoadShed.QuiescentIffNothingDropped` | src/middleware/load_shed.rs:70-77 | at rest the counter is the number of dropped futures, so zero exactly when none was dropped |
| `LoadShed.LeakIsPermanent` | src/middleware/load_shed.rs:73-77 | slots lost to dropped futures never come back |
| `LoadShed.AllSlotsLeaked` | src/middleware/load_shed.rs:51-68 | after as many drops as slots every later call is shed |
| `LoadShed.LeakSlots` | src/middleware/load_shed.rs:51-78 | every number of slots up to the limit can be lost in some run |
| `LoadShed.CanShutForGood` | src/middleware/load_shed.rs:51-78 | for every limit some run with nothing in progress is followed by shed calls only |
| `LoadShed.AdmittedIff` | src/middleware/load_shed.rs:52-55 | a call is admitted exactly when fewer than the limit are in progress, in transition or leaked |
| `LoadShed.SpuriousShed` | src/middleware/load_shed.rs:52-55 | for every limit a run after which nothing is running and the next call is shed |
| `Dispatcher.MoveBalanced` | src/main.rs:324-374 | every move of a connection pays for the permit, gauge and shed count it changes |
| `Dispatcher.StepKeepsInv` | src/main.rs:298-414 | every step keeps permit, counter and channel invariants |
| `Dispatcher.Conservation` | src/main.rs:298-414 | every accepted connection is queued, in dispatch, in a task, done, shed at queue or permit, or lost at shutdown |
| `Dispatcher.Bounds` | src/main.rs:284-333 | channel within `max(max_conn, 256)`, permits conserved, tasks within `max(max_conn, 64)`, the 503 counter is the two shed counts |
| `Dispatcher.RefusedAtChannelIff` | src/main.rs:394-405 | while the dispatcher lives, a connection is refused at the channel exactly when it is full |
| `Dispatcher.RefusedForPermitIff` | src/main.rs:324-333 | a received connection is refused exactly when all permits are held |
| `Dispatcher.GaugeDrift` | src/main.rs:353-373 | the gauge is the running tasks plus the panicked ones |
| `Dispatcher.DriftAnyAmount` | src/main.rs:353-373 | for every number, a run after which nothing is running and the gauge shows that many |
| `Dispatcher.CanFinish` | src/main.rs:324-374 | from every place a connection can be brought to its end: served if there is a permit, shed and counted otherwise; a task that ends gives its permit back and leaves the gauge; nothing else changes |
| `Dispatcher.MovesAreSteps` | src/main.rs:324-374 | while the process lives these moves are steps of the system |
| `Dispatcher.PanicReleases` | src/main.rs:353-373 | a task that panics gives its permit back but stays on the gauge |
| `Dispatcher.ServeAnyNumber` | src/main.rs:313-374 | for every number, a run that serves that many connections to the end, with all permits free, gauge zero and nothing shed |
| `Dispatcher.StopsOnlyOnSignal` | src/main.rs:304-394 | in every run accept loop, dispatcher and process stop only after the signal |
| `Dispatcher.StopsBetweenConnections` | src/main.rs:315-414 | accept loop and dispatcher stop with no connection in their hands, and the process exits only after the accept loop |
| `Dispatcher.ClosedChannelEndsAccepting` | src/main.rs:402-411 | a closed channel loses the connection and ends the accept loop |
| `Dispatcher.ExitEndsAll` | src/main.rs:386-393 | exit loses what is live, keeps what had ended and gives back all permits |
| `Dispatcher.ShutsDown` | src/main.rs:385-414 | between connections, the signal lets both loops stop and the process exit |
| `Dispatcher.NoOvertaking` | src/main.rs:313-322 | no connection is received while an earlier one waits |
| `Dispatcher.HandsHoldOne` | src/main.rs:313-414 | in every run accept loop and dispatcher each have at most one connection in their hands |
| `Dispatcher.CappedIff` | src/main.rs:284-285 | tasks stay within `max_conn` in every run exactly when `max_conn >= 64` |
| `Health.Checker.constructor` | src/health/mod.rs:26 | no counters |
| `Health.Checker.Observe` | src/health/mod.rs:41-65 | counter and flag after one probe |
| `Health.Checker.Round` | src/health/mod.rs:38-66 | a pass over all upstreams is the fold of its probes, also when objects repeat or share an address |
| `Health.RoundsCompose` | src/health/mod.rs:28-80 | several rounds are one history |
| `Health.CountersAreRuns` | src/health/mod.rs:41-59 | the counters of an address are the lengths of its final failing and succeeding runs |
| `Health.FlagClosedForm` | src/health/mod.rs:48-65 | an object is unhealthy exactly when its most recent deciding probe failed, for changing thresholds and shared addresses |
| `Health.MarkedAfter` | src/health/mod.rs:48-65 | after a different result, `k` equal results in a row change the flag exactly when `k` reaches the threshold for that result, at least one |
| `Health.FirstFailures` | src/health/mod.rs:48-65 | a new upstream is down after `k` failing probes exactly when `k >= max(unhealthy_threshold, 1)` |
| `Health.FlipDecides` | src/health/mod.rs:51-64 | a flip is a probe of that object that completes a long enough run, and sets the flag to its result |
| `Health.FlipsAreApart` | src/health/mod.rs:51-64 | consecutive flips are opposite and at least the threshold of the later one apart |
| `Health.OwnThreshold` | src/health/mod.rs:41-65 | an object that shares its address with no other is marked only after a threshold of probes of its own, counted from its last change |
| `Health.OwnThresholdsIff` | src/health/mod.rs:41-65 | that holds in every history exactly when no two objects share an address, or both thresholds are one |
| `Health.EarlyDown` | src/health/mod.rs:41-46 | for every threshold of at least two and two objects with one address, a history that marks one after a single probe of its own |
| `Health.EarlyUp` | src/health/mod.rs:41-46 | the same for marking healthy |
| `Router.Table.constructor` | src/router.rs:19-46 | the table is the stable sort of the normalized routes by decreasing prefix length |
| `Router.Table.Resolve` | src/router.rs:49-56 | the first matching route of the table, else the default |
| `Router.SortSorts` | src/router.rs:33-34 | the sort is ordered and a permutation |
| `Router.ResolvesLongest` | src/router.rs:33-56 | sorting and taking the first match finds the longest configured match, the earlier one among equals |
| `Router.LongestMatch` | src/router.rs:49-56 | matches, is longest, and is absent exactly when nothing matches |
| `Router.MatchIsSegmentPrefix` | src/router.rs:76-82 | string matching is segment matching, except that a prefix with a trailing slash does not match the path without it |
| `Router.TrailingSlashMisses` | src/router.rs:76-82 | the exception occurs for every such prefix |
| `Router.OneRoute` | src/router.rs:68-82 | a route alone takes exactly the paths its prefix matches, the empty one all; with a trailing slash not the path without it |
| `Router.LongestIsMostSpecific` | src/router.rs:33-34 | of two matching routes the one that is longer without trailing slashes refines the segments of the other |
| `Router.CleanLongest` | src/router.rs:33-34 | with at most one trailing slash each, that is the one with the longer prefix |
| `Router.OrderIndependentAt` | src/router.rs:19-56 | for one path: no order of the configuration changes the balancer exactly when all longest matching normalized routes lead to the same one |
| `Router.OrderIndependentIff` | src/router.rs:19-56 | for all paths: no order changes any result exactly when no two equally long routes to different balancers match, one the prefix of the other, without a longer route that does |
| `Router.LongerTakesAll` | src/router.rs:49-56 | a longer route that matches a prefix takes every path that the prefix matches, so a tie below it is harmless |
| `Router.HiddenTie` | src/router.rs:76-82 | for instance the tie of "/api//" and "/api/x" below "/api////" |
| `Router.CleanIsEnough` | src/router.rs:19-56 | distinct normalized prefixes with at most one trailing slash never clash |
| `Router.FirstOfEqualsWins` | src/router.rs:34-54 | of two equally long matches the first one configured wins, in either order |
| `Router.SamePrefixTies` | src/router.rs:33-54 | exchanging two routes with the same prefix changes the result, for every prefix |
| `Router.EmptyAndRootTie` | src/router.rs:68-74 | exchanging the prefixes "" and "/" changes the result |
| `Router.DoubledSlashTies` | src/router.rs:76-82 | so does exchanging two distinct prefixes of which one ends in a doubled slash |
| `Acl.ContainsIffTopBits` | src/security.rs:44-70 | masking with either width is agreement on the top `min(prefix, width)` bits, as quotients by a power of two (section 3.1 of RFC 4632) |
| `Acl.ContainsIffOctets` | src/security.rs:44-70 | with `p` fixed bits: the same first `p / 8` octets and the same top `p % 8` bits of the next one, in the same family |
| `Acl.CoversMeaning` | src/security.rs:44-70 | a coarser block that contains the address of another contains all of it |
| `Acl.NestedOrDisjoint` | src/security.rs:44-70 | blocks with a common address are nested |
| `Acl.RedundantEntries` | src/security.rs:32-40 | deleting an entry covered by another of its list changes no decision |
| `Acl.BareAddress` | src/security.rs:73-86 | a bare address is a block that contains exactly itself |
| `Acl.AddressWithPrefix` | src/security.rs:73-86 | `address/length` parses exactly to the block of that address and length |
| `Acl.ValidCidrIff` | src/config/validator.rs:110-127 | validation accepts exactly the entries that parse with a prefix of at most 128 |
| `Acl.EnforcedIffParses` | src/main.rs:455-458 | an access list is enforced as configured if all entries parse, and admits everybody otherwise |
| `Acl.ValidatedIsEnforced` | src/config/validator.rs:61-65 | a validated access list is enforced: deny wins, a non-empty allow list must match |
| `BodyLimit.MapErrBody.PollFrame` | src/proxy/body_limit.rs:183-195 | only errors are mapped |
| `BodyLimit.LimitedBody.PollFrame` | src/proxy/body_limit.rs:59-80 | the counter grows by every data frame, and a frame beyond the limit becomes an error |
| `BodyLimit.IdleBody.constructor` | src/proxy/body_limit.rs:103-110 | at least 50 ms idle time, timer started |
| `BodyLimit.IdleBody.PollFrame` | src/proxy/body_limit.rs:126-150 | the timer counts only when nothing is ready and is reset by every frame |
| `BodyLimit.BytesFirst` | src/proxy/body_limit.rs:207-223 | the collected bytes are those of the data frames, in order |
| `BodyLimit.CollectLimited` | src/proxy/body_limit.rs:207-223 | the first stopping event decides: success only at the end, with exactly the data frames, within the limit |
| `BodyLimit.PollAll` | src/proxy/body_limit.rs:59-80 | polling the limiter past its errors yields exactly the released bytes |
| `BodyLimit.ReleasedWithinLimit` | src/proxy/body_limit.rs:59-80 | these are a prefix of at most `max` bytes, and nothing is released after the limit is crossed |
| `Sticky.PartMeaning` | src/proxy/handler.rs:457-464 | a part without `=` or with another name yields nothing, else the trimmed text after the first `=` |
| `Sticky.PartRoundTrip` | src/proxy/handler.rs:457-464 | the part `name=value` yields the trimmed value, for every value |
| `Sticky.CookieAttributes` | src/proxy/handler.rs:224-230 | the attributes of the cookie that is set |
| `Sticky.CookieIsSetIff` | src/proxy/handler.rs:224-230 | a cookie is set exactly when name and address are printable ASCII or tabs |
| `Sticky.PairRoundTrip` | src/proxy/handler.rs:224-230 | an emitted cookie brings back the address up to a semicolon, trimmed |
| `Sticky.RoundTripIff` | src/proxy/handler.rs:455-466 | the address comes back exactly when it is trimmed and has no semicolon |
| `Sticky.CookieRoundTrip` | src/proxy/handler.rs:455-466 | the same in the first Cookie header among arbitrary cookies whose names differ, whatever further headers hold |
| `Sticky.LaterHeadersIgnored` | src/proxy/handler.rs:456 | without the cookie in the first Cookie header there is none |
| `Sticky.UnreadableHeader` | src/proxy/handler.rs:456 | a first Cookie header with any other character is not read |
| `Sticky.Affinity` | src/proxy/handler.rs:113-171 | an execution whose cookie header carries a cookie set earlier goes first to the upstream it names while that is healthy, whatever the algorithm and the loads |
| `Sticky.HandleRequest` | src/proxy/handler.rs:113-230 | the code: the cookie it sets names the upstream that answered, and a cookie carried back decides the first attempt |
| `Text.Utf8RoundTrip` | src/proxy_protocol.rs:143 | every text is the decoding of its UTF-8 form (section 3 of RFC 3629) |
| `Text.Utf8Inverse` | src/proxy_protocol.rs:143 | bytes that decode are the UTF-8 form of the result |
| `Text.WordsGap` | src/proxy_protocol.rs:161 | any white space separates words, however much of it |
| `Text.AsciiWhitespace` | src/proxy_protocol.rs:161 | which ASCII characters are white space |
| `Text.Ipv4RoundTrip` | src/proxy_protocol.rs:175-176 | the dotted form of every IPv4 address parses back |
| `Text.Ipv4Inverse` | src/proxy_protocol.rs:175-176 | and only that form is read as IPv4 |
| `Text.ParseIpIff` | src/proxy_protocol.rs:175-176 | an address text is the dotted form of an IPv4 address, or else what the IPv6 parser reads as sixteen bytes |
| `Text.ParseUintIff` | src/proxy_protocol.rs:175-176 | digits in range are read as their value, with or without a plus sign; all else is refused |
| `Text.TrimIsMiddle` | src/proxy/handler.rs:458-461 | trimming takes away white space at both ends and nothing else |

## Left out

- Wrap-around of `rr_counter`, of connection counts, of the health counters and of `seen`: counters are unbounded.
- LoadBalancer.UpstreamRuntime.DecConnections: does not model wrap-around below zero; `ConnectionCounts.NeverUnderflows` shows that it does not happen.
- Floating point in the burst computation (src/ratelimit.rs:63-64): the tolerance is a parameter.
- IPv6 text parsing: an abstract parser.
- Memory ordering: atomic operations interleave sequentially; a selection reads all flags and loads at once and moves the counter in the same step.
- Retry.Await: other tasks run at the await only, not between two statements of the loop; ConnectionCounts interleaves every operation.
- Retry.ProxyRequest: header copying, URI building, metrics and logging of an attempt are not modelled.
- Retry.FailoverWithRetries: requires at most 2^32 - 1 healthy addresses, because the attempt count saturates there.
- Router.Table.constructor: the in-place sort of the standard library is a function on sequences.
- Health.Checker.Round: the two nested loops over balancers and upstreams are one loop over all upstreams; the probe request itself is a parameter.
- BodyLimit.CollectLimited: trailers are passed over, and polls past the end of the given events are not modelled.
- The write side of the prefixed stream, TLS, HTTP itself, the upgrade tunnel, dashboard, metrics, configuration loading and the unused buffer pool.
- The checks of the configuration validator other than those on CIDR entries.
- `apply_security_headers` and the semaphore `request_limit`.
