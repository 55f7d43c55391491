/** The retry loop of `proxy_request` in src/proxy/handler.rs.

    One attempt on the network is a parameter: `net(k, a)` says whether attempt number `k`
    succeeds against address `a`. What other tasks do to the balancer while attempt `k` is
    awaited is a parameter too: `env(k)`. Nothing is required of either, so quantifying over
    them covers every behaviour of the network and every interleaving at the awaits. */
module Retry {
  import opened Net
  import opened LoadBalancer

  /** What a selection sees: the counter, the health flags and the loads. */
  datatype View = View(counter: nat, ups: seq<Upstream>)

  datatype Outcome = Response(address: string) | BadGateway | Unavailable

  datatype Run = Run(tried: seq<string>, outcome: Outcome)

  type Network = (nat, string) -> bool

  /** What other tasks do during one await: selections advance the counter, health checks set
      the flags, and attempts of others move the connection counts. */
  datatype Interference = Interference(advance: nat, healthy: nat -> bool, moved: nat -> int)

  type Environment = nat -> Interference

  predicate MayRetry(forceWithBody: bool, bodyIsEmpty: bool, idempotentOnly: bool, verb: string) {
    forceWithBody || bodyIsEmpty || !idempotentOnly || verb in ["GET", "HEAD", "OPTIONS", "PUT", "DELETE"]
  }

  /** `retries.saturating_add(1)` on 32 bits, or a single attempt. */
  function MaxAttempts(mayRetry: bool, retries: nat): (n: nat)
    ensures n >= 1
    ensures mayRetry && retries < 0xFFFF_FFFF ==> n == retries + 1
    ensures mayRetry && retries >= 0xFFFF_FFFF ==> n == 0xFFFF_FFFF
    ensures !mayRetry ==> n == 1
  {
    if mayRetry then Min(retries + 1, 0xFFFF_FFFF) else 1
  }

  /** The upstream the next attempt goes to, after the attempts in `tried`. */
  function SelectedAt(alg: Algorithm, v: View, sticky: Option<string>, tried: seq<string>): (r: Option<nat>)
    ensures r.Some? ==> r.value < |v.ups| && IsEligible(v.ups[r.value], tried)
    ensures r.None? ==> forall u <- v.ups :: !IsEligible(u, tried)
  {
    EligibleMeaning(v.ups, tried);
    var p := if tried == [] then PickSticky(alg, v.ups, sticky, v.counter) else Pick(alg, v.ups, tried, v.counter);
    assert p.None? ==> forall i :: 0 <= i < |v.ups| ==> !IsEligible(v.ups[i], tried);
    p
  }

  /** Its address. */
  function Selected(alg: Algorithm, v: View, sticky: Option<string>, tried: seq<string>): (r: Option<string>)
    ensures r.Some? ==> r.value in Healthy(v.ups) && r.value !in tried
    ensures r.None? ==> forall a <- Healthy(v.ups) :: a in tried
  {
    match SelectedAt(alg, v, sticky, tried)
    case None => None
    case Some(i) => Some(v.ups[i].address)
  }

  /** The counter after that selection. */
  function CounterAfter(alg: Algorithm, v: View, sticky: Option<string>, tried: seq<string>): (c: nat)
    ensures SelectedAt(alg, v, sticky, tried).None? ==> c == v.counter
  {
    if tried == [] then BumpSticky(alg, v.ups, sticky, v.counter) else Bump(alg, v.ups, tried, v.counter)
  }

  /** Apart from a cookie that names a healthy upstream on the first attempt, every attempt goes
      where the algorithm picks among the healthy upstreams not tried yet. */
  lemma SelectsNormally(alg: Algorithm, v: View, sticky: Option<string>, tried: seq<string>)
    requires tried == [] && sticky.Some? ==> sticky.value !in Healthy(v.ups)
    ensures SelectedAt(alg, v, sticky, tried) == Pick(alg, v.ups, tried, v.counter)
    ensures CounterAfter(alg, v, sticky, tried) == Bump(alg, v.ups, tried, v.counter)
  {
    if tried == [] {
      StickyFallsBack(alg, v.ups, sticky, v.counter);
    }
  }

  function Healthy(us: seq<Upstream>): set<string> {
    set u <- us | u.healthy :: u.address
  }

  // ---- Runs ----

  /** How the next address depends on the addresses tried so far. */
  type Chooser = seq<string> -> Option<string>

  /** Each tried address was the one chosen after the earlier ones. */
  ghost predicate Follows(choose: Chooser, tried: seq<string>) {
    forall k :: 0 <= k < |tried| ==> choose(tried[..k]) == Some(tried[k])
  }

  /** A finished request. */
  ghost predicate IsRun(choose: Chooser, max: nat, net: Network, run: Run) {
    var n := |run.tried|;
    && n <= max
    && Follows(choose, run.tried)
    && match run.outcome
       case Response(a) =>
         && n > 0 && a == run.tried[n - 1] && net(n - 1, a)
         && forall k :: 0 <= k < n - 1 ==> !net(k, run.tried[k])
       case BadGateway =>
         && (forall k :: 0 <= k < n ==> !net(k, run.tried[k]))
         && (n == max || choose(run.tried) == None)
       case Unavailable => false
  }

  /** So far every attempt has failed. */
  ghost predicate Failing(choose: Chooser, net: Network, tried: seq<string>) {
    Follows(choose, tried) && forall k :: 0 <= k < |tried| ==> !net(k, tried[k])
  }

  lemma FollowsMore(choose: Chooser, tried: seq<string>, a: string)
    requires Follows(choose, tried) && choose(tried) == Some(a)
    ensures Follows(choose, tried + [a])
  {
    var t := tried + [a];
    forall k | 0 <= k < |t| ensures choose(t[..k]) == Some(t[k]) {
      assert t[..k] == tried[..k];
      if k == |tried| {
        assert tried[..k] == tried;
      }
    }
  }

  /** What the next choice makes of a request whose attempts have failed. */
  lemma OneMore(choose: Chooser, max: nat, net: Network, tried: seq<string>)
    requires Failing(choose, net, tried) && |tried| < max
    ensures match choose(tried)
            case None => IsRun(choose, max, net, Run(tried, BadGateway))
            case Some(a) =>
              if net(|tried|, a) then IsRun(choose, max, net, Run(tried + [a], Response(a)))
              else Failing(choose, net, tried + [a])
  {
    if choose(tried).Some? {
      FollowsMore(choose, tried, choose(tried).value);
    }
  }

  /** Choices, limit and network determine the run. */
  lemma RunIsDetermined(choose: Chooser, max: nat, net: Network, x: Run, y: Run)
    requires IsRun(choose, max, net, x) && IsRun(choose, max, net, y)
    ensures x == y
  {
    SamePrefix(choose, x.tried, y.tried, Min(|x.tried|, |y.tried|));
    assert x.tried[..|x.tried|] == x.tried && y.tried[..|y.tried|] == y.tried;
    NoneAfterEnd(choose, max, net, x, y);
    NoneAfterEnd(choose, max, net, y, x);
  }

  lemma {:induction false} SamePrefix(choose: Chooser, x: seq<string>, y: seq<string>, n: nat)
    requires n <= |x| && n <= |y| && Follows(choose, x) && Follows(choose, y)
    ensures x[..n] == y[..n]
  {
    if n > 0 {
      SamePrefix(choose, x, y, n - 1);
      assert Some(x[n - 1]) == Some(y[n - 1]);
      assert x[..n] == x[..n - 1] + [x[n - 1]] && y[..n] == y[..n - 1] + [y[n - 1]];
    }
  }

  /** A run does not go on where another one has ended. */
  lemma NoneAfterEnd(choose: Chooser, max: nat, net: Network, x: Run, y: Run)
    requires IsRun(choose, max, net, x) && IsRun(choose, max, net, y)
    ensures !(|x.tried| < |y.tried| && x.tried == y.tried[..|x.tried|])
  {
  }

  // ---- Attempts and addresses ----

  predicate Distinct(s: seq<string>) {
    forall i, j :: 0 <= i < j < |s| ==> s[i] != s[j]
  }

  function Elements(s: seq<string>): set<string> {
    set a | a in s
  }

  lemma {:induction false} DistinctCount(s: seq<string>)
    requires Distinct(s)
    ensures |Elements(s)| == |s|
  {
    if s != [] {
      var n := |s| - 1;
      DistinctCount(s[..n]);
      assert Elements(s) == Elements(s[..n]) + {s[n]};
    }
  }

  lemma {:induction false} SubsetCount<T>(a: set<T>, b: set<T>)
    requires a <= b
    ensures |a| <= |b|
    ensures a != b ==> |a| < |b|
  {
    if a != {} {
      var x :| x in a;
      SubsetCount(a - {x}, b - {x});
      if a != b {
        assert a - {x} != b - {x} by {
          assert a == (a - {x}) + {x} && b == (b - {x}) + {x};
        }
      }
    }
  }

  /** Choices are new and from the pool. */
  ghost predicate ChoosesFrom(choose: Chooser, pool: set<string>) {
    forall t :: choose(t).Some? ==> choose(t).value in pool && choose(t).value !in t
  }

  /** The choices do not end before this address was tried. */
  ghost predicate Reaches(choose: Chooser, good: string) {
    forall t :: choose(t) == None ==> good in t
  }

  ghost predicate Answers(net: Network, good: string) {
    forall k: nat :: net(k, good)
  }

  lemma DistinctAttempts(choose: Chooser, max: nat, net: Network, run: Run, pool: set<string>)
    requires IsRun(choose, max, net, run) && ChoosesFrom(choose, pool)
    ensures Distinct(run.tried) && Elements(run.tried) <= pool && |run.tried| <= Min(max, |pool|)
  {
    var t := run.tried;
    forall i, j | 0 <= i < j < |t| ensures t[i] != t[j] {
      assert t[i] == t[..j][i];
      assert choose(t[..j]) == Some(t[j]);
    }
    forall k | 0 <= k < |t| ensures t[k] in pool {
      assert choose(t[..k]) == Some(t[k]);
    }
    DistinctCount(t);
    SubsetCount(Elements(t), pool);
  }

  /** The pigeonhole argument: `good` is tried before the attempts run out. */
  lemma ReachedInTime(choose: Chooser, max: nat, net: Network, run: Run, pool: set<string>, good: string)
    requires IsRun(choose, max, net, run)
    requires ChoosesFrom(choose, pool) && Reaches(choose, good) && good in pool
    requires Answers(net, good) && |pool| <= max
    ensures run.outcome.Response?
  {
    DistinctAttempts(choose, max, net, run, pool);
    DistinctCount(run.tried);
    SubsetCount(Elements(run.tried), pool);
    assert good in Elements(run.tried) ==> run.outcome.Response?;
  }

  // ---- Executions: runs whose views follow from the first one ----

  function Shifted(us: seq<Upstream>, x: Interference): (r: seq<Upstream>)
    ensures |r| == |us|
    ensures forall i :: 0 <= i < |r| ==>
              r[i] == us[i].(healthy := x.healthy(i), connections := us[i].connections + x.moved(i))
  {
    seq(|us|, i requires 0 <= i < |us| =>
      us[i].(healthy := x.healthy(i), connections := us[i].connections + x.moved(i)))
  }

  function Disturbed(v: View, x: Interference): View {
    View(v.counter + x.advance, Shifted(v.ups, x))
  }

  /** Where a request starts and what can influence its selections. */
  datatype Setting = Setting(alg: Algorithm, first: View, env: Environment, sticky: Option<string>)

  /** The view after one more attempt: its own increment and decrement have cancelled. */
  function NextView(x: Setting, v: View, tried: seq<string>): View {
    Disturbed(v.(counter := CounterAfter(x.alg, v, x.sticky, tried)), x.env(|tried|))
  }

  /** The view after the attempts in `tried`. */
  function After(x: Setting, tried: seq<string>): View {
    if tried == [] then x.first else
    var t := tried[..|tried| - 1];
    NextView(x, After(x, t), t)
  }

  function Choices(x: Setting): Chooser {
    t => Selected(x.alg, After(x, t), x.sticky, t)
  }

  ghost predicate IsExecution(x: Setting, max: nat, net: Network, run: Run) {
    IsRun(Choices(x), max, net, run)
  }

  /** What `n` awaits add to the connection count of upstream `i`. */
  function Moved(env: Environment, i: nat, n: nat): int {
    if n == 0 then 0 else Moved(env, i, n - 1) + env(n - 1).moved(i)
  }

  /** Addresses and weights never change, flags are those of the last await, and a connection
      count has moved by what the others did. */
  lemma {:induction false} AfterMeaning(x: Setting, tried: seq<string>)
    ensures var n, us := |tried|, After(x, tried).ups;
            && |us| == |x.first.ups|
            && forall i :: 0 <= i < |us| ==>
                 us[i] == x.first.ups[i].(
                   healthy := if n == 0 then x.first.ups[i].healthy else x.env(n - 1).healthy(i),
                   connections := x.first.ups[i].connections + Moved(x.env, i, n))
  {
    if tried != [] {
      AfterMeaning(x, tried[..|tried| - 1]);
    }
  }

  // ---- The code ----

  function Now(lb: Balancer): View
    reads lb, lb.upstreams
  {
    View(lb.rrCounter, lb.View())
  }

  /** Awaits one attempt while other tasks run. */
  method Await(lb: Balancer, u: nat, k: nat, net: Network, env: Environment) returns (ok: bool)
    requires lb.Valid() && u < |lb.upstreams|
    modifies lb`rrCounter, lb.upstreams
    ensures ok == net(k, lb.upstreams[u].address)
    ensures Now(lb) == Disturbed(old(Now(lb)), env(k))
  {
    ok := net(k, lb.upstreams[u].address);
    ghost var us := lb.View();
    lb.rrCounter := lb.rrCounter + env(k).advance;
    for i := 0 to |lb.upstreams|
      invariant lb.rrCounter == old(lb.rrCounter) + env(k).advance
      invariant forall j :: 0 <= j < i ==> lb.upstreams[j].View() == Shifted(us, env(k))[j]
      invariant forall j :: i <= j < |us| ==> lb.upstreams[j].View() == us[j]
    {
      var up := lb.upstreams[i];
      up.healthy, up.activeConnections := env(k).healthy(i), up.activeConnections + env(k).moved(i);
    }
  }

  /** The upstreams after `delta` is added to the count of one of them. */
  function Counted(us: seq<Upstream>, u: nat, delta: int): seq<Upstream>
    requires u < |us|
  {
    us[u := us[u].(connections := us[u].connections + delta)]
  }

  method Enter(lb: Balancer, u: nat)
    requires lb.Valid() && u < |lb.upstreams|
    modifies lb.upstreams[u]
    ensures lb.View() == Counted(old(lb.View()), u, 1)
  {
    lb.upstreams[u].IncConnections();
  }

  method Leave(lb: Balancer, u: nat)
    requires lb.Valid() && u < |lb.upstreams|
    modifies lb.upstreams[u]
    ensures lb.View() == Counted(old(lb.View()), u, -1)
  {
    lb.upstreams[u].DecConnections();
  }

  /** One counted attempt: increment and decrement cancel, only the others leave a trace. */
  method Attempt(lb: Balancer, u: nat, k: nat, net: Network, env: Environment) returns (ok: bool)
    requires lb.Valid() && u < |lb.upstreams|
    modifies lb`rrCounter, lb.upstreams
    ensures ok == net(k, lb.upstreams[u].address)
    ensures Now(lb) == Disturbed(old(Now(lb)), env(k))
  {
    Enter(lb, u);
    ok := Await(lb, u, k, net, env);
    Leave(lb, u);
    CountsCancel(old(lb.View()), u, env(k));
  }

  lemma CountsCancel(us: seq<Upstream>, u: nat, x: Interference)
    requires u < |us|
    ensures Counted(Shifted(Counted(us, u, 1), x), u, -1) == Shifted(us, x)
  {
  }

  /** The selection of the next attempt; flags and connection counts are not touched. */
  method SelectNext(lb: Balancer, sticky: Option<string>, tried: seq<string>) returns (selected: Option<nat>)
    modifies lb`rrCounter
    ensures selected == SelectedAt(lb.algorithm, old(Now(lb)), sticky, tried)
    ensures lb.rrCounter == CounterAfter(lb.algorithm, old(Now(lb)), sticky, tried)
  {
    if tried == [] {
      selected := lb.SelectSticky(sticky);
    } else {
      selected := lb.SelectExcluding(tried);
    }
  }

  /** What decides whether a request may be sent twice. */
  datatype Policy = Policy(retries: nat, forceWithBody: bool, idempotentOnly: bool, bodyIsEmpty: bool, verb: string)

  function Limit(p: Policy): (n: nat)
    ensures n >= 1
  {
    MaxAttempts(MayRetry(p.forceWithBody, p.bodyIsEmpty, p.idempotentOnly, p.verb), p.retries)
  }

  /** One turn of the loop, in the setting `x`: the address tried next, if any, and whether it
      answered. The request goes on if it did not. */
  method TryNext(lb: Balancer, sticky: Option<string>, tried: seq<string>, net: Network, env: Environment,
                 ghost x: Setting, ghost max: nat)
    returns (next: Option<(string, bool)>)
    requires lb.Valid() && x.alg == lb.algorithm && x.env == env && x.sticky == sticky && |tried| < max
    requires Now(lb) == After(x, tried) && Failing(Choices(x), net, tried)
    modifies lb`rrCounter, lb.upstreams
    ensures match next
            case None => Now(lb) == After(x, tried) && IsExecution(x, max, net, Run(tried, BadGateway))
            case Some((a, ok)) =>
              && Now(lb) == After(x, tried + [a])
              && if ok then IsExecution(x, max, net, Run(tried + [a], Response(a)))
                 else Failing(Choices(x), net, tried + [a])
  {
    OneMore(Choices(x), max, net, tried);
    var selected := SelectNext(lb, sticky, tried);
    if selected.None? {
      return None;
    }
    var ok := Attempt(lb, selected.value, |tried|, net, env);
    next := Some((lb.upstreams[selected.value].address, ok));
    assert (tried + [next.value.0])[..|tried|] == tried;
  }

  /** The loop over the attempts, from the state of `x`. */
  method RetryLoop(lb: Balancer, sticky: Option<string>, max: nat, net: Network, env: Environment, ghost x: Setting)
    returns (outcome: Outcome, tried: seq<string>)
    requires lb.Valid() && x == Setting(lb.algorithm, Now(lb), env, sticky)
    modifies lb`rrCounter, lb.upstreams
    ensures IsExecution(x, max, net, Run(tried, outcome)) && Now(lb) == After(x, tried)
  {
    tried := [];
    for attempt := 0 to max
      invariant |tried| == attempt && Failing(Choices(x), net, tried) && Now(lb) == After(x, tried)
    {
      var next := TryNext(lb, sticky, tried, net, env, x, max);
      if next.None? {
        return BadGateway, tried;
      }
      tried := tried + [next.value.0];
      if next.value.1 {
        return Response(next.value.0), tried;
      }
    }
    outcome := BadGateway;
  }

  /** Some upstream with this address is healthy at first and after every await. */
  ghost predicate Survives(us: seq<Upstream>, env: Environment, good: string) {
    good in Healthy(us) && forall k: nat :: good in Healthy(Shifted(us, env(k)))
  }

  /** No address outside the pool is ever healthy. */
  ghost predicate Confined(us: seq<Upstream>, env: Environment, pool: set<string>) {
    Healthy(us) <= pool && forall k: nat :: Healthy(Shifted(us, env(k))) <= pool
  }

  /** Some address stays healthy and always answers, and the attempts suffice for all addresses
      that are ever healthy. */
  ghost predicate MustSucceed(us: seq<Upstream>, env: Environment, net: Network, max: nat) {
    exists good, pool :: Survives(us, env, good) && Confined(us, env, pool) && Answers(net, good) && |pool| <= max
  }

  /** The retry loop. Its outcome, the addresses it tries and the state it leaves are those of
      the execution that starts in the present state. In particular the connection counts have
      moved only by what others did; a surviving address that answers gets the request its
      response if there are enough attempts; and a cookie that names a healthy address decides
      the first attempt. */
  method ProxyRequest(lb: Balancer, sticky: Option<string>, p: Policy, net: Network, env: Environment)
    returns (outcome: Outcome, tried: seq<string>)
    requires lb.Valid()
    modifies lb`rrCounter, lb.upstreams
    ensures IsExecution(Setting(lb.algorithm, old(Now(lb)), env, sticky), Limit(p), net, Run(tried, outcome))
    ensures Now(lb) == After(Setting(lb.algorithm, old(Now(lb)), env, sticky), tried)
    ensures forall i :: 0 <= i < |lb.upstreams| ==>
              lb.upstreams[i].activeConnections == old(lb.upstreams[i].activeConnections) + Moved(env, i, |tried|)
    ensures MustSucceed(old(lb.View()), env, net, Limit(p)) ==> outcome.Response?
    ensures sticky.Some? && sticky.value in Healthy(old(lb.View())) ==> tried != [] && tried[0] == sticky.value
  {
    ghost var x := Setting(lb.algorithm, Now(lb), env, sticky);
    outcome, tried := RetryLoop(lb, sticky, Limit(p), net, env, x);
    AfterMeaning(x, tried);
    FailoverSucceeds(x, Limit(p), net, Run(tried, outcome));
    StickyGoesFirst(x, Limit(p), net, Run(tried, outcome));
  }

  /** An upgrade request makes one attempt on a normally selected upstream. */
  method ProxyUpgrade(lb: Balancer, net: Network, env: Environment) returns (outcome: Outcome)
    requires lb.Valid()
    modifies lb`rrCounter, lb.upstreams
    ensures var v := old(Now(lb));
            match Pick(lb.algorithm, v.ups, [], v.counter)
            case None => outcome == Unavailable && Now(lb) == v
            case Some(u) =>
              && outcome == (if net(0, v.ups[u].address) then Response(v.ups[u].address) else BadGateway)
              && Now(lb) == Disturbed(v.(counter := Bump(lb.algorithm, v.ups, [], v.counter)), env(0))
  {
    var selected := lb.SelectExcluding([]);
    if selected.None? {
      return Unavailable;
    }
    var ok := Attempt(lb, selected.value, 0, net, env);
    outcome := if ok then Response(lb.upstreams[selected.value].address) else BadGateway;
  }

  // ---- Properties of every execution ----

  /** Which addresses are healthy after some attempts depends on the last await only. */
  lemma HealthyAfter(x: Setting, tried: seq<string>)
    ensures Healthy(After(x, tried).ups)
         == if tried == [] then Healthy(x.first.ups) else Healthy(Shifted(x.first.ups, x.env(|tried| - 1)))
  {
    if tried != [] {
      AfterMeaning(x, tried);
      SameHealthy(After(x, tried).ups, Shifted(x.first.ups, x.env(|tried| - 1)));
    }
  }

  lemma SameHealthy(us: seq<Upstream>, ws: seq<Upstream>)
    requires |us| == |ws|
             && forall i :: 0 <= i < |us| ==> us[i].address == ws[i].address && us[i].healthy == ws[i].healthy
    ensures Healthy(us) == Healthy(ws)
  {
    forall a ensures a in Healthy(us) <==> a in Healthy(ws) {
      HealthyMeaning(us, a);
      HealthyMeaning(ws, a);
    }
  }

  lemma HealthyMeaning(us: seq<Upstream>, a: string)
    ensures a in Healthy(us) <==> exists i :: 0 <= i < |us| && us[i].healthy && us[i].address == a
  {
  }

  /** The addresses of all upstreams are always a pool. */
  lemma AllAddresses(us: seq<Upstream>, env: Environment)
    ensures Confined(us, env, set u <- us :: u.address)
  {
    forall k: nat ensures Healthy(Shifted(us, env(k))) <= set u <- us :: u.address {
      forall a <- Healthy(Shifted(us, env(k))) ensures exists u <- us :: u.address == a {
        HealthyMeaning(Shifted(us, env(k)), a);
        var i :| 0 <= i < |us| && Shifted(us, env(k))[i].address == a;
        assert us[i] in us;
      }
    }
  }

  /** What the choices of the balancer can be. */
  lemma ChoicesMeaning(x: Setting, pool: set<string>)
    requires Confined(x.first.ups, x.env, pool)
    ensures ChoosesFrom(Choices(x), pool)
    ensures forall good | Survives(x.first.ups, x.env, good) :: Reaches(Choices(x), good)
  {
    forall t ensures Healthy(After(x, t).ups) <= pool {
      HealthyAfter(x, t);
    }
    forall good, t | Survives(x.first.ups, x.env, good) && Choices(x)(t) == None ensures good in t {
      HealthyAfter(x, t);
    }
  }

  /** All attempted addresses are pairwise distinct and were healthy when attempted; there
      are at most as many attempts as allowed and as there are addresses to try. */
  lemma AttemptsAreDistinct(x: Setting, max: nat, net: Network, run: Run, pool: set<string>)
    requires IsExecution(x, max, net, run) && Confined(x.first.ups, x.env, pool)
    ensures Distinct(run.tried) && |run.tried| <= Min(max, |pool|)
    ensures forall k :: 0 <= k < |run.tried| ==> run.tried[k] in Healthy(After(x, run.tried[..k]).ups)
  {
    ChoicesMeaning(x, pool);
    DistinctAttempts(Choices(x), max, net, run, pool);
    forall k | 0 <= k < |run.tried| ensures run.tried[k] in Healthy(After(x, run.tried[..k]).ups) {
      assert Choices(x)(run.tried[..k]) == Some(run.tried[k]);
    }
  }

  /** Failover is complete: if some address stays healthy and always answers, and there are at
      least as many attempts as addresses that are ever healthy, the request gets an upstream
      response, for every algorithm, counter, load and sticky cookie. */
  lemma FailoverComplete(x: Setting, max: nat, net: Network, run: Run, pool: set<string>, good: string)
    requires IsExecution(x, max, net, run)
    requires Survives(x.first.ups, x.env, good) && Confined(x.first.ups, x.env, pool)
    requires Answers(net, good) && |pool| <= max
    ensures run.outcome.Response?
  {
    ChoicesMeaning(x, pool);
    ReachedInTime(Choices(x), max, net, run, pool, good);
  }

  lemma FailoverSucceeds(x: Setting, max: nat, net: Network, run: Run)
    requires IsExecution(x, max, net, run)
    ensures MustSucceed(x.first.ups, x.env, net, max) ==> run.outcome.Response?
  {
    if MustSucceed(x.first.ups, x.env, net, max) {
      var good, pool :| Survives(x.first.ups, x.env, good) && Confined(x.first.ups, x.env, pool)
        && Answers(net, good) && |pool| <= max;
      FailoverComplete(x, max, net, run, pool, good);
    }
  }

  /** In terms of the configuration: a request that may be retried and whose `retries + 1`
      attempts cover the healthy addresses gets a response. */
  lemma FailoverWithRetries(x: Setting, p: Policy, net: Network, run: Run, pool: set<string>, good: string)
    requires IsExecution(x, Limit(p), net, run)
    requires p.forceWithBody || p.bodyIsEmpty || !p.idempotentOnly
             || p.verb in ["GET", "HEAD", "OPTIONS", "PUT", "DELETE"]
    requires Survives(x.first.ups, x.env, good) && Confined(x.first.ups, x.env, pool)
    requires Answers(net, good) && |pool| <= p.retries + 1 && |pool| <= 0xFFFF_FFFF
    ensures run.outcome.Response?
  {
    FailoverComplete(x, Limit(p), net, run, pool, good);
  }

  /** A non-idempotent request with a body is sent at most once, whatever the retry setting,
      unless the configuration allows it. */
  lemma AtMostOnce(x: Setting, p: Policy, net: Network, run: Run)
    requires IsExecution(x, Limit(p), net, run)
    requires p.verb !in ["GET", "HEAD", "OPTIONS", "PUT", "DELETE"] && !p.bodyIsEmpty
    requires p.idempotentOnly && !p.forceWithBody
    ensures |run.tried| <= 1
  {
  }

  /** The healthy addresses are the same all the time. */
  ghost predicate Steady(x: Setting, healthy: set<string>) {
    Healthy(x.first.ups) == healthy && forall k: nat :: Healthy(Shifted(x.first.ups, x.env(k))) == healthy
  }

  /** The bound on the attempts is exact: while the healthy addresses stay the same, the
      request gets a response on every network on which one of them always answers, if and
      only if there are as many attempts as healthy addresses. */
  lemma FailoverIff(x: Setting, max: nat, healthy: set<string>)
    requires healthy != {} && Steady(x, healthy)
    ensures (forall net, run, good | IsExecution(x, max, net, run) && good in healthy && Answers(net, good) ::
               run.outcome.Response?)
       <==> |healthy| <= max
  {
    if |healthy| <= max {
      forall net, run, good | IsExecution(x, max, net, run) && good in healthy && Answers(net, good)
        ensures run.outcome.Response?
      {
        FailoverComplete(x, max, net, run, healthy, good);
      }
    } else {
      var net, run, good := FailoverNeedsEnoughAttempts(x, max, healthy);
    }
  }

  /** With fewer attempts than healthy addresses, for every algorithm and cookie and however
      loads and counter evolve, some network on which a healthy address always answers makes
      the request fail. */
  lemma FailoverNeedsEnoughAttempts(x: Setting, max: nat, healthy: set<string>)
    returns (net: Network, run: Run, good: string)
    requires Steady(x, healthy) && max < |healthy|
    ensures IsExecution(x, max, net, run)
    ensures good in healthy && Answers(net, good)
    ensures run.outcome == BadGateway
  {
    var tried := FailEverywhere(x, healthy, max);
    good := Untried(healthy, tried);
    net := (k, a) => a !in tried;
    run := Run(tried, BadGateway);
  }

  /** The addresses tried when every attempt fails. */
  lemma {:induction false} FailEverywhere(x: Setting, healthy: set<string>, n: nat) returns (tried: seq<string>)
    requires Steady(x, healthy) && n < |healthy|
    ensures |tried| == n && Follows(Choices(x), tried)
  {
    tried := [];
    if n > 0 {
      var t := FailEverywhere(x, healthy, n - 1);
      var a := Untried(healthy, t);
      HealthyAfter(x, t);
      assert Choices(x)(t).Some?;
      FollowsMore(Choices(x), t, Choices(x)(t).value);
      tried := t + [Choices(x)(t).value];
    }
  }

  /** Fewer attempts than addresses leave an address untried. */
  lemma {:induction false} Untried(pool: set<string>, tried: seq<string>) returns (a: string)
    requires |tried| < |pool|
    ensures a in pool && a !in tried
    decreases |tried|
  {
    if tried == [] {
      a :| a in pool;
    } else {
      var x := tried[0];
      assert pool == (pool - {x}) + (pool * {x});
      assert pool * {x} <= {x};
      SubsetCount(pool * {x}, {x});
      a := Untried(pool - {x}, tried[1..]);
    }
  }

  /** A sticky cookie that names a healthy address decides the first attempt. */
  lemma StickyGoesFirst(x: Setting, max: nat, net: Network, run: Run)
    requires IsExecution(x, max, net, run) && max > 0
    ensures x.sticky.Some? && x.sticky.value in Healthy(x.first.ups) ==>
              run.tried != [] && run.tried[0] == x.sticky.value
  {
    if x.sticky.Some? && x.sticky.value in Healthy(x.first.ups) {
      StickyDecides(x.alg, x.first.ups, x.sticky.value, x.first.counter);
      assert Choices(x)([]) == x.sticky;
      assert run.tried[..0] == [];
    }
  }
}
