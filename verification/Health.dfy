/** The health-check hysteresis of src/health/mod.rs.

    The counters are natural numbers: overflow of `u32` is not modelled. */
module Health {
  import opened Net
  import opened Counting
  import opened LoadBalancer

  datatype Thresholds = Thresholds(fails: nat, successes: nat)

  /** One probe of the upstream object `id`, with the thresholds configured at that time. */
  datatype Probe<Id> = Probe(id: Id, address: string, ok: bool, healthyThreshold: nat, unhealthyThreshold: nat)

  /** Counters are kept per address, flags per upstream object; both have defaults. */
  datatype State<Id> = State(counters: map<string, Thresholds>, flags: map<Id, bool>)

  function Counter(m: map<string, Thresholds>, address: string): Thresholds {
    if address in m then m[address] else Thresholds(0, 0)
  }

  predicate Flag<Id>(s: State<Id>, id: Id) {
    id in s.flags ==> s.flags[id]
  }

  /** The length a run of equal results must reach to decide. */
  function Needed<Id>(p: Probe<Id>): nat {
    Max(if p.ok then p.healthyThreshold else p.unhealthyThreshold, 1)
  }

  function NextCounter(t: Thresholds, ok: bool): Thresholds {
    if ok then Thresholds(0, t.successes + 1) else Thresholds(t.fails + 1, 0)
  }

  /** The flag after a probe, given the counter it leads to. */
  predicate NextFlag<Id>(was: bool, t: Thresholds, p: Probe<Id>) {
    if p.ok then was || t.successes >= Needed(p) else was && t.fails < Needed(p)
  }

  function AfterProbe<Id>(s: State<Id>, p: Probe<Id>): State<Id> {
    var t := NextCounter(Counter(s.counters, p.address), p.ok);
    State(s.counters[p.address := t], s.flags[p.id := NextFlag(Flag(s, p.id), t, p)])
  }

  function AfterProbes<Id>(s: State<Id>, ps: seq<Probe<Id>>): State<Id> {
    if ps == [] then s else AfterProbe(AfterProbes(s, ps[..|ps| - 1]), ps[|ps| - 1])
  }

  /** A probe touches the flag of its own object only. */
  lemma FlagAfterProbe<Id>(s: State<Id>, p: Probe<Id>, id: Id)
    ensures Flag(AfterProbe(s, p), id)
         == if id == p.id then NextFlag(Flag(s, id), NextCounter(Counter(s.counters, p.address), p.ok), p)
            else Flag(s, id)
  {
  }

  // ---- The checker ----

  datatype HealthConfig = HealthConfig(healthyThreshold: nat, unhealthyThreshold: nat)

  function ProbesOf(targets: seq<UpstreamRuntime>, results: seq<bool>, cfg: HealthConfig)
    : (ps: seq<Probe<UpstreamRuntime>>)
    requires |results| == |targets|
    ensures |ps| == |targets|
  {
    seq(|targets|, i requires 0 <= i < |targets| =>
      Probe(targets[i], targets[i].address, results[i], cfg.healthyThreshold, cfg.unhealthyThreshold))
  }

  class Checker {
    var counters: map<string, Thresholds>

    constructor ()
      ensures counters == map[]
    {
      counters := map[];
    }

    ghost function Snapshot(targets: seq<UpstreamRuntime>): (s: State<UpstreamRuntime>)
      reads this, targets
      ensures s.counters == counters && forall u <- targets :: Flag(s, u) == u.healthy
    {
      State(counters, map u | u in targets :: u.healthy)
    }

    method Observe(upstream: UpstreamRuntime, ok: bool, cfg: HealthConfig)
      modifies this, upstream`healthy
      ensures var p := Probe(upstream, upstream.address, ok, cfg.healthyThreshold, cfg.unhealthyThreshold);
              var t := NextCounter(Counter(old(counters), upstream.address), ok);
              && counters == old(counters)[upstream.address := t]
              && upstream.healthy == NextFlag(old(upstream.healthy), t, p)
    {
      var entry := Counter(counters, upstream.address);
      if ok {
        entry := Thresholds(0, entry.successes + 1);
        if !upstream.healthy && entry.successes >= Max(cfg.healthyThreshold, 1) {
          upstream.healthy := true;
        }
      } else {
        entry := Thresholds(entry.fails + 1, 0);
        if upstream.healthy && entry.fails >= Max(cfg.unhealthyThreshold, 1) {
          upstream.healthy := false;
        }
      }
      counters := counters[upstream.address := entry];
    }

    /** One pass over the upstreams of all balancers, given the outcome of each request. */
    method Round(targets: seq<UpstreamRuntime>, results: seq<bool>, cfg: HealthConfig)
      requires |results| == |targets|
      modifies this, targets
      ensures var s := AfterProbes(old(Snapshot(targets)), ProbesOf(targets, results, cfg));
              counters == s.counters && forall u <- targets :: u.healthy == Flag(s, u)
      ensures forall u <- targets :: u.activeConnections == old(u.activeConnections)
    {
      ghost var s0 := Snapshot(targets);
      ghost var ps := ProbesOf(targets, results, cfg);
      for i := 0 to |targets|
        invariant counters == AfterProbes(s0, ps[..i]).counters
        invariant forall u <- targets :: u.healthy == Flag(AfterProbes(s0, ps[..i]), u)
        invariant forall u <- targets :: u.activeConnections == old(u.activeConnections)
      {
        ghost var s := AfterProbes(s0, ps[..i]);
        assert ps[..i + 1][..i] == ps[..i];
        Observe(targets[i], results[i], cfg);
        assert AfterProbes(s0, ps[..i + 1]) == AfterProbe(s, ps[i]);
        forall u <- targets ensures u.healthy == Flag(AfterProbe(s, ps[i]), u) {
          FlagAfterProbe(s, ps[i], u);
        }
      }
      assert ps[..|ps|] == ps;
    }
  }

  /** Rounds compose: the history of several rounds is the concatenation of their probes. */
  lemma {:induction false} RoundsCompose<Id>(s: State<Id>, ps: seq<Probe<Id>>, qs: seq<Probe<Id>>)
    ensures AfterProbes(s, ps + qs) == AfterProbes(AfterProbes(s, ps), qs)
  {
    if qs == [] {
      assert ps + qs == ps;
    } else {
      var n := |qs| - 1;
      assert (ps + qs)[..|ps| + n] == ps + qs[..n];
      RoundsCompose(s, ps, qs[..n]);
    }
  }

  // ---- Closed form ----

  function Fresh<Id>(): State<Id> { State(map[], map[]) }

  /** Length of the final run of result `ok` in the probe history of an address. */
  function FinalRun<Id>(ps: seq<Probe<Id>>, address: string, ok: bool): nat {
    if ps == [] then 0 else
    var n := |ps| - 1;
    if ps[n].address != address then FinalRun(ps[..n], address, ok)
    else if ps[n].ok == ok then FinalRun(ps[..n], address, ok) + 1
    else 0
  }

  /** The counters of an address are the lengths of its final failing and succeeding runs. */
  lemma {:induction false} CountersAreRuns<Id>(ps: seq<Probe<Id>>, address: string)
    ensures Counter(AfterProbes(Fresh(), ps).counters, address)
         == Thresholds(FinalRun(ps, address, false), FinalRun(ps, address, true))
  {
    if ps != [] {
      CountersAreRuns(ps[..|ps| - 1], address);
    }
  }

  datatype Ruling = Silent | MarksUp | MarksDown

  /** What probe `i` decides about object `id`: its result, if it is a probe of that object
      that completes a long enough run of equal results at its address. */
  function Decision<Id(==)>(ps: seq<Probe<Id>>, id: Id, i: nat): Ruling
    requires i < |ps|
  {
    var p := ps[i];
    if p.id == id && FinalRun(ps[..i + 1], p.address, p.ok) >= Needed(p)
    then (if p.ok then MarksUp else MarksDown)
    else Silent
  }

  function Decisions<Id(==)>(ps: seq<Probe<Id>>, id: Id): (ds: seq<Ruling>)
    ensures |ds| == |ps|
  {
    seq(|ps|, i requires 0 <= i < |ps| => Decision(ps, id, i))
  }

  /** The most recent decision is a failure. */
  ghost predicate Down(ds: seq<Ruling>) {
    exists i :: 0 <= i < |ds| && ds[i] == MarksDown && forall j :: i < j < |ds| ==> ds[j] != MarksUp
  }

  /** An object is unhealthy exactly when the most recent deciding probe of it was a failing
      one. Thresholds may change between probes and objects may share an address. */
  lemma {:induction false} FlagClosedForm<Id>(ps: seq<Probe<Id>>, id: Id)
    ensures Flag(AfterProbes(Fresh(), ps), id) <==> !Down(Decisions(ps, id))
  {
    if ps != [] {
      var n := |ps| - 1;
      FlagClosedForm(ps[..n], id);
      LastProbe(ps, id);
      DecisionsPrefix(ps, id);
      DownStep(Decisions(ps, id));
    }
  }

  lemma DecisionsPrefix<Id>(ps: seq<Probe<Id>>, id: Id)
    requires ps != []
    ensures Decisions(ps, id)[..|ps| - 1] == Decisions(ps[..|ps| - 1], id)
  {
    var qs := ps[..|ps| - 1];
    forall i | 0 <= i < |qs| ensures Decision(ps, id, i) == Decision(qs, id, i) {
      assert qs[..i + 1] == ps[..i + 1];
    }
  }

  lemma DownStep(ds: seq<Ruling>)
    requires ds != []
    ensures var n := |ds| - 1; Down(ds) <==> ds[n] == MarksDown || (ds[n] == Silent && Down(ds[..n]))
  {
  }

  /** What the last probe does to the flag. */
  lemma LastProbe<Id>(ps: seq<Probe<Id>>, id: Id)
    requires ps != []
    ensures var n := |ps| - 1;
            Flag(AfterProbes(Fresh(), ps), id)
            == match Decision(ps, id, n)
               case MarksUp => true
               case MarksDown => false
               case Silent => Flag(AfterProbes(Fresh(), ps[..n]), id)
  {
    var n := |ps| - 1;
    CountersAreRuns(ps[..n], ps[n].address);
    assert ps[..n + 1] == ps;
  }

  // ---- Thresholds ----

  /** The same probe `k` times. */
  lemma {:induction false} RunOf<Id>(ps: seq<Probe<Id>>, p: Probe<Id>, k: nat)
    ensures FinalRun(ps + Copies(p, k), p.address, p.ok) == FinalRun(ps, p.address, p.ok) + k
  {
    var qs := ps + Copies(p, k);
    if k == 0 {
      assert qs == ps;
    } else {
      assert qs[..|qs| - 1] == ps + Copies(p, k - 1);
      RunOf(ps, p, k - 1);
    }
  }

  /** How many equal results in a row decide: a healthy upstream is marked down after `k` failing
      probes exactly when `k` reaches the unhealthy threshold (at least one), and an unhealthy
      one is marked up after `k` succeeding probes exactly when `k` reaches the healthy
      threshold, if the last probe before them had the other result or there was none. */
  lemma {:induction false} MarkedAfter<Id>(ps: seq<Probe<Id>>, p: Probe<Id>, k: nat)
    requires Flag(AfterProbes(Fresh(), ps), p.id) != p.ok && FinalRun(ps, p.address, p.ok) == 0
    ensures Flag(AfterProbes(Fresh(), ps + Copies(p, k)), p.id) == p.ok
       <==> k >= Max(if p.ok then p.healthyThreshold else p.unhealthyThreshold, 1)
  {
    var qs := ps + Copies(p, k);
    if k == 0 {
      assert qs == ps;
    } else {
      var n := |qs| - 1;
      assert qs[..n] == ps + Copies(p, k - 1) && qs[n] == p && qs[..n + 1] == qs;
      MarkedAfter(ps, p, k - 1);
      RunOf(ps, p, k);
      LastProbe(qs, p.id);
    }
  }

  /** In particular for a new upstream. */
  lemma FirstFailures<Id>(p: Probe<Id>, k: nat)
    requires !p.ok
    ensures !Flag(AfterProbes(Fresh(), Copies(p, k)), p.id) <==> k >= Max(p.unhealthyThreshold, 1)
  {
    MarkedAfter([], p, k);
    assert [] + Copies(p, k) == Copies(p, k);
  }

  // ---- Hysteresis ----

  /** Probe `i` changes the flag of `id`. */
  predicate Flips<Id(==)>(ps: seq<Probe<Id>>, i: nat, id: Id) {
    i < |ps| && Flag(AfterProbes(Fresh(), ps[..i]), id) != Flag(AfterProbes(Fresh(), ps[..i + 1]), id)
  }

  function At<Id>(address: string): Probe<Id> -> bool { (p: Probe<Id>) => p.address == address }

  /** Probes of an address. */
  function ProbesOn<Id>(ps: seq<Probe<Id>>, address: string): nat {
    Count(ps, At(address))
  }

  /** Between two consecutive flips of an object there are at least as many probes of its
      address as the threshold of the later flip demands. */
  lemma FlipsAreApart<Id>(ps: seq<Probe<Id>>, i: nat, j: nat, id: Id)
    requires i < j && Flips(ps, i, id) && Flips(ps, j, id)
    requires forall k :: i < k < j ==> !Flips(ps, k, id)
    requires ps[i].address == ps[j].address
    ensures ps[i].ok != ps[j].ok
    ensures ProbesOn(ps[i + 1..j + 1], ps[j].address) >= Needed(ps[j])
    ensures j - i >= Needed(ps[j])
  {
    FlipDecides(ps, i, id);
    FlipDecides(ps, j, id);
    FlagStays(ps, i + 1, j, id);
    assert ps[..j + 1][i + 1..] == ps[i + 1..j + 1];
    RunWithin(ps[..j + 1], i, ps[j].address, ps[j].ok);
    CountMonotone(ps[i + 1..j + 1], At(ps[j].address), At(ps[j].address));
  }

  lemma {:induction false} FlagStays<Id>(ps: seq<Probe<Id>>, i: nat, j: nat, id: Id)
    requires i <= j <= |ps| && forall k :: i <= k < j ==> !Flips(ps, k, id)
    ensures Flag(AfterProbes(Fresh(), ps[..i]), id) == Flag(AfterProbes(Fresh(), ps[..j]), id)
    decreases j - i
  {
    if i < j {
      FlagStays(ps, i, j - 1, id);
      assert !Flips(ps, j - 1, id);
    }
  }

  /** A flip is caused by a deciding probe of that object, and the flag becomes its result. */
  lemma FlipDecides<Id>(ps: seq<Probe<Id>>, i: nat, id: Id)
    requires Flips(ps, i, id)
    ensures ps[i].id == id && Flag(AfterProbes(Fresh(), ps[..i + 1]), id) == ps[i].ok
    ensures FinalRun(ps[..i + 1], ps[i].address, ps[i].ok) >= Needed(ps[i])
  {
    var qs := ps[..i + 1];
    assert qs[..i] == ps[..i];
    LastProbe(qs, id);
    assert qs[..i + 1] == qs;
  }

  /** A run cannot reach back over a probe with the other result. */
  lemma {:induction false} RunWithin<Id>(ps: seq<Probe<Id>>, i: nat, address: string, ok: bool)
    requires i < |ps| && ps[i].address == address && ps[i].ok != ok
    ensures FinalRun(ps, address, ok) <= ProbesOn(ps[i + 1..], address)
  {
    var n := |ps| - 1;
    if i < n {
      RunWithin(ps[..n], i, address, ok);
      assert ps[i + 1..][..n - i - 1] == ps[..n][i + 1..];
    }
  }

  // ---- Thresholds counted per object ----

  function Of<Id(==)>(id: Id): Probe<Id> -> bool { (p: Probe<Id>) => p.id == id }

  /** Probes of the object itself. */
  function OwnProbes<Id(==)>(ps: seq<Probe<Id>>, id: Id): nat {
    Count(ps, Of(id))
  }

  /** Every probe goes to the address of its object. */
  ghost predicate AtHome<Id>(ps: seq<Probe<Id>>, home: Id -> string) {
    forall k :: 0 <= k < |ps| ==> ps[k].address == home(ps[k].id)
  }

  /** No other object in the history has the address of `id`. */
  ghost predicate Alone<Id>(ps: seq<Probe<Id>>, home: Id -> string, id: Id) {
    forall k :: 0 <= k < |ps| && home(ps[k].id) == home(id) ==> ps[k].id == id
  }

  /** The flag of `id` has last changed right before probe `start`, or not at all. */
  ghost predicate SinceFlip<Id>(ps: seq<Probe<Id>>, start: nat, i: nat, id: Id) {
    && start <= i <= |ps|
    && (start == 0 || Flips(ps, start - 1, id))
    && forall k :: start <= k < i ==> !Flips(ps, k, id)
  }

  lemma OwnAreAll<Id>(ps: seq<Probe<Id>>, home: Id -> string, id: Id)
    requires AtHome(ps, home) && Alone(ps, home, id)
    ensures ProbesOn(ps, home(id)) == OwnProbes(ps, id)
  {
    CountMonotone(ps, At(home(id)), Of(id));
    CountMonotone(ps, Of(id), At(home(id)));
  }

  lemma {:induction false} RunIsShorter<Id>(ps: seq<Probe<Id>>, address: string, ok: bool)
    ensures FinalRun(ps, address, ok) <= ProbesOn(ps, address)
  {
    if ps != [] {
      RunIsShorter(ps[..|ps| - 1], address, ok);
    }
  }

  /** An object that shares its address with no other is marked only after a threshold of probes
      of its own, counted from its last change. */
  lemma OwnThreshold<Id>(ps: seq<Probe<Id>>, home: Id -> string, start: nat, i: nat, id: Id)
    requires AtHome(ps, home) && Alone(ps, home, id)
    requires Flips(ps, i, id) && SinceFlip(ps, start, i, id)
    ensures OwnProbes(ps[start..i + 1], id) >= Needed(ps[i])
  {
    FlipDecides(ps, i, id);
    OwnAreAll(ps[start..i + 1], home, id);
    if start == 0 {
      assert ps[0..i + 1] == ps[..i + 1];
      RunIsShorter(ps[..i + 1], home(id), ps[i].ok);
    } else {
      FlipDecides(ps, start - 1, id);
      FlipsAreApart(ps, start - 1, i, id);
    }
  }

  /** All probes use the same thresholds. */
  ghost predicate Uniform<Id>(ps: seq<Probe<Id>>, cfg: HealthConfig) {
    forall k :: 0 <= k < |ps| ==>
      ps[k].healthyThreshold == cfg.healthyThreshold && ps[k].unhealthyThreshold == cfg.unhealthyThreshold
  }

  /** Objects are marked only after a threshold of probes of their own. */
  ghost predicate OwnThresholds<Id(!new)>(ps: seq<Probe<Id>>) {
    forall id, start: nat, i: nat ::
      Flips(ps, i, id) && SinceFlip(ps, start, i, id) ==>
        OwnProbes(ps[start..i + 1], id) >= Needed(ps[i])
  }

  ghost predicate Injective<Id(!new)>(home: Id -> string) {
    forall a, b :: home(a) == home(b) ==> a == b
  }

  /** For which assignments of addresses that holds in every history: exactly those that give
      every object its own address, unless both thresholds are one. */
  lemma OwnThresholdsIff<Id(!new)>(home: Id -> string, cfg: HealthConfig)
    ensures (forall ps: seq<Probe<Id>> | AtHome(ps, home) && Uniform(ps, cfg) :: OwnThresholds(ps))
       <==> Injective(home) || (cfg.healthyThreshold <= 1 && cfg.unhealthyThreshold <= 1)
  {
    if Injective(home) {
      forall ps: seq<Probe<Id>> | AtHome(ps, home) ensures OwnThresholds(ps) {
        forall id, start: nat, i: nat | Flips(ps, i, id) && SinceFlip(ps, start, i, id)
          ensures OwnProbes(ps[start..i + 1], id) >= Needed(ps[i])
        {
          OwnThreshold(ps, home, start, i, id);
        }
      }
    } else if cfg.healthyThreshold <= 1 && cfg.unhealthyThreshold <= 1 {
      forall ps: seq<Probe<Id>>, id, start: nat, i: nat
        | Uniform(ps, cfg) && Flips(ps, i, id) && SinceFlip(ps, start, i, id)
        ensures OwnProbes(ps[start..i + 1], id) >= Needed(ps[i])
      {
        FlipDecides(ps, i, id);
      }
    } else {
      var a, b :| home(a) == home(b) && a != b;
      if cfg.unhealthyThreshold >= 2 {
        var ps := EarlyDown(a, b, home(a), cfg);
        assert AtHome(ps, home);
      } else {
        var ps := EarlyUp(a, b, home(a), cfg);
        assert AtHome(ps, home);
      }
    }
  }

  /** From `start` to before `i` the probes have the address and the result of probe `i` but
      concern other objects, and with it they make its threshold. */
  ghost predicate Shared<Id>(ps: seq<Probe<Id>>, start: nat, i: nat) {
    && start <= i < |ps| && Needed(ps[i]) == i - start + 1
    && forall k :: start <= k < i ==> ps[k].id != ps[i].id && ps[k].address == ps[i].address && ps[k].ok == ps[i].ok
  }

  lemma {:induction false} SharedRun<Id>(ps: seq<Probe<Id>>, start: nat, i: nat, m: nat)
    requires Shared(ps, start, i) && start <= m <= i
    ensures FinalRun(ps[..m], ps[i].address, ps[i].ok) >= m - start
  {
    if start < m {
      SharedRun(ps, start, i, m - 1);
      assert ps[..m][..m - 1] == ps[..m - 1];
    }
  }

  lemma {:induction false} SharedOwn<Id>(ps: seq<Probe<Id>>, start: nat, i: nat, m: nat)
    requires Shared(ps, start, i) && start <= m <= i
    ensures OwnProbes(ps[start..m], ps[i].id) == 0
  {
    if start < m {
      SharedOwn(ps, start, i, m - 1);
      assert ps[start..m][..m - 1 - start] == ps[start..m - 1];
    }
  }

  /** Such probes do not touch the flag, but they count: probe `i` decides. */
  lemma SharedDecides<Id>(ps: seq<Probe<Id>>, start: nat, i: nat)
    requires Shared(ps, start, i)
    ensures forall k :: start <= k < i ==> !Flips(ps, k, ps[i].id)
    ensures Flag(AfterProbes(Fresh(), ps[..i + 1]), ps[i].id) == ps[i].ok
    ensures OwnProbes(ps[start..i + 1], ps[i].id) == 1
  {
    forall k | start <= k < i ensures !Flips(ps, k, ps[i].id) {
      if Flips(ps, k, ps[i].id) {
        FlipDecides(ps, k, ps[i].id);
      }
    }
    SharedRun(ps, start, i, i);
    SharedOwn(ps, start, i, i);
    RunCompletes(ps, i);
    assert ps[start..i + 1][..i - start] == ps[start..i];
  }

  /** A probe that completes a long enough run sets the flag. */
  lemma RunCompletes<Id>(ps: seq<Probe<Id>>, i: nat)
    requires i < |ps| && FinalRun(ps[..i], ps[i].address, ps[i].ok) + 1 >= Needed(ps[i])
    ensures Flag(AfterProbes(Fresh(), ps[..i + 1]), ps[i].id) == ps[i].ok
  {
    var qs := ps[..i + 1];
    assert qs[..i] == ps[..i] && qs[..i + 1] == qs;
    LastProbe(qs, ps[i].id);
  }

  /** So probe `i` flips the flag after a single probe of its own object. */
  lemma SharedIsTooEarly<Id(!new)>(ps: seq<Probe<Id>>, start: nat, i: nat)
    requires Shared(ps, start, i) && start < i && Flag(AfterProbes(Fresh(), ps[..start]), ps[i].id) != ps[i].ok
    requires start == 0 || Flips(ps, start - 1, ps[i].id)
    ensures !OwnThresholds(ps)
  {
    SharedDecides(ps, start, i);
    FlagStays(ps, start, i, ps[i].id);
    assert Flips(ps, i, ps[i].id) && SinceFlip(ps, start, i, ps[i].id);
  }

  /** A history in which `b` is marked unhealthy after a single probe of its own, because `a`
      has the same address. */
  lemma EarlyDown<Id(!new)>(a: Id, b: Id, address: string, cfg: HealthConfig) returns (ps: seq<Probe<Id>>)
    requires a != b && cfg.unhealthyThreshold >= 2
    ensures |ps| == cfg.unhealthyThreshold && Uniform(ps, cfg) && !OwnThresholds(ps)
    ensures forall k :: 0 <= k < |ps| ==> ps[k].address == address && (ps[k].id == a || ps[k].id == b)
  {
    var n := cfg.unhealthyThreshold - 1;
    ps := seq(n + 1, k => Probe(if k < n then a else b, address, false, cfg.healthyThreshold, cfg.unhealthyThreshold));
    assert ps[..0] == [];
    SharedIsTooEarly(ps, 0, n);
  }

  /** Likewise one in which `b` is marked healthy too early. */
  lemma EarlyUp<Id(!new)>(a: Id, b: Id, address: string, cfg: HealthConfig) returns (ps: seq<Probe<Id>>)
    requires a != b && cfg.unhealthyThreshold <= 1 && cfg.healthyThreshold >= 2
    ensures |ps| == cfg.healthyThreshold + 1 && Uniform(ps, cfg) && !OwnThresholds(ps)
    ensures forall k :: 0 <= k < |ps| ==> ps[k].address == address && (ps[k].id == a || ps[k].id == b)
  {
    var n := cfg.healthyThreshold;
    ps := seq(n + 1, k =>
      Probe(if 0 < k < n then a else b, address, k > 0, cfg.healthyThreshold, cfg.unhealthyThreshold));
    FirstDown(ps);
    SharedIsTooEarly(ps, 1, n);
  }

  /** With a threshold of one, a failing first probe marks its object. */
  lemma FirstDown<Id>(ps: seq<Probe<Id>>)
    requires ps != [] && !ps[0].ok && ps[0].unhealthyThreshold <= 1
    ensures Flips(ps, 0, ps[0].id) && !Flag(AfterProbes(Fresh(), ps[..1]), ps[0].id)
  {
    assert ps[..0] == [] && ps[..1][..0] == [] && ps[..1][..1] == ps[..1];
    LastProbe(ps[..1], ps[0].id);
  }
}
