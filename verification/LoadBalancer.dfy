/** The load balancer of src/lb/mod.rs and src/lb/least_conn.rs.

    The counter `rr_counter` is a natural number and `active_connections` an integer:
    wrap-around at 2^64 is not modelled, and connection counts are proved never to be negative
    in the module ConnectionCounts. Upstreams are named by their position, since addresses may repeat. */
module LoadBalancer {
  import opened Net
  import opened Arith
  import opened Counting
  import opened Cyclic

  datatype Algorithm = RoundRobin | WeightedRoundRobin | LeastConnections | PowerOfTwoChoices

  /** An upstream entry of the configuration. */
  datatype Configured = Configured(address: string, weight: nat)

  /** What a selection reads of an upstream. */
  datatype Upstream = Upstream(address: string, weight: nat, healthy: bool, connections: int)

  // ---- Selection on values ----

  predicate Within(e: seq<nat>, us: seq<Upstream>) {
    forall j :: 0 <= j < |e| ==> e[j] < |us|
  }

  predicate IsEligible(u: Upstream, exclude: seq<string>) {
    u.healthy && u.address !in exclude
  }

  /** Positions of the eligible upstreams, in order. */
  function Eligible(us: seq<Upstream>, exclude: seq<string>): (r: seq<nat>)
    ensures Within(r, us)
  {
    if us == [] then [] else
    var n := |us| - 1;
    var r := Eligible(us[..n], exclude);
    if IsEligible(us[n], exclude) then r + [n] else r
  }

  predicate Increasing(e: seq<nat>) {
    forall j, k :: 0 <= j < k < |e| ==> e[j] < e[k]
  }

  lemma {:induction false} EligibleMeaning(us: seq<Upstream>, exclude: seq<string>)
    ensures Increasing(Eligible(us, exclude))
    ensures forall i :: i in Eligible(us, exclude) <==> 0 <= i < |us| && IsEligible(us[i], exclude)
  {
    if us != [] {
      var n := |us| - 1;
      EligibleMeaning(us[..n], exclude);
      assert forall i :: 0 <= i < n ==> us[..n][i] == us[i];
    }
  }

  function Share(u: Upstream): nat {
    Max(u.weight, 1)
  }

  /** Each position repeated as often as its upstream weighs. */
  function Expand(us: seq<Upstream>, e: seq<nat>): (r: seq<nat>)
    requires Within(e, us)
    ensures e != [] ==> r != []
  {
    if e == [] then [] else
    var n := |e| - 1;
    Expand(us, e[..n]) + Copies<nat>(e[n], Share(us[e[n]]))
  }

  lemma {:induction false} ExpandMembers(us: seq<Upstream>, e: seq<nat>)
    requires Within(e, us)
    ensures forall x :: x in Expand(us, e) <==> x in e
  {
    if e != [] {
      var n := |e| - 1;
      ExpandMembers(us, e[..n]);
      assert e == e[..n] + [e[n]];
      assert Copies<nat>(e[n], Share(us[e[n]]))[0] == e[n];
    }
  }

  /** Index into `e` of the first upstream with the fewest connections. */
  function FirstMin(us: seq<Upstream>, e: seq<nat>): (j: nat)
    requires e != [] && Within(e, us)
    ensures j < |e|
    ensures forall i :: 0 <= i < |e| ==> us[e[j]].connections <= us[e[i]].connections
    ensures forall i :: 0 <= i < j ==> us[e[j]].connections < us[e[i]].connections
  {
    var n := |e| - 1;
    if n == 0 then 0 else
    var j := FirstMin(us, e[..n]);
    if us[e[n]].connections < us[e[j]].connections then n else j
  }

  /** The two candidates at counter value `c`. */
  function Offer(e: seq<nat>, c: nat): seq<nat>
    requires e != []
  {
    [e[c % |e|], e[(c + 1) % |e|]]
  }

  /** The choice among the eligible upstreams `e` at counter value `c`. */
  function Choose(alg: Algorithm, us: seq<Upstream>, e: seq<nat>, c: nat): (r: nat)
    requires e != [] && Within(e, us)
    ensures r in e
  {
    match alg
    case RoundRobin => e[c % |e|]
    case WeightedRoundRobin =>
      var x := Expand(us, e);
      ExpandMembers(us, e);
      assert x[c % |x|] in x;
      x[c % |x|]
    case LeastConnections => e[FirstMin(us, e)]
    case PowerOfTwoChoices =>
      if |e| == 1 then e[0] else
      var o := Offer(e, c);
      if us[o[0]].connections <= us[o[1]].connections then o[0] else o[1]
  }

  /** How far a selection among `n` upstreams moves the counter. */
  function Stride(alg: Algorithm, n: nat): nat {
    match alg
    case RoundRobin => 1
    case WeightedRoundRobin => 1
    case LeastConnections => 0
    case PowerOfTwoChoices => if n == 1 then 0 else 2
  }

  /** The selected position, if any upstream is eligible. */
  function Pick(alg: Algorithm, us: seq<Upstream>, exclude: seq<string>, c: nat): (r: Option<nat>)
    ensures r.None? <==> Eligible(us, exclude) == []
    ensures r.Some? ==> r.value < |us| && IsEligible(us[r.value], exclude)
  {
    var e := Eligible(us, exclude);
    EligibleMeaning(us, exclude);
    if e == [] then None else Some(Choose(alg, us, e, c))
  }

  /** The counter after a selection. */
  function Bump(alg: Algorithm, us: seq<Upstream>, exclude: seq<string>, c: nat): nat {
    var e := Eligible(us, exclude);
    if e == [] then c else c + Stride(alg, |e|)
  }

  /** The first healthy upstream with the given address. */
  function FindSticky(us: seq<Upstream>, address: string): (r: Option<nat>)
    ensures r.Some? ==> r.value < |us| && us[r.value].healthy && us[r.value].address == address
    ensures r.Some? ==> forall i :: 0 <= i < r.value ==> !(us[i].healthy && us[i].address == address)
    ensures r.None? ==> forall u <- us :: !(u.healthy && u.address == address)
  {
    if us == [] then None
    else if us[0].healthy && us[0].address == address then Some(0)
    else match FindSticky(us[1..], address)
      case Some(i) => Some(i + 1)
      case None => None
  }

  function StickyMatch(us: seq<Upstream>, sticky: Option<string>): (r: Option<nat>)
    ensures r.Some? ==> r.value < |us|
  {
    match sticky
    case Some(a) => FindSticky(us, a)
    case None => None
  }

  function PickSticky(alg: Algorithm, us: seq<Upstream>, sticky: Option<string>, c: nat): (r: Option<nat>)
    ensures r.None? <==> Eligible(us, []) == []
    ensures r.Some? ==> r.value < |us| && us[r.value].healthy
  {
    var m := StickyMatch(us, sticky);
    EligibleMeaning(us, []);
    assert m.Some? ==> IsEligible(us[m.value], []) && m.value in Eligible(us, []);
    if m.Some? then m else Pick(alg, us, [], c)
  }

  function BumpSticky(alg: Algorithm, us: seq<Upstream>, sticky: Option<string>, c: nat): nat {
    if StickyMatch(us, sticky).Some? then c else Bump(alg, us, [], c)
  }

  // ---- The balancer ----

  /** The upstreams as they start: healthy and without connections. */
  function Started(configured: seq<Configured>): (us: seq<Upstream>)
    ensures |us| == |configured|
  {
    seq(|configured|, i requires 0 <= i < |configured| =>
      Upstream(configured[i].address, configured[i].weight, true, 0))
  }

  class UpstreamRuntime {
    const address: string
    const weight: nat
    var healthy: bool
    var activeConnections: int

    constructor (address: string, weight: nat)
      ensures this.address == address && this.weight == weight
      ensures healthy && activeConnections == 0
    {
      this.address, this.weight := address, weight;
      healthy, activeConnections := true, 0;
    }

    function View(): Upstream
      reads this
    {
      Upstream(address, weight, healthy, activeConnections)
    }

    method IncConnections()
      modifies this`activeConnections
      ensures activeConnections == old(activeConnections) + 1
    {
      activeConnections := activeConnections + 1;
    }

    method DecConnections()
      modifies this`activeConnections
      ensures activeConnections == old(activeConnections) - 1
    {
      activeConnections := activeConnections - 1;
    }
  }

  class Balancer {
    const upstreams: seq<UpstreamRuntime>
    const algorithm: Algorithm
    var rrCounter: nat

    /** One new upstream object per configured entry. */
    constructor (configured: seq<Configured>, algorithm: Algorithm)
      ensures Valid() && fresh(upstreams)
      ensures this.algorithm == algorithm && rrCounter == 0
      ensures View() == Started(configured)
    {
      var us: seq<UpstreamRuntime> := [];
      for i := 0 to |configured|
        invariant |us| == i && fresh(us)
        invariant forall j, k :: 0 <= j < k < i ==> us[j] != us[k]
        invariant forall j :: 0 <= j < i ==> us[j].View() == Started(configured)[j]
      {
        var u := new UpstreamRuntime(configured[i].address, configured[i].weight);
        us := us + [u];
      }
      this.upstreams, this.algorithm := us, algorithm;
      rrCounter := 0;
    }

    /** No two positions hold the same object. */
    ghost predicate Valid() {
      forall i, j :: 0 <= i < j < |upstreams| ==> upstreams[i] != upstreams[j]
    }

    function View(): (v: seq<Upstream>)
      reads upstreams
      ensures |v| == |upstreams| && forall i :: 0 <= i < |v| ==> v[i] == upstreams[i].View()
    {
      seq(|upstreams|, i requires 0 <= i < |upstreams| reads upstreams => upstreams[i].View())
    }

    method SelectExcluding(exclude: seq<string>) returns (r: Option<nat>)
      modifies this`rrCounter
      ensures r == Pick(algorithm, View(), exclude, old(rrCounter))
      ensures rrCounter == Bump(algorithm, View(), exclude, old(rrCounter))
    {
      ghost var us := View();
      var healthy: seq<nat> := [];
      for i := 0 to |upstreams|
        invariant healthy == Eligible(us[..i], exclude)
      {
        assert us[..i + 1][..i] == us[..i];
        if upstreams[i].healthy && upstreams[i].address !in exclude {
          healthy := healthy + [i];
        }
      }
      assert us[..|us|] == us;
      if healthy == [] {
        return None;
      }
      r := ChooseAmong(healthy);
    }

    method ChooseAmong(healthy: seq<nat>) returns (r: Option<nat>)
      requires healthy != [] && Within(healthy, View())
      modifies this`rrCounter
      ensures r == Some(Choose(algorithm, View(), healthy, old(rrCounter)))
      ensures rrCounter == old(rrCounter) + Stride(algorithm, |healthy|)
    {
      match algorithm {
        case RoundRobin =>
          var idx := rrCounter % |healthy|;
          rrCounter := rrCounter + 1;
          r := Some(healthy[idx]);
        case WeightedRoundRobin =>
          var expanded := BuildExpanded(healthy);
          var idx := rrCounter % |expanded|;
          rrCounter := rrCounter + 1;
          r := Some(expanded[idx]);
        case LeastConnections =>
          r := Some(healthy[FirstMin(View(), healthy)]);
        case PowerOfTwoChoices =>
          if |healthy| == 1 {
            return Some(healthy[0]);
          }
          var base := rrCounter;
          rrCounter := rrCounter + 2;
          var a := healthy[base % |healthy|];
          var b := healthy[(base + 1) % |healthy|];
          r := if upstreams[a].activeConnections <= upstreams[b].activeConnections then Some(a) else Some(b);
      }
    }

    method BuildExpanded(healthy: seq<nat>) returns (expanded: seq<nat>)
      requires healthy != [] && Within(healthy, View())
      ensures expanded == Expand(View(), healthy) && expanded != []
    {
      expanded := [];
      for i := 0 to |healthy|
        invariant expanded == Expand(View(), healthy[..i])
      {
        assert healthy[..i + 1][..i] == healthy[..i];
        var u := healthy[i];
        ghost var before := expanded;
        for w := 0 to Max(upstreams[u].weight, 1)
          invariant expanded == before + Copies<nat>(u, w)
        {
          expanded := expanded + [u];
        }
      }
      assert healthy[..|healthy|] == healthy;
    }

    method SelectSticky(sticky: Option<string>) returns (r: Option<nat>)
      modifies this`rrCounter
      ensures r == PickSticky(algorithm, View(), sticky, old(rrCounter))
      ensures rrCounter == BumpSticky(algorithm, View(), sticky, old(rrCounter))
    {
      if sticky.Some? {
        var i := FindSticky(View(), sticky.value);
        if i.Some? {
          return i;
        }
      }
      r := SelectExcluding([]);
    }
  }

  /** A sticky cookie that names a healthy upstream decides the selection, whatever the
      algorithm, the counter and the loads, and does not move the counter. */
  lemma StickyDecides(alg: Algorithm, us: seq<Upstream>, address: string, c: nat)
    requires exists u <- us :: u.healthy && u.address == address
    ensures PickSticky(alg, us, Some(address), c).Some?
    ensures us[PickSticky(alg, us, Some(address), c).value].address == address
    ensures BumpSticky(alg, us, Some(address), c) == c
  {
  }

  /** Without a cookie that names a healthy upstream, selection is the normal one. */
  lemma StickyFallsBack(alg: Algorithm, us: seq<Upstream>, sticky: Option<string>, c: nat)
    requires sticky.Some? ==> forall u <- us :: !(u.healthy && u.address == sticky.value)
    ensures PickSticky(alg, us, sticky, c) == Pick(alg, us, [], c)
    ensures BumpSticky(alg, us, sticky, c) == Bump(alg, us, [], c)
  {
  }

  // ---- What each algorithm picks ----

  /** The least-connections algorithm picks the first of the least loaded upstreams. */
  lemma LeastConnectionsPicks(us: seq<Upstream>, exclude: seq<string>, c: nat)
    requires Eligible(us, exclude) != []
    ensures var k := Pick(LeastConnections, us, exclude, c).value;
            forall i :: 0 <= i < |us| && IsEligible(us[i], exclude) ==>
              us[k].connections <= us[i].connections && (i < k ==> us[k].connections < us[i].connections)
  {
    var e := Eligible(us, exclude);
    EligibleMeaning(us, exclude);
    var j := FirstMin(us, e);
    forall i | 0 <= i < |us| && IsEligible(us[i], exclude)
      ensures us[e[j]].connections <= us[i].connections && (i < e[j] ==> us[e[j]].connections < us[i].connections)
    {
      var m :| 0 <= m < |e| && e[m] == i;
      assert i < e[j] ==> m < j;
    }
  }

  /** Power of two choices picks one of the two eligible upstreams at the counter, the one with
      fewer connections, and the first of them on a tie. */
  lemma TwoChoicesPicks(us: seq<Upstream>, exclude: seq<string>, c: nat)
    requires |Eligible(us, exclude)| >= 2
    ensures var e := Eligible(us, exclude);
            var x, y := e[c % |e|], e[(c + 1) % |e|];
            Pick(PowerOfTwoChoices, us, exclude, c)
            == Some(if us[y].connections < us[x].connections then y else x)
  {
  }

  /** Round robin picks the eligible upstream at the counter, or the slot in the list expanded
      by the weights. */
  lemma RoundRobinPicks(us: seq<Upstream>, exclude: seq<string>, c: nat)
    requires Eligible(us, exclude) != []
    ensures var e := Eligible(us, exclude);
            var x := Expand(us, e);
            && Pick(RoundRobin, us, exclude, c) == Some(e[c % |e|])
            && |x| == WeightSum(us, e) > 0 && Pick(WeightedRoundRobin, us, exclude, c) == Some(x[c % |x|])
  {
    ExpandLength(us, Eligible(us, exclude));
  }

  /** How selections move the counter. */
  lemma CounterMoves(alg: Algorithm, us: seq<Upstream>, exclude: seq<string>, c: nat)
    ensures var n := |Eligible(us, exclude)|;
            Bump(alg, us, exclude, c) - c
            == if n == 0 || alg == LeastConnections || (alg == PowerOfTwoChoices && n == 1) then 0
               else if alg == PowerOfTwoChoices then 2
               else 1
  {
  }

  // ---- Fairness ----

  /** Selections one after the other, each on its own view of the loads. */
  function Picks(alg: Algorithm, views: seq<seq<Upstream>>, exclude: seq<string>, c: nat): seq<nat>
    requires forall v <- views :: Eligible(v, exclude) != []
    decreases |views|
  {
    if views == [] then [] else
    assert views[0] in views;
    [Pick(alg, views[0], exclude, c).value]
    + Picks(alg, views[1..], exclude, Bump(alg, views[0], exclude, c))
  }

  lemma {:induction false} PicksAreReads(alg: Algorithm, views: seq<seq<Upstream>>, exclude: seq<string>,
                                         c: nat, x: seq<nat>)
    requires alg == RoundRobin || alg == WeightedRoundRobin
    requires x != [] && forall v <- views :: Eligible(v, exclude) != [] && Served(alg, v, exclude) == x
    ensures Picks(alg, views, exclude, c) == Reads(x, c, |views|)
    decreases |views|
  {
    if views != [] {
      assert views[0] in views;
      assert forall v <- views[1..] :: v in views;
      PicksAreReads(alg, views[1..], exclude, c + 1, x);
      SlotServed(alg, views[0], exclude, c);
    }
  }

  lemma SlotServed(alg: Algorithm, us: seq<Upstream>, exclude: seq<string>, c: nat)
    requires alg == RoundRobin || alg == WeightedRoundRobin
    requires Eligible(us, exclude) != []
    ensures var x := Served(alg, us, exclude);
            x != [] && Pick(alg, us, exclude, c) == Some(x[c % |x|]) && Bump(alg, us, exclude, c) == c + 1
  {
  }

  /** The list a round-robin algorithm cycles through. */
  function Served(alg: Algorithm, us: seq<Upstream>, exclude: seq<string>): seq<nat> {
    var e := Eligible(us, exclude);
    if alg == WeightedRoundRobin then Expand(us, e) else e
  }

  /** How often upstream `k` occurs in that list. */
  function Weight(alg: Algorithm, u: Upstream): nat {
    if alg == WeightedRoundRobin then Share(u) else 1
  }

  lemma ServedWeight(alg: Algorithm, us: seq<Upstream>, exclude: seq<string>, k: nat)
    requires k in Eligible(us, exclude)
    ensures multiset(Served(alg, us, exclude))[k] == Weight(alg, us[k])
  {
    var e := Eligible(us, exclude);
    EligibleMeaning(us, exclude);
    DistinctOnce(e, k);
    ExpandCount(us, e, k);
  }

  lemma {:induction false} DistinctOnce(e: seq<nat>, k: nat)
    requires Increasing(e)
    ensures multiset(e)[k] == if k in e then 1 else 0
  {
    if e != [] {
      var n := |e| - 1;
      assert e == e[..n] + [e[n]];
      assert e[n] !in e[..n];
      DistinctOnce(e[..n], k);
    }
  }

  lemma {:induction false} ExpandCount(us: seq<Upstream>, e: seq<nat>, k: nat)
    requires Within(e, us) && k < |us|
    requires Increasing(e)
    ensures multiset(Expand(us, e))[k] == if k in e then Share(us[k]) else 0
  {
    if e != [] {
      var n := |e| - 1;
      assert e == e[..n] + [e[n]];
      assert e[n] !in e[..n];
      ExpandCount(us, e[..n], k);
      CopiesCount(e[n], Share(us[e[n]]), k);
    }
  }

  lemma {:induction false} CopiesCount(x: nat, n: nat, k: nat)
    ensures multiset(Copies<nat>(x, n))[k] == if k == x then n else 0
  {
    if n > 0 {
      CopiesCount(x, n - 1, k);
      assert Copies<nat>(x, n) == Copies<nat>(x, n - 1) + [x];
    }
  }

  /** The sum of the weights of the upstreams in `e`. */
  function WeightSum(us: seq<Upstream>, e: seq<nat>): nat
    requires Within(e, us)
  {
    if e == [] then 0 else WeightSum(us, e[..|e| - 1]) + Share(us[e[|e| - 1]])
  }

  /** The length of a turn: the number of eligible upstreams, or the sum of their weights. */
  function TurnLength(alg: Algorithm, us: seq<Upstream>, exclude: seq<string>): nat {
    var e := Eligible(us, exclude);
    if alg == WeightedRoundRobin then WeightSum(us, e) else |e|
  }

  /** Fairness of both round-robin algorithms over every window and from any counter value,
      while the eligible upstreams and their weights stay the same: every full turn picks
      upstream `k` as often as it weighs, and the incomplete turn as often as its length
      admits. */
  lemma RoundRobinIsFair(alg: Algorithm, views: seq<seq<Upstream>>, exclude: seq<string>,
                         c: nat, k: nat, us: seq<Upstream>)
    requires alg == RoundRobin || alg == WeightedRoundRobin
    requires k in Eligible(us, exclude)
    requires forall v <- views ::
               Eligible(v, exclude) == Eligible(us, exclude)
               && Served(alg, v, exclude) == Served(alg, us, exclude)
    ensures var n, s := multiset(Picks(alg, views, exclude, c))[k], TurnLength(alg, us, exclude);
            var w := if alg == WeightedRoundRobin then Max(us[k].weight, 1) else 1;
            s > 0 && ShareOfRest(n - |views| / s * w, w, |views| % s, s)
  {
    var x := Served(alg, us, exclude);
    ExpandLength(us, Eligible(us, exclude));
    PicksAreReads(alg, views, exclude, c, x);
    ServedWeight(alg, us, exclude, k);
    ReadShare(x, c, |views|, k);
  }

  /** The expanded list is the prefix-sum lookup: slot `i` belongs to the upstream whose
      cumulative weight interval contains `i`. */
  lemma {:induction false} ExpandIsPrefixSum(us: seq<Upstream>, e: seq<nat>, i: nat, j: nat)
    requires Within(e, us)
    requires j < |e| && WeightSum(us, e[..j]) <= i < WeightSum(us, e[..j + 1])
    ensures |Expand(us, e)| == WeightSum(us, e)
    ensures i < |Expand(us, e)| && Expand(us, e)[i] == e[j]
  {
    var n := |e| - 1;
    ExpandLength(us, e);
    ExpandLength(us, e[..n]);
    if j < n {
      assert e[..n][..j] == e[..j] && e[..n][..j + 1] == e[..j + 1];
      ExpandIsPrefixSum(us, e[..n], i, j);
    } else {
      assert e[..j + 1] == e;
      assert Expand(us, e)[i] in Copies<nat>(e[n], Share(us[e[n]]));
    }
  }

  lemma {:induction false} ExpandLength(us: seq<Upstream>, e: seq<nat>)
    requires Within(e, us)
    ensures |Expand(us, e)| == WeightSum(us, e)
  {
    if e != [] {
      ExpandLength(us, e[..|e| - 1]);
    }
  }

  // ---- Power of two choices ----

  /** The eligible upstreams are `e` in every view. */
  predicate Steady(views: seq<seq<Upstream>>, exclude: seq<string>, e: seq<nat>) {
    forall i :: 0 <= i < |views| ==> Eligible(views[i], exclude) == e
  }

  /** All candidates offered by selections one after the other. */
  function Offers(views: seq<seq<Upstream>>, exclude: seq<string>, c: nat): seq<nat>
    decreases |views|
  {
    if views == [] then [] else
    var e := Eligible(views[0], exclude);
    (if |e| >= 2 then Offer(e, c) else e) + Offers(views[1..], exclude, Bump(PowerOfTwoChoices, views[0], exclude, c))
  }

  lemma {:induction false} OffersAreReads(views: seq<seq<Upstream>>, exclude: seq<string>, c: nat, e: seq<nat>)
    requires |e| >= 2 && Steady(views, exclude, e)
    ensures Offers(views, exclude, c) == Reads(e, c, 2 * |views|)
    decreases |views|
  {
    if views != [] {
      OffersStep(views, exclude, c, e);
      OffersAreReads(views[1..], exclude, c + 2, e);
      ReadTwo(e, c, 2 * |views| - 2);
    }
  }

  lemma OffersStep(views: seq<seq<Upstream>>, exclude: seq<string>, c: nat, e: seq<nat>)
    requires |e| >= 2 && views != [] && Eligible(views[0], exclude) == e
    ensures Offers(views, exclude, c) == Offer(e, c) + Offers(views[1..], exclude, c + 2)
  {
  }

  lemma ReadTwo(e: seq<nat>, c: nat, m: nat)
    requires e != []
    ensures Reads(e, c, m + 2) == Offer(e, c) + Reads(e, c + 2, m)
  {
  }

  /** As many consecutive selections as there are eligible upstreams offer each of them as a
      candidate exactly twice, for odd and even numbers alike and however loads change. */
  lemma TwoChoicesCoverage(views: seq<seq<Upstream>>, exclude: seq<string>, c: nat, e: seq<nat>, k: nat)
    requires |e| >= 2 && |views| == |e| && k in e && Steady(views, exclude, e)
    ensures multiset(Offers(views, exclude, c))[k] == 2
  {
    OffersAreReads(views, exclude, c, e);
    var n := |e|;
    DivModUnique(2 * n, n, 2, 0);
    ReadShare(e, c, 2 * n, k);
    EligibleMeaning(views[0], exclude);
    DistinctOnce(e, k);
  }

  /** The candidates are distinct, and an upstream with strictly more connections than every
      other one is never chosen. */
  lemma TwoChoicesAvoidsWorst(us: seq<Upstream>, exclude: seq<string>, c: nat, worst: nat)
    requires |Eligible(us, exclude)| >= 2 && worst in Eligible(us, exclude)
    requires forall i <- Eligible(us, exclude) :: i != worst ==> us[i].connections < us[worst].connections
    ensures var o := Offer(Eligible(us, exclude), c);
            && o[0] != o[1]
            && Pick(PowerOfTwoChoices, us, exclude, c) != Some(worst)
  {
    EligibleMeaning(us, exclude);
    OfferDistinct(Eligible(us, exclude), c);
  }

  lemma OfferDistinct(e: seq<nat>, c: nat)
    requires |e| >= 2 && Increasing(e)
    ensures Offer(e, c)[0] != Offer(e, c)[1]
    ensures Offer(e, c)[0] in e && Offer(e, c)[1] in e
  {
    ModNext(c, |e|);
  }

  /** With two eligible upstreams the choice is as good as least-connections. */
  lemma TwoChoicesOfTwo(us: seq<Upstream>, exclude: seq<string>, c: nat)
    requires |Eligible(us, exclude)| == 2
    ensures us[Pick(PowerOfTwoChoices, us, exclude, c).value].connections
         == us[Pick(LeastConnections, us, exclude, c).value].connections
  {
    var e := Eligible(us, exclude);
    EligibleMeaning(us, exclude);
    OfferDistinct(e, c);
    assert e[FirstMin(us, e)] in Offer(e, c);
  }

  // ---- Which upstreams are ever compared ----

  /** The counter of this algorithm moves by two or not at all, so it stays even. */
  lemma CounterStaysEven(us: seq<Upstream>, exclude: seq<string>, c: nat)
    requires c % 2 == 0
    ensures Bump(PowerOfTwoChoices, us, exclude, c) % 2 == 0
  {
  }

  /** While the eligible upstreams stay the same, selection number `m` offers the candidates at
      `2 * m` further. */
  lemma {:induction false} NthOffer(views: seq<seq<Upstream>>, exclude: seq<string>, c: nat, e: seq<nat>, m: nat)
    requires |e| >= 2 && Steady(views, exclude, e) && m < |views|
    ensures |Offers(views, exclude, c)| == 2 * |views|
    ensures Offers(views, exclude, c)[2 * m..2 * m + 2] == Offer(e, c + 2 * m)
    decreases |views|
  {
    OffersStep(views, exclude, c, e);
    OffersAreReads(views, exclude, c, e);
    ReadsLength(e, c, 2 * |views|);
    OffersAreReads(views[1..], exclude, c + 2, e);
    ReadsLength(e, c + 2, 2 * |views| - 2);
    if m > 0 {
      NthOffer(views[1..], exclude, c + 2, e, m - 1);
      ShiftedSlice(Offer(e, c), Offers(views[1..], exclude, c + 2), m);
    }
  }

  lemma ShiftedSlice(x: seq<nat>, y: seq<nat>, m: nat)
    requires |x| == 2 && 0 < m && 2 * m <= |y|
    ensures (x + y)[2 * m..2 * m + 2] == y[2 * (m - 1)..2 * (m - 1) + 2]
  {
  }

  /** Selection number `m` from counter value `c` compares the upstreams at `i` and after it. */
  predicate ComparesAt(e: seq<nat>, c: nat, m: nat, i: nat)
    requires i < |e|
  {
    var o := Offer(e, c + 2 * m);
    {o[0], o[1]} == {e[i], e[Next(i, |e|)]}
  }

  ghost predicate Compares(e: seq<nat>, c: nat, i: nat)
    requires i < |e|
  {
    exists m: nat :: ComparesAt(e, c, m, i)
  }

  /** Selections from an even counter value compare every pair of neighbours sooner or later if
      and only if the number of eligible upstreams is odd or two. */
  lemma NeighboursIff(e: seq<nat>, c: nat)
    requires |e| >= 2 && Increasing(e) && c % 2 == 0
    ensures (forall i | 0 <= i < |e| :: Compares(e, c, i)) <==> |e| % 2 == 1 || |e| == 2
  {
    if |e| % 2 == 1 {
      forall i | 0 <= i < |e| ensures Compares(e, c, i) {
        OddCompares(e, c, i);
      }
    } else if |e| == 2 {
      forall i | 0 <= i < |e| ensures Compares(e, c, i) {
        TwoCompares(e, c, i);
      }
    } else {
      EvenMisses(e, c);
    }
  }

  lemma OddCompares(e: seq<nat>, c: nat, i: nat)
    requires i < |e| && |e| % 2 == 1 && c % 2 == 0
    ensures Compares(e, c, i)
  {
    var m := Reached(|e|, c, i);
    OfferAt(e, c + 2 * m, i);
    assert ComparesAt(e, c, m, i);
  }

  lemma TwoCompares(e: seq<nat>, c: nat, i: nat)
    requires i < |e| == 2 && c % 2 == 0
    ensures Compares(e, c, i)
  {
    OfferAt(e, c, 0);
    assert Offer(e, c + 2 * 0) == [e[0], e[1]];
    assert ComparesAt(e, c, 0, i);
  }

  /** The upstreams at one and two are never compared. */
  lemma EvenMisses(e: seq<nat>, c: nat)
    requires |e| > 2 && |e| % 2 == 0 && Increasing(e) && c % 2 == 0
    ensures !Compares(e, c, 1)
  {
    forall m: nat ensures !ComparesAt(e, c, m, 1) {
      EvenPairsOnly(e, c + 2 * m);
      var r := (c + 2 * m) % |e|;
      DifferentPair(e, r);
    }
  }

  lemma DifferentPair(e: seq<nat>, r: nat)
    requires Increasing(e) && r + 1 < |e| && 2 < |e| && r % 2 == 0
    ensures {e[r], e[r + 1]} != {e[1], e[2]}
  {
    assert r == 0 ==> e[0] !in {e[1], e[2]};
    assert r >= 2 ==> e[r + 1] !in {e[1], e[2]};
  }

  lemma OfferAt(e: seq<nat>, c: nat, i: nat)
    requires i < |e| && c % |e| == i
    ensures Offer(e, c) == [e[i], e[Next(i, |e|)]]
  {
    ModNext(c, |e|);
  }

  /** With an even number of them, an upstream at an even position is compared with the next one
      only: at most half of the pairs of neighbours are ever offered. */
  lemma EvenPairsOnly(e: seq<nat>, c: nat)
    requires |e| >= 2 && |e| % 2 == 0 && c % 2 == 0
    ensures c % |e| % 2 == 0 && Offer(e, c) == [e[c % |e|], e[c % |e| + 1]]
  {
    EvenRemainder(c, |e|);
    OfferAt(e, c, c % |e|);
  }

  /** For an odd `n`, steps of two from an even number reach every remainder. */
  lemma Reached(n: nat, c: nat, i: nat) returns (m: nat)
    requires n % 2 == 1 && c % 2 == 0 && i < n
    ensures (c + 2 * m) % n == i
  {
    var q := 2 * c + i % 2;
    EvenTarget(n, c, i, q);
    m := (q * n + i - c) / 2;
    DivModUnique(c + 2 * m, n, q, i);
  }
}
