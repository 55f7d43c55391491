/** `active_connections` under interleaved requests: src/proxy/handler.rs and src/lb/mod.rs.

    Every request is a task; selecting, counting, awaiting and uncounting are separate steps,
    the health checker runs in between, and the future of a task can be dropped. Selections are
    those of the balancer. A plain request may make `limit` attempts; an upgrade request makes
    one, without a cookie. Connection counts are integers, proved never to go below zero. */
module ConnectionCounts {
  import opened Net
  import opened Counting
  import opened Runs
  import opened LoadBalancer
  import opened Retry

  /** One request: its attempts so far, and how many it may make. */
  datatype Request = Request(tried: seq<string>, limit: nat, sticky: Option<string>)

  datatype Task =
    | Selecting(r: Request)
    | Chosen(u: nat, r: Request)              // before inc_connections
    | Awaiting(u: nat, r: Request)
    | Answered(u: nat, r: Request, ok: bool)  // before dec_connections
    | Finished
    | Dropped(u: nat)                         // future dropped mid-await

  datatype State = State(view: View, tasks: seq<Task>)

  datatype Step =
    | Arrive(limit: nat, sticky: Option<string>)
    | SetHealth(u: nat, healthy: bool)
    | Select(t: nat)
    | Inc(t: nat)
    | Answer(t: nat, ok: bool)
    | Dec(t: nat)
    | Drop(t: nat)

  datatype Config = Config(alg: Algorithm, upstreams: seq<Configured>)

  function Init(c: Config): State {
    State(View(0, Started(c.upstreams)), [])
  }

  /** What a step does to its task, and what it adds to the count of the task's upstream. */
  datatype Effect = Effect(task: Task, delta: int)

  /** The selection of a request: it ends when its attempts are used up or none is eligible. */
  function AfterSelect(alg: Algorithm, v: View, r: Request): Task {
    if |r.tried| >= r.limit then Finished
    else match SelectedAt(alg, v, r.sticky, r.tried)
      case None => Finished
      case Some(u) => Chosen(u, r.(tried := r.tried + [v.ups[u].address]))
  }

  /** A step that is not enabled has no effect. */
  function StepEffect(alg: Algorithm, v: View, step: Step, x: Task): Effect {
    match (step, x)
    case (Select(_), Selecting(r)) => Effect(AfterSelect(alg, v, r), 0)
    case (Inc(_), Chosen(u, r)) => Effect(Awaiting(u, r), 1)
    case (Answer(_, ok), Awaiting(u, r)) => Effect(Answered(u, r, ok), 0)
    case (Dec(_), Answered(u, r, ok)) => Effect(if ok then Finished else Selecting(r), -1)
    case (Drop(_), Awaiting(u, _)) => Effect(Dropped(u), 0)
    case _ => Effect(x, 0)
  }

  function CounterStep(alg: Algorithm, v: View, step: Step, x: Task): nat {
    if step.Select? && x.Selecting? && |x.r.tried| < x.r.limit
    then CounterAfter(alg, v, x.r.sticky, x.r.tried)
    else v.counter
  }

  /** The upstream a task is busy with, if any. */
  predicate Concerns(x: Task, u: nat) {
    (x.Chosen? || x.Awaiting? || x.Answered? || x.Dropped?) && x.u == u
  }

  function Recount(us: seq<Upstream>, x: Task, delta: int): (r: seq<Upstream>)
    ensures |r| == |us|
    ensures forall u :: 0 <= u < |us| ==>
              r[u] == us[u].(connections := us[u].connections + if Concerns(x, u) then delta else 0)
  {
    seq(|us|, u requires 0 <= u < |us| =>
      us[u].(connections := us[u].connections + if Concerns(x, u) then delta else 0))
  }

  function SetFlag(us: seq<Upstream>, u: nat, healthy: bool): seq<Upstream> {
    if u < |us| then us[u := us[u].(healthy := healthy)] else us
  }

  function Apply(c: Config, s: State, step: Step): (r: State)
    ensures |r.view.ups| == |s.view.ups| && |r.tasks| >= |s.tasks|
  {
    match step
    case Arrive(limit, sticky) => s.(tasks := s.tasks + [Selecting(Request([], limit, sticky))])
    case SetHealth(u, healthy) => s.(view := s.view.(ups := SetFlag(s.view.ups, u, healthy)))
    case _ =>
      if step.t >= |s.tasks| then s else
      var x := s.tasks[step.t];
      var e := StepEffect(c.alg, s.view, step, x);
      State(View(CounterStep(c.alg, s.view, step, x), Recount(s.view.ups, x, e.delta)), s.tasks[step.t := e.task])
  }

  function System(c: Config): (State, Step) -> State { (s, step) => Apply(c, s, step) }

  function Exec(c: Config, s: State, steps: seq<Step>): State {
    RunFrom(System(c), s, steps)
  }

  // ---- The invariant ----

  predicate On(x: Task, u: nat) { (x.Awaiting? || x.Answered?) && x.u == u }
  predicate LeakedOn(x: Task, u: nat) { x.Dropped? && x.u == u }

  function InAttempt(u: nat): Task -> bool { x => On(x, u) }
  function Leaked(u: nat): Task -> bool { x => LeakedOn(x, u) }
  function Holding(u: nat): Task -> bool { x => On(x, u) || LeakedOn(x, u) }

  /** The addresses of the configuration. */
  ghost predicate SameAddresses(c: Config, us: seq<Upstream>) {
    |us| == |c.upstreams| && forall u :: 0 <= u < |us| ==> us[u].address == c.upstreams[u].address
  }

  function Addresses(c: Config): set<string> {
    set u <- c.upstreams :: u.address
  }

  ghost predicate RequestInv(c: Config, r: Request) {
    Distinct(r.tried) && |r.tried| <= r.limit && Elements(r.tried) <= Addresses(c)
  }

  ghost predicate TaskInv(c: Config, x: Task) {
    && (x.Selecting? || x.Chosen? || x.Awaiting? || x.Answered? ==> RequestInv(c, x.r))
    && (x.Chosen? || x.Awaiting? || x.Answered? || x.Dropped? ==> x.u < |c.upstreams|)
  }

  ghost predicate CountInv(s: State) {
    forall u :: 0 <= u < |s.view.ups| ==> s.view.ups[u].connections == Count(s.tasks, Holding(u))
  }

  ghost predicate TasksInv(c: Config, s: State) {
    SameAddresses(c, s.view.ups) && forall t :: 0 <= t < |s.tasks| ==> TaskInv(c, s.tasks[t])
  }

  ghost predicate Inv(c: Config, s: State) {
    TasksInv(c, s) && CountInv(s)
  }

  /** A selection is an address that the request has not tried, by the choice of the balancer. */
  lemma SelectKeepsRequest(c: Config, v: View, r: Request)
    requires SameAddresses(c, v.ups) && RequestInv(c, r)
    ensures TaskInv(c, AfterSelect(c.alg, v, r))
  {
    var x := AfterSelect(c.alg, v, r);
    if x.Chosen? {
      var a := v.ups[x.u].address;
      assert c.upstreams[x.u] in c.upstreams;
      assert a !in r.tried && a in Addresses(c);
      assert Elements(x.r.tried) == Elements(r.tried) + {a};
    }
  }

  lemma StepKeepsTask(c: Config, v: View, step: Step, x: Task)
    requires SameAddresses(c, v.ups) && TaskInv(c, x)
    ensures TaskInv(c, StepEffect(c.alg, v, step, x).task)
  {
    if x.Selecting? {
      SelectKeepsRequest(c, v, x.r);
    }
  }

  lemma StepKeepsTasks(c: Config, s: State, step: Step)
    requires TasksInv(c, s)
    ensures TasksInv(c, Apply(c, s, step))
  {
    if !step.Arrive? && !step.SetHealth? && step.t < |s.tasks| {
      StepKeepsTask(c, s.view, step, s.tasks[step.t]);
    }
  }

  /** A task starts or stops holding its upstream exactly when the counter moves. */
  lemma EffectBalanced(alg: Algorithm, v: View, step: Step, x: Task, u: nat)
    ensures var e := StepEffect(alg, v, step, x);
            Bit(Holding(u)(e.task)) - Bit(Holding(u)(x)) == if Concerns(x, u) then e.delta else 0
  {
  }

  lemma StepKeepsCount(c: Config, s: State, step: Step, u: nat)
    requires u < |s.view.ups| && s.view.ups[u].connections == Count(s.tasks, Holding(u))
    ensures var s' := Apply(c, s, step); s'.view.ups[u].connections == Count(s'.tasks, Holding(u))
  {
    if step.Arrive? {
      CountAppend(s.tasks, Selecting(Request([], step.limit, step.sticky)), Holding(u));
    } else if !step.SetHealth? && step.t < |s.tasks| {
      var x := s.tasks[step.t];
      EffectBalanced(c.alg, s.view, step, x, u);
      CountUpdate(s.tasks, step.t, StepEffect(c.alg, s.view, step, x).task, Holding(u));
    }
  }

  lemma StepKeepsInv(c: Config, s: State, step: Step)
    requires Inv(c, s)
    ensures Inv(c, Apply(c, s, step))
  {
    StepKeepsTasks(c, s, step);
    var s' := Apply(c, s, step);
    forall u | 0 <= u < |s'.view.ups| ensures s'.view.ups[u].connections == Count(s'.tasks, Holding(u)) {
      StepKeepsCount(c, s, step, u);
    }
  }

  lemma RunKeepsInv(c: Config, s: State, steps: seq<Step>)
    requires Inv(c, s)
    ensures Inv(c, Exec(c, s, steps))
  {
    forall r, x | Inv(c, r) ensures Inv(c, Apply(c, r, x)) {
      StepKeepsInv(c, r, x);
    }
    Preserved(System(c), r => Inv(c, r), s, steps);
  }

  // ---- Properties of every interleaving ----

  /** Each counter is the number of attempts in progress on that upstream plus the attempts
      whose future was dropped mid-await. */
  lemma CountsAttempts(c: Config, steps: seq<Step>, u: nat)
    requires u < |c.upstreams|
    ensures var s := Exec(c, Init(c), steps);
            && |s.view.ups| == |c.upstreams|
            && s.view.ups[u].connections == Count(s.tasks, InAttempt(u)) + Count(s.tasks, Leaked(u))
  {
    RunKeepsInv(c, Init(c), steps);
    CountUnion(Exec(c, Init(c), steps).tasks, Holding(u), InAttempt(u), Leaked(u));
  }

  /** A decrement never takes a counter below zero. */
  lemma NeverUnderflows(c: Config, steps: seq<Step>, t: nat)
    requires var s := Exec(c, Init(c), steps); t < |s.tasks| && s.tasks[t].Answered?
    ensures var s := Exec(c, Init(c), steps);
            var u := s.tasks[t].u;
            u < |s.view.ups|
            && Apply(c, s, Dec(t)).view.ups[u].connections == s.view.ups[u].connections - 1 >= 0
  {
    RunKeepsInv(c, Init(c), steps);
    var s := Exec(c, Init(c), steps);
    var u := s.tasks[t].u;
    assert TaskInv(c, s.tasks[t]);
    CountPositive(s.tasks, Holding(u));
    assert Holding(u)(s.tasks[t]);
  }

  /** When no attempt is in progress, a counter is zero exactly when no attempt on its
      upstream was dropped mid-await; a dropped attempt is never uncounted. */
  lemma QuiescentIffNothingDropped(c: Config, steps: seq<Step>, u: nat)
    requires u < |c.upstreams|
    requires forall x <- Exec(c, Init(c), steps).tasks :: !On(x, u)
    ensures var s := Exec(c, Init(c), steps);
            |s.view.ups| == |c.upstreams|
            && (s.view.ups[u].connections == 0 <==> forall x <- s.tasks :: !LeakedOn(x, u))
  {
    CountsAttempts(c, steps, u);
    var s := Exec(c, Init(c), steps);
    CountPositive(s.tasks, InAttempt(u));
    CountPositive(s.tasks, Leaked(u));
    if x: Task :| x in s.tasks && LeakedOn(x, u) {
      var i :| 0 <= i < |s.tasks| && s.tasks[i] == x;
      assert Leaked(u)(s.tasks[i]);
    }
  }

  lemma LeakIsPermanent(c: Config, s: State, steps: seq<Step>, u: nat)
    ensures Count(s.tasks, Leaked(u)) <= Count(Exec(c, s, steps).tasks, Leaked(u))
  {
    forall r: State, x: Step ensures Count(r.tasks, Leaked(u)) <= Count(Apply(c, r, x).tasks, Leaked(u)) {
      LeakStep(c, r, x, u);
    }
    NeverFalls(System(c), (r: State) => Count(r.tasks, Leaked(u)), s, steps);
  }

  lemma LeakStep(c: Config, s: State, step: Step, u: nat)
    ensures Count(s.tasks, Leaked(u)) <= Count(Apply(c, s, step).tasks, Leaked(u))
  {
    if step.Arrive? {
      CountAppend(s.tasks, Selecting(Request([], step.limit, step.sticky)), Leaked(u));
    } else if !step.SetHealth? && step.t < |s.tasks| {
      CountUpdate(s.tasks, step.t, StepEffect(c.alg, s.view, step, s.tasks[step.t]).task, Leaked(u));
    }
  }

  /** The attempts of one request go to pairwise distinct addresses, at most `limit` of them
      and at most as many as there are distinct addresses. */
  lemma AttemptsBounded(c: Config, steps: seq<Step>, t: nat)
    requires var s := Exec(c, Init(c), steps);
             t < |s.tasks|
             && (s.tasks[t].Selecting? || s.tasks[t].Chosen? || s.tasks[t].Awaiting? || s.tasks[t].Answered?)
    ensures var r := Exec(c, Init(c), steps).tasks[t].r;
            Distinct(r.tried) && |r.tried| <= Min(r.limit, |Addresses(c)|)
  {
    RunKeepsInv(c, Init(c), steps);
    var x := Exec(c, Init(c), steps).tasks[t];
    assert TaskInv(c, x);
    DistinctCount(x.r.tried);
    SubsetCount(Elements(x.r.tried), Addresses(c));
  }

  // ---- What the steps of a request amount to ----

  /** One undisturbed attempt of a request is one attempt of the retry loop: the counter moves as
      the selection moves it, the loads are back where they were, and the request ends with the
      answer or goes on without this address. */
  lemma OneAttempt(c: Config, s: State, t: nat, ok: bool)
    requires t < |s.tasks| && s.tasks[t].Selecting? && |s.tasks[t].r.tried| < s.tasks[t].r.limit
    requires SelectedAt(c.alg, s.view, s.tasks[t].r.sticky, s.tasks[t].r.tried).Some?
    ensures var r := s.tasks[t].r;
            var s' := Exec(c, s, [Select(t), Inc(t), Answer(t, ok), Dec(t)]);
            && s'.view == s.view.(counter := CounterAfter(c.alg, s.view, r.sticky, r.tried))
            && s'.tasks == s.tasks[t := if ok then Finished
                 else Selecting(r.(tried := r.tried + [Selected(c.alg, s.view, r.sticky, r.tried).value]))]
  {
    var r := s.tasks[t].r;
    var u := SelectedAt(c.alg, s.view, r.sticky, r.tried).value;
    var r' := r.(tried := r.tried + [s.view.ups[u].address]);
    var v := s.view.(counter := CounterAfter(c.alg, s.view, r.sticky, r.tried));
    Four(System(c), s, Select(t), Inc(t), Answer(t, ok), Dec(t));
    Unmoved(s.view.ups, s.tasks[t]);
    assert Apply(c, s, Select(t)) == State(v, s.tasks[t := Chosen(u, r')]);
    HeldAndReleased(c, State(v, s.tasks[t := Chosen(u, r')]), t, ok);
  }

  lemma Unmoved(us: seq<Upstream>, x: Task)
    ensures Recount(us, x, 0) == us
  {
  }

  lemma HeldAndReleased(c: Config, s: State, t: nat, ok: bool)
    requires t < |s.tasks| && s.tasks[t].Chosen?
    ensures var x := s.tasks[t];
            Apply(c, Apply(c, Apply(c, s, Inc(t)), Answer(t, ok)), Dec(t))
            == s.(tasks := s.tasks[t := if ok then Finished else Selecting(x.r)])
  {
    var x, us := s.tasks[t], s.view.ups;
    var y, z := Awaiting(x.u, x.r), Answered(x.u, x.r, ok);
    var up := Recount(us, x, 1);
    assert Apply(c, s, Inc(t)) == State(s.view.(ups := up), s.tasks[t := y]);
    Unmoved(up, y);
    var v := s.view.(ups := up);
    assert Apply(c, State(v, s.tasks[t := y]), Answer(t, ok)) == State(v, s.tasks[t := z]);
    assert Recount(up, z, -1) == us;
  }

  /** A request ends when its attempts are used up or no upstream is left to try. */
  lemma GivesUp(c: Config, s: State, t: nat)
    requires t < |s.tasks| && s.tasks[t].Selecting?
    ensures var r := s.tasks[t].r;
            |r.tried| >= r.limit || Selected(c.alg, s.view, r.sticky, r.tried).None? ==>
              Apply(c, s, Select(t)) == s.(tasks := s.tasks[t := Finished])
  {
    Unmoved(s.view.ups, s.tasks[t]);
  }

  /** An upstream that is marked unhealthy is not selected, and marking changes nothing else. */
  lemma UnhealthyIsNotSelected(c: Config, s: State, u: nat, t: nat, healthy: bool)
    requires u < |s.view.ups| && t < |s.tasks| && s.tasks[t].Selecting?
    ensures var s' := Apply(c, s, SetHealth(u, healthy));
            && s' == s.(view := s.view.(ups := s.view.ups[u := s.view.ups[u].(healthy := healthy)]))
            && (!healthy ==> !Concerns(Apply(c, s', Select(t)).tasks[t], u))
  {
  }

  // ---- The leak happens ----

  /** The state after `n` requests were dropped while awaiting the first upstream. */
  function AllDropped(c: Config, n: nat): State
    requires c.upstreams != []
  {
    var us := Started(c.upstreams);
    State(View(0, us[0 := us[0].(connections := n)]), Copies(Dropped(0), n))
  }

  /** For every balancer and every number there is a run that leaks that many connections: no
      request is left, and the first upstream still counts all of them. */
  lemma {:induction false} LeakAnyNumber(c: Config, n: nat) returns (steps: seq<Step>)
    requires c.upstreams != []
    ensures Exec(c, Init(c), steps) == AllDropped(c, n)
    ensures Count(AllDropped(c, n).tasks, Leaked(0)) == n == AllDropped(c, n).view.ups[0].connections
  {
    CountCopies(Dropped(0), n, Leaked(0));
    if n == 0 {
      steps := [];
    } else {
      var before := LeakAnyNumber(c, n - 1);
      var more := [Arrive(1, Some(c.upstreams[0].address)), Select(n - 1), Inc(n - 1), Drop(n - 1)];
      steps := before + more;
      RunConcat(System(c), Init(c), before, more);
      LeakOne(c, n - 1);
    }
  }

  lemma LeakOne(c: Config, n: nat)
    requires c.upstreams != []
    ensures Exec(c, AllDropped(c, n), [Arrive(1, Some(c.upstreams[0].address)), Select(n), Inc(n), Drop(n)])
         == AllDropped(c, n + 1)
  {
    var s, a := AllDropped(c, n), c.upstreams[0].address;
    var r := Request([a], 1, Some(a));
    SelectFirst(c, n);
    HoldFirst(c, n, r);
    DropFirst(c, n, r);
    Four(System(c), s, Arrive(1, Some(a)), Select(n), Inc(n), Drop(n));
  }

  lemma SelectFirst(c: Config, n: nat)
    requires c.upstreams != []
    ensures var s, a := AllDropped(c, n), c.upstreams[0].address;
            Apply(c, s.(tasks := s.tasks + [Selecting(Request([], 1, Some(a)))]), Select(n))
            == s.(tasks := s.tasks + [Chosen(0, Request([a], 1, Some(a)))])
  {
    var s, a := AllDropped(c, n), c.upstreams[0].address;
    var s1 := s.(tasks := s.tasks + [Selecting(Request([], 1, Some(a)))]);
    FirstSelected(c, n);
    assert AfterSelect(c.alg, s.view, Request([], 1, Some(a))) == Chosen(0, Request([a], 1, Some(a))) by {
      assert [] + [a] == [a];
    }
    assert Recount(s.view.ups, s1.tasks[n], 0) == s.view.ups;
  }

  lemma HoldFirst(c: Config, n: nat, r: Request)
    requires c.upstreams != []
    ensures var s, s' := AllDropped(c, n), AllDropped(c, n + 1);
            Apply(c, s.(tasks := s.tasks + [Chosen(0, r)]), Inc(n)) == s'.(tasks := s.tasks + [Awaiting(0, r)])
  {
    var s := AllDropped(c, n);
    assert Recount(s.view.ups, Chosen(0, r), 1) == AllDropped(c, n + 1).view.ups;
  }

  lemma DropFirst(c: Config, n: nat, r: Request)
    requires c.upstreams != []
    ensures var s, s' := AllDropped(c, n), AllDropped(c, n + 1);
            Apply(c, s'.(tasks := s.tasks + [Awaiting(0, r)]), Drop(n)) == s'
  {
    var s, s' := AllDropped(c, n), AllDropped(c, n + 1);
    assert Recount(s'.view.ups, Awaiting(0, r), 0) == s'.view.ups;
    assert s'.tasks == s.tasks + [Dropped(0)];
  }

  /** The cookie leads to the first upstream. */
  lemma FirstSelected(c: Config, n: nat)
    requires c.upstreams != []
    ensures var v, a := AllDropped(c, n).view, c.upstreams[0].address;
            SelectedAt(c.alg, v, Some(a), []) == Some(0) && CounterAfter(c.alg, v, Some(a), []) == 0
  {
  }
}
