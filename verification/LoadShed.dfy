/** `LoadShedMiddleware::call` of src/middleware/load_shed.rs as a concurrent protocol: every
    atomic operation on `in_flight` is one step, and a response future can be dropped.

    The counter is an integer: wrap-around of `usize` is not modelled, and the counter is
    proved never to go below zero. */
module LoadShed {
  import opened Counting
  import opened Runs

  /** Where a call is. */
  datatype Call =
    | Arrived                  // before the fetch_add
    | Added(seen: int)         // after it, before the test
    | Undoing                  // shed, before the fetch_sub
    | Shed                     // 503 returned
    | Running                  // inner future in progress
    | Returned                 // inner future done, before the fetch_sub
    | Served
    | Dropped                  // future dropped before completion

  datatype State = State(inFlight: int, calls: seq<Call>)

  datatype Step = Arrive | Add(t: nat) | Test(t: nat) | Undo(t: nat) | Complete(t: nat) | Release(t: nat) | Drop(t: nat)

  const INIT := State(0, [])

  /** The next state of a call and what the step adds to `in_flight`. */
  datatype Effect = Effect(call: Call, delta: int)

  /** A step that is not enabled has no effect. */
  function StepEffect(max: nat, step: Step, c: Call, inFlight: int): Effect {
    match (step, c)
    case (Add(_), Arrived) => Effect(Added(inFlight), 1)
    case (Test(_), Added(seen)) => Effect(if seen >= max then Undoing else Running, 0)
    case (Undo(_), Undoing) => Effect(Shed, -1)
    case (Complete(_), Running) => Effect(Returned, 0)
    case (Release(_), Returned) => Effect(Served, -1)
    case (Drop(_), Running) => Effect(Dropped, 0)
    case _ => Effect(c, 0)
  }

  function Apply(max: nat, s: State, step: Step): (r: State)
    ensures |r.calls| >= |s.calls|
  {
    if step.Arrive? then s.(calls := s.calls + [Arrived])
    else if step.t >= |s.calls| then s
    else
      var e := StepEffect(max, step, s.calls[step.t], s.inFlight);
      State(s.inFlight + e.delta, s.calls[step.t := e.call])
  }

  function System(max: nat): (State, Step) -> State { (s, step) => Apply(max, s, step) }

  function Exec(max: nat, s: State, steps: seq<Step>): State {
    RunFrom(System(max), s, steps)
  }

  // ---- The invariant ----

  /** The call is counted in `in_flight`. */
  predicate Counted(c: Call) {
    c.Added? || c.Undoing? || c.Running? || c.Returned? || c.Dropped?
  }

  /** The call has passed, or will pass, the test. */
  predicate Admitted(max: nat, c: Call) {
    (c.Added? && c.seen < max) || c.Running? || c.Returned? || c.Dropped?
  }

  function Admits(max: nat): Call -> bool { c => Admitted(max, c) }

  ghost predicate Inv(max: nat, s: State) {
    && s.inFlight == Count(s.calls, Counted)
    && Count(s.calls, Admits(max)) <= max
  }

  /** A call is counted exactly between its increment and its decrement, and only an
      increment below the limit admits a call. */
  lemma EffectBalanced(max: nat, step: Step, c: Call, inFlight: int)
    ensures var e := StepEffect(max, step, c, inFlight);
            && Bit(Counted(e.call)) - Bit(Counted(c)) == e.delta
            && (Admitted(max, e.call) && !Admitted(max, c) ==> inFlight < max)
  {
  }

  lemma StepKeepsInv(max: nat, s: State, step: Step)
    requires Inv(max, s)
    ensures Inv(max, Apply(max, s, step))
  {
    if step.Arrive? {
      CountAppend(s.calls, Arrived, Counted);
      CountAppend(s.calls, Arrived, Admits(max));
    } else if step.t < |s.calls| {
      var c := s.calls[step.t];
      var c' := StepEffect(max, step, c, s.inFlight).call;
      EffectBalanced(max, step, c, s.inFlight);
      CountUpdate(s.calls, step.t, c', Counted);
      CountUpdate(s.calls, step.t, c', Admits(max));
      CountMonotone(s.calls, Admits(max), Counted);
    }
  }

  lemma RunKeepsInv(max: nat, s: State, steps: seq<Step>)
    requires Inv(max, s)
    ensures Inv(max, Exec(max, s, steps))
  {
    forall r, x | Inv(max, r) ensures Inv(max, Apply(max, r, x)) {
      StepKeepsInv(max, r, x);
    }
    Preserved(System(max), r => Inv(max, r), s, steps);
  }

  // ---- Safety over every interleaving ----

  predicate InProgress(c: Call) { c.Running? || c.Returned? }
  predicate Transient(c: Call) { c.Added? || c.Undoing? }
  predicate Leaked(c: Call) { c.Dropped? }
  predicate InProgressOrLeaked(c: Call) { InProgress(c) || Leaked(c) }

  /** In every reachable state `in_flight` counts the calls in progress, the calls between
      their fetch_add and their decision or undo, and the futures dropped before completion;
      it is never negative, and the first and last of these together never exceed the limit. */
  lemma Safety(max: nat, steps: seq<Step>)
    ensures var s := Exec(max, INIT, steps);
            && s.inFlight == Count(s.calls, InProgress) + Count(s.calls, Transient) + Count(s.calls, Leaked)
            && Count(s.calls, InProgress) + Count(s.calls, Leaked) <= max
  {
    RunKeepsInv(max, INIT, steps);
    var s := Exec(max, INIT, steps);
    CountUnion(s.calls, InProgressOrLeaked, InProgress, Leaked);
    CountUnion(s.calls, Counted, InProgressOrLeaked, Transient);
    CountMonotone(s.calls, InProgressOrLeaked, Admits(max));
  }

  /** Once no call is between operations, `in_flight` is zero exactly when no future was
      dropped before completion. */
  lemma QuiescentIffNothingDropped(max: nat, steps: seq<Step>)
    requires var s := Exec(max, INIT, steps); forall c <- s.calls :: !InProgress(c) && !Transient(c)
    ensures var s := Exec(max, INIT, steps);
            && s.inFlight == Count(s.calls, Leaked)
            && (s.inFlight == 0 <==> forall c <- s.calls :: !c.Dropped?)
  {
    var s := Exec(max, INIT, steps);
    Safety(max, steps);
    CountPositive(s.calls, InProgress);
    CountPositive(s.calls, Transient);
    CountPositive(s.calls, Leaked);
  }

  /** A dropped future occupies its slot for ever: the number of slots lost never shrinks. */
  lemma LeakIsPermanent(max: nat, s: State, steps: seq<Step>)
    ensures Count(s.calls, Leaked) <= Count(Exec(max, s, steps).calls, Leaked)
  {
    forall r: State, x: Step ensures Count(r.calls, Leaked) <= Count(Apply(max, r, x).calls, Leaked) {
      LeakStep(max, r, x);
    }
    NeverFalls(System(max), (r: State) => Count(r.calls, Leaked), s, steps);
  }

  lemma LeakStep(max: nat, s: State, step: Step)
    ensures Count(s.calls, Leaked) <= Count(Apply(max, s, step).calls, Leaked)
  {
    if step.Arrive? {
      CountAppend(s.calls, Arrived, Leaked);
    } else if step.t < |s.calls| {
      CountUpdate(s.calls, step.t, StepEffect(max, step, s.calls[step.t], s.inFlight).call, Leaked);
    }
  }

  /** After as many drops as there are slots, every later call is shed. */
  lemma AllSlotsLeaked(max: nat, before: seq<Step>, after: seq<Step>, t: nat)
    requires Count(Exec(max, INIT, before).calls, Leaked) == max
    requires var s := Exec(max, Exec(max, INIT, before), after); t < |s.calls| && s.calls[t] == Arrived
    ensures var s := Exec(max, Exec(max, INIT, before), after);
            Apply(max, Apply(max, Apply(max, s, Add(t)), Test(t)), Undo(t)).calls[t] == Shed
  {
    var s := Exec(max, INIT, before);
    RunKeepsInv(max, INIT, before);
    RunKeepsInv(max, s, after);
    LeakIsPermanent(max, s, after);
    var s' := Exec(max, s, after);
    CountMonotone(s'.calls, Leaked, Counted);
    assert s'.inFlight >= max;
  }

  /** Every number of slots can be lost: a run after which exactly `n` futures have been dropped
      and nothing else is going on. */
  lemma {:induction false} LeakSlots(max: nat, n: nat) returns (steps: seq<Step>)
    requires n <= max
    ensures Exec(max, INIT, steps) == State(n, Copies(Dropped, n))
  {
    if n == 0 {
      steps := [];
    } else {
      var before := LeakSlots(max, n - 1);
      var more := [Arrive, Add(n - 1), Test(n - 1), Drop(n - 1)];
      steps := before + more;
      RunConcat(System(max), INIT, before, more);
      LeakOne(max, State(n - 1, Copies(Dropped, n - 1)));
      assert Copies(Dropped, n - 1) + [Dropped] == Copies(Dropped, n);
    }
  }

  lemma LeakOne(max: nat, s: State)
    requires s.inFlight < max
    ensures var t := |s.calls|;
            Exec(max, s, [Arrive, Add(t), Test(t), Drop(t)]) == State(s.inFlight + 1, s.calls + [Dropped])
  {
    var t := |s.calls|;
    Four(System(max), s, Arrive, Add(t), Test(t), Drop(t));
  }

  /** So for every limit some run shuts the middleware for good: whatever happens next, every
      call is shed although nothing is in progress. */
  lemma CanShutForGood(max: nat) returns (before: seq<Step>)
    ensures var s := Exec(max, INIT, before); forall x <- s.calls :: !InProgress(x) && !Transient(x)
    ensures forall after: seq<Step>, t: nat ::
              var s := Exec(max, Exec(max, INIT, before), after);
              t < |s.calls| && s.calls[t] == Arrived ==>
                Apply(max, Apply(max, Apply(max, s, Add(t)), Test(t)), Undo(t)).calls[t] == Shed
  {
    before := LeakSlots(max, max);
    CountCopies(Dropped, max, Leaked);
    forall after: seq<Step>, t: nat
      | t < |Exec(max, Exec(max, INIT, before), after).calls|
        && Exec(max, Exec(max, INIT, before), after).calls[t] == Arrived
      ensures var s := Exec(max, Exec(max, INIT, before), after);
              Apply(max, Apply(max, Apply(max, s, Add(t)), Test(t)), Undo(t)).calls[t] == Shed
    {
      AllSlotsLeaked(max, before, after, t);
    }
  }

  /** A call is admitted exactly when fewer than `max` calls are counted at its fetch_add. */
  lemma AdmittedIff(max: nat, steps: seq<Step>, t: nat)
    requires var s := Exec(max, INIT, steps); t < |s.calls| && s.calls[t] == Arrived
    ensures var s := Exec(max, INIT, steps);
            Apply(max, Apply(max, s, Add(t)), Test(t)).calls[t]
            == if Count(s.calls, InProgress) + Count(s.calls, Transient) + Count(s.calls, Leaked) < max
               then Running else Undoing
  {
    Safety(max, steps);
  }

  // ---- Shed while nothing is running ----

  /** Calls about to undo their increment count too, so for every limit a call can be shed while
      nothing is running: as many calls as there are slots are still undoing when the ones that
      kept them out have finished. */
  lemma SpuriousShed(max: nat) returns (before: seq<Step>)
    ensures Exec(max, INIT, before) == State(max, Copies(Served, max) + Copies(Undoing, max))
    ensures var s, t := Exec(max, INIT, before), 2 * max;
            Exec(max, s, [Arrive, Add(t), Test(t), Undo(t)]) == s.(calls := s.calls + [Shed])
  {
    var fill := Admit(max, max);
    var excess := Refuse(max, max);
    var finish := Finish(max, max);
    var x, y := State(max, Copies(Running, max)), State(2 * max, Copies(Running, max) + Copies(Undoing, max));
    before := fill + (excess + finish);
    RunConcat(System(max), INIT, fill, excess + finish);
    RunConcat(System(max), x, excess, finish);
    ShedOne(max, State(max, Copies(Served, max) + Copies(Undoing, max)));
  }

  /** All slots are taken. */
  lemma {:induction false} Admit(max: nat, n: nat) returns (steps: seq<Step>)
    requires n <= max
    ensures Exec(max, INIT, steps) == State(n, Copies(Running, n))
  {
    steps := [];
    if n > 0 {
      var before := Admit(max, n - 1);
      var more := [Arrive, Add(n - 1), Test(n - 1)];
      steps := before + more;
      RunConcat(System(max), INIT, before, more);
      var s := State(n - 1, Copies(Running, n - 1));
      Three(System(max), s, Arrive, Add(n - 1), Test(n - 1));
      assert Copies(Running, n - 1) + [Running] == Copies(Running, n);
    }
  }

  /** Further calls find no slot. */
  lemma {:induction false} Refuse(max: nat, n: nat) returns (steps: seq<Step>)
    ensures Exec(max, State(max, Copies(Running, max)), steps)
         == State(max + n, Copies(Running, max) + Copies(Undoing, n))
  {
    steps := [];
    var x := State(max, Copies(Running, max));
    if n == 0 {
      assert x.calls + Copies(Undoing, 0) == x.calls;
    } else {
      var before := Refuse(max, n - 1);
      var t := max + n - 1;
      var more := [Arrive, Add(t), Test(t)];
      steps := before + more;
      RunConcat(System(max), x, before, more);
      RefuseOne(max, State(t, x.calls + Copies(Undoing, n - 1)));
      assert x.calls + Copies(Undoing, n - 1) + [Undoing] == x.calls + Copies(Undoing, n);
    }
  }

  lemma RefuseOne(max: nat, s: State)
    requires max <= s.inFlight
    ensures var t := |s.calls|;
            Exec(max, s, [Arrive, Add(t), Test(t)]) == State(s.inFlight + 1, s.calls + [Undoing])
  {
    var t := |s.calls|;
    Three(System(max), s, Arrive, Add(t), Test(t));
  }

  /** The calls in the slots return. */
  lemma {:induction false} Finish(max: nat, n: nat) returns (steps: seq<Step>)
    requires n <= max
    ensures Exec(max, State(2 * max, Copies(Running, max) + Copies(Undoing, max)), steps)
         == State(2 * max - n, Copies(Served, n) + Copies(Running, max - n) + Copies(Undoing, max))
  {
    steps := [];
    var x := State(2 * max, Copies(Running, max) + Copies(Undoing, max));
    if n == 0 {
      assert Copies(Served, 0) + Copies(Running, max) == Copies(Running, max);
    } else {
      var before := Finish(max, n - 1);
      var more := [Complete(n - 1), Release(n - 1)];
      steps := before + more;
      RunConcat(System(max), x, before, more);
      var calls := Copies(Served, n - 1) + Copies(Running, max - n + 1) + Copies(Undoing, max);
      FinishOne(max, State(2 * max - n + 1, calls), n - 1);
      MoveOn(max, n);
    }
  }

  lemma FinishOne(max: nat, s: State, t: nat)
    requires t < |s.calls| && s.calls[t] == Running
    ensures Exec(max, s, [Complete(t), Release(t)]) == State(s.inFlight - 1, s.calls[t := Served])
  {
    Two(System(max), s, Complete(t), Release(t));
  }

  lemma MoveOn(max: nat, n: nat)
    requires 0 < n <= max
    ensures (Copies(Served, n - 1) + Copies(Running, max - n + 1) + Copies(Undoing, max))[n - 1 := Served]
         == Copies(Served, n) + Copies(Running, max - n) + Copies(Undoing, max)
  {
  }

  lemma ShedOne(max: nat, s: State)
    requires max <= s.inFlight
    ensures var t := |s.calls|;
            Exec(max, s, [Arrive, Add(t), Test(t), Undo(t)]) == s.(calls := s.calls + [Shed])
  {
    var t := |s.calls|;
    Four(System(max), s, Arrive, Add(t), Test(t), Undo(t));
  }
}
