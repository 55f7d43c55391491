/** The accept loop, the bounded channel and the dispatcher of src/main.rs as a transition
    system: one step per atomic operation, including shutdown, panics and process exit. */
module Dispatcher {
  import opened Net
  import opened Counting
  import opened Runs

  /** Where an accepted connection is. */
  datatype Place =
    | Queued
    | QueueFull      // try_send failed, not yet counted
    | ShedAtQueue
    | Held           // received by the dispatcher
    | Refused        // no permit, not yet counted
    | ShedAtPermit
    | Permitted      // permit taken, task not yet spawned
    | Running
    | Closing        // gauge decremented, permit not yet released
    | Finished
    | Panicked       // task unwound: permit released, gauge not decremented
    | Lost           // dropped at shutdown

  datatype State = State(
    conns: seq<Place>, queue: seq<nat>, permits: nat, shed503: nat, gauge: int,
    accepting: bool, dispatching: bool, shutdown: bool, exited: bool)

  /** What happens to one connection, besides being accepted and received. */
  datatype Move = CountFull | Acquire | CountRefused | Spawn | Close | Release | Panic

  datatype Step =
    | Accept | Receive | Do(i: nat, move: Move)
    | Signal | StopAccepting | StopDispatching | Exit

  /** `maxConn` is the configured limit, or its default. */
  datatype Config = Config(maxConn: nat)

  function ChannelCap(c: Config): nat { Max(c.maxConn, 256) }
  function PermitTotal(c: Config): nat { Max(c.maxConn, 64) }

  function Init(c: Config): State {
    State([], [], PermitTotal(c), 0, 0, true, true, false, false)
  }

  predicate Live(p: Place) {
    p in {Queued, QueueFull, Held, Refused, Permitted, Running, Closing}
  }

  predicate InHand(p: Place) { p == Held || p == Refused || p == Permitted }

  /** Dropping the receiver loses what is queued; process exit loses everything live. */
  function LoseQueued(conns: seq<Place>): seq<Place> {
    seq(|conns|, i requires 0 <= i < |conns| => if conns[i] == Queued then Lost else conns[i])
  }

  function LoseLive(conns: seq<Place>): seq<Place> {
    seq(|conns|, i requires 0 <= i < |conns| => if Live(conns[i]) then Lost else conns[i])
  }

  /** The next place of a connection and what the move adds to the counters. */
  datatype Effect = Effect(place: Place, permits: int, shed: nat, gauge: int)

  /** A move that is not enabled has no effect. */
  function MoveEffect(m: Move, p: Place, free: nat): Effect {
    match (m, p)
    case (CountFull, QueueFull) => Effect(ShedAtQueue, 0, 1, 0)
    case (Acquire, Held) => if free > 0 then Effect(Permitted, -1, 0, 0) else Effect(Refused, 0, 0, 0)
    case (CountRefused, Refused) => Effect(ShedAtPermit, 0, 1, 0)
    case (Spawn, Permitted) => Effect(Running, 0, 0, 1)
    case (Close, Running) => Effect(Closing, 0, 0, -1)
    case (Release, Closing) => Effect(Finished, 1, 0, 0)
    case (Panic, Running) => Effect(Panicked, 1, 0, 0)
    case _ => Effect(p, 0, 0, 0)
  }

  function ApplyMove(s: State, i: nat, m: Move): State {
    if i >= |s.conns| then s else
    var e := MoveEffect(m, s.conns[i], s.permits);
    s.(conns := s.conns[i := e.place], permits := s.permits + e.permits,
       shed503 := s.shed503 + e.shed, gauge := s.gauge + e.gauge)
  }

  /** The accept loop has finished with the last connection. */
  predicate AcceptorFree(s: State) {
    s.accepting && forall p <- s.conns :: p != QueueFull
  }

  /** Where `try_send` puts the next connection: the receiver may be gone, or the channel full. */
  function Destination(c: Config, s: State): Place {
    if !s.dispatching then Lost else if |s.queue| < ChannelCap(c) then Queued else QueueFull
  }

  /** A closed channel ends the accept loop. */
  function ApplyAccept(c: Config, s: State): State {
    if !AcceptorFree(s) then s else
    var p := Destination(c, s);
    s.(conns := s.conns + [p],
       queue := if p == Queued then s.queue + [|s.conns|] else s.queue,
       accepting := p != Lost)
  }

  function ApplyReceive(s: State): State {
    if s.dispatching && s.queue != [] && s.queue[0] < |s.conns| && (forall p <- s.conns :: !InHand(p))
    then s.(conns := s.conns[s.queue[0] := Held], queue := s.queue[1..]) else s
  }

  /** The dispatcher stops on the signal, or when the channel is closed and empty. */
  function ApplyStopDispatching(s: State): State {
    if s.dispatching && (forall p <- s.conns :: !InHand(p)) && (s.shutdown || (!s.accepting && s.queue == []))
    then s.(dispatching := false, queue := [], conns := LoseQueued(s.conns)) else s
  }

  function ApplyExit(c: Config, s: State): State {
    if s.accepting then s
    else s.(exited := true, queue := [], conns := LoseLive(s.conns), permits := PermitTotal(c))
  }

  /** One step; a step that is not enabled changes nothing. */
  function Apply(c: Config, s: State, step: Step): State {
    if s.exited then s else
    match step
    case Accept => ApplyAccept(c, s)
    case Receive => ApplyReceive(s)
    case Do(i, m) => ApplyMove(s, i, m)
    case Signal => s.(shutdown := true)
    case StopAccepting => if s.shutdown && AcceptorFree(s) then s.(accepting := false) else s
    case StopDispatching => ApplyStopDispatching(s)
    case Exit => ApplyExit(c, s)
  }

  function System(c: Config): (State, Step) -> State { (s, step) => Apply(c, s, step) }

  function Exec(c: Config, s: State, steps: seq<Step>): State {
    RunFrom(System(c), s, steps)
  }

  // ---- The invariant ----

  predicate HasPermit(p: Place) { p == Permitted || p == Running || p == Closing }
  predicate WasShed(p: Place) { p == ShedAtQueue || p == ShedAtPermit }
  predicate OnGauge(p: Place) { p == Running || p == Panicked }

  /** Places of connections that never got past the accept loop. */
  predicate NotReceived(p: Place) { p == Queued || p == QueueFull || p == ShedAtQueue }

  ghost predicate HoldsQueued(s: State) {
    forall k :: 0 <= k < |s.queue| ==> s.queue[k] < |s.conns| && s.conns[s.queue[k]] == Queued
  }

  ghost predicate Increasing(queue: seq<nat>) {
    forall j, k :: 0 <= j < k < |queue| ==> queue[j] < queue[k]
  }

  ghost predicate HoldsAll(s: State) {
    forall i :: 0 <= i < |s.conns| && s.conns[i] == Queued ==> i in s.queue
  }

  ghost predicate InOrder(conns: seq<Place>) {
    forall i, j :: 0 <= i < j < |conns| && conns[i] == Queued ==> NotReceived(conns[j])
  }

  ghost predicate QueueInv(s: State) {
    HoldsQueued(s) && Increasing(s.queue) && HoldsAll(s) && InOrder(s.conns)
  }

  ghost predicate CountInv(c: Config, s: State) {
    && s.permits + Count(s.conns, HasPermit) == PermitTotal(c)
    && s.shed503 == Count(s.conns, WasShed)
    && (!s.exited ==> s.gauge == Count(s.conns, OnGauge))
  }

  ghost predicate ChannelInv(c: Config, s: State) {
    QueueInv(s) && |s.queue| <= ChannelCap(c) && (!s.dispatching || s.exited ==> s.queue == [])
  }

  ghost predicate Inv(c: Config, s: State) {
    CountInv(c, s) && ChannelInv(c, s)
  }

  lemma PutCounts(conns: seq<Place>, i: nat, p: Place)
    requires i < |conns|
    ensures Count(conns[i := p], HasPermit) == Count(conns, HasPermit) - Bit(HasPermit(conns[i])) + Bit(HasPermit(p))
    ensures Count(conns[i := p], WasShed) == Count(conns, WasShed) - Bit(WasShed(conns[i])) + Bit(WasShed(p))
    ensures Count(conns[i := p], OnGauge) == Count(conns, OnGauge) - Bit(OnGauge(conns[i])) + Bit(OnGauge(p))
  {
    CountUpdate(conns, i, p, HasPermit);
    CountUpdate(conns, i, p, WasShed);
    CountUpdate(conns, i, p, OnGauge);
  }

  /** Every move pays for what it takes, and no move enters or leaves the channel. */
  lemma MoveBalanced(m: Move, p: Place, free: nat)
    ensures var e := MoveEffect(m, p, free);
            && free + e.permits >= 0
            && Bit(HasPermit(e.place)) - Bit(HasPermit(p)) == -e.permits
            && Bit(WasShed(e.place)) - Bit(WasShed(p)) == e.shed
            && Bit(OnGauge(e.place)) - Bit(OnGauge(p)) == e.gauge
            && (e.place == Queued <==> p == Queued)
            && (NotReceived(p) ==> NotReceived(e.place))
  {
  }

  lemma MoveKeepsCounts(c: Config, s: State, i: nat, m: Move)
    requires CountInv(c, s) && !s.exited
    ensures CountInv(c, ApplyMove(s, i, m))
  {
    if i < |s.conns| {
      MoveBalanced(m, s.conns[i], s.permits);
      PutCounts(s.conns, i, MoveEffect(m, s.conns[i], s.permits).place);
    }
  }

  lemma StepKeepsCounts(c: Config, s: State, step: Step)
    requires CountInv(c, s) && QueueInv(s)
    ensures CountInv(c, Apply(c, s, step))
  {
    if !s.exited {
      match step
      case Accept => AcceptKeepsCounts(c, s);
      case Receive => ReceiveKeepsCounts(c, s);
      case Do(i, m) => MoveKeepsCounts(c, s, i, m);
      case Signal =>
      case StopAccepting =>
      case StopDispatching => LoseQueuedCounts(s.conns);
      case Exit => LoseLiveCounts(s.conns);
    }
  }

  lemma AcceptKeepsCounts(c: Config, s: State)
    requires CountInv(c, s)
    ensures CountInv(c, ApplyAccept(c, s))
  {
  }

  lemma ReceiveKeepsCounts(c: Config, s: State)
    requires CountInv(c, s) && QueueInv(s)
    ensures CountInv(c, ApplyReceive(s))
  {
    if s.queue != [] {
      PutCounts(s.conns, s.queue[0], Held);
    }
  }

  lemma LoseQueuedCounts(conns: seq<Place>)
    ensures Count(LoseQueued(conns), HasPermit) == Count(conns, HasPermit)
    ensures Count(LoseQueued(conns), WasShed) == Count(conns, WasShed)
    ensures Count(LoseQueued(conns), OnGauge) == Count(conns, OnGauge)
  {
    CountAgree(conns, LoseQueued(conns), HasPermit);
    CountAgree(conns, LoseQueued(conns), WasShed);
    CountAgree(conns, LoseQueued(conns), OnGauge);
  }

  lemma LoseLiveCounts(conns: seq<Place>)
    ensures Count(LoseLive(conns), HasPermit) == 0
    ensures Count(LoseLive(conns), WasShed) == Count(conns, WasShed)
  {
    CountPositive(LoseLive(conns), HasPermit);
    CountAgree(conns, LoseLive(conns), WasShed);
  }

  lemma StepKeepsQueue(c: Config, s: State, step: Step)
    requires ChannelInv(c, s)
    ensures ChannelInv(c, Apply(c, s, step))
  {
    if !s.exited {
      match step
      case Accept => AcceptKeepsQueue(c, s);
      case Receive => if s.queue != [] { ReceiveKeepsQueue(s); }
      case Do(i, m) => MoveKeepsQueue(s, i, m);
      case Signal =>
      case StopAccepting =>
      case StopDispatching => LosingKeepsQueue(s, LoseQueued(s.conns));
      case Exit => LosingKeepsQueue(s, LoseLive(s.conns));
    }
  }

  lemma LosingKeepsQueue(s: State, conns: seq<Place>)
    requires forall i :: 0 <= i < |conns| ==> conns[i] != Queued
    ensures QueueInv(s.(queue := [], conns := conns))
  {
  }

  lemma MoveKeepsQueue(s: State, i: nat, m: Move)
    requires QueueInv(s)
    ensures QueueInv(ApplyMove(s, i, m))
  {
    if i < |s.conns| {
      MoveBalanced(m, s.conns[i], s.permits);
      PlaceKeepsQueue(s, i, MoveEffect(m, s.conns[i], s.permits).place);
    }
  }

  lemma PlaceKeepsQueue(s: State, i: nat, p: Place)
    requires QueueInv(s) && i < |s.conns|
    requires (p == Queued <==> s.conns[i] == Queued) && (NotReceived(s.conns[i]) ==> NotReceived(p))
    ensures QueueInv(s.(conns := s.conns[i := p]))
  {
    var conns := s.conns[i := p];
    assert forall j :: 0 <= j < |conns| ==> (conns[j] == Queued <==> s.conns[j] == Queued);
    assert forall j :: 0 <= j < |conns| ==> NotReceived(s.conns[j]) ==> NotReceived(conns[j]);
  }

  lemma AcceptKeepsQueue(c: Config, s: State)
    requires ChannelInv(c, s) && !s.exited
    ensures ChannelInv(c, ApplyAccept(c, s))
  {
    EnqueueKeepsQueue(s);
    if s.dispatching {
      AppendKeepsQueue(s, QueueFull);
    }
  }

  lemma AppendKeepsQueue(s: State, p: Place)
    requires QueueInv(s) && p != Queued && NotReceived(p)
    ensures QueueInv(s.(conns := s.conns + [p]))
  {
  }

  lemma EnqueueKeepsQueue(s: State)
    requires QueueInv(s)
    ensures QueueInv(s.(conns := s.conns + [Queued], queue := s.queue + [|s.conns|]))
  {
  }

  lemma ReceiveKeepsQueue(s: State)
    requires QueueInv(s) && s.queue != [] && s.queue[0] < |s.conns|
    ensures QueueInv(s.(conns := s.conns[s.queue[0] := Held], queue := s.queue[1..]))
  {
  }

  lemma StepKeepsInv(c: Config, s: State, step: Step)
    requires Inv(c, s)
    ensures Inv(c, Apply(c, s, step))
  {
    StepKeepsCounts(c, s, step);
    StepKeepsQueue(c, s, step);
  }

  lemma RunKeepsInv(c: Config, s: State, steps: seq<Step>)
    requires Inv(c, s)
    ensures Inv(c, Exec(c, s, steps))
  {
    forall r, x | Inv(c, r) ensures Inv(c, Apply(c, r, x)) {
      StepKeepsInv(c, r, x);
    }
    Preserved(System(c), r => Inv(c, r), s, steps);
  }

  // ---- Conservation and bounds over every run ----

  function Here(p: Place): Place -> bool { q => q == p }
  predicate InTask(p: Place) { p == Running || p == Closing }
  predicate Done(p: Place) { p == Finished || p == Panicked }
  predicate AtQueue(p: Place) { p == QueueFull || p == ShedAtQueue }

  /** Every accepted connection is queued, in the hands of the dispatcher, in a task, done,
      refused at the full queue, shed for want of a permit, or lost at shutdown. */
  lemma Conservation(c: Config, steps: seq<Step>)
    ensures var s := Exec(c, Init(c), steps);
            |s.conns| == |s.queue| + Count(s.conns, InHand) + Count(s.conns, InTask) + Count(s.conns, Done)
                         + Count(s.conns, AtQueue) + Count(s.conns, Here(ShedAtPermit)) + Count(s.conns, Here(Lost))
  {
    RunKeepsInv(c, Init(c), steps);
    var s := Exec(c, Init(c), steps);
    QueuedCount(s);
    Partition(s.conns);
  }

  lemma {:induction false} Partition(conns: seq<Place>)
    ensures |conns| == Count(conns, Here(Queued)) + Count(conns, InHand) + Count(conns, InTask) + Count(conns, Done)
                       + Count(conns, AtQueue) + Count(conns, Here(ShedAtPermit)) + Count(conns, Here(Lost))
  {
    if conns != [] {
      Partition(conns[..|conns| - 1]);
    }
  }

  /** The channel holds exactly the queued connections. */
  lemma QueuedCount(s: State)
    requires QueueInv(s)
    ensures Count(s.conns, Here(Queued)) == |s.queue|
  {
    QueuedPrefix(s.conns, s.queue, |s.conns|);
    assert s.conns[..|s.conns|] == s.conns;
  }

  lemma {:induction false} QueuedPrefix(conns: seq<Place>, queue: seq<nat>, n: nat)
    requires n <= |conns|
    requires forall k :: 0 <= k < |queue| ==> queue[k] < n && conns[queue[k]] == Queued
    requires forall j, k :: 0 <= j < k < |queue| ==> queue[j] < queue[k]
    requires forall i :: 0 <= i < n && conns[i] == Queued ==> i in queue
    ensures Count(conns[..n], Here(Queued)) == |queue|
  {
    if n > 0 {
      assert conns[..n][..n - 1] == conns[..n - 1];
      if conns[n - 1] == Queued {
        LastQueued(queue, n);
        QueuedPrefix(conns, queue[..|queue| - 1], n - 1);
      } else {
        QueuedPrefix(conns, queue, n - 1);
      }
    } else {
      assert conns[..0] == [];
    }
  }

  /** In an increasing list below `n`, the number `n - 1` can only be the last one. */
  lemma LastQueued(queue: seq<nat>, n: nat)
    requires forall k :: 0 <= k < |queue| ==> queue[k] < n
    requires forall j, k :: 0 <= j < k < |queue| ==> queue[j] < queue[k]
    requires n > 0 && n - 1 in queue
    ensures var m := |queue| - 1; queue[m] == n - 1 && forall i <- queue :: i != n - 1 ==> i in queue[..m]
  {
  }

  /** The channel never exceeds its capacity, permits are conserved, so at most
      `max(max_conn, 64)` connections hold one, and the shed counter is the number of
      connections shed at the queue or for want of a permit. */
  lemma Bounds(c: Config, steps: seq<Step>)
    ensures var s := Exec(c, Init(c), steps);
            && |s.queue| <= Max(c.maxConn, 256)
            && s.permits + Count(s.conns, HasPermit) == Max(c.maxConn, 64)
            && Count(s.conns, Here(Running)) <= Max(c.maxConn, 64)
            && s.shed503 == Count(s.conns, Here(ShedAtQueue)) + Count(s.conns, Here(ShedAtPermit))
  {
    RunKeepsInv(c, Init(c), steps);
    var s := Exec(c, Init(c), steps);
    CountMonotone(s.conns, Here(Running), HasPermit);
    CountUnion(s.conns, WasShed, Here(ShedAtQueue), Here(ShedAtPermit));
  }

  /** While the dispatcher lives, a connection is refused at the channel exactly when it is
      full. */
  lemma RefusedAtChannelIff(c: Config, steps: seq<Step>)
    requires Exec(c, Init(c), steps).dispatching
    ensures var s := Exec(c, Init(c), steps);
            Destination(c, s) == QueueFull <==> |s.queue| == Max(c.maxConn, 256)
  {
    Bounds(c, steps);
  }

  /** A received connection is refused exactly when every permit is held. */
  lemma RefusedForPermitIff(c: Config, steps: seq<Step>, i: nat)
    requires var s := Exec(c, Init(c), steps); i < |s.conns| && s.conns[i] == Held
    ensures var s := Exec(c, Init(c), steps);
            ApplyMove(s, i, Acquire).conns[i] == Refused <==> Count(s.conns, HasPermit) == Max(c.maxConn, 64)
  {
    Bounds(c, steps);
  }

  /** While the process lives, the connection gauge is the number of running tasks plus the
      number of tasks that panicked. */
  lemma GaugeDrift(c: Config, steps: seq<Step>)
    requires !Exec(c, Init(c), steps).exited
    ensures var s := Exec(c, Init(c), steps);
            s.gauge == Count(s.conns, Here(Running)) + Count(s.conns, Here(Panicked))
  {
    RunKeepsInv(c, Init(c), steps);
    CountUnion(Exec(c, Init(c), steps).conns, OnGauge, Here(Running), Here(Panicked));
  }

  /** The drift has no bound: for every number there is a run after which that many tasks have
      panicked, nothing is running, and the gauge still shows all of them. */
  lemma {:induction false} DriftAnyAmount(c: Config, n: nat) returns (steps: seq<Step>)
    ensures Exec(c, Init(c), steps) == State(Copies(Panicked, n), [], PermitTotal(c), 0, n, true, true, false, false)
  {
    if n == 0 {
      steps := [];
    } else {
      var before := DriftAnyAmount(c, n - 1);
      var s := Exec(c, Init(c), before);
      var more := [Accept, Receive, Do(n - 1, Acquire), Do(n - 1, Spawn)] + [Do(n - 1, Panic)];
      steps := before + more;
      RunConcat(System(c), Init(c), before, more);
      ServeOne(c, s, n - 1);
      PanicOne(c, s, n - 1);
      RunConcat(System(c), s, [Accept, Receive, Do(n - 1, Acquire), Do(n - 1, Spawn)], [Do(n - 1, Panic)]);
      assert s.conns + [Panicked] == Copies(Panicked, n);
    }
  }

  lemma PanicOne(c: Config, s: State, n: nat)
    requires !s.exited && s.permits > 0 && n == |s.conns|
    ensures Exec(c, s.(conns := s.conns + [Running], permits := s.permits - 1, gauge := s.gauge + 1), [Do(n, Panic)])
         == s.(conns := s.conns + [Panicked], gauge := s.gauge + 1)
  {
    var s' := s.(conns := s.conns + [Running], permits := s.permits - 1, gauge := s.gauge + 1);
    OneMore(System(c), s', [], Do(n, Panic));
    assert [] + [Do(n, Panic)] == [Do(n, Panic)];
  }

  /** No overtaking: while a connection waits in the channel, no later one has been received. */
  lemma NoOvertaking(c: Config, steps: seq<Step>, i: nat, j: nat)
    requires var s := Exec(c, Init(c), steps); i < j < |s.conns| && s.conns[i] == Queued
    ensures NotReceived(Exec(c, Init(c), steps).conns[j])
  {
    RunKeepsInv(c, Init(c), steps);
  }

  // ---- One at a time ----

  predicate AtAcceptor(p: Place) { p == QueueFull }

  ghost predicate OneAtATime(s: State) {
    Count(s.conns, InHand) <= 1 && Count(s.conns, AtAcceptor) <= 1
  }

  /** Accept loop and dispatcher are sequential: in every run each of them has at most one
      connection in its hands. */
  lemma HandsHoldOne(c: Config, steps: seq<Step>)
    ensures OneAtATime(Exec(c, Init(c), steps))
  {
    forall r, x | OneAtATime(r) ensures OneAtATime(Apply(c, r, x)) {
      StepKeepsHands(c, r, x);
    }
    Preserved(System(c), r => OneAtATime(r), Init(c), steps);
  }

  lemma StepKeepsHands(c: Config, s: State, step: Step)
    requires OneAtATime(s)
    ensures OneAtATime(Apply(c, s, step))
  {
    if !s.exited {
      match step
      case Accept => AcceptKeepsHands(c, s);
      case Receive => ReceiveKeepsHands(s);
      case Do(i, m) => MoveKeepsHands(s, i, m);
      case Signal =>
      case StopAccepting =>
      case StopDispatching => LosingKeepsHands(s.conns, LoseQueued(s.conns));
      case Exit => LosingKeepsHands(s.conns, LoseLive(s.conns));
    }
  }

  lemma AcceptKeepsHands(c: Config, s: State)
    requires OneAtATime(s)
    ensures OneAtATime(ApplyAccept(c, s))
  {
    if AcceptorFree(s) {
      NoneAtAcceptor(s);
      CountAppend(s.conns, Destination(c, s), InHand);
      CountAppend(s.conns, Destination(c, s), AtAcceptor);
    }
  }

  lemma NoneAtAcceptor(s: State)
    requires AcceptorFree(s)
    ensures Count(s.conns, AtAcceptor) == 0
  {
    CountPositive(s.conns, AtAcceptor);
    assert forall i :: 0 <= i < |s.conns| ==> s.conns[i] in s.conns;
  }

  lemma ReceiveKeepsHands(s: State)
    requires OneAtATime(s)
    ensures OneAtATime(ApplyReceive(s))
  {
    if s.queue != [] && s.queue[0] < |s.conns| {
      CountPositive(s.conns, InHand);
      CountUpdate(s.conns, s.queue[0], Held, InHand);
      CountUpdate(s.conns, s.queue[0], Held, AtAcceptor);
    }
  }

  lemma MoveKeepsHands(s: State, i: nat, m: Move)
    requires OneAtATime(s)
    ensures OneAtATime(ApplyMove(s, i, m))
  {
    if i < |s.conns| {
      var p := MoveEffect(m, s.conns[i], s.permits).place;
      CountUpdate(s.conns, i, p, InHand);
      CountUpdate(s.conns, i, p, AtAcceptor);
    }
  }

  lemma LosingKeepsHands(conns: seq<Place>, lost: seq<Place>)
    requires |lost| == |conns| && forall i :: 0 <= i < |conns| ==> lost[i] == Lost || lost[i] == conns[i]
    ensures Count(lost, InHand) <= Count(conns, InHand) && Count(lost, AtAcceptor) <= Count(conns, AtAcceptor)
  {
    CountFewer(lost, conns, InHand);
    CountFewer(lost, conns, AtAcceptor);
  }

  // ---- Every connection can be brought to an end ----

  /** The moves that finish a connection, wherever it is. */
  function Finishing(p: Place, free: nat): seq<Move> {
    match p
    case QueueFull => [CountFull]
    case Held => if free > 0 then [Acquire, Spawn, Close, Release] else [Acquire, CountRefused]
    case Refused => [CountRefused]
    case Permitted => [Spawn, Close, Release]
    case Running => [Close, Release]
    case Closing => [Release]
    case _ => []
  }

  function MoveAll(s: State, i: nat, ms: seq<Move>): State
    decreases |ms|
  {
    if ms == [] then s else MoveAll(ApplyMove(s, i, ms[0]), i, ms[1..])
  }

  /** While the process lives these are steps of the system. */
  lemma {:induction false} MovesAreSteps(c: Config, s: State, i: nat, ms: seq<Move>)
    requires !s.exited
    ensures Exec(c, s, seq(|ms|, k requires 0 <= k < |ms| => Do(i, ms[k]))) == MoveAll(s, i, ms)
    decreases |ms|
  {
    if ms != [] {
      var steps := seq(|ms|, k requires 0 <= k < |ms| => Do(i, ms[k]));
      MovesAreSteps(c, ApplyMove(s, i, ms[0]), i, ms[1..]);
      assert steps[1..] == seq(|ms[1..]|, k requires 0 <= k < |ms[1..]| => Do(i, ms[1..][k]));
    }
  }

  /** What finishing it comes to. */
  function End(p: Place, free: nat): Effect {
    match p
    case QueueFull => Effect(ShedAtQueue, 0, 1, 0)
    case Held => if free > 0 then Effect(Finished, 0, 0, 0) else Effect(ShedAtPermit, 0, 1, 0)
    case Refused => Effect(ShedAtPermit, 0, 1, 0)
    case Permitted => Effect(Finished, 1, 0, 0)
    case Running => Effect(Finished, 1, 0, -1)
    case Closing => Effect(Finished, 1, 0, 0)
    case _ => Effect(p, 0, 0, 0)
  }

  ghost predicate Becomes(s: State, i: nat, e: Effect, s': State)
    requires i < |s.conns|
  {
    && s.permits + e.permits >= 0
    && s' == s.(conns := s.conns[i := e.place], permits := s.permits + e.permits,
                shed503 := s.shed503 + e.shed, gauge := s.gauge + e.gauge)
  }

  /** A connection that the dispatcher holds is served to the end if there is a free permit, and
      shed and counted otherwise; one that found the channel full is shed and counted; a task
      that ends gives its permit back and leaves the gauge. Nothing else changes. */
  lemma CanFinish(s: State, i: nat)
    requires i < |s.conns|
    ensures Becomes(s, i, End(s.conns[i], s.permits), MoveAll(s, i, Finishing(s.conns[i], s.permits)))
  {
    match s.conns[i]
    case QueueFull => FinishByOne(s, i, CountFull);
    case Held => FinishHeld(s, i);
    case Refused => FinishByOne(s, i, CountRefused);
    case Permitted => FinishPermitted(s, i);
    case Running => FinishRunning(s, i);
    case Closing => FinishByOne(s, i, Release);
    case _ => assert s.conns[i := s.conns[i]] == s.conns;
  }

  lemma FinishByOne(s: State, i: nat, m: Move)
    requires i < |s.conns| && Finishing(s.conns[i], s.permits) == [m]
    ensures Becomes(s, i, End(s.conns[i], s.permits), MoveAll(s, i, [m]))
  {
    var ms := Finishing(s.conns[i], s.permits);
    assert ms[0] == m;
    OneMove(s, i, m);
  }

  lemma FinishRunning(s: State, i: nat)
    requires i < |s.conns| && s.conns[i] == Running
    ensures Becomes(s, i, Effect(Finished, 1, 0, -1), MoveAll(s, i, [Close, Release]))
  {
    TwoMoves(s, i, Close, Release);
  }

  lemma FinishPermitted(s: State, i: nat)
    requires i < |s.conns| && s.conns[i] == Permitted
    ensures Becomes(s, i, Effect(Finished, 1, 0, 0), MoveAll(s, i, [Spawn, Close, Release]))
  {
    FinishRunning(ApplyMove(s, i, Spawn), i);
    assert [Spawn, Close, Release][1..] == [Close, Release];
  }

  lemma FinishHeld(s: State, i: nat)
    requires i < |s.conns| && s.conns[i] == Held
    ensures Becomes(s, i, End(Held, s.permits), MoveAll(s, i, Finishing(Held, s.permits)))
  {
    if s.permits > 0 {
      FinishPermitted(ApplyMove(s, i, Acquire), i);
      assert [Acquire, Spawn, Close, Release][1..] == [Spawn, Close, Release];
    } else {
      TwoMoves(s, i, Acquire, CountRefused);
    }
  }

  lemma OneMove(s: State, i: nat, m: Move)
    ensures MoveAll(s, i, [m]) == ApplyMove(s, i, m)
  {
    assert [m][1..] == [];
  }

  lemma TwoMoves(s: State, i: nat, m: Move, n: Move)
    ensures MoveAll(s, i, [m, n]) == ApplyMove(ApplyMove(s, i, m), i, n)
  {
    assert [m, n][1..] == [n];
    OneMove(ApplyMove(s, i, m), i, n);
  }

  /** A task that panics gives its permit back but stays on the gauge. */
  lemma PanicReleases(s: State, i: nat)
    requires i < |s.conns| && s.conns[i] == Running
    ensures ApplyMove(s, i, Panic) == s.(conns := s.conns[i := Panicked], permits := s.permits + 1)
  {
  }

  /** For every number there is a run that serves that many connections to the end, one after the
      other: all permits are free again, the gauge is zero and nothing was shed. */
  lemma {:induction false} ServeAnyNumber(c: Config, n: nat) returns (steps: seq<Step>)
    ensures Exec(c, Init(c), steps) == State(Copies(Finished, n), [], PermitTotal(c), 0, 0, true, true, false, false)
  {
    steps := [];
    if n > 0 {
      var before := ServeAnyNumber(c, n - 1);
      var s := Exec(c, Init(c), before);
      var start := [Accept, Receive, Do(n - 1, Acquire), Do(n - 1, Spawn)];
      var end := [Do(n - 1, Close), Do(n - 1, Release)];
      steps := before + (start + end);
      RunConcat(System(c), Init(c), before, start + end);
      RunConcat(System(c), s, start, end);
      ServeOne(c, s, n - 1);
      EndOne(c, s, n - 1);
      assert s.conns + [Finished] == Copies(Finished, n);
    }
  }

  lemma EndOne(c: Config, s: State, n: nat)
    requires !s.exited && s.permits > 0 && n == |s.conns|
    ensures Exec(c, s.(conns := s.conns + [Running], permits := s.permits - 1, gauge := s.gauge + 1),
                 [Do(n, Close), Do(n, Release)])
         == s.(conns := s.conns + [Finished])
  {
    var s' := s.(conns := s.conns + [Running], permits := s.permits - 1, gauge := s.gauge + 1);
    Two(System(c), s', Do(n, Close), Do(n, Release));
  }

  // ---- Shutdown ----

  ghost predicate Signalled(s: State) {
    !s.accepting || !s.dispatching || s.exited ==> s.shutdown
  }

  /** Without a signal the process goes on: in every run, whoever stopped did so after it. */
  lemma StopsOnlyOnSignal(c: Config, steps: seq<Step>)
    ensures Signalled(Exec(c, Init(c), steps))
  {
    Preserved(System(c), r => Signalled(r), Init(c), steps);
  }

  /** Each part stops at a clean point: the accept loop with no connection in its hands, the
      dispatcher likewise, and the process only after the accept loop. */
  lemma StopsBetweenConnections(c: Config, s: State, step: Step)
    ensures var s' := Apply(c, s, step);
            && (s.accepting && !s'.accepting ==> AcceptorFree(s))
            && (s.dispatching && !s'.dispatching ==> forall p <- s.conns :: !InHand(p))
            && (!s.exited && s'.exited ==> !s.accepting)
  {
  }

  /** A closed channel: the connection is lost and the accept loop ends. */
  lemma ClosedChannelEndsAccepting(c: Config, s: State)
    requires !s.exited && !s.dispatching && AcceptorFree(s)
    ensures Apply(c, s, Accept) == s.(conns := s.conns + [Lost], accepting := false)
  {
  }

  /** Once the accept loop has ended the process may exit, whatever else is going on: what is live
      is lost, what had ended stays as it was. */
  lemma ExitEndsAll(c: Config, s: State)
    requires !s.exited && !s.accepting
    ensures var s' := Apply(c, s, Exit);
            && s'.exited && s'.queue == [] && s'.permits == PermitTotal(c) && s'.shed503 == s.shed503
            && |s'.conns| == |s.conns|
            && forall i :: 0 <= i < |s.conns| ==> s'.conns[i] == if Live(s.conns[i]) then Lost else s.conns[i]
  {
  }

  /** Shutting down: when accept loop and dispatcher are between connections, the signal lets
      both stop and the process exit. Then no connection is live, what had ended stays as it
      was, everything else is lost, and all permits are back. */
  lemma ShutsDown(c: Config, s: State)
    requires !s.exited && AcceptorFree(s) && s.dispatching && forall p <- s.conns :: !InHand(p)
    ensures var s' := Exec(c, s, [Signal, StopAccepting, StopDispatching, Exit]);
            && s'.exited && s'.shutdown && !s'.accepting && !s'.dispatching && s'.queue == []
            && s'.permits == PermitTotal(c) && s'.shed503 == s.shed503
            && |s'.conns| == |s.conns|
            && forall i :: 0 <= i < |s.conns| ==> s'.conns[i] == if Live(s.conns[i]) then Lost else s.conns[i]
  {
    Four(System(c), s, Signal, StopAccepting, StopDispatching, Exit);
    var s1 := s.(shutdown := true);
    var s2 := s1.(accepting := false);
    var s3 := s2.(dispatching := false, queue := [], conns := LoseQueued(s.conns));
    assert Apply(c, s, Signal) == s1;
    assert Apply(c, s1, StopAccepting) == s2;
    assert Apply(c, s2, StopDispatching) == s3;
  }

  // ---- The comment "caps concurrent connection tasks at max_conn" ----

  /** Concurrent tasks stay within `max_conn` in every run exactly when it is at least 64. */
  lemma CappedIff(c: Config)
    ensures (forall steps :: Count(Exec(c, Init(c), steps).conns, Here(Running)) <= c.maxConn) <==> c.maxConn >= 64
  {
    if c.maxConn >= 64 {
      forall steps ensures Count(Exec(c, Init(c), steps).conns, Here(Running)) <= c.maxConn {
        Bounds(c, steps);
      }
    } else {
      var steps := Fill(c, PermitTotal(c));
      CountCopies(Running, PermitTotal(c), Here(Running));
    }
  }

  /** A run after which `n` connections are being served. */
  lemma {:induction false} Fill(c: Config, n: nat) returns (steps: seq<Step>)
    requires n <= PermitTotal(c)
    ensures var s := Exec(c, Init(c), steps);
            s == State(Copies(Running, n), [], PermitTotal(c) - n, 0, n, true, true, false, false)
  {
    if n == 0 {
      steps := [];
    } else {
      var before := Fill(c, n - 1);
      var s := Exec(c, Init(c), before);
      ServeOne(c, s, n - 1);
      var more := [Accept, Receive, Do(n - 1, Acquire), Do(n - 1, Spawn)];
      steps := before + more;
      RunConcat(System(c), Init(c), before, more);
      assert s.conns + [Running] == Copies(Running, n);
    }
  }

  lemma ServeOne(c: Config, s: State, n: nat)
    requires !s.exited && AcceptorFree(s) && s.dispatching && s.queue == [] && s.permits > 0
    requires (forall p <- s.conns :: !InHand(p)) && n == |s.conns|
    ensures Exec(c, s, [Accept, Receive, Do(n, Acquire), Do(n, Spawn)])
         == s.(conns := s.conns + [Running], permits := s.permits - 1, gauge := s.gauge + 1)
  {
    AcceptOne(c, s);
    StartOne(c, s, n);
    RunConcat(System(c), s, [Accept, Receive], [Do(n, Acquire), Do(n, Spawn)]);
    assert [Accept, Receive, Do(n, Acquire), Do(n, Spawn)] == [Accept, Receive] + [Do(n, Acquire), Do(n, Spawn)];
  }

  lemma AcceptOne(c: Config, s: State)
    requires !s.exited && AcceptorFree(s) && s.dispatching && s.queue == []
    requires forall p <- s.conns :: !InHand(p)
    ensures Exec(c, s, [Accept, Receive]) == s.(conns := s.conns + [Held])
  {
    var s1 := s.(conns := s.conns + [Queued], queue := [|s.conns|]);
    assert Apply(c, s, Accept) == s1;
    assert s1.conns[|s.conns| := Held] == s.conns + [Held];
    Two(System(c), s, Accept, Receive);
  }

  lemma StartOne(c: Config, s: State, n: nat)
    requires !s.exited && s.permits > 0 && n == |s.conns|
    ensures Exec(c, s.(conns := s.conns + [Held]), [Do(n, Acquire), Do(n, Spawn)])
         == s.(conns := s.conns + [Running], permits := s.permits - 1, gauge := s.gauge + 1)
  {
    var s2 := s.(conns := s.conns + [Held]);
    assert s2.conns[n := Permitted] == s.conns + [Permitted];
    assert (s.conns + [Permitted])[n := Running] == s.conns + [Running];
    Two(System(c), s2, Do(n, Acquire), Do(n, Spawn));
  }
}
