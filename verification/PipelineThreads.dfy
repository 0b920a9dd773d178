/** Publishers, the single worker and the thread that starts and stops the pipeline, interleaved
    (src/security/security_pipeline.cpp, src/security/telemetry_bus.cpp). Every action is one critical
    section or one access to the running flag; start and stop are called by one thread. */
module PipelineThreads {
  import opened Common
  import opened Observation
  import opened TelemetryBus

  /** Where the worker is: about to pop, with an observation in hand, between an empty pop and its look
      at closed(), or returned. */
  datatype Worker = NotStarted | Popping | InHand(observation: SecurityObservation) | FoundEmpty | Returned

  datatype Control = Down | Starting | Up | Stopping | Joining

  /** `passed` holds the observations whose publisher has seen the running flag set but is not on the bus
      yet. `accepted`, `processed` and `answered` are histories: what the bus took, what the worker is
      done with, and the number of bus publishes. */
  datatype System = System(
    bus: Bus,
    running: bool,
    control: Control,
    worker: Worker,
    passed: seq<SecurityObservation>,
    accepted: seq<SecurityObservation>,
    processed: seq<SecurityObservation>,
    answered: nat)

  datatype Action =
    | PublishBegin(observation: SecurityObservation)
    | PublishOnBus(which: nat)
    | WorkerPop
    | WorkerProcess
    | WorkerLook
    | StartFlag
    | StartThread(spawned: bool)
    | StopFlag
    | StopClose
    | StopJoined

  function Initially(capacity: nat): System {
    System(Bus(if capacity == 0 then 1 else capacity, [], false, TelemetryMetrics(0, 0, 0, 0)),
           false, Down, NotStarted, [], [], [], 0)
  }

  /** One action; one that cannot be taken in the state changes nothing. */
  function Step(s: System, a: Action): System {
    match a
    case PublishBegin(o) =>
      if s.running then s.(passed := s.passed + [o]) else s
    case PublishOnBus(i) =>
      if i >= |s.passed| then s
      else
        var o := s.passed[i];
        s.(bus := s.bus.Publish(o), passed := s.passed[..i] + s.passed[i + 1..], answered := s.answered + 1,
           accepted := if s.bus.Answer(o) == Accepted then s.accepted + [o] else s.accepted)
    case WorkerPop =>
      if s.worker != Popping then s
      else if |s.bus.queue| == 0 then s.(worker := FoundEmpty)
      else s.(bus := s.bus.Pop(), worker := InHand(s.bus.queue[0]))
    case WorkerProcess =>
      if s.worker.InHand? then s.(worker := Popping, processed := s.processed + [s.worker.observation]) else s
    case WorkerLook =>
      if s.worker == FoundEmpty then s.(worker := if s.bus.closed then Returned else Popping) else s
    case StartFlag =>
      if s.control == Down then s.(control := Starting, running := true) else s
    case StartThread(spawned) =>
      if s.control != Starting then s
      else if s.bus.closed || !spawned then s.(control := Down, running := false)
      else s.(control := Up, worker := Popping)
    case StopFlag =>
      if s.control == Up then s.(control := Stopping, running := false) else s
    case StopClose =>
      if s.control == Stopping then s.(control := Joining, bus := s.bus.(closed := true)) else s
    case StopJoined =>
      if s.control == Joining && s.worker == Returned then s.(control := Down) else s
  }

  function Run(s: System, actions: seq<Action>): System
    decreases |actions|
  {
    if |actions| == 0 then s else Run(Step(s, actions[0]), actions[1..])
  }

  function Hand(s: System): seq<SecurityObservation> {
    if s.worker.InHand? then [s.worker.observation] else []
  }

  /** Nothing is lost, doubled or overtaken: what was accepted is what was processed, then what the worker
      holds, then the queue. */
  predicate Conserved(s: System) {
    s.accepted == s.processed + Hand(s) + s.bus.queue
  }

  predicate Bounded(s: System) {
    |s.bus.queue| <= s.bus.capacity
  }

  /** Each publish that reached the bus is counted once, the accepted ones as accepted. */
  predicate Counted(s: System) {
    s.bus.metrics.Total() == s.answered && s.bus.metrics.accepted == |s.accepted|
  }

  predicate AllValid(s: System) {
    forall i :: 0 <= i < |s.accepted| ==> s.accepted[i].Valid()
  }

  /** The worker is started at most once, has returned only from a closed bus, and is joined before stop
      returns. */
  predicate Lifecycle(s: System) {
    && (s.control.Up? || s.control.Stopping? ==> !s.bus.closed)
    && (s.control.Joining? ==> s.bus.closed)
    && (s.worker.Returned? ==> s.bus.closed)
    && (s.control.Down? || s.control.Starting? ==>
          if s.bus.closed then s.worker.Returned? else s.worker.NotStarted?)
    && (s.control.Up? || s.control.Stopping? || s.control.Joining? ==> !s.worker.NotStarted?)
    && (s.running <==> s.control.Up? || s.control.Starting?)
  }

  predicate Invariant(s: System) {
    Conserved(s) && Bounded(s) && Counted(s) && AllValid(s) && Lifecycle(s)
  }

  lemma PopConserves(processed: seq<SecurityObservation>, queue: seq<SecurityObservation>)
    requires |queue| > 0
    ensures processed + [] + queue == processed + [queue[0]] + queue[1..]
    ensures processed + [queue[0]] + queue[1..] == (processed + [queue[0]]) + [] + queue[1..]
  {}

  lemma PublishConserves(done: seq<SecurityObservation>, queue: seq<SecurityObservation>, o: SecurityObservation)
    ensures done + queue + [o] == done + (queue + [o])
  {}

  lemma StepConserves(s: System, a: Action)
    requires Conserved(s) && Lifecycle(s)
    ensures Conserved(Step(s, a))
  {
    match a
    case PublishOnBus(i) =>
      if i < |s.passed| { PublishConserves(s.processed + Hand(s), s.bus.queue, s.passed[i]); }
    case WorkerPop =>
      if s.worker == Popping && |s.bus.queue| > 0 { PopConserves(s.processed, s.bus.queue); }
    case WorkerProcess =>
      if s.worker.InHand? {
        assert s.processed + Hand(s) == (s.processed + [s.worker.observation]) + [];
      }
    case _ =>
  }

  lemma StepKeepsInvariant(s: System, a: Action)
    requires Invariant(s)
    ensures Invariant(Step(s, a))
  {
    StepConserves(s, a);
  }

  /** In every interleaving. */
  lemma {:induction false} RunKeepsInvariant(s: System, actions: seq<Action>)
    requires Invariant(s)
    ensures Invariant(Run(s, actions))
    decreases |actions|
  {
    if |actions| > 0 {
      StepKeepsInvariant(s, actions[0]);
      hide Step, Invariant;
      RunKeepsInvariant(Step(s, actions[0]), actions[1..]);
    }
  }

  lemma EveryRunConserves(capacity: nat, actions: seq<Action>)
    ensures var s := Run(Initially(capacity), actions);
            && s.accepted == s.processed + Hand(s) + s.bus.queue
            && |s.bus.queue| <= (if capacity == 0 then 1 else capacity)
            && s.bus.metrics.Total() == s.answered && s.bus.metrics.accepted == |s.accepted|
  {
    RunKeepsInvariant(Initially(capacity), actions);
    CapacityIsFixed(Initially(capacity), actions);
  }

  lemma {:induction false} CapacityIsFixed(s: System, actions: seq<Action>)
    ensures Run(s, actions).bus.capacity == s.bus.capacity
    decreases |actions|
  {
    if |actions| > 0 { CapacityIsFixed(Step(s, actions[0]), actions[1..]); }
  }

  /** After close nothing is accepted any more, and a closed bus never opens again. */
  lemma {:induction false} NothingAcceptedAfterClose(s: System, actions: seq<Action>)
    requires s.bus.closed
    ensures Run(s, actions).bus.closed && Run(s, actions).accepted == s.accepted
    decreases |actions|
  {
    if |actions| > 0 {
      assert Step(s, actions[0]).bus.closed && Step(s, actions[0]).accepted == s.accepted;
      NothingAcceptedAfterClose(Step(s, actions[0]), actions[1..]);
    }
  }

  /** Once stop has returned the worker holds nothing, so what was accepted and not processed is exactly
      what the queue still holds. */
  lemma StopLeavesOnlyTheQueue(capacity: nat, actions: seq<Action>)
    requires var s := Run(Initially(capacity), actions); s.control == Down && s.bus.closed
    ensures var s := Run(Initially(capacity), actions);
            s.worker == Returned && !s.running && s.accepted == s.processed + s.bus.queue
  {
    RunKeepsInvariant(Initially(capacity), actions);
    var s := Run(Initially(capacity), actions);
    assert s.processed + [] == s.processed;
  }

  // ---- When stop drains the queue ----

  /** The worker has already found the queue empty, and the queue holds something again. */
  predicate Stranded(s: System) {
    s.bus.queue != [] && (s.worker.FoundEmpty? || s.worker.Returned?)
  }

  /** Once the bus is closed no action brings this about, and none undoes it. */
  lemma StepKeepsStranded(s: System, a: Action)
    requires Lifecycle(s) && s.bus.closed
    ensures Step(s, a).bus.closed && (Stranded(Step(s, a)) <==> Stranded(s))
  {}

  lemma {:induction false} RunKeepsStranded(s: System, actions: seq<Action>)
    requires Invariant(s) && s.bus.closed
    ensures Stranded(Run(s, actions)) <==> Stranded(s)
    decreases |actions|
  {
    if |actions| > 0 {
      StepKeepsStranded(s, actions[0]);
      StepKeepsInvariant(s, actions[0]);
      hide Step, Invariant, Stranded;
      RunKeepsStranded(Step(s, actions[0]), actions[1..]);
    }
  }

  /** stop() drains the queue exactly when the worker is not, at the moment the bus closes, between an
      empty pop and its look at closed() with something queued since. */
  lemma StopDrainsExactly(s: System, actions: seq<Action>)
    requires Invariant(s) && s.control == Stopping && Run(s, [StopClose] + actions).control == Down
    ensures var t := Run(s, [StopClose] + actions);
            && t.accepted == s.accepted
            && (t.processed == t.accepted <==> !(s.worker == FoundEmpty && s.bus.queue != []))
  {
    var closed := Step(s, StopClose);
    assert Run(s, [StopClose] + actions) == Run(closed, actions) by { assert ([StopClose] + actions)[1..] == actions; }
    StepKeepsInvariant(s, StopClose);
    RunKeepsStranded(closed, actions);
    RunKeepsInvariant(closed, actions);
    NothingAcceptedAfterClose(closed, actions);
    var t := Run(closed, actions);
    assert t.worker == Returned && t.accepted == t.processed + [] + t.bus.queue;
    assert |t.accepted| == |t.processed| + |t.bus.queue|;
    assert Stranded(t) <==> t.bus.queue != [];
    if t.bus.queue == [] { assert t.processed + [] + [] == t.processed; }
  }

  /** The same from the start: whatever happened before the close and whatever happens after it. */
  lemma EveryStopDrainsExactly(capacity: nat, before: seq<Action>, after: seq<Action>)
    requires Run(Initially(capacity), before).control == Stopping
    requires Run(Run(Initially(capacity), before), [StopClose] + after).control == Down
    ensures var s := Run(Initially(capacity), before);
            var t := Run(s, [StopClose] + after);
            t.processed == t.accepted <==> !(s.worker == FoundEmpty && s.bus.queue != [])
  {
    RunKeepsInvariant(Initially(capacity), before);
    StopDrainsExactly(Run(Initially(capacity), before), after);
  }

  /** An observation was accepted between the worker's empty pop and its look at closed(). */
  function AcceptedLate(o: SecurityObservation): System {
    System(Bus(1, [o], false, TelemetryMetrics(1, 0, 0, 0)), true, Up, FoundEmpty, [], [o], [], 1)
  }

  lemma AcceptedLateIsReached(o: SecurityObservation) returns (actions: seq<Action>)
    requires o.Valid()
    ensures Run(Initially(1), actions) == AcceptedLate(o)
  {
    actions := [];
    var s := Initially(1);
    assert s == Run(s, actions);
    hide Run;
    actions, s := Then(actions, s, StartFlag);
    actions, s := Then(actions, s, StartThread(true));
    actions, s := Then(actions, s, PublishBegin(o));
    assert s.passed == [o] && s.worker == Popping;
    actions, s := Then(actions, s, WorkerPop);
    actions, s := Then(actions, s, PublishOnBus(0));
  }

  /** And such a stop exists. */
  lemma StopCanLeaveAnObservation(o: SecurityObservation) returns (actions: seq<Action>)
    requires o.Valid()
    ensures var s := Run(Initially(1), actions);
            s.control == Down && s.bus.closed && s.bus.queue == s.accepted == [o] && s.processed == []
  {
    actions := AcceptedLateIsReached(o);
    var s := AcceptedLate(o);
    hide Run;
    actions, s := Then(actions, s, StopFlag);
    actions, s := Then(actions, s, StopClose);
    actions, s := Then(actions, s, WorkerLook);
    actions, s := Then(actions, s, StopJoined);
  }

  lemma Then(actions: seq<Action>, s: System, a: Action) returns (more: seq<Action>, t: System)
    requires s == Run(Initially(1), actions)
    ensures more == actions + [a] && t == Step(s, a) == Run(Initially(1), more)
  {
    more, t := actions + [a], Step(s, a);
    RunSnoc(Initially(1), actions, a);
  }

  lemma {:induction false} RunSnoc(s: System, actions: seq<Action>, a: Action)
    ensures Run(s, actions + [a]) == Step(Run(s, actions), a)
    decreases |actions|
  {
    if |actions| > 0 {
      RunSnoc(Step(s, actions[0]), actions[1..], a);
      assert (actions + [a])[1..] == actions[1..] + [a];
    } else {
      assert [a][1..] == [];
      assert Run(s, [a]) == Run(Step(s, a), []);
    }
  }

  /** Before the pipeline is started nothing is accepted, whatever is published. */
  lemma {:induction false} NothingBeforeStart(capacity: nat, actions: seq<Action>)
    requires StartFlag !in actions
    ensures var s := Run(Initially(capacity), actions); s.accepted == [] && s.answered == 0
  {
    StaysDown(Initially(capacity), actions);
  }

  lemma {:induction false} StaysDown(s: System, actions: seq<Action>)
    requires StartFlag !in actions && !s.running && s.passed == [] && s.control == Down
    ensures Run(s, actions).accepted == s.accepted && Run(s, actions).answered == s.answered
    decreases |actions|
  {
    if |actions| > 0 {
      assert actions[0] in actions;
      StaysDown(Step(s, actions[0]), actions[1..]);
    }
  }
}
