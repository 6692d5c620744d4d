/**
 The event emitter while it runs: callers, the dispatcher and the workers as interleaved steps over the
 buffered channel, the pool of worker tokens and the counters. Events are numbered as they are emitted.
 Starting and stopping are not part of this model.
 */
module Emitter {
  import opened Batches
  import opened Sequences

  datatype Config = Config(bufferSize: nat, maxWorkers: nat, dropOnOverflow: bool)

  /**
   Where an event is. A caller's event is pending: at the first attempt of Emit, waiting for space after
   it, waiting with a timeout (EmitWithTimeout), or given up but not counted as dropped yet.
   */
  datatype Stage = Trying | Waiting | Timed | GivenUp | Dropped | Queued | Held | Assigned | Handling | Done

  datatype Place = Caller | Lost | Buffer | Dispatcher | Worker | Finished

  function PlaceOf(stage: Stage): Place {
    match stage
    case Trying | Waiting | Timed | GivenUp => Caller
    case Dropped => Lost
    case Queued => Buffer
    case Held => Dispatcher
    case Assigned | Handling => Worker
    case Done => Finished
  }

  /** `sent` and `received` are the histories of the channel. */
  datatype State = State(
    stages: seq<Stage>,
    queue: seq<nat>,
    held: Option<nat>,
    tokens: nat,
    eventsEmitted: nat,
    eventsDropped: nat,
    eventsProcessed: nat,
    sent: seq<nat>,
    received: seq<nat>
  )

  function Initial(c: Config): State {
    State([], [], None, c.maxWorkers, 0, 0, 0, [], [])
  }

  // ---------------------------------------------------------------- steps

  datatype Step =
    | Emit(timed: bool)      // count the event and try to send it
    | Send(event: nat)       // there is space in the buffer
    | HandOver(event: nat)   // the dispatcher is waiting at an empty buffer
    | Overflow(event: nat)   // Emit finds no space
    | TimeOut(event: nat)
    | CountDrop(event: nat)
    | Receive                // the dispatcher takes the oldest event from the buffer
    | Assign                 // a token is free: a worker takes the event the dispatcher holds
    | Handle(event: nat)     // handleEvent starts by counting
    | Finish(event: nat)     // the worker returns its token

  predicate At(s: State, event: nat, stages: set<Stage>) {
    event < |s.stages| && s.stages[event] in stages
  }

  predicate Enabled(c: Config, s: State, step: Step) {
    match step
    case Emit(_) => true
    case Send(event) => At(s, event, {Trying, Waiting, Timed}) && |s.queue| < c.bufferSize
    case HandOver(event) => At(s, event, {Trying, Waiting, Timed}) && s.queue == [] && s.held.None?
    case Overflow(event) => At(s, event, {Trying}) && |s.queue| >= c.bufferSize
    case TimeOut(event) => At(s, event, {Timed})
    case CountDrop(event) => At(s, event, {GivenUp})
    case Receive => s.held.None? && s.queue != [] && s.queue[0] < |s.stages|
    case Assign => s.held.Some? && s.held.value < |s.stages| && s.tokens > 0
    case Handle(event) => At(s, event, {Assigned})
    case Finish(event) => At(s, event, {Handling})
  }

  function Moved(s: State, event: nat, stage: Stage): State
    requires event < |s.stages|
  {
    s.(stages := s.stages[event := stage])
  }

  function Apply(c: Config, s: State, step: Step): State
    requires Enabled(c, s, step)
  {
    match step
    case Emit(timed) => s.(stages := s.stages + [if timed then Timed else Trying], eventsEmitted := s.eventsEmitted + 1)
    case Send(event) => Moved(s, event, Queued).(queue := s.queue + [event], sent := s.sent + [event])
    case HandOver(event) => Moved(s, event, Held).(held := Some(event), sent := s.sent + [event], received := s.received + [event])
    case Overflow(event) => Moved(s, event, if c.dropOnOverflow then GivenUp else Waiting)
    case TimeOut(event) => Moved(s, event, GivenUp)
    case CountDrop(event) => Moved(s, event, Dropped).(eventsDropped := s.eventsDropped + 1)
    case Receive =>
      var event := s.queue[0];
      Moved(s, event, Held).(queue := s.queue[1..], held := Some(event), received := s.received + [event])
    case Assign => Moved(s, s.held.value, Assigned).(held := None, tokens := s.tokens - 1)
    case Handle(event) => Moved(s, event, Handling).(eventsProcessed := s.eventsProcessed + 1)
    case Finish(event) => Moved(s, event, Done).(tokens := s.tokens + 1)
  }

  // ---------------------------------------------------------------- counting events

  ghost function Count(stages: seq<Stage>, place: Place): nat {
    CountIf(stages, stage => PlaceOf(stage) == place)
  }

  /** The events a worker has begun to handle. */
  ghost function Begun(stages: seq<Stage>): nat {
    CountIf(stages, stage => stage == Handling || stage == Done)
  }

  lemma CountMoved(stages: seq<Stage>, event: nat, stage: Stage, place: Place)
    requires event < |stages|
    ensures Count(stages[event := stage], place) ==
            Count(stages, place) + (if PlaceOf(stage) == place then 1 else 0) - (if PlaceOf(stages[event]) == place then 1 else 0)
  {
    CountIfUpdate(stages, x => PlaceOf(x) == place, event, stage);
  }

  lemma BegunMoved(stages: seq<Stage>, event: nat, stage: Stage)
    requires event < |stages|
    ensures Begun(stages[event := stage]) ==
            Begun(stages) + (if stage == Handling || stage == Done then 1 else 0)
            - (if stages[event] == Handling || stages[event] == Done then 1 else 0)
  {
    CountIfUpdate(stages, x => x == Handling || x == Done, event, stage);
  }

  /** Every event is in exactly one place. */
  lemma {:induction false} PlacesPartitionEvents(stages: seq<Stage>)
    ensures |stages| == Count(stages, Caller) + Count(stages, Lost) + Count(stages, Buffer)
                        + Count(stages, Dispatcher) + Count(stages, Worker) + Count(stages, Finished)
  {
    if stages != [] {
      PlacesPartitionEvents(stages[..|stages| - 1]);
    }
  }

  // ---------------------------------------------------------------- invariants

  ghost predicate CountersInv(c: Config, s: State) {
    && s.eventsEmitted == |s.stages|
    && s.eventsDropped == Count(s.stages, Lost)
    && s.eventsProcessed == Begun(s.stages)
    && s.tokens + Count(s.stages, Worker) == c.maxWorkers
    && |s.queue| == Count(s.stages, Buffer) && |s.queue| <= c.bufferSize
    && (if s.held.Some? then 1 else 0) == Count(s.stages, Dispatcher)
  }

  /** The dispatcher has taken the event from the channel. */
  predicate Dispatched(stage: Stage) {
    PlaceOf(stage) in {Dispatcher, Worker, Finished}
  }

  /** An event is in the buffer, in the history of the dispatcher or held by it exactly when its stage says so. */
  ghost predicate InPlace(s: State, event: nat) {
    && (event in s.queue <==> event < |s.stages| && s.stages[event] == Queued)
    && (event in s.received <==> event < |s.stages| && Dispatched(s.stages[event]))
    && (s.held == Some(event) <==> event < |s.stages| && s.stages[event] == Held)
  }

  /** The channel passes events on in the order of sending, each once. */
  ghost predicate OrderInv(s: State) {
    s.sent == s.received + s.queue && NoDuplicates(s.sent)
  }

  ghost predicate ChannelInv(s: State) {
    OrderInv(s) && forall event: nat :: InPlace(s, event)
  }

  lemma InitialInv(c: Config)
    ensures CountersInv(c, Initial(c)) && ChannelInv(Initial(c))
  {}

  lemma AllCountsMoved(s: State, event: nat, stage: Stage)
    requires event < |s.stages|
    ensures forall place :: Count(Moved(s, event, stage).stages, place) ==
              Count(s.stages, place) + (if PlaceOf(stage) == place then 1 else 0) - (if PlaceOf(s.stages[event]) == place then 1 else 0)
  {
    forall place
      ensures Count(Moved(s, event, stage).stages, place) ==
              Count(s.stages, place) + (if PlaceOf(stage) == place then 1 else 0) - (if PlaceOf(s.stages[event]) == place then 1 else 0)
    {
      CountMoved(s.stages, event, stage, place);
    }
  }

  /** The event a step moves, and where it goes. */
  function Target(c: Config, s: State, step: Step): Option<(nat, Stage)>
    requires Enabled(c, s, step)
  {
    match step
    case Emit(_) => None
    case Send(event) => Some((event, Queued))
    case HandOver(event) => Some((event, Held))
    case Overflow(event) => Some((event, if c.dropOnOverflow then GivenUp else Waiting))
    case TimeOut(event) => Some((event, GivenUp))
    case CountDrop(event) => Some((event, Dropped))
    case Receive => Some((s.queue[0], Held))
    case Assign => Some((s.held.value, Assigned))
    case Handle(event) => Some((event, Handling))
    case Finish(event) => Some((event, Done))
  }

  lemma EmitKeepsCounters(c: Config, s: State, timed: bool)
    requires CountersInv(c, s)
    ensures CountersInv(c, Apply(c, s, Emit(timed)))
  {
    var stage := if timed then Timed else Trying;
    CountIfSnoc(s.stages, x => x == Handling || x == Done, stage);
    forall place
      ensures Count(s.stages + [stage], place) == Count(s.stages, place) + (if place == Caller then 1 else 0)
    {
      CountIfSnoc(s.stages, x => PlaceOf(x) == place, stage);
    }
  }

  /** A move from one stage to another changes the counts of the two places only. */
  lemma MoveKeepsCounters(c: Config, s: State, step: Step, event: nat, stage: Stage)
    requires CountersInv(c, s) && Enabled(c, s, step) && !step.Emit? && Target(c, s, step) == Some((event, stage))
    requires event < |s.stages|
    requires (step.Receive? ==> s.stages[event] == Queued) && (step.Assign? ==> s.stages[event] == Held)
    ensures CountersInv(c, Apply(c, s, step))
  {
    AllCountsMoved(s, event, stage);
    BegunMoved(s.stages, event, stage);
  }

  lemma StepKeepsCounters(c: Config, s: State, step: Step)
    requires CountersInv(c, s) && ChannelInv(s) && Enabled(c, s, step)
    ensures CountersInv(c, Apply(c, s, step))
  {
    if step.Emit? {
      EmitKeepsCounters(c, s, step.timed);
    } else {
      MovedEventIsInPlace(c, s, step);
      var (event, stage) := Target(c, s, step).value;
      MoveKeepsCounters(c, s, step, event, stage);
    }
  }

  /** What the dispatcher receives is the next queued event, and what it assigns is held. */
  lemma MovedEventIsInPlace(c: Config, s: State, step: Step)
    requires ChannelInv(s) && Enabled(c, s, step) && !step.Emit?
    ensures var event := Target(c, s, step).value.0;
            event < |s.stages| && InPlace(s, event)
            && (step.Receive? ==> s.stages[event] == Queued) && (step.Assign? ==> s.stages[event] == Held)
  {
    var event := Target(c, s, step).value.0;
    assert InPlace(s, event);
    if step.Receive? {
      assert event in s.queue;
    }
  }

  lemma QueueHeadIsNotBehind(s: State)
    requires OrderInv(s) && s.queue != []
    ensures s.queue[0] !in s.queue[1..]
  {
    var n := |s.received|;
    forall i | 1 <= i < |s.queue|
      ensures s.queue[i] != s.queue[0]
    {
      assert s.sent[n] == s.queue[0] && s.sent[n + i] == s.queue[i];
    }
  }

  lemma SendKeepsOrder(s: State, event: nat)
    requires OrderInv(s) && event !in s.queue && event !in s.received
    ensures NoDuplicates(s.sent + [event])
  {
    ElementsSnoc(s.sent, event);
  }

  lemma StepKeepsOrder(c: Config, s: State, step: Step)
    requires ChannelInv(s) && Enabled(c, s, step)
    ensures OrderInv(Apply(c, s, step))
  {
    if step.Send? || step.HandOver? {
      assert InPlace(s, step.event);
      SendKeepsOrder(s, step.event);
    }
  }

  lemma ReceiveKeepsPlace(c: Config, s: State, event: nat)
    requires ChannelInv(s) && Enabled(c, s, Receive)
    ensures InPlace(Apply(c, s, Receive), event)
  {
    assert InPlace(s, event) && InPlace(s, s.queue[0]);
    QueueHeadIsNotBehind(s);
    assert s.queue == [s.queue[0]] + s.queue[1..];
  }

  lemma StepKeepsPlace(c: Config, s: State, step: Step, event: nat)
    requires ChannelInv(s) && Enabled(c, s, step)
    ensures InPlace(Apply(c, s, step), event)
  {
    if step.Receive? {
      ReceiveKeepsPlace(c, s, event);
    } else {
      assert InPlace(s, event);
      if step.Assign? {
        assert InPlace(s, s.held.value);
      }
    }
  }

  lemma StepKeepsChannel(c: Config, s: State, step: Step)
    requires ChannelInv(s) && Enabled(c, s, step)
    ensures ChannelInv(Apply(c, s, step))
  {
    StepKeepsOrder(c, s, step);
    forall event: nat
      ensures InPlace(Apply(c, s, step), event)
    {
      StepKeepsPlace(c, s, step, event);
    }
  }

  // ---------------------------------------------------------------- runs

  datatype Run = Run(states: seq<State>, steps: seq<Step>) {
    ghost predicate Valid(c: Config) {
      && |states| == |steps| + 1 && states[0] == Initial(c)
      && forall k | 0 <= k < |steps| :: StepAt(c, k)
    }

    ghost predicate StepAt(c: Config, k: int)
      requires 0 <= k < |steps| && |states| == |steps| + 1
    {
      Enabled(c, states[k], steps[k]) && states[k + 1] == Apply(c, states[k], steps[k])
    }
  }

  lemma {:induction false} RunInv(c: Config, run: Run, k: nat)
    requires run.Valid(c) && k < |run.states|
    ensures CountersInv(c, run.states[k]) && ChannelInv(run.states[k])
  {
    if k == 0 {
      InitialInv(c);
    } else {
      RunInv(c, run, k - 1);
      assert run.StepAt(c, k - 1);
      StepKeepsCounters(c, run.states[k - 1], run.steps[k - 1]);
      StepKeepsChannel(c, run.states[k - 1], run.steps[k - 1]);
    }
  }

  /** In every interleaving: no event is lost between the counters, the buffer is bounded, and every token is free or with a worker. */
  lemma EventsAreConserved(c: Config, run: Run, k: nat)
    requires run.Valid(c) && k < |run.states|
    ensures var s := run.states[k];
            && s.eventsEmitted == Count(s.stages, Caller) + s.eventsDropped + |s.queue| + (if s.held.Some? then 1 else 0)
                                  + Count(s.stages, Worker) + Count(s.stages, Finished)
            && Count(s.stages, Finished) <= s.eventsProcessed <= Count(s.stages, Worker) + Count(s.stages, Finished)
            && |s.queue| <= c.bufferSize
            && s.tokens + Count(s.stages, Worker) == c.maxWorkers
  {
    RunInv(c, run, k);
    PlacesPartitionEvents(run.states[k].stages);
    BegunBounds(run.states[k].stages);
  }

  lemma {:induction false} BegunBounds(stages: seq<Stage>)
    ensures Count(stages, Finished) <= Begun(stages) <= Count(stages, Worker) + Count(stages, Finished)
  {
    if stages != [] {
      BegunBounds(stages[..|stages| - 1]);
    }
  }

  /** The dispatcher takes events in the order in which they were sent, each once, and only what was sent. */
  lemma DispatchIsFirstInFirstOut(c: Config, run: Run, k: nat)
    requires run.Valid(c) && k < |run.states|
    ensures var s := run.states[k];
            && s.received <= s.sent && NoDuplicates(s.received)
            && (forall event: nat :: event in s.received <==> event < |s.stages| && Dispatched(s.stages[event]))
  {
    RunInv(c, run, k);
    var s := run.states[k];
    forall i, j | 0 <= i < j < |s.received|
      ensures s.received[i] != s.received[j]
    {
      assert s.sent[i] == s.received[i] && s.sent[j] == s.received[j];
    }
    assert forall event: nat | InPlace(s, event) :: event in s.received <==> event < |s.stages| && Dispatched(s.stages[event]);
  }

  // ---------------------------------------------------------------- who waits and who is dropped

  /** No event of the run was emitted with a timeout. */
  ghost predicate Untimed(run: Run) {
    forall m | 0 <= m < |run.steps| && run.steps[m].Emit? :: !run.steps[m].timed
  }

  /** The event has not been given up, nor can it be by a timeout. */
  predicate IsKept(stage: Stage) {
    !stage.Timed? && !stage.GivenUp? && !stage.Dropped?
  }

  ghost predicate AllKept(s: State) {
    forall event | 0 <= event < |s.stages| :: IsKept(s.stages[event])
  }

  /** Without dropping on overflow, no event that was emitted without a timeout is ever dropped: its caller waits. */
  lemma {:induction false} NothingIsDroppedUnasked(c: Config, run: Run, k: nat)
    requires run.Valid(c) && k < |run.states| && !c.dropOnOverflow && Untimed(run)
    ensures AllKept(run.states[k]) && run.states[k].eventsDropped == 0
  {
    if k > 0 {
      NothingIsDroppedUnasked(c, run, k - 1);
      RunInv(c, run, k - 1);
      assert run.StepAt(c, k - 1);
      StepKeeps(c, run.states[k - 1], run.steps[k - 1]);
    }
  }

  lemma StepKeeps(c: Config, s: State, step: Step)
    requires ChannelInv(s) && AllKept(s) && Enabled(c, s, step)
    requires (step.Emit? ==> !step.timed) && (step.Overflow? ==> !c.dropOnOverflow)
    ensures AllKept(Apply(c, s, step)) && Apply(c, s, step).eventsDropped == s.eventsDropped
  {
    if !step.Emit? {
      MovedEventIsInPlace(c, s, step);
    }
  }

  /** With it, no caller ever waits for space. */
  lemma {:induction false} NobodyWaitsWhenDropping(c: Config, run: Run, k: nat)
    requires run.Valid(c) && k < |run.states| && c.dropOnOverflow
    ensures forall event | 0 <= event < |run.states[k].stages| :: !run.states[k].stages[event].Waiting?
  {
    if k > 0 {
      NobodyWaitsWhenDropping(c, run, k - 1);
      RunInv(c, run, k - 1);
      assert run.StepAt(c, k - 1);
      StepLetsNobodyWait(c, run.states[k - 1], run.steps[k - 1]);
    }
  }

  lemma StepLetsNobodyWait(c: Config, s: State, step: Step)
    requires ChannelInv(s) && Enabled(c, s, step) && c.dropOnOverflow
    requires forall event | 0 <= event < |s.stages| :: !s.stages[event].Waiting?
    ensures forall event | 0 <= event < |Apply(c, s, step).stages| :: !Apply(c, s, step).stages[event].Waiting?
  {
    if !step.Emit? {
      MovedEventIsInPlace(c, s, step);
    }
  }

  /** Either way, as many events as the buffer holds are never dropped unless a timeout asks for it. */
  lemma {:induction false} WhatFitsIsNotDropped(c: Config, run: Run, k: nat)
    requires run.Valid(c) && k < |run.states| && Untimed(run) && run.states[k].eventsEmitted <= c.bufferSize
    ensures AllKept(run.states[k]) && run.states[k].eventsDropped == 0
  {
    if k > 0 {
      RunInv(c, run, k - 1);
      assert run.StepAt(c, k - 1);
      WhatFitsIsNotDropped(c, run, k - 1);
      if run.steps[k - 1].Overflow? {
        BufferHasSpace(run.states[k - 1], run.steps[k - 1].event);
      }
      StepKeeps(c, run.states[k - 1], run.steps[k - 1]);
    }
  }

  /** An event at its first attempt is not in the buffer. */
  lemma BufferHasSpace(s: State, event: nat)
    requires At(s, event, {Trying}) && |s.queue| == Count(s.stages, Buffer)
    ensures |s.queue| < |s.stages|
  {
    CountIfBounds(s.stages, stage => PlaceOf(stage) == Buffer);
  }

  lemma OneMoreStep(c: Config, run: Run, step: Step) returns (longer: Run)
    requires run.Valid(c) && Enabled(c, run.states[|run.steps|], step)
    ensures longer.Valid(c) && longer == Run(run.states + [Apply(c, run.states[|run.steps|], step)], run.steps + [step])
  {
    longer := Run(run.states + [Apply(c, run.states[|run.steps|], step)], run.steps + [step]);
    forall k | 0 <= k < |longer.steps|
      ensures longer.StepAt(c, k)
    {
      if k < |run.steps| {
        assert run.StepAt(c, k);
      }
    }
  }

  /** An event at its first attempt that meets a full buffer may be dropped at once, or else has to wait. */
  lemma FullBufferDropsOrMakesWait(c: Config, run: Run, event: nat) returns (longer: Run)
    requires run.Valid(c) && At(run.states[|run.steps|], event, {Trying}) && |run.states[|run.steps|].queue| == c.bufferSize
    ensures longer.Valid(c) && run.states <= longer.states && event < |longer.states[|longer.steps|].stages|
    ensures longer.states[|longer.steps|].stages[event] == if c.dropOnOverflow then Dropped else Waiting
    ensures longer.states[|longer.steps|].eventsDropped == run.states[|run.steps|].eventsDropped + (if c.dropOnOverflow then 1 else 0)
  {
    longer := OneMoreStep(c, run, Overflow(event));
    if c.dropOnOverflow {
      longer := OneMoreStep(c, longer, CountDrop(event));
    }
  }

  /** A timed event may be dropped, whatever the configuration. */
  lemma TimedEventCanBeDropped(c: Config) returns (run: Run)
    ensures run.Valid(c) && |run.steps| == 3 && run.steps[0] == Emit(true) && |run.states[|run.steps|].stages| == 1
    ensures run.states[|run.steps|].stages[0] == Dropped && run.states[|run.steps|].eventsDropped == 1
  {
    var s0 := Initial(c);
    var s1 := Apply(c, s0, Emit(true));
    var s2 := Apply(c, s1, TimeOut(0));
    var s3 := Apply(c, s2, CountDrop(0));
    run := Run([s0, s1, s2, s3], [Emit(true), TimeOut(0), CountDrop(0)]);
    assert run.StepAt(c, 0) && run.StepAt(c, 1) && run.StepAt(c, 2);
  }

  // ---------------------------------------------------------------- every event ends

  /** Some step of a worker, the dispatcher or a caller other than a new Emit can be taken. */
  ghost predicate CanProceed(c: Config, s: State) {
    exists step :: Enabled(c, s, step) && !step.Emit?
  }

  /** The event was handled to the end or counted as dropped. */
  predicate HasEnded(stage: Stage) {
    stage.Dropped? || stage.Done?
  }

  predicate AllEnded(s: State) {
    forall event | 0 <= event < |s.stages| :: HasEnded(s.stages[event])
  }

  lemma HeldCanProceed(c: Config, s: State)
    requires CountersInv(c, s) && ChannelInv(s) && s.held.Some? && c.maxWorkers > 0
    ensures CanProceed(c, s)
  {
    if s.tokens > 0 {
      assert InPlace(s, s.held.value);
      assert Enabled(c, s, Assign);
    } else {
      CountIfBounds(s.stages, x => PlaceOf(x) == Worker);
      var i :| 0 <= i < |s.stages| && PlaceOf(s.stages[i]) == Worker;
      if s.stages[i] == Assigned {
        assert Enabled(c, s, Handle(i));
      } else {
        assert Enabled(c, s, Finish(i));
      }
    }
  }

  /** With at least one worker the emitter is never stuck: an event that has not ended leaves some step to take. */
  lemma NeverStuck(c: Config, s: State, event: nat)
    requires CountersInv(c, s) && ChannelInv(s) && c.maxWorkers > 0
    requires event < |s.stages| && !HasEnded(s.stages[event])
    ensures CanProceed(c, s)
  {
    assert InPlace(s, event);
    if s.held.Some? {
      HeldCanProceed(c, s);
    } else if s.queue != [] {
      assert InPlace(s, s.queue[0]);
      assert Enabled(c, s, Receive);
    } else {
      match s.stages[event]
      case Trying | Waiting | Timed => assert Enabled(c, s, HandOver(event));
      case GivenUp => assert Enabled(c, s, CountDrop(event));
      case Assigned => assert Enabled(c, s, Handle(event));
      case Handling => assert Enabled(c, s, Finish(event));
      case _ =>
    }
  }

  /** The most steps an event can still take. */
  function StepsLeft(stage: Stage): nat {
    match stage
    case Trying => 6
    case Waiting | Timed => 5
    case Queued => 4
    case Held => 3
    case Assigned => 2
    case Handling | GivenUp => 1
    case Dropped | Done => 0
  }

  ghost function TotalLeft(stages: seq<Stage>): nat {
    SumBy(stages, StepsLeft)
  }

  /** Every step but a new Emit takes one event forward. */
  lemma StepsDecrease(c: Config, s: State, step: Step)
    requires ChannelInv(s) && Enabled(c, s, step) && !step.Emit?
    ensures TotalLeft(Apply(c, s, step).stages) < TotalLeft(s.stages)
  {
    MovedEventIsInPlace(c, s, step);
    var (event, stage) := Target(c, s, step).value;
    SumByUpdate(s.stages, StepsLeft, event, stage);
  }

  /** Nothing is emitted between the two states. */
  ghost predicate Quiet(run: Run, k: nat, l: nat) {
    l <= |run.steps| && forall m | k <= m < l :: !run.steps[m].Emit?
  }

  lemma {:induction false} QuietStepsAreBounded(c: Config, run: Run, k: nat, l: nat)
    requires run.Valid(c) && k <= l && Quiet(run, k, l)
    ensures l - k <= TotalLeft(run.states[k].stages) - TotalLeft(run.states[l].stages)
  {
    if k < l {
      QuietStepsAreBounded(c, run, k, l - 1);
      QuietStepDecreases(c, run, l - 1);
    }
  }

  lemma QuietStepDecreases(c: Config, run: Run, k: nat)
    requires run.Valid(c) && k < |run.steps| && !run.steps[k].Emit?
    ensures TotalLeft(run.states[k + 1].stages) < TotalLeft(run.states[k].stages)
  {
    RunInv(c, run, k);
    assert run.StepAt(c, k);
    StepsDecrease(c, run.states[k], run.steps[k]);
  }

  /** In every reachable state: nothing but a new Emit is possible exactly when every event has ended. */
  lemma RestsExactlyWhenAllEnded(c: Config, run: Run, k: nat)
    requires run.Valid(c) && k < |run.states| && c.maxWorkers > 0
    ensures !CanProceed(c, run.states[k]) <==> AllEnded(run.states[k])
  {
    var s := run.states[k];
    RunInv(c, run, k);
    if !AllEnded(s) {
      var event :| 0 <= event < |s.stages| && !HasEnded(s.stages[event]);
      NeverStuck(c, s, event);
    } else if CanProceed(c, s) {
      var step :| Enabled(c, s, step) && !step.Emit?;
      MovedEventIsInPlace(c, s, step);
    }
  }

  /**
   Every event ends: without new events at most six steps per emitted event are taken in any interleaving,
   and when none is left each event was handled to the end or counted as dropped.
   */
  lemma EveryEventEnds(c: Config, run: Run, k: nat, l: nat)
    requires run.Valid(c) && k <= l && Quiet(run, k, l) && c.maxWorkers > 0
    ensures l - k <= 6 * run.states[k].eventsEmitted
    ensures !CanProceed(c, run.states[l]) ==> AllEnded(run.states[l]) && run.states[l].eventsEmitted == Count(run.states[l].stages, Finished) + run.states[l].eventsDropped
  {
    QuietStepsAreBounded(c, run, k, l);
    SumByIsBounded(run.states[k].stages, StepsLeft, 6);
    RunInv(c, run, k);
    RunInv(c, run, l);
    var s := run.states[l];
    if !CanProceed(c, s) {
      RestsExactlyWhenAllEnded(c, run, l);
      EventsAreConserved(c, run, l);
      AtRest(s.stages, Caller);
      AtRest(s.stages, Worker);
      AtRest(s.stages, Buffer);
      AtRest(s.stages, Dispatcher);
    }
  }

  lemma AtRest(stages: seq<Stage>, place: Place)
    requires (forall event | 0 <= event < |stages| :: HasEnded(stages[event])) && place !in {Lost, Finished}
    ensures Count(stages, place) == 0
  {
    CountIfBounds(stages, x => PlaceOf(x) == place);
  }
}
