/**
 When Level 2 runs. Stream messages (delivered by the consumer or claimed back by its health check)
 start an aggregation window per epoch; the window's timer then aggregates the epoch, writes the
 aggregated record, deletes the source batches and removes the timer from the map. Every Redis
 command and every section under the lock is one step; message processors and timers interleave.
 Epoch ids stand for their canonical strings.
 */
module AggregationWindows {
  import opened Sequences

  type Epoch = nat
  /** A Redis key of a source batch: the epoch and the validator it came from; under its own id, the node's local batch. */
  type Source = (Epoch, string)

  /** Where the goroutine of an aggregation window stands. */
  datatype Progress =
    | Armed                         // the timer is running
    | Started                       // fired; about to check for an aggregated record
    | Unaggregated                  // found none; about to read the own batch
    | OwnRead(found: bool)          // has read it; about to list the validators that sent one
    | Reading(keys: set<Source>, todo: set<Source>, read: set<Source>) // reads one key after the other
    | Written(keys: set<Source>)    // the record is stored; about to delete the keys
    | Leaving                       // about to remove the timer
    | Ended

  datatype Window = Window(epoch: Epoch, progress: Progress)

  /** A goroutine that handles stream messages: idle, or past the check that the epoch has no record. */
  datatype Processor = Idle | Passed(epoch: Epoch)

  datatype State = State(
    self: string,                       // the node's own id
    processors: seq<Processor>,
    timers: map<Epoch, nat>,            // epochTimers: the window of each epoch that has one
    windows: seq<Window>,               // every window ever started
    sources: set<Source>,               // source batches in Redis
    records: map<Epoch, set<Source>>,   // aggregated records, with the sources they were built from
    writes: seq<Epoch>,                 // every successful write of a record (history)
    arrived: set<Source>,               // every source key ever stored (history)
    deleted: set<Source>,               // every source deleted by an aggregation (history)
    late: set<Source>                   // every source stored after an aggregation had found nothing under its key (history)
  )

  /** The key of the node's own batch of an epoch. */
  function Own(s: State, epoch: Epoch): Source {
    (epoch, s.self)
  }

  ghost predicate Init(s: State) {
    && (forall p | p in s.processors :: p.Idle?)
    && s.timers == map[] && s.windows == [] && s.sources == {} && s.records == map[] && s.writes == [] && s.arrived == s.deleted == s.late == {}
  }

  datatype Step =
    | Arrive(source: Source)                     // a batch is stored
    | CheckMessage(processor: nat, epoch: Epoch) // a message of an epoch without record
    | StartWindow(processor: nat)                // start the window unless there is one
    | Fire(window: nat)
    | CheckRecord(window: nat)
    | GiveUp(window: nat)                        // the check or the write failed
    | ReadOwn(window: nat)
    | List(window: nat, keys: set<Source>)       // the keys of the other validators in the epoch's set
    | Read(window: nat, key: Source)
    | Write(window: nat)
    | Delete(window: nat)
    | KeepSources(window: nat)                   // the deletion failed
    | RemoveTimer(window: nat)

  ghost predicate At(s: State, i: nat, p: Progress) {
    i < |s.windows| && s.windows[i].progress == p
  }

  /**
   A validator is added to the set of an epoch only after its batch was stored; the node's own id is skipped.
   The set may be read before others are added, or reading it may fail, and then no key is listed.
   */
  ghost predicate Listable(s: State, epoch: Epoch, keys: set<Source>) {
    keys <= s.arrived && forall k | k in keys :: k.0 == epoch && k.1 != s.self
  }

  ghost predicate Enabled(s: State, step: Step) {
    match step
    case Arrive(_) => true
    case CheckMessage(p, epoch) => p < |s.processors| && s.processors[p].Idle? && epoch !in s.records
    case StartWindow(p) => p < |s.processors| && s.processors[p].Passed?
    case Fire(i) => At(s, i, Armed)
    case CheckRecord(i) => At(s, i, Started)
    case GiveUp(i) => At(s, i, Started) || (i < |s.windows| && s.windows[i].progress.Reading? && s.windows[i].progress.todo == {})
    case ReadOwn(i) => At(s, i, Unaggregated)
    case List(i, keys) => i < |s.windows| && s.windows[i].progress.OwnRead? && Listable(s, s.windows[i].epoch, keys)
    case Read(i, key) => i < |s.windows| && s.windows[i].progress.Reading? && key in s.windows[i].progress.todo
    case Write(i) => i < |s.windows| && s.windows[i].progress.Reading? && s.windows[i].progress.todo == {}
    case Delete(i) => i < |s.windows| && s.windows[i].progress.Written?
    case KeepSources(i) => i < |s.windows| && s.windows[i].progress.Written?
    case RemoveTimer(i) => At(s, i, Leaving)
  }

  function Advance(s: State, i: nat, p: Progress): State
    requires i < |s.windows|
  {
    s.(windows := s.windows[i := s.windows[i].(progress := p)])
  }

  /** An aggregation has looked at the key, found nothing, and may still delete the key. */
  ghost predicate MissedBy(s: State, i: nat, source: Source)
    requires i < |s.windows|
  {
    var Window(epoch, progress) := s.windows[i];
    || (progress.OwnRead? && source == Own(s, epoch) && !progress.found)
    || (progress.Reading? && source in progress.keys && source !in progress.todo && source !in progress.read)
    || (progress.Written? && source in progress.keys && !Recorded(s, source))
  }

  ghost predicate Missed(s: State, source: Source) {
    exists i: nat :: i < |s.windows| && MissedBy(s, i, source)
  }

  /** The record of the source's epoch was built from it. */
  predicate Recorded(s: State, source: Source) {
    source.0 in s.records && source in s.records[source.0]
  }

  ghost function Apply(s: State, step: Step): State
    requires Enabled(s, step)
  {
    match step
    case Arrive(source) =>
      s.(sources := s.sources + {source}, arrived := s.arrived + {source}, late := if Missed(s, source) then s.late + {source} else s.late)
    case CheckMessage(p, epoch) => s.(processors := s.processors[p := Passed(epoch)])
    case StartWindow(p) =>
      var epoch := s.processors[p].epoch;
      var s1 := s.(processors := s.processors[p := Idle]);
      if epoch in s.timers then s1
      else s1.(timers := s.timers[epoch := |s.windows|], windows := s.windows + [Window(epoch, Armed)])
    case Fire(i) => Advance(s, i, Started)
    case CheckRecord(i) => Advance(s, i, if s.windows[i].epoch in s.records then Leaving else Unaggregated)
    case GiveUp(i) => Advance(s, i, Leaving)
    case ReadOwn(i) => Advance(s, i, OwnRead(Own(s, s.windows[i].epoch) in s.sources))
    case List(i, keys) =>
      var Window(epoch, progress) := s.windows[i];
      Advance(s, i, Reading(keys + {Own(s, epoch)}, keys, if progress.found then {Own(s, epoch)} else {}))
    case Read(i, key) =>
      var Reading(keys, todo, read) := s.windows[i].progress;
      Advance(s, i, Reading(keys, todo - {key}, if key in s.sources then read + {key} else read))
    case Write(i) =>
      var Window(epoch, progress) := s.windows[i];
      Advance(s, i, Written(progress.keys)).(records := s.records[epoch := progress.read], writes := s.writes + [epoch])
    case Delete(i) =>
      var keys := s.windows[i].progress.keys;
      Advance(s, i, Leaving).(sources := s.sources - keys, deleted := s.deleted + s.sources * keys)
    case KeepSources(i) => Advance(s, i, Leaving)
    case RemoveTimer(i) => Advance(s, i, Ended).(timers := s.timers - {s.windows[i].epoch})
  }

  ghost predicate Next(s: State, s': State) {
    exists step :: Enabled(s, step) && s' == Apply(s, step)
  }

  ghost predicate StepAt(run: seq<State>, k: int)
    requires 0 < k < |run|
  {
    Next(run[k - 1], run[k])
  }

  ghost predicate IsRun(run: seq<State>) {
    && |run| > 0 && Init(run[0])
    && forall k | 0 < k < |run| :: StepAt(run, k)
  }

  // ---------------------------------------------------------------- invariant

  /** A window has not yet removed its timer. */
  predicate Live(w: Window) {
    !w.progress.Ended?
  }

  /** Among the keys of other validators, an aggregation has found a batch under each that it has read. */
  ghost predicate OthersFound(s: State, i: nat)
    requires i < |s.windows|
  {
    var progress := s.windows[i].progress;
    && (progress.Reading? ==> forall k | k in progress.keys && k.1 != s.self :: k in s.arrived && (k in progress.todo || k in progress.read))
    && (progress.Written? ==> forall k | k in progress.keys && k.1 != s.self :: Recorded(s, k))
  }

  /** The timer map knows exactly the live windows, and a window past its check is alone with its epoch. */
  ghost predicate WindowInv(s: State, i: nat)
    requires i < |s.windows|
  {
    var Window(epoch, progress) := s.windows[i];
    && (Live(s.windows[i]) <==> epoch in s.timers && s.timers[epoch] == i)
    && (progress.Unaggregated? || progress.OwnRead? || progress.Reading? ==> epoch !in s.records)
    && (progress.Reading? ==> progress.todo <= progress.keys)
    && (progress.Reading? || progress.Written? ==> forall k | k in progress.keys :: k.0 == epoch)
    && (progress.Written? ==> epoch in s.records)
  }

  /** What a window reads had arrived, and what it writes it may delete, the own batch included. */
  ghost predicate KeysInv(s: State, i: nat)
    requires i < |s.windows|
  {
    var Window(epoch, progress) := s.windows[i];
    && (progress.OwnRead? && progress.found ==> Own(s, epoch) in s.arrived)
    && (progress.Reading? ==> progress.read <= s.arrived && progress.read <= progress.keys && Own(s, epoch) in progress.keys)
    && (progress.Written? ==> epoch in s.records && s.records[epoch] <= progress.keys && Own(s, epoch) in progress.keys)
  }

  /** The source is in its epoch's record, or in Redis where no aggregation has passed it over. */
  ghost predicate Safe(s: State, source: Source) {
    Recorded(s, source) || (source in s.sources && !Missed(s, source))
  }

  /** The record was built from batches that were stored for its epoch. */
  ghost predicate BuiltFromArrived(s: State, epoch: Epoch)
    requires epoch in s.records
  {
    forall k | k in s.records[epoch] :: k in s.arrived && k.0 == epoch
  }

  ghost predicate AllWindows(s: State) {
    forall i: nat | i < |s.windows| :: WindowInv(s, i)
  }

  ghost predicate AllFound(s: State) {
    forall i: nat | i < |s.windows| :: OthersFound(s, i)
  }

  ghost predicate AllKeys(s: State) {
    forall i: nat | i < |s.windows| :: KeysInv(s, i)
  }

  /** What was stored is there unless it was deleted, and only epochs with a record have lost anything. */
  ghost predicate SourcesInv(s: State) {
    && (forall k | k in s.deleted :: k.0 in s.records)
    && s.sources <= s.arrived && s.deleted <= s.arrived && s.arrived <= s.sources + s.deleted
  }

  ghost predicate WritesInv(s: State) {
    NoDuplicates(s.writes) && (forall epoch :: epoch in s.writes <==> epoch in s.records)
  }

  ghost predicate TimersInv(s: State) {
    forall epoch | epoch in s.timers :: s.timers[epoch] < |s.windows| && s.windows[s.timers[epoch]].epoch == epoch
  }

  ghost predicate AllBuilt(s: State) {
    forall epoch | epoch in s.records :: BuiltFromArrived(s, epoch)
  }

  /** Only what came late can be lost, and that is the node's own. */
  ghost predicate LossInv(s: State) {
    && (forall k | k in s.deleted :: Recorded(s, k) || k in s.late)
    && (forall k | k in s.arrived && k !in s.late :: Safe(s, k))
    && (forall k | k in s.late :: k.1 == s.self)
  }

  ghost predicate Inv(s: State) {
    && AllWindows(s) && AllFound(s) && AllKeys(s) && SourcesInv(s)
    && WritesInv(s) && TimersInv(s) && AllBuilt(s) && LossInv(s)
  }

  /** What a step does to the window it moves ... */
  lemma MovedWindowStep(s: State, step: Step)
    requires AllWindows(s) && Enabled(s, step) && !(step.Arrive? || step.CheckMessage? || step.StartWindow?)
    ensures step.window < |s.windows| && WindowInv(Apply(s, step), step.window)
  {
    assert WindowInv(s, step.window);
  }

  /** ... to every other ... */
  lemma OtherWindowStep(s: State, step: Step, j: nat)
    requires AllWindows(s) && Enabled(s, step) && !(step.Arrive? || step.CheckMessage? || step.StartWindow?)
    requires j < |s.windows| && j != step.window
    ensures WindowInv(Apply(s, step), j)
  {
    assert WindowInv(s, j) && WindowInv(s, step.window);
  }

  /** ... and to any. */
  lemma WindowStep(s: State, step: Step, j: nat)
    requires AllWindows(s) && Enabled(s, step) && j < |Apply(s, step).windows|
    ensures WindowInv(Apply(s, step), j)
  {
    if step.Arrive? || step.CheckMessage? || step.StartWindow? {
      assert j < |s.windows| ==> WindowInv(s, j);
    } else if j == step.window {
      MovedWindowStep(s, step);
    } else {
      OtherWindowStep(s, step, j);
    }
  }

  /** While an epoch has no record, what another validator stored for it is there to be read. */
  lemma FoundStep(s: State, step: Step, j: nat)
    requires AllWindows(s) && AllFound(s) && SourcesInv(s) && Enabled(s, step) && j < |Apply(s, step).windows|
    ensures OthersFound(Apply(s, step), j)
  {
    if step.Write? {
      FoundWriteStep(s, step.window, j);
    } else if step.Read? {
      FoundReadStep(s, step.window, step.key, j);
    } else if j < |s.windows| {
      assert OthersFound(s, j) && WindowInv(s, j);
    }
  }

  lemma FoundReadStep(s: State, i: nat, key: Source, j: nat)
    requires AllWindows(s) && AllFound(s) && SourcesInv(s) && Enabled(s, Read(i, key)) && j < |s.windows|
    ensures OthersFound(Apply(s, Read(i, key)), j)
  {
    assert OthersFound(s, j) && WindowInv(s, i);
  }

  lemma FoundWriteStep(s: State, i: nat, j: nat)
    requires AllWindows(s) && AllFound(s) && SourcesInv(s) && Enabled(s, Write(i)) && j < |s.windows|
    ensures OthersFound(Apply(s, Write(i)), j)
  {
    assert OthersFound(s, j) && WindowInv(s, j) && WindowInv(s, i);
  }

  lemma RecordsStep(s: State, step: Step)
    requires AllWindows(s) && SourcesInv(s) && WritesInv(s) && Enabled(s, step)
    ensures WritesInv(Apply(s, step)) && SourcesInv(Apply(s, step))
  {
    if step.Write? || step.Delete? {
      assert WindowInv(s, step.window);
    }
  }

  /** No window writes an epoch's record again ... */
  lemma RecordStays(s: State, step: Step, epoch: Epoch)
    requires AllWindows(s) && Enabled(s, step) && epoch in s.records
    ensures var s' := Apply(s, step); epoch in s'.records && s'.records[epoch] == s.records[epoch]
  {
    if step.Write? {
      assert WindowInv(s, step.window);
    }
  }

  /** ... so what is in it stays there. */
  lemma RecordedStays(s: State, step: Step, source: Source)
    requires AllWindows(s) && Enabled(s, step) && Recorded(s, source)
    ensures Recorded(Apply(s, step), source)
  {
    RecordStays(s, step, source.0);
  }

  /** A step makes no window pass over a source that is there and was not passed over before. */
  lemma NotMissedStays(s: State, step: Step, source: Source, j: nat)
    requires AllWindows(s) && Enabled(s, step) && source in s.sources && !Missed(s, source)
    requires j < |Apply(s, step).windows|
    ensures !MissedBy(Apply(s, step), j, source)
  {
    if step.Write? {
      NotMissedByWrite(s, step.window, source, j);
    } else if j < |s.windows| {
      assert !MissedBy(s, j, source) && WindowInv(s, j);
    }
  }

  lemma NotMissedByWrite(s: State, i: nat, source: Source, j: nat)
    requires AllWindows(s) && Enabled(s, Write(i)) && source in s.sources && !Missed(s, source) && j < |s.windows|
    ensures !MissedBy(Apply(s, Write(i)), j, source)
  {
    assert !MissedBy(s, j, source) && WindowInv(s, j) && WindowInv(s, i);
  }

  /** A source that is there is deleted only with a record that was built from it, unless it was passed over. */
  lemma SafeStays(s: State, step: Step, source: Source)
    requires AllWindows(s) && Enabled(s, step) && Safe(s, source)
    ensures Safe(Apply(s, step), source)
  {
    if Recorded(s, source) {
      RecordedStays(s, step, source);
    } else {
      forall j: nat | j < |Apply(s, step).windows|
        ensures !MissedBy(Apply(s, step), j, source)
      {
        NotMissedStays(s, step, source, j);
      }
      if step.Delete? {
        assert !MissedBy(s, step.window, source);
      }
    }
  }

  /** A source stored where no aggregation has passed its key over is safe. */
  lemma ArrivalIsSafe(s: State, source: Source)
    requires !Missed(s, source)
    ensures Safe(Apply(s, Arrive(source)), source)
  {
    var s' := Apply(s, Arrive(source));
    forall j: nat | j < |s'.windows|
      ensures !MissedBy(s', j, source)
    {
      assert !MissedBy(s, j, source);
    }
  }

  lemma SourcesStep(s: State, step: Step, k: Source)
    requires Inv(s) && Enabled(s, step) && k in Apply(s, step).arrived && k !in Apply(s, step).late
    ensures Safe(Apply(s, step), k)
  {
    if k in s.arrived {
      SafeStays(s, step, k);
    } else {
      assert step == Arrive(k);
      ArrivalIsSafe(s, k);
    }
  }

  lemma DeletedStep(s: State, step: Step, k: Source)
    requires Inv(s) && Enabled(s, step) && k in Apply(s, step).deleted
    ensures Recorded(Apply(s, step), k) || k in Apply(s, step).late
  {
    if Recorded(s, k) {
      RecordedStays(s, step, k);
    } else if k !in s.deleted {
      assert MissedBy(s, step.window, k);
    }
  }

  lemma WindowsStep(s: State, step: Step)
    requires AllWindows(s) && Enabled(s, step)
    ensures AllWindows(Apply(s, step))
  {
    forall j: nat | j < |Apply(s, step).windows|
      ensures WindowInv(Apply(s, step), j)
    {
      WindowStep(s, step, j);
    }
  }

  lemma AllFoundStep(s: State, step: Step)
    requires AllWindows(s) && AllFound(s) && SourcesInv(s) && Enabled(s, step)
    ensures AllFound(Apply(s, step))
  {
    forall j: nat | j < |Apply(s, step).windows|
      ensures OthersFound(Apply(s, step), j)
    {
      FoundStep(s, step, j);
    }
  }

  lemma AllDeletedStep(s: State, step: Step)
    requires Inv(s) && Enabled(s, step)
    ensures forall k | k in Apply(s, step).deleted :: Recorded(Apply(s, step), k) || k in Apply(s, step).late
  {
    forall k | k in Apply(s, step).deleted
      ensures Recorded(Apply(s, step), k) || k in Apply(s, step).late
    {
      DeletedStep(s, step, k);
    }
  }

  lemma AllSourcesStep(s: State, step: Step)
    requires Inv(s) && Enabled(s, step)
    ensures forall k | k in Apply(s, step).arrived && k !in Apply(s, step).late :: Safe(Apply(s, step), k)
  {
    forall k | k in Apply(s, step).arrived && k !in Apply(s, step).late
      ensures Safe(Apply(s, step), k)
    {
      SourcesStep(s, step, k);
    }
  }

  /** Only the node's own batch can be passed over. */
  lemma MissedIsOwn(s: State, source: Source)
    requires AllWindows(s) && AllFound(s) && Missed(s, source)
    ensures source.1 == s.self
  {
    var i: nat :| i < |s.windows| && MissedBy(s, i, source);
    assert OthersFound(s, i) && WindowInv(s, i);
  }

  lemma LateStep(s: State, step: Step)
    requires Inv(s) && Enabled(s, step)
    ensures forall k | k in Apply(s, step).late :: k.1 == Apply(s, step).self
  {
    if step.Arrive? && Missed(s, step.source) {
      MissedIsOwn(s, step.source);
    }
  }

  lemma TimersStep(s: State, step: Step)
    requires AllWindows(s) && TimersInv(s) && Enabled(s, step)
    ensures TimersInv(Apply(s, step))
  {
  }

  lemma KeysStep(s: State, step: Step, j: nat)
    requires AllWindows(s) && AllKeys(s) && SourcesInv(s) && Enabled(s, step) && j < |Apply(s, step).windows|
    ensures KeysInv(Apply(s, step), j)
  {
    if j < |s.windows| {
      assert KeysInv(s, j) && WindowInv(s, j);
      if step.Write? {
        assert WindowInv(s, step.window);
      }
    }
  }

  lemma AllKeysStep(s: State, step: Step)
    requires AllWindows(s) && AllKeys(s) && SourcesInv(s) && Enabled(s, step)
    ensures AllKeys(Apply(s, step))
  {
    forall j: nat | j < |Apply(s, step).windows|
      ensures KeysInv(Apply(s, step), j)
    {
      KeysStep(s, step, j);
    }
  }

  lemma BuiltStep(s: State, step: Step)
    requires AllWindows(s) && AllKeys(s) && AllBuilt(s) && Enabled(s, step)
    ensures AllBuilt(Apply(s, step))
  {
    forall epoch | epoch in Apply(s, step).records
      ensures BuiltFromArrived(Apply(s, step), epoch)
    {
      if step.Write? {
        assert WindowInv(s, step.window) && KeysInv(s, step.window);
      }
      if epoch in s.records {
        assert BuiltFromArrived(s, epoch);
      }
    }
  }

  lemma NextInv(s: State, s': State)
    requires Inv(s) && Next(s, s')
    ensures Inv(s')
  {
    var step :| Enabled(s, step) && s' == Apply(s, step);
    WindowsStep(s, step);
    AllFoundStep(s, step);
    TimersStep(s, step);
    RecordsStep(s, step);
    AllDeletedStep(s, step);
    AllSourcesStep(s, step);
    LateStep(s, step);
    BuiltStep(s, step);
    AllKeysStep(s, step);
  }

  lemma {:induction false} RunInv(run: seq<State>, k: nat)
    requires IsRun(run) && k < |run|
    ensures Inv(run[k])
  {
    if k > 0 {
      RunInv(run, k - 1);
      assert StepAt(run, k);
      NextInv(run[k - 1], run[k]);
    }
  }

  // ---------------------------------------------------------------- what holds in every interleaving

  /** At most one window per epoch is live at any time, and the timer map names it. */
  lemma OneLiveWindowPerEpoch(run: seq<State>, k: nat, i: nat, j: nat)
    requires IsRun(run) && k < |run| && i < |run[k].windows| && j < |run[k].windows|
    requires Live(run[k].windows[i]) && Live(run[k].windows[j]) && run[k].windows[i].epoch == run[k].windows[j].epoch
    ensures i == j && run[k].windows[i].epoch in run[k].timers && run[k].timers[run[k].windows[i].epoch] == i
  {
    RunInv(run, k);
    assert WindowInv(run[k], i) && WindowInv(run[k], j);
  }

  /** The aggregated record of an epoch is written at most once ... */
  lemma WrittenAtMostOnce(run: seq<State>, k: nat)
    requires IsRun(run) && k < |run|
    ensures NoDuplicates(run[k].writes)
    ensures forall epoch :: epoch in run[k].writes <==> epoch in run[k].records
  {
    RunInv(run, k);
  }

  /** ... so that once there it never changes. */
  lemma {:induction false} RecordsAreFinal(run: seq<State>, k: nat, l: nat, epoch: Epoch)
    requires IsRun(run) && k <= l < |run| && epoch in run[k].records
    ensures epoch in run[l].records && run[l].records[epoch] == run[k].records[epoch]
  {
    if k < l {
      RecordsAreFinal(run, k, l - 1, epoch);
      RunInv(run, l - 1);
      assert StepAt(run, l);
      var step :| Enabled(run[l - 1], step) && run[l] == Apply(run[l - 1], step);
      RecordStays(run[l - 1], step, epoch);
    }
  }

  /** A source is deleted only after the record of its epoch was written, which was built from it unless it came late. */
  lemma DeletedOnlyAfterTheWrite(run: seq<State>, k: nat, source: Source)
    requires IsRun(run) && k < |run| && source in run[k].deleted
    ensures source.0 in run[k].writes && source.0 in run[k].records
    ensures Recorded(run[k], source) || source in run[k].late
  {
    RunInv(run, k);
  }

  /** Every handler of a message that found no record of the epoch has gone on. */
  ghost predicate NonePassed(s: State, epoch: Epoch) {
    forall p | p in s.processors :: p != Passed(epoch)
  }

  /** From then on no window is started for an epoch that has its record, however many messages come. */
  lemma {:induction false} NoWindowAfterTheRecord(run: seq<State>, k: nat, l: nat, epoch: Epoch)
    requires IsRun(run) && k <= l < |run| && epoch in run[k].records && NonePassed(run[k], epoch)
    ensures |run[k].windows| <= |run[l].windows| && NonePassed(run[l], epoch)
    ensures forall i | |run[k].windows| <= i < |run[l].windows| :: run[l].windows[i].epoch != epoch
  {
    if k < l {
      NoWindowAfterTheRecord(run, k, l - 1, epoch);
      RecordsAreFinal(run, k, l - 1, epoch);
      assert StepAt(run, l);
      var step :| Enabled(run[l - 1], step) && run[l] == Apply(run[l - 1], step);
      NoNewWindow(run[l - 1], step, |run[k].windows|, epoch);
    }
  }

  lemma NoNewWindow(s: State, step: Step, n: nat, epoch: Epoch)
    requires Enabled(s, step) && epoch in s.records && NonePassed(s, epoch) && n <= |s.windows|
    requires forall i | n <= i < |s.windows| :: s.windows[i].epoch != epoch
    ensures |s.windows| <= |Apply(s, step).windows| && NonePassed(Apply(s, step), epoch)
    ensures forall i | n <= i < |Apply(s, step).windows| :: Apply(s, step).windows[i].epoch != epoch
  {
    if step.StartWindow? || step.CheckMessage? {
      assert s.processors[step.processor] in s.processors;
      assert forall p | p in Apply(s, step).processors :: p in s.processors || p == Apply(s, step).processors[step.processor];
    }
  }

  /** An aggregated record is built only from batches that were stored for its epoch. */
  lemma RecordsAreBuiltFromArrivals(run: seq<State>, k: nat, epoch: Epoch)
    requires IsRun(run) && k < |run| && epoch in run[k].records
    ensures forall source | source in run[k].records[epoch] :: source in run[k].arrived && source.0 == epoch
  {
    RunInv(run, k);
    assert BuiltFromArrived(run[k], epoch);
  }

  /** A successful deletion leaves no batch that the record was built from, nor one of the node's own; every batch of another epoch stays. */
  lemma DeletionCleansUp(run: seq<State>, k: nat, i: nat)
    requires IsRun(run) && k < |run| && Enabled(run[k], Delete(i))
    ensures var epoch, after := run[k].windows[i].epoch, Apply(run[k], Delete(i));
            && epoch in after.records && after.records[epoch] !! after.sources && (epoch, after.self) !in after.sources
            && forall source | source in run[k].sources && source !in after.sources :: source.0 == epoch
  {
    RunInv(run, k);
    assert WindowInv(run[k], i) && KeysInv(run[k], i);
  }

  /** A source that never arrived at a key an aggregation had passed over is still there or in its epoch's record. */
  lemma NoSourceIsLostInTime(run: seq<State>, k: nat, source: Source)
    requires IsRun(run) && k < |run| && source in run[k].arrived && source !in run[k].late
    ensures source in run[k].sources || Recorded(run[k], source)
  {
    RunInv(run, k);
  }

  /** What another validator sent is never lost, whenever it arrives. */
  lemma NoIncomingSourceIsLost(run: seq<State>, k: nat, source: Source)
    requires IsRun(run) && k < |run| && source in run[k].arrived && source.1 != run[k].self
    ensures source in run[k].sources || Recorded(run[k], source)
  {
    RunInv(run, k);
  }

  // ---------------------------------------------------------------- exactly when a source can be lost

  /** The source is neither in Redis nor in the record of its epoch. */
  ghost predicate Lost(s: State, source: Source) {
    source !in s.sources && !Recorded(s, source)
  }

  /** longer is the run, the arrival of the source, and any further steps. */
  ghost predicate ContinuesAfterArrival(run: seq<State>, source: Source, longer: seq<State>)
    requires |run| > 0
  {
    IsRun(longer) && run + [Apply(run[|run| - 1], Arrive(source))] <= longer
  }

  /** A source stored now may end up lost. */
  ghost predicate CanBeLost(run: seq<State>, source: Source)
    requires |run| > 0
  {
    exists longer :: ContinuesAfterArrival(run, source, longer) && Lost(longer[|longer| - 1], source)
  }

  lemma Then(run: seq<State>, step: Step) returns (longer: seq<State>)
    requires IsRun(run) && Enabled(run[|run| - 1], step)
    ensures IsRun(longer) && longer == run + [Apply(run[|run| - 1], step)]
  {
    longer := run + [Apply(run[|run| - 1], step)];
    forall k | 0 < k < |longer|
      ensures StepAt(longer, k)
    {
      if k < |run| {
        assert StepAt(run, k);
      }
    }
  }

  lemma {:induction false} SafeForever(run: seq<State>, k: nat, l: nat, source: Source)
    requires IsRun(run) && k <= l < |run| && Safe(run[k], source)
    ensures Safe(run[l], source)
  {
    if k < l {
      SafeForever(run, k, l - 1, source);
      RunInv(run, l - 1);
      assert StepAt(run, l);
      var step :| Enabled(run[l - 1], step) && run[l] == Apply(run[l - 1], step);
      SafeStays(run[l - 1], step, source);
    }
  }

  /** The aggregation i has passed over the source. */
  ghost predicate PassedOver(s: State, i: nat, source: Source) {
    i < |s.windows| && MissedBy(s, i, source)
  }

  /** How many commands the aggregation still has before the write. */
  ghost function Unread(s: State, i: nat): nat
    requires i < |s.windows|
  {
    match s.windows[i].progress
    case OwnRead(_) => 2
    case Reading(_, todo, _) => 1 + |todo|
    case _ => 0
  }

  /** The next command of an aggregation that has not written yet leaves the source passed over. */
  lemma ReadingGoesOn(s: State, i: nat, source: Source) returns (step: Step)
    requires AllWindows(s) && PassedOver(s, i, source) && !s.windows[i].progress.Written?
    ensures Enabled(s, step) && PassedOver(Apply(s, step), i, source)
    ensures Unread(Apply(s, step), i) < Unread(s, i)
  {
    assert WindowInv(s, i);
    match s.windows[i].progress
    case OwnRead(_) =>
      step := List(i, {});
    case Reading(_, todo, _) =>
      if todo == {} {
        step := Write(i);
      } else {
        var key :| key in todo;
        step := Read(i, key);
        assert |todo - {key}| < |todo|;
      }
  }

  /** An aggregation that reads on, then writes and deletes, loses a source that it has passed over. */
  lemma {:induction false} FinishingLoses(run: seq<State>, i: nat, source: Source) returns (longer: seq<State>)
    requires IsRun(run) && PassedOver(run[|run| - 1], i, source)
    ensures IsRun(longer) && run <= longer && Lost(longer[|longer| - 1], source)
    decreases Unread(run[|run| - 1], i)
  {
    var s := run[|run| - 1];
    RunInv(run, |run| - 1);
    if s.windows[i].progress.Written? {
      longer := Then(run, Delete(i));
    } else {
      var step := ReadingGoesOn(s, i, source);
      var further := Then(run, step);
      longer := FinishingLoses(further, i, source);
    }
  }

  /**
   From every reachable state: a batch stored now can be lost, neither kept nor aggregated, exactly when
   an aggregation has already read its key and found nothing there, and may still delete it. Then it is
   the node's own.
   */
  lemma CanBeLostExactlyWhenMissed(run: seq<State>, source: Source)
    requires IsRun(run)
    ensures CanBeLost(run, source) <==> Missed(run[|run| - 1], source)
    ensures CanBeLost(run, source) ==> source.1 == run[|run| - 1].self
  {
    var s, n := run[|run| - 1], |run|;
    RunInv(run, n - 1);
    if Missed(s, source) {
      MissedIsOwn(s, source);
      var i: nat :| i < |s.windows| && MissedBy(s, i, source);
      var arrived := Then(run, Arrive(source));
      assert PassedOver(arrived[n], i, source);
      var longer := FinishingLoses(arrived, i, source);
      assert ContinuesAfterArrival(run, source, longer);
    } else {
      ArrivalIsSafe(s, source);
      forall longer | ContinuesAfterArrival(run, source, longer)
        ensures !Lost(longer[|longer| - 1], source)
      {
        assert longer[n] == Apply(s, Arrive(source));
        SafeForever(longer, n, |longer| - 1, source);
      }
    }
  }

  // ---------------------------------------------------------------- failures

  /** The aggregation is at a command that may fail: the check, the write or the deletion. */
  predicate MayFail(w: Window) {
    w.progress.Started? || (w.progress.Reading? && w.progress.todo == {}) || w.progress.Written?
  }

  /** From every reachable state: an aggregation whose next command fails leaves all batches and records as they are, and its epoch without a window. */
  lemma FailureLeavesAllAsItIs(run: seq<State>, i: nat) returns (longer: seq<State>)
    requires IsRun(run) && i < |run[|run| - 1].windows| && MayFail(run[|run| - 1].windows[i])
    ensures IsRun(longer) && run <= longer
    ensures var s, s' := run[|run| - 1], longer[|longer| - 1];
            s'.sources == s.sources && s'.records == s.records && s.windows[i].epoch !in s'.timers
  {
    var failed := Then(run, if run[|run| - 1].windows[i].progress.Written? then KeepSources(i) else GiveUp(i));
    longer := Then(failed, RemoveTimer(i));
  }

  // ---------------------------------------------------------------- what is listed is aggregated

  /** An aggregation that reads on writes a record with every key of another validator that it has listed. */
  lemma {:induction false} ReadingEndsInRecord(run: seq<State>, i: nat, keys: set<Source>) returns (longer: seq<State>)
    requires IsRun(run) && i < |run[|run| - 1].windows| && run[|run| - 1].windows[i].progress.Reading?
    requires keys <= run[|run| - 1].windows[i].progress.keys && forall k | k in keys :: k.1 != run[|run| - 1].self
    ensures IsRun(longer) && run <= longer && forall k | k in keys :: Recorded(longer[|longer| - 1], k)
    decreases |run[|run| - 1].windows[i].progress.todo|
  {
    var s := run[|run| - 1];
    RunInv(run, |run| - 1);
    assert WindowInv(s, i) && OthersFound(s, i);
    var todo := s.windows[i].progress.todo;
    if todo == {} {
      longer := Then(run, Write(i));
    } else {
      var key :| key in todo;
      var further := Then(run, Read(i, key));
      assert |todo - {key}| < |todo|;
      longer := ReadingEndsInRecord(further, i, keys);
    }
  }

  /** From every reachable state: an aggregation about to list the validators may list any others whose batches are stored, and have all of these in its record. */
  lemma ArrivalsCanBeAggregated(run: seq<State>, i: nat, keys: set<Source>) returns (longer: seq<State>)
    requires IsRun(run) && i < |run[|run| - 1].windows| && run[|run| - 1].windows[i].progress.OwnRead?
    requires forall k | k in keys :: k in run[|run| - 1].arrived && k.0 == run[|run| - 1].windows[i].epoch && k.1 != run[|run| - 1].self
    ensures IsRun(longer) && run <= longer && forall k | k in keys :: Recorded(longer[|longer| - 1], k)
  {
    var listed := Then(run, List(i, keys));
    longer := ReadingEndsInRecord(listed, i, keys);
  }

  /** An aggregation that has found no batch of its own, nor any other. */
  lemma NothingRead(self: string, epoch: Epoch) returns (run: seq<State>)
    ensures IsRun(run)
    ensures run[|run| - 1] == State(self, [Idle], map[epoch := 0], [Window(epoch, Reading({(epoch, self)}, {}, {}))], {}, map[], [], {}, {}, {})
  {
    var s0 := State(self, [Idle], map[], [], {}, map[], [], {}, {}, {});
    run := Then([s0], CheckMessage(0, epoch));
    run := Then(run, StartWindow(0));
    run := Then(run, Fire(0));
    run := Then(run, CheckRecord(0));
    run := Then(run, ReadOwn(0));
    assert run[|run| - 1].windows == [Window(epoch, OwnRead(false))];
    run := Then(run, List(0, {}));
    assert {} + {(epoch, self)} == {(epoch, self)};
  }

  /** This happens: for every node and epoch there is a run in which the node's own batch is deleted without being in any record. */
  lemma LateOwnBatchIsLost(self: string, epoch: Epoch) returns (run: seq<State>)
    ensures var source := (epoch, self);
            IsRun(run) && run[|run| - 1].self == self && source in run[|run| - 1].arrived && source !in run[|run| - 1].sources
            && epoch in run[|run| - 1].records && source !in run[|run| - 1].records[epoch]
  {
    run := NothingRead(self, epoch);
    run := Then(run, Arrive((epoch, self)));
    run := Then(run, Write(0));
    run := Then(run, Delete(0));
  }

  // ---------------------------------------------------------------- every window ends

  /** A timer fires, or the goroutine of a window goes on. */
  ghost predicate IsWindowStep(step: Step) {
    match step
    case Arrive(_) => false
    case CheckMessage(_, _) => false
    case StartWindow(_) => false
    case _ => true
  }

  ghost predicate CanMove(s: State) {
    exists step :: IsWindowStep(step) && Enabled(s, step)
  }

  /** Every window that has not removed its timer has a next step. */
  lemma LiveWindowCanMove(s: State, i: nat)
    requires i < |s.windows| && Live(s.windows[i])
    ensures CanMove(s)
  {
    match s.windows[i].progress
    case Armed => assert Enabled(s, Fire(i));
    case Started => assert Enabled(s, CheckRecord(i));
    case Unaggregated => assert Enabled(s, ReadOwn(i));
    case OwnRead(_) => assert Enabled(s, List(i, {}));
    case Reading(_, todo, _) =>
      if todo == {} {
        assert Enabled(s, Write(i));
      } else {
        var key :| key in todo;
        assert Enabled(s, Read(i, key));
      }
    case Written(_) => assert Enabled(s, Delete(i));
    case Leaving => assert Enabled(s, RemoveTimer(i));
  }

  lemma TimerIsLive(s: State, epoch: Epoch)
    requires Inv(s) && epoch in s.timers
    ensures s.timers[epoch] < |s.windows| && Live(s.windows[s.timers[epoch]])
  {
    assert WindowInv(s, s.timers[epoch]);
  }

  /** In every reachable state: no window has a step left exactly if the timer map is empty, so that every epoch can be started again. */
  lemma RestsExactlyWithoutTimers(run: seq<State>, k: nat)
    requires IsRun(run) && k < |run|
    ensures !CanMove(run[k]) <==> run[k].timers == map[]
  {
    var s := run[k];
    RunInv(run, k);
    if s.timers != map[] {
      var epoch :| epoch in s.timers;
      TimerIsLive(s, epoch);
      LiveWindowCanMove(s, s.timers[epoch]);
    } else if CanMove(s) {
      var step :| IsWindowStep(step) && Enabled(s, step);
      MovingIsLive(s, step);
    }
  }

  lemma MovingIsLive(s: State, step: Step)
    requires Inv(s) && IsWindowStep(step) && Enabled(s, step)
    ensures s.timers != map[]
  {
    assert WindowInv(s, step.window);
    assert s.windows[step.window].epoch in s.timers;
  }
}
