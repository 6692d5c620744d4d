/**
 The submission-window manager of the event monitor. A window holds one slot of a bounded semaphore
 from its opening until it is closed; a map under a lock says which windows are active. One opener
 goroutine, one timer goroutine per window and Shutdown interleave between their atomic sections.
 */
module SubmissionWindows {
  import opened Sequences

  /** The timer of a window: not yet started, running, stopped by Shutdown, or fired. */
  datatype Timer = Unstarted | Running | Stopped | Expired

  /** Where the goroutine of closeWindow stands; `victim` is the window it took out of the map. */
  datatype Closer = NotRunning | Started | Removed(victim: nat) | Released(victim: nat) | Signalled(victim: nat) | Finished

  /** Who took the window out of the map: nobody yet, the closer of window `closedBy`, or Shutdown. */
  datatype Removal = Active | Closed(closedBy: nat) | ShutDown

  datatype Window = Window(key: string, timer: Timer, closer: Closer)

  /** What has become of a window (history): who removed it, how often Done was closed and finalization triggered. */
  datatype Fate = Fate(removal: Removal, doneCloses: nat, finalizations: nat)

  datatype Opener = Idle | Checked(key: string) | Acquired(key: string) | Registered(window: nat)

  /** `leaked` counts the slots of windows removed by Shutdown, which never come back (history). */
  datatype State = State(
    maxWindows: nat, active: map<string, nat>, heldSlots: nat, opener: Opener,
    windows: seq<Window>, fates: seq<Fate>, leaked: nat
  )

  ghost predicate Init(s: State) {
    s.active == map[] && s.heldSlots == 0 && s.opener == Idle && s.windows == [] && s.fates == [] && s.leaked == 0
  }

  // ---------------------------------------------------------------- the atomic sections

  datatype Step =
    | CheckKey(key: string)    // StartSubmissionWindow: the key is not active
    | AcquireSlot              // ... a slot was free
    | Refuse                   // ... or none became free in time
    | Register                 // ... the window enters the map
    | StartTimer               // ... and its timer starts
    | Fire(window: nat)        // the timer fires
    | Remove(window: nat)      // closeWindow: take the key's window out of the map, if there is one
    | Release(window: nat)     // ... give back a slot
    | CloseDone(window: nat)   // ... close Done
    | Finalize(window: nat)    // ... trigger finalization
    | Shutdown                 // stop timers, close Done, empty the map

  function CloserOf(s: State, i: nat): Closer {
    if i < |s.windows| then s.windows[i].closer else NotRunning
  }

  ghost predicate Enabled(s: State, step: Step) {
    match step
    case CheckKey(key) => s.opener.Idle? && key !in s.active
    case AcquireSlot => s.opener.Checked? && s.heldSlots < s.maxWindows
    case Refuse => s.opener.Checked?
    case Register => s.opener.Acquired?
    case StartTimer => s.opener.Registered? && s.opener.window < |s.windows|
    case Fire(i) => i < |s.windows| && s.windows[i].timer.Running?
    case Remove(i) => CloserOf(s, i).Started?
    case Release(i) => CloserOf(s, i).Removed? && s.heldSlots > 0
    case CloseDone(i) => CloserOf(s, i).Released? && s.windows[i].closer.victim < |s.fates|
    case Finalize(i) => CloserOf(s, i).Signalled? && s.windows[i].closer.victim < |s.fates|
    case Shutdown => !s.opener.Registered?
  }

  function SetCloser(s: State, i: nat, c: Closer): State
    requires i < |s.windows|
  {
    s.(windows := s.windows[i := s.windows[i].(closer := c)])
  }

  /** What Shutdown does to the timer and the fate of an active window. */
  function Halted(w: Window): Window {
    w.(timer := if w.timer.Running? then Stopped else w.timer)
  }

  function AfterShutdown(f: Fate): Fate {
    Fate(ShutDown, f.doneCloses + 1, f.finalizations)
  }

  predicate IsActive(s: State, i: nat)
    requires i < |s.windows|
  {
    var key := s.windows[i].key;
    key in s.active && s.active[key] == i
  }

  ghost function Apply(s: State, step: Step): State
    requires Enabled(s, step)
  {
    match step
    case CheckKey(key) => s.(opener := Checked(key))
    case AcquireSlot => s.(opener := Acquired(s.opener.key), heldSlots := s.heldSlots + 1)
    case Refuse => s.(opener := Idle)
    case Register =>
      var id := |s.windows|;
      s.(windows := s.windows + [Window(s.opener.key, Unstarted, NotRunning)], fates := s.fates + [Fate(Active, 0, 0)],
         active := s.active[s.opener.key := id], opener := Registered(id))
    case StartTimer =>
      var id := s.opener.window;
      s.(windows := s.windows[id := s.windows[id].(timer := Running)], opener := Idle)
    case Fire(i) =>
      s.(windows := s.windows[i := s.windows[i].(timer := Expired, closer := Started)])
    case Remove(i) =>
      var key := s.windows[i].key;
      if key !in s.active || s.active[key] >= |s.fates| then SetCloser(s, i, Finished)
      else
        var victim := s.active[key];
        SetCloser(s, i, Removed(victim)).(active := s.active - {key}, fates := s.fates[victim := s.fates[victim].(removal := Closed(i))])
    case Release(i) =>
      SetCloser(s, i, Released(s.windows[i].closer.victim)).(heldSlots := s.heldSlots - 1)
    case CloseDone(i) =>
      var victim := s.windows[i].closer.victim;
      SetCloser(s, i, Signalled(victim)).(fates := s.fates[victim := s.fates[victim].(doneCloses := s.fates[victim].doneCloses + 1)])
    case Finalize(i) =>
      var victim := s.windows[i].closer.victim;
      SetCloser(s, i, Finished).(fates := s.fates[victim := s.fates[victim].(finalizations := s.fates[victim].finalizations + 1)])
    case Shutdown =>
      s.(windows := seq(|s.windows|, i requires 0 <= i < |s.windows| => if IsActive(s, i) then Halted(s.windows[i]) else s.windows[i]),
         fates := seq(|s.fates|, i requires 0 <= i < |s.fates| => if i < |s.windows| && IsActive(s, i) then AfterShutdown(s.fates[i]) else s.fates[i]),
         active := map[], leaked := s.leaked + |s.active|)
  }

  ghost predicate Next(s: State, s': State) {
    exists step :: Enabled(s, step) && s' == Apply(s, step)
  }

  ghost predicate StepAt(run: seq<State>, k: int)
    requires 0 < k < |run|
  {
    Next(run[k - 1], run[k])
  }

  ghost predicate IsRun(run: seq<State>) {
    && |run| > 0 && Init(run[0])
    && forall k | 0 < k < |run| :: StepAt(run, k)
  }

  // ---------------------------------------------------------------- slots

  predicate OwesSlot(w: Window) {
    w.closer.Removed?
  }

  function OpenerSlots(o: Opener): nat {
    if o.Acquired? then 1 else 0
  }

  /** Every held slot is accounted for, and no more are held than exist. */
  ghost predicate SlotInv(s: State) {
    && s.heldSlots == |s.active| + CountIf(s.windows, OwesSlot) + OpenerSlots(s.opener) + s.leaked
    && s.heldSlots <= s.maxWindows
  }

  // ---------------------------------------------------------------- windows

  /** The map and the windows agree, and what has been done to a window is what its removal says. */
  ghost predicate WindowInv(s: State, i: nat)
    requires i < |s.windows| == |s.fates|
  {
    var w, fate := s.windows[i], s.fates[i];
    && (fate.removal.Active? <==> IsActive(s, i))
    && (w.timer.Unstarted? ==> s.opener == Registered(i))
    && (!w.timer.Expired? <==> w.closer.NotRunning?)
    && (!w.closer.NotRunning? && !w.closer.Started? ==> !fate.removal.Active?)
    && (fate.removal.ShutDown? ==> w.timer.Stopped? || w.timer.Expired?)
    && (w.timer.Stopped? ==> fate.removal.ShutDown?)
    && match fate.removal
       case Active => fate.doneCloses == 0 && fate.finalizations == 0
       case ShutDown => fate.doneCloses == 1 && fate.finalizations == 0
       case Closed(c) =>
         && c < |s.windows|
         && match s.windows[c].closer
            case Removed(v) => v == i && fate.doneCloses == 0 && fate.finalizations == 0
            case Released(v) => v == i && fate.doneCloses == 0 && fate.finalizations == 0
            case Signalled(v) => v == i && fate.doneCloses == 1 && fate.finalizations == 0
            case Finished => fate.doneCloses == 1 && fate.finalizations == 1
            case NotRunning => false
            case Started => false
  }

  /** A closer under way works on a window that it removed itself. */
  ghost predicate CloserInv(s: State, i: nat)
    requires i < |s.windows| == |s.fates|
  {
    match s.windows[i].closer
    case Removed(v) => v < |s.fates| && s.fates[v].removal == Closed(i)
    case Released(v) => v < |s.fates| && s.fates[v].removal == Closed(i)
    case Signalled(v) => v < |s.fates| && s.fates[v].removal == Closed(i)
    case _ => true
  }

  ghost predicate WindowsInv(s: State) {
    |s.windows| == |s.fates| && forall i: nat | i < |s.windows| :: WindowInv(s, i) && CloserInv(s, i)
  }

  /** Active keys lead to their windows, and the opener's key is still free. */
  ghost predicate MapInv(s: State) {
    && (forall key | key in s.active :: s.active[key] < |s.windows| && s.windows[s.active[key]].key == key)
    && (s.opener.Registered? ==> s.opener.window < |s.windows| && s.windows[s.opener.window].timer.Unstarted?)
    && ((s.opener.Checked? || s.opener.Acquired?) ==> s.opener.key !in s.active)
  }

  ghost predicate Inv(s: State) {
    SlotInv(s) && WindowsInv(s) && MapInv(s)
  }

  // ---------------------------------------------------------------- every step keeps it

  lemma SlotsOfUpdate(windows: seq<Window>, i: nat, w: Window)
    requires i < |windows|
    ensures CountIf(windows[i := w], OwesSlot) ==
            CountIf(windows, OwesSlot) + (if OwesSlot(w) then 1 else 0) - (if OwesSlot(windows[i]) then 1 else 0)
  {
    CountIfUpdate(windows, OwesSlot, i, w);
  }

  /** Slots: opening takes one, removing a window turns it into a debt, releasing pays it. */
  lemma SlotStep(s: State, step: Step)
    requires Inv(s) && Enabled(s, step) && !step.Remove? && !step.Shutdown?
    ensures SlotInv(Apply(s, step))
  {
    var s' := Apply(s, step);
    match step
    case CheckKey(_) =>
    case AcquireSlot =>
    case Refuse =>
    case Register =>
      CountIfSnoc(s.windows, OwesSlot, s'.windows[|s.windows|]);
    case StartTimer =>
      SlotsOfUpdate(s.windows, s.opener.window, s'.windows[s.opener.window]);
    case Fire(i) =>
      assert WindowInv(s, i);
      SlotsOfUpdate(s.windows, i, s'.windows[i]);
    case Release(i) =>
      SlotsOfUpdate(s.windows, i, s'.windows[i]);
    case CloseDone(i) =>
      SlotsOfUpdate(s.windows, i, s'.windows[i]);
    case Finalize(i) =>
      SlotsOfUpdate(s.windows, i, s'.windows[i]);
  }

  lemma RemoveSlots(s: State, i: nat)
    requires Inv(s) && Enabled(s, Remove(i))
    ensures SlotInv(Apply(s, Remove(i)))
  {
    var s' := Apply(s, Remove(i));
    var key := s.windows[i].key;
    if key in s.active {
      assert (s.active - {key}).Keys == s.active.Keys - {key};
      assert |s.active.Keys - {key}| == |s.active| - 1;
    }
    SlotsOfUpdate(s.windows, i, s'.windows[i]);
  }

  lemma ShutdownSlots(s: State)
    requires Inv(s) && Enabled(s, Shutdown)
    ensures SlotInv(Apply(s, Shutdown))
  {
    SameOwing(s.windows, Apply(s, Shutdown).windows);
  }

  lemma {:induction false} SameOwing(a: seq<Window>, b: seq<Window>)
    requires |a| == |b| && forall i | 0 <= i < |a| :: OwesSlot(a[i]) == OwesSlot(b[i])
    ensures CountIf(a, OwesSlot) == CountIf(b, OwesSlot)
  {
    if a != [] {
      SameOwing(a[..|a| - 1], b[..|b| - 1]);
    }
  }

  /** Windows: one window at a time, for the steps of the opener, the timers and Shutdown ... */
  lemma OpenerWindowStep(s: State, step: Step, j: nat)
    requires Inv(s) && Enabled(s, step) && IsOpenerStep(step)
    requires j < |Apply(s, step).windows| == |Apply(s, step).fates|
    ensures WindowInv(Apply(s, step), j) && CloserInv(Apply(s, step), j)
  {
    if j < |s.windows| {
      assert WindowInv(s, j) && CloserInv(s, j);
    }
  }

  lemma FireWindowStep(s: State, i: nat, j: nat)
    requires Inv(s) && Enabled(s, Fire(i)) && j < |s.windows|
    ensures WindowInv(Apply(s, Fire(i)), j) && CloserInv(Apply(s, Fire(i)), j)
  {
    assert WindowInv(s, j) && CloserInv(s, j) && WindowInv(s, i);
  }

  lemma ShutdownWindowStep(s: State, j: nat)
    requires Inv(s) && Enabled(s, Shutdown) && j < |s.windows|
    ensures WindowInv(Apply(s, Shutdown), j) && CloserInv(Apply(s, Shutdown), j)
  {
    assert WindowInv(s, j) && CloserInv(s, j);
    match s.windows[j].closer
    case Removed(v) => assert WindowInv(s, v);
    case Released(v) => assert WindowInv(s, v);
    case Signalled(v) => assert WindowInv(s, v);
    case _ =>
  }

  /** ... and for those of a closer, whose victim may be its own window or a later one with the same key. */
  lemma RemoveWindowStep(s: State, i: nat, j: nat)
    requires Inv(s) && Enabled(s, Remove(i)) && j < |s.windows|
    ensures WindowInv(Apply(s, Remove(i)), j) && CloserInv(Apply(s, Remove(i)), j)
  {
    assert WindowInv(s, j) && CloserInv(s, j) && WindowInv(s, i);
    if s.windows[i].key in s.active {
      assert WindowInv(s, s.active[s.windows[i].key]);
    }
  }

  lemma ReleaseWindowStep(s: State, i: nat, j: nat)
    requires Inv(s) && Enabled(s, Release(i)) && j < |s.windows|
    ensures WindowInv(Apply(s, Release(i)), j) && CloserInv(Apply(s, Release(i)), j)
  {
    assert WindowInv(s, j) && CloserInv(s, j) && WindowInv(s, i) && CloserInv(s, i);
    assert WindowInv(s, s.windows[i].closer.victim);
  }

  lemma CloseDoneWindowStep(s: State, i: nat, j: nat)
    requires Inv(s) && Enabled(s, CloseDone(i)) && j < |s.windows|
    ensures WindowInv(Apply(s, CloseDone(i)), j) && CloserInv(Apply(s, CloseDone(i)), j)
  {
    assert WindowInv(s, j) && CloserInv(s, j) && WindowInv(s, i) && CloserInv(s, i);
    assert WindowInv(s, s.windows[i].closer.victim);
  }

  lemma FinalizeWindowStep(s: State, i: nat, j: nat)
    requires Inv(s) && Enabled(s, Finalize(i)) && j < |s.windows|
    ensures WindowInv(Apply(s, Finalize(i)), j) && CloserInv(Apply(s, Finalize(i)), j)
  {
    assert WindowInv(s, j) && CloserInv(s, j) && WindowInv(s, i) && CloserInv(s, i);
    assert WindowInv(s, s.windows[i].closer.victim);
  }

  lemma WindowsStep(s: State, step: Step)
    requires Inv(s) && Enabled(s, step)
    ensures WindowsInv(Apply(s, step))
  {
    var s' := Apply(s, step);
    forall j: nat | j < |s'.windows|
      ensures WindowInv(s', j) && CloserInv(s', j)
    {
      match step
      case Fire(i) => FireWindowStep(s, i, j);
      case Remove(i) => RemoveWindowStep(s, i, j);
      case Release(i) => ReleaseWindowStep(s, i, j);
      case CloseDone(i) => CloseDoneWindowStep(s, i, j);
      case Finalize(i) => FinalizeWindowStep(s, i, j);
      case Shutdown => ShutdownWindowStep(s, j);
      case _ => OpenerWindowStep(s, step, j);
    }
  }

  predicate IsOpenerStep(step: Step) {
    step.CheckKey? || step.AcquireSlot? || step.Refuse? || step.Register? || step.StartTimer?
  }

  lemma OpenerMapStep(s: State, step: Step)
    requires Inv(s) && Enabled(s, step) && IsOpenerStep(step)
    ensures MapInv(Apply(s, step))
  {}

  lemma CloserMapStep(s: State, step: Step)
    requires Inv(s) && Enabled(s, step) && !IsOpenerStep(step)
    ensures MapInv(Apply(s, step))
  {
    if step.Fire? {
      assert WindowInv(s, step.window);
    }
  }

  lemma NextInv(s: State, s': State)
    requires Inv(s) && Next(s, s')
    ensures Inv(s')
  {
    var step :| Enabled(s, step) && s' == Apply(s, step);
    WindowsStep(s, step);
    if IsOpenerStep(step) {
      OpenerMapStep(s, step);
    } else {
      CloserMapStep(s, step);
    }
    match step
    case Remove(i) => RemoveSlots(s, i);
    case Shutdown => ShutdownSlots(s);
    case _ => SlotStep(s, step);
  }

  lemma {:induction false} RunInv(run: seq<State>, k: nat)
    requires IsRun(run) && k < |run|
    ensures Inv(run[k])
  {
    if k > 0 {
      RunInv(run, k - 1);
      assert StepAt(run, k);
      NextInv(run[k - 1], run[k]);
    }
  }

  // ---------------------------------------------------------------- what holds in every interleaving

  /** Never more active windows than held slots, never more held slots than the semaphore has. */
  lemma ActiveWindowsAreBounded(run: seq<State>, k: nat)
    requires IsRun(run) && k < |run|
    ensures |run[k].active| <= run[k].heldSlots <= run[k].maxWindows
  {
    RunInv(run, k);
  }

  /** A closer that removed a window can always give back a slot, so its receive does not block. */
  lemma ReleaseNeverBlocks(run: seq<State>, k: nat, i: nat)
    requires IsRun(run) && k < |run| && CloserOf(run[k], i).Removed?
    ensures Enabled(run[k], Release(i))
  {
    RunInv(run, k);
    CountIfBounds(run[k].windows, OwesSlot);
  }

  /** Done is closed at most once, and finalization triggered at most once and only after closeWindow removed the window. */
  lemma WindowEndsAtMostOnce(run: seq<State>, k: nat, i: nat)
    requires IsRun(run) && k < |run| && i < |run[k].fates|
    ensures run[k].fates[i].doneCloses <= 1 && run[k].fates[i].finalizations <= 1
    ensures run[k].fates[i].finalizations == 1 ==> run[k].fates[i].removal.Closed? && run[k].fates[i].doneCloses == 1
    ensures run[k].fates[i].removal.Active? ==> run[k].fates[i].doneCloses == 0
  {
    RunInv(run, k);
    assert WindowInv(run[k], i);
  }

  /** No closer is between two of its sections, and the opener is not opening. */
  ghost predicate Quiescent(s: State) {
    s.opener.Idle? && forall w | w in s.windows :: w.closer.NotRunning? || w.closer.Finished?
  }

  /**
   When nothing is under way, the timer of an active window is running, an expired window is removed with its
   Done closed, and exactly windows removed by Shutdown may have their timers stopped. A window has been
   finalized exactly if closeWindow removed it, its Done is closed exactly if anybody removed it, and the
   slots held are those of the active windows and of the windows that Shutdown removed.
   */
  lemma QuiescentWindows(run: seq<State>, k: nat)
    requires IsRun(run) && k < |run| && Quiescent(run[k])
    ensures run[k].heldSlots == |run[k].active| + run[k].leaked && |run[k].fates| == |run[k].windows|
    ensures forall i: nat | i < |run[k].fates| ::
              && (run[k].fates[i].finalizations == 1 <==> run[k].fates[i].removal.Closed?)
              && (run[k].fates[i].doneCloses == 1 <==> !run[k].fates[i].removal.Active?)
              && (run[k].fates[i].removal.Active? ==> run[k].windows[i].timer.Running?)
              && (run[k].windows[i].timer.Expired? ==> !run[k].fates[i].removal.Active? && run[k].fates[i].doneCloses == 1)
              && (run[k].windows[i].timer.Stopped? ==> run[k].fates[i].removal.ShutDown?)
              && (run[k].fates[i].removal.ShutDown? ==> !run[k].windows[i].timer.Running?)
  {
    RunInv(run, k);
    var s := run[k];
    CountIfBounds(s.windows, OwesSlot);
    forall i: nat | i < |s.windows|
      ensures WindowInv(s, i) && (s.fates[i].removal.Closed? ==> s.windows[s.fates[i].removal.closedBy] in s.windows)
    {
      assert WindowInv(s, i);
    }
  }

  // ---------------------------------------------------------------- every window ends

  /** A timer fires, or a closer enters its next section. */
  predicate IsWindowStep(step: Step) {
    step.Fire? || step.Remove? || step.Release? || step.CloseDone? || step.Finalize?
  }

  ghost predicate CanMove(s: State) {
    exists step :: IsWindowStep(step) && Enabled(s, step)
  }

  /** The most steps a window's timer and closer can still take. */
  function StepsLeft(w: Window): nat {
    match w.closer
    case NotRunning => if w.timer.Unstarted? || w.timer.Running? then 5 else 0
    case Started => 4
    case Removed(_) => 3
    case Released(_) => 2
    case Signalled(_) => 1
    case Finished => 0
  }

  lemma WindowStepDecreases(s: State, step: Step)
    requires Inv(s) && Enabled(s, step) && IsWindowStep(step)
    ensures SumBy(Apply(s, step).windows, StepsLeft) < SumBy(s.windows, StepsLeft)
    ensures |Apply(s, step).windows| == |s.windows|
  {
    var i := step.window;
    assert WindowInv(s, i);
    var w := Apply(s, step).windows[i];
    assert Apply(s, step).windows == s.windows[i := w];
    SumByUpdate(s.windows, StepsLeft, i, w);
  }

  /** A window that is not at its end has a next step: no closer is ever stuck. */
  lemma WindowCanMove(s: State, i: nat)
    requires Inv(s) && i < |s.windows| && StepsLeft(s.windows[i]) > 0 && !s.windows[i].timer.Unstarted?
    ensures CanMove(s)
  {
    assert WindowInv(s, i) && CloserInv(s, i);
    match s.windows[i].closer
    case NotRunning => assert Enabled(s, Fire(i));
    case Started => assert Enabled(s, Remove(i));
    case Removed(_) =>
      CountIfBounds(s.windows, OwesSlot);
      assert Enabled(s, Release(i));
    case Released(_) => assert Enabled(s, CloseDone(i));
    case Signalled(_) => assert Enabled(s, Finalize(i));
    case Finished =>
  }

  /** The most steps the opener can still take before it is idle. */
  function OpenerStepsLeft(o: Opener): nat {
    match o
    case Idle => 0
    case Checked(_) => 3
    case Acquired(_) => 2
    case Registered(_) => 1
  }

  /** Nor is the opener: it is idle, or some step brings it closer to that, as all of its steps but the first do. */
  lemma OpenerIsNeverStuck(run: seq<State>, k: nat)
    requires IsRun(run) && k < |run|
    ensures run[k].opener.Idle? || exists step :: IsOpenerStep(step) && !step.CheckKey? && Enabled(run[k], step)
    ensures forall step | IsOpenerStep(step) && !step.CheckKey? && Enabled(run[k], step) ::
              OpenerStepsLeft(Apply(run[k], step).opener) < OpenerStepsLeft(run[k].opener)
  {
    RunInv(run, k);
    var s := run[k];
    match s.opener
    case Idle =>
    case Checked(_) => assert Enabled(s, Refuse);
    case Acquired(_) => assert Enabled(s, Register);
    case Registered(_) => assert Enabled(s, StartTimer);
  }

  ghost predicate WindowStepAt(run: seq<State>, m: int)
    requires 0 < m < |run|
  {
    exists step :: IsWindowStep(step) && Enabled(run[m - 1], step) && run[m] == Apply(run[m - 1], step)
  }

  lemma {:induction false} WindowStepsAreBounded(run: seq<State>, k: nat, l: nat)
    requires IsRun(run) && k <= l < |run| && forall m | k < m <= l :: WindowStepAt(run, m)
    ensures l - k <= SumBy(run[k].windows, StepsLeft) - SumBy(run[l].windows, StepsLeft)
  {
    if k < l {
      WindowStepsAreBounded(run, k, l - 1);
      RunInv(run, l - 1);
      assert WindowStepAt(run, l);
      var step :| IsWindowStep(step) && Enabled(run[l - 1], step) && run[l] == Apply(run[l - 1], step);
      WindowStepDecreases(run[l - 1], step);
    }
  }

  /** At the end of a window: it is removed, its Done closed, and finalization triggered unless Shutdown removed it. */
  ghost predicate HasEnded(s: State, i: nat)
    requires i < |s.windows| == |s.fates|
  {
    && !s.fates[i].removal.Active? && s.fates[i].doneCloses == 1
    && s.fates[i].finalizations == if s.fates[i].removal.Closed? then 1 else 0
  }

  /**
   Every window ends: with no further openings and no Shutdown, timers and closers take at most five steps
   per window in any interleaving, and when none is left every window has ended and the slots held are
   those that Shutdown leaked.
   */
  lemma EveryWindowEnds(run: seq<State>, k: nat, l: nat)
    requires IsRun(run) && k <= l < |run| && forall m | k < m <= l :: WindowStepAt(run, m)
    ensures l - k <= 5 * |run[k].windows|
    ensures |run[l].fates| == |run[l].windows|
    ensures run[l].opener.Idle? && !CanMove(run[l]) ==>
              && (forall i: nat | i < |run[l].windows| :: HasEnded(run[l], i))
              && run[l].active == map[] && run[l].heldSlots == run[l].leaked
  {
    WindowStepsAreBounded(run, k, l);
    SumByIsBounded(run[k].windows, StepsLeft, 5);
    RunInv(run, l);
    if run[l].opener.Idle? && !CanMove(run[l]) {
      AllHaveEnded(run[l]);
    }
  }

  lemma AllHaveEnded(s: State)
    requires Inv(s) && s.opener.Idle? && !CanMove(s)
    ensures forall i: nat | i < |s.windows| :: HasEnded(s, i)
    ensures s.active == map[] && s.heldSlots == s.leaked
  {
    forall i: nat | i < |s.windows|
      ensures WindowInv(s, i) && StepsLeft(s.windows[i]) == 0
    {
      assert WindowInv(s, i);
      if StepsLeft(s.windows[i]) > 0 {
        WindowCanMove(s, i);
      }
    }
    forall i: nat | i < |s.windows|
      ensures HasEnded(s, i)
    {
      EndOfWindow(s, i);
    }
    NothingIsActive(s);
    CountIfBounds(s.windows, OwesSlot);
  }

  lemma NothingIsActive(s: State)
    requires WindowsInv(s) && MapInv(s) && forall i: nat | i < |s.windows| :: HasEnded(s, i)
    ensures s.active == map[]
  {
    if s.active != map[] {
      var key :| key in s.active;
      ActiveHasNotEnded(s, key);
    }
  }

  lemma ActiveHasNotEnded(s: State, key: string)
    requires WindowsInv(s) && MapInv(s) && key in s.active
    ensures s.active[key] < |s.windows| && !HasEnded(s, s.active[key])
  {
    assert WindowInv(s, s.active[key]);
  }

  lemma EndOfWindow(s: State, i: nat)
    requires WindowsInv(s) && i < |s.windows| && s.opener.Idle? && forall j: nat | j < |s.windows| :: StepsLeft(s.windows[j]) == 0
    ensures HasEnded(s, i)
  {
    assert WindowInv(s, i);
    if s.fates[i].removal.Closed? {
      assert StepsLeft(s.windows[s.fates[i].removal.closedBy]) == 0;
    }
  }
}
