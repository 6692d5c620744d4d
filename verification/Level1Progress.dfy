/**
 The completion counter of an epoch's batch parts. Each part is counted by the worker that stored
 it, in two separate Redis commands: an INCR whose reply the worker keeps, and a later pipeline that
 SETs the counter to that reply and pushes the Level-1 message when the reply equals the number of
 parts. Workers interleave freely between the two.
 */
module Level1Progress {
  import opened Sequences

  /** What has been done for one part: nothing, the INCR (with its reply), or also the SET pipeline. */
  datatype Phase = Uncounted | Counted(completed: nat) | Reported

  /** `pushes` is the history of Level-1 messages, each carrying `parts_completed`. */
  datatype State = State(phases: seq<Phase>, completed: nat, pushes: seq<nat>) {
    function Total(): nat { |phases| }
  }

  ghost predicate Init(s: State) {
    (forall i | 0 <= i < s.Total() :: s.phases[i].Uncounted?) && s.completed == 0 && s.pushes == []
  }

  /** INCR of the counter on behalf of part i. */
  ghost predicate Incr(s: State, s': State, i: nat) {
    && i < s.Total() && s.phases[i].Uncounted?
    && s' == s.(phases := s.phases[i := Counted(s.completed + 1)], completed := s.completed + 1)
  }

  /** The effect of UpdateBatchPartsProgress called with the reply of an INCR. */
  function AfterUpdate(pushes: seq<nat>, completed: nat, total: nat): seq<nat> {
    if completed == total && total > 0 then pushes + [completed] else pushes
  }

  ghost predicate Report(s: State, s': State, i: nat) {
    && i < s.Total() && s.phases[i].Counted?
    && var c := s.phases[i].completed;
       s' == State(s.phases[i := Reported], c, AfterUpdate(s.pushes, c, s.Total()))
  }

  /** The aggregator deletes the counter after it has consumed a message. */
  ghost predicate Clear(s: State, s': State) {
    s.pushes != [] && s' == s.(completed := 0)
  }

  datatype Step = Incrs(i: nat) | Reports(i: nat) | Clears

  ghost predicate NextBy(s: State, s': State, step: Step) {
    match step
    case Incrs(i) => Incr(s, s', i)
    case Reports(i) => Report(s, s', i)
    case Clears => Clear(s, s')
  }

  ghost predicate Next(s: State, s': State) {
    exists step :: NextBy(s, s', step)
  }

  ghost predicate IsRun(run: seq<State>) {
    && |run| > 0 && Init(run[0])
    && forall k | 0 < k < |run| :: StepAt(run, k)
  }

  ghost predicate StepAt(run: seq<State>, k: int)
    requires 0 < k < |run|
  {
    Next(run[k - 1], run[k])
  }

  /** Every worker has finished with its part. */
  ghost predicate Complete(s: State) {
    forall i | 0 <= i < s.Total() :: s.phases[i].Reported?
  }

  // ---------------------------------------------------------------- safety, in every interleaving

  predicate IsCounted(p: Phase) {
    !p.Uncounted?
  }

  /** The number of INCRs executed so far. */
  ghost function IncrCount(phases: seq<Phase>): nat {
    CountIf(phases, IsCounted)
  }

  lemma IncrsUpdate(phases: seq<Phase>, i: nat, p: Phase)
    requires i < |phases|
    ensures IncrCount(phases[i := p]) ==
            IncrCount(phases) + (if IsCounted(p) then 1 else 0) - (if IsCounted(phases[i]) then 1 else 0)
  {
    CountIfUpdate(phases, IsCounted, i, p);
  }

  lemma IncrsBounds(phases: seq<Phase>)
    ensures IncrCount(phases) <= |phases|
    ensures IncrCount(phases) == |phases| <==> forall i | 0 <= i < |phases| :: !phases[i].Uncounted?
    ensures (forall i | 0 <= i < |phases| :: phases[i].Uncounted?) ==> IncrCount(phases) == 0
  {
    CountIfBounds(phases, IsCounted);
  }

  /** The worker of part i has been told that its part was the last one. */
  ghost predicate HoldsTotal(s: State, i: int) {
    0 <= i < s.Total() && s.phases[i] == Counted(s.Total())
  }

  ghost predicate Inv(s: State) {
    && s.completed <= IncrCount(s.phases)
    && (forall i | 0 <= i < s.Total() && s.phases[i].Counted? :: 1 <= s.phases[i].completed <= IncrCount(s.phases))
    && (forall i, j | HoldsTotal(s, i) && HoldsTotal(s, j) :: i == j)
    && (s.pushes == [] || (s.pushes == [s.Total()] && IncrCount(s.phases) == s.Total()))
    && (forall i | HoldsTotal(s, i) :: s.pushes == [])
  }

  lemma InitInv(s: State)
    requires Init(s)
    ensures Inv(s)
  {}

  lemma IncrInv(s: State, s': State, i: nat)
    requires Inv(s) && Incr(s, s', i)
    ensures Inv(s')
  {
    IncrsBounds(s.phases);
    IncrsUpdate(s.phases, i, Counted(s.completed + 1));
  }

  lemma ReportInv(s: State, s': State, i: nat)
    requires Inv(s) && Report(s, s', i)
    ensures Inv(s')
  {
    IncrsBounds(s.phases);
    IncrsUpdate(s.phases, i, Reported);
    assert s.phases[i].completed == s.Total() ==> HoldsTotal(s, i);
    assert forall j | HoldsTotal(s', j) :: HoldsTotal(s, j);
  }

  lemma NextInv(s: State, s': State)
    requires Inv(s) && Next(s, s')
    ensures Inv(s')
  {
    var step :| NextBy(s, s', step);
    match step
    case Incrs(i) => IncrInv(s, s', i);
    case Reports(i) => ReportInv(s, s', i);
    case Clears => assert forall j | HoldsTotal(s', j) :: HoldsTotal(s, j);
  }

  lemma {:induction false} RunInv(run: seq<State>, k: nat)
    requires IsRun(run) && k < |run|
    ensures Inv(run[k]) && run[k].Total() == run[0].Total()
  {
    if k == 0 {
      InitInv(run[0]);
    } else {
      RunInv(run, k - 1);
      assert StepAt(run, k);
      NextInv(run[k - 1], run[k]);
    }
  }

  /**
   In every interleaving the counter never exceeds the number of INCRs (a late SET can only lower
   it), the Level-1 message is pushed at most once, and only when every part has been counted.
   */
  lemma PushedAtMostOnceWhenAllCounted(run: seq<State>, k: nat)
    requires IsRun(run) && k < |run|
    ensures run[k].completed <= IncrCount(run[k].phases)
    ensures |run[k].pushes| <= 1
    ensures run[k].pushes != [] ==>
              && run[k].pushes == [run[k].Total()]
              && forall i | 0 <= i < run[k].Total() :: !run[k].phases[i].Uncounted?
  {
    RunInv(run, k);
    IncrsBounds(run[k].phases);
  }

  // ---------------------------------------------------------------- progress

  /** A run in which each INCR is directly followed by its own SET, as if the two were one command. */
  ghost predicate IsAtomicRun(run: seq<State>) {
    && |run| > 0 && Init(run[0])
    && forall k | 0 < k < |run| :: AtomicStepAt(run, k)
  }

  ghost predicate AtomicStepAt(run: seq<State>, k: int)
    requires 0 < k < |run|
  {
    AtomicNext(run[k - 1], run[k])
  }

  ghost predicate AtomicNext(s: State, s': State) {
    (exists i: nat :: IncrAndReport(s, s', i)) || Clear(s, s')
  }

  ghost predicate IncrAndReport(s: State, s': State, i: nat) {
    && i < s.Total() && s.phases[i].Uncounted?
    && var c := s.completed + 1;
       s' == State(s.phases[i := Reported], c, AfterUpdate(s.pushes, c, s.Total()))
  }

  /** A part is either untouched or finished, and an unpushed counter is exact. */
  ghost predicate AtomicInv(s: State) {
    && (forall i | 0 <= i < s.Total() :: !s.phases[i].Counted?)
    && (if s.pushes == [] then s.completed == IncrCount(s.phases) && (s.Total() > 0 ==> IncrCount(s.phases) < s.Total())
        else s.pushes == [s.Total()] && IncrCount(s.phases) == s.Total())
  }

  lemma {:induction false} AtomicRunInv(run: seq<State>, k: nat)
    requires IsAtomicRun(run) && k < |run|
    ensures AtomicInv(run[k])
  {
    IncrsBounds(run[k].phases);
    if k == 0 {
      assert run[0].Total() > 0 ==> run[0].phases[0].Uncounted?;
      IncrsBounds(run[0].phases);
    } else {
      AtomicRunInv(run, k - 1);
      assert AtomicStepAt(run, k);
      var s, s' := run[k - 1], run[k];
      IncrsBounds(s.phases);
      if i: nat :| IncrAndReport(s, s', i) {
        IncrsUpdate(s.phases, i, Reported);
      }
    }
  }

  /** Were INCR and SET one command, every completed epoch with at least one part would be pushed exactly once. */
  lemma AtomicCountingPushesExactlyOnce(run: seq<State>)
    requires IsAtomicRun(run) && Complete(run[|run| - 1]) && run[|run| - 1].Total() > 0
    ensures run[|run| - 1].pushes == [run[|run| - 1].Total()]
  {
    AtomicRunInv(run, |run| - 1);
    IncrsBounds(run[|run| - 1].phases);
  }

  /** With the two commands apart, this is what holds for up to two parts. */
  ghost predicate SmallInv(s: State) {
    && Inv(s)
    && (s.pushes == [] ==>
          && (IncrCount(s.phases) < s.Total() ==> s.completed == IncrCount(s.phases))
          && (IncrCount(s.phases) == s.Total() ==> exists i :: HoldsTotal(s, i)))
  }

  lemma SmallNextInv(s: State, s': State)
    requires SmallInv(s) && Next(s, s') && 1 <= s.Total() <= 2
    ensures SmallInv(s')
  {
    NextInv(s, s');
    IncrsBounds(s.phases);
    IncrsBounds(s'.phases);
    var step :| NextBy(s, s', step);
    match step
    case Incrs(i) =>
      IncrsUpdate(s.phases, i, Counted(s.completed + 1));
      assert s.completed + 1 == s.Total() ==> HoldsTotal(s', i);
    case Reports(i) =>
      IncrsUpdate(s.phases, i, Reported);
      if j :| HoldsTotal(s, j) {
        assert j != i ==> HoldsTotal(s', j);
      }
    case Clears =>
  }

  lemma {:induction false} SmallRunInv(run: seq<State>, k: nat)
    requires IsRun(run) && k < |run| && 1 <= run[0].Total() <= 2
    ensures SmallInv(run[k]) && run[k].Total() == run[0].Total()
  {
    if k == 0 {
      InitInv(run[0]);
      IncrsBounds(run[0].phases);
    } else {
      SmallRunInv(run, k - 1);
      assert StepAt(run, k);
      SmallNextInv(run[k - 1], run[k]);
    }
  }

  /** The state in which the first k of n parts have been reported and the counter reads c. */
  ghost function Lagging(n: nat, k: nat, c: nat): (s: State)
    requires k <= n
  {
    State(seq(n, i => if 0 <= i < k then Reported else Uncounted), c, [])
  }

  /** The late SET of part 0 lowers the counter of a three-or-more-part epoch from 2 to 1. */
  ghost function LateSetPrefix(n: nat): (run: seq<State>)
    requires n >= 3
  {
    var rest := seq(n - 2, i => Uncounted);
    [ State([Uncounted, Uncounted] + rest, 0, []),
      State([Counted(1), Uncounted] + rest, 1, []),
      State([Counted(1), Counted(2)] + rest, 2, []),
      State([Counted(1), Reported] + rest, 2, []),
      Lagging(n, 2, 1) ]
  }

  lemma LateSetPrefixIsRun(n: nat)
    requires n >= 3
    ensures IsRun(LateSetPrefix(n))
  {
    var run := LateSetPrefix(n);
    var rest := seq(n - 2, i => Uncounted);
    assert run[1].phases == run[0].phases[0 := Counted(1)];
    assert NextBy(run[0], run[1], Incrs(0));
    assert run[2].phases == run[1].phases[1 := Counted(2)];
    assert NextBy(run[1], run[2], Incrs(1));
    assert run[3].phases == run[2].phases[1 := Reported];
    assert NextBy(run[2], run[3], Reports(1));
    assert run[4].phases == run[3].phases[0 := Reported];
    assert NextBy(run[3], run[4], Reports(0));
  }

  /** The remaining parts count one by one, always one behind; the last of them reads n - 1. */
  lemma {:induction false} LagNeverCatchesUp(n: nat, k: nat) returns (run: seq<State>)
    requires n >= 3 && 2 <= k <= n
    ensures IsRun(run) && run[|run| - 1] == Lagging(n, k, k - 1) && run[0].Total() == n
  {
    if k == 2 {
      LateSetPrefixIsRun(n);
      run := LateSetPrefix(n);
    } else {
      var before := LagNeverCatchesUp(n, k - 1);
      var s := Lagging(n, k - 1, k - 2);
      var mid := s.(phases := s.phases[k - 1 := Counted(k - 1)], completed := k - 1);
      var s' := Lagging(n, k, k - 1);
      assert NextBy(s, mid, Incrs(k - 1));
      assert s'.phases == mid.phases[k - 1 := Reported];
      assert NextBy(mid, s', Reports(k - 1));
      run := before + [mid, s'];
      assert forall i | 0 < i < |before| :: StepAt(before, i) ==> StepAt(run, i);
    }
  }

  /** Every worker finishes and yet nothing is pushed. */
  ghost predicate IsStuckRun(run: seq<State>, n: nat) {
    IsRun(run) && run[0].Total() == n && Complete(run[|run| - 1]) && run[|run| - 1].pushes == []
  }

  /**
   The push is guaranteed in every interleaving exactly for epochs of one or two parts: from three
   parts on, some interleaving finishes every part without ever pushing the Level-1 message.
   */
  lemma PushGuaranteedExactlyUpToTwoParts(n: nat)
    requires n > 0
    ensures (forall run: seq<State> :: !IsStuckRun(run, n)) <==> n <= 2
  {
    if n <= 2 {
      forall run: seq<State>
        ensures !IsStuckRun(run, n)
      {
        if IsStuckRun(run, n) {
          SmallRunInv(run, |run| - 1);
          IncrsBounds(run[|run| - 1].phases);
        }
      }
    } else {
      var run := LagNeverCatchesUp(n, n);
      assert IsStuckRun(run, n);
    }
  }

  // ---------------------------------------------------------------- the Redis keys of one epoch

  /** The counter, total and ready keys, and the Level-1 queue, as the workers change them. */
  class ProgressKeys {
    var completed: nat
    var total: nat
    var ready: bool
    var level1Queue: seq<nat>

    constructor ()
      ensures completed == 0 && level1Queue == [] && !ready
    {
      completed, total, ready, level1Queue := 0, 0, false, [];
    }

    method Incr() returns (reply: nat)
      modifies this`completed
      ensures reply == completed == old(completed) + 1
    {
      completed := completed + 1;
      reply := completed;
    }

    /** Overwrites the counter with the caller's reply, whatever it has become meanwhile. */
    method UpdateBatchPartsProgress(completed: nat, total: nat)
      modifies this
      ensures this.completed == completed && this.total == total
      ensures level1Queue == old(level1Queue) + (if completed == total && total > 0 then [completed] else [])
      ensures ready == (old(ready) || (completed == total && total > 0))
    {
      this.completed := completed;
      this.total := total;
      if completed == total && total > 0 {
        ready := true;
        level1Queue := level1Queue + [completed];
      }
    }

    /** The end of processBatchPart when no other worker comes between the two commands. */
    method CountAndReport(total: nat)
      modifies this
      ensures forall phases: seq<Phase>, i: nat | i < |phases| == total && phases[i].Uncounted? ::
                IncrAndReport(State(phases, old(completed), old(level1Queue)), State(phases[i := Reported], completed, level1Queue), i)
    {
      var reply := Incr();
      UpdateBatchPartsProgress(reply, total);
    }
  }
}
