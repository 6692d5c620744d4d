/**
 The whole of Level 1 as a concurrent system: any number of finalizer workers store their parts,
 count them and report, while the aggregator waits for a Level-1 message, fetches, merges and
 deletes the parts one by one and finally deletes the counters. A worker's Redis commands are steps of
 their own. The aggregator reads and deletes a part in one step, and stores the batch and deletes the
 counters in one: nobody else uses these keys between its two commands once the message was pushed,
 except for a late SET of the counter, which may as well come before or after both.
 */
module Level1Pipeline {
  import opened Level1Finalization
  import opened Splitting
  import Progress = Level1Progress

  /** The aggregator between two messages, or about to fetch part `next` of `total`. */
  datatype Aggregator = Waiting | Merging(next: nat, total: nat, merged: Part)

  datatype State = State(
    counter: Progress.State,     // the completion counter and each worker's progress
    queue: seq<nat>,             // Level-1 messages not yet consumed
    store: map<nat, Part>,       // the part keys now in Redis
    stored: map<nat, Part>,      // every part ever stored (history)
    aggregator: Aggregator,
    results: seq<Part>           // every merge the aggregator has completed (history)
  )

  ghost predicate Init(s: State, batches: seq<Projects>) {
    && Progress.Init(s.counter) && s.counter.Total() == |batches|
    && s.queue == [] && s.store == map[] && s.stored == map[] && s.aggregator == Waiting && s.results == []
  }

  /** A worker that was handed batch i stores its part; which of several tied CIDs it picked is open. */
  ghost predicate StorePart(batches: seq<Projects>, s: State, s': State, i: nat, part: Part) {
    && i < |batches| && i !in s.stored && IsDirectResult(batches[i], part)
    && s' == s.(store := s.store[i := part], stored := s.stored[i := part])
  }

  /** The INCR follows the store of the same part. */
  ghost predicate CountPart(s: State, s': State, i: nat) {
    && i in s.stored && Progress.Incr(s.counter, s'.counter, i)
    && s' == s.(counter := s'.counter)
  }

  ghost predicate ReportPart(s: State, s': State, i: nat) {
    && Progress.Report(s.counter, s'.counter, i)
    && s' == s.(counter := s'.counter,
                queue := Progress.AfterUpdate(s.queue, s.counter.phases[i].completed, s.counter.Total()))
  }

  ghost predicate Pop(s: State, s': State) {
    && s.aggregator.Waiting? && s.queue != []
    && s' == s.(queue := s.queue[1..], aggregator := Merging(0, s.queue[0], map[]))
  }

  ghost predicate Fetch(s: State, s': State) {
    && s.aggregator.Merging? && s.aggregator.next < s.aggregator.total
    && var Merging(i, total, merged) := s.aggregator;
       s' == s.(aggregator := Merging(i + 1, total, if i in s.store then merged + s.store[i] else merged),
                store := s.store - {i})
  }

  ghost predicate Finish(s: State, s': State) {
    && s.aggregator.Merging? && s.aggregator.next == s.aggregator.total
    && Progress.Clear(s.counter, s'.counter)
    && s' == s.(counter := s'.counter, aggregator := Waiting, results := s.results + [s.aggregator.merged])
  }

  datatype Step = Stores(i: nat, part: Part) | Counts(i: nat) | Reports(i: nat) | Pops | Fetches | Finishes

  ghost predicate NextBy(batches: seq<Projects>, s: State, s': State, step: Step) {
    match step
    case Stores(i, part) => StorePart(batches, s, s', i, part)
    case Counts(i) => CountPart(s, s', i)
    case Reports(i) => ReportPart(s, s', i)
    case Pops => Pop(s, s')
    case Fetches => Fetch(s, s')
    case Finishes => Finish(s, s')
  }

  ghost predicate Next(batches: seq<Projects>, s: State, s': State) {
    exists step :: NextBy(batches, s, s', step)
  }

  ghost predicate IsRun(batches: seq<Projects>, run: seq<State>) {
    && |run| > 0 && Init(run[0], batches)
    && forall k | 0 < k < |run| :: StepAt(batches, run, k)
  }

  ghost predicate StepAt(batches: seq<Projects>, run: seq<State>, k: int)
    requires 0 < k < |run|
  {
    Next(batches, run[k - 1], run[k])
  }

  // ---------------------------------------------------------------- invariant

  /** Counted parts were stored before, and what was stored is a result of the batch. */
  ghost predicate PartsInv(batches: seq<Projects>, s: State) {
    && s.counter.Total() == |batches|
    && (forall i | 0 <= i < |batches| && !s.counter.phases[i].Uncounted? :: i in s.stored)
    && (forall i | i in s.stored :: i < |batches| && IsDirectResult(batches[i], s.stored[i]))
  }

  /** Before the push the aggregator has nothing to do; after it, it merges complete parts exactly once. */
  ghost predicate MergeInv(s: State) {
    var n := s.counter.Total();
    if s.aggregator.Merging? then
      && s.counter.pushes != [] && s.queue == [] && s.results == []
      && s.aggregator.total == n && s.aggregator.next <= n
      && s.aggregator.merged == MergeUpTo(s.stored, s.aggregator.next)
      && (forall i: nat | s.aggregator.next <= i < n :: i in s.stored && i in s.store && s.store[i] == s.stored[i])
      && (forall i | i in s.store :: s.aggregator.next <= i < n)
    else if s.results == [] then
      s.queue == s.counter.pushes && s.store == s.stored
    else
      s.counter.pushes != [] && s.queue == [] && s.results == [MergeUpTo(s.stored, n)] && s.store == map[]
  }

  ghost predicate Inv(batches: seq<Projects>, s: State) {
    Progress.Inv(s.counter) && PartsInv(batches, s) && MergeInv(s)
  }

  /** Once the message has been pushed, every part has been stored. */
  lemma PushedMeansStored(batches: seq<Projects>, s: State)
    requires Progress.Inv(s.counter) && PartsInv(batches, s) && s.counter.pushes != []
    ensures AllPartsStored(batches, s.stored)
  {
    Progress.IncrsBounds(s.counter.phases);
  }

  lemma StorePartInv(batches: seq<Projects>, s: State, s': State, i: nat, part: Part)
    requires Inv(batches, s) && StorePart(batches, s, s', i, part)
    ensures Inv(batches, s')
  {
    assert s.counter.phases[i].Uncounted?;
    Progress.IncrsBounds(s.counter.phases);
  }

  lemma CountPartInv(batches: seq<Projects>, s: State, s': State, i: nat)
    requires Inv(batches, s) && CountPart(s, s', i)
    ensures Inv(batches, s')
  {
    assert Progress.NextBy(s.counter, s'.counter, Progress.Incrs(i));
    Progress.NextInv(s.counter, s'.counter);
  }

  lemma ReportPartInv(batches: seq<Projects>, s: State, s': State, i: nat)
    requires Inv(batches, s) && ReportPart(s, s', i)
    ensures Inv(batches, s')
  {
    assert Progress.NextBy(s.counter, s'.counter, Progress.Reports(i));
    Progress.NextInv(s.counter, s'.counter);
  }

  lemma PopInv(batches: seq<Projects>, s: State, s': State)
    requires Inv(batches, s) && Pop(s, s')
    ensures Inv(batches, s')
  {
    PushedMeansStored(batches, s);
  }

  lemma FetchMergeInv(s: State, s': State)
    requires MergeInv(s) && Fetch(s, s')
    ensures MergeInv(s')
  {
    var i := s.aggregator.next;
    assert s.store[i] == s.stored[i];
    assert s'.aggregator.merged == MergeUpTo(s.stored, i + 1);
  }

  lemma FetchInv(batches: seq<Projects>, s: State, s': State)
    requires Inv(batches, s) && Fetch(s, s')
    ensures Inv(batches, s')
  {
    FetchMergeInv(s, s');
  }

  lemma FinishInv(batches: seq<Projects>, s: State, s': State)
    requires Inv(batches, s) && Finish(s, s')
    ensures Inv(batches, s')
  {
    assert Progress.NextBy(s.counter, s'.counter, Progress.Clears);
    Progress.NextInv(s.counter, s'.counter);
  }

  lemma NextInv(batches: seq<Projects>, s: State, s': State)
    requires Inv(batches, s) && Next(batches, s, s')
    ensures Inv(batches, s')
  {
    var step :| NextBy(batches, s, s', step);
    match step
    case Stores(i, part) => StorePartInv(batches, s, s', i, part);
    case Counts(i) => CountPartInv(batches, s, s', i);
    case Reports(i) => ReportPartInv(batches, s, s', i);
    case Pops => PopInv(batches, s, s');
    case Fetches => FetchInv(batches, s, s');
    case Finishes => FinishInv(batches, s, s');
  }

  lemma {:induction false} RunInv(batches: seq<Projects>, run: seq<State>, k: nat)
    requires IsRun(batches, run) && k < |run|
    ensures Inv(batches, run[k])
  {
    if k == 0 {
      Progress.InitInv(run[0].counter);
    } else {
      RunInv(batches, run, k - 1);
      assert StepAt(batches, run, k);
      NextInv(batches, run[k - 1], run[k]);
    }
  }

  /**
   For every batch size and every interleaving of the workers and the aggregator, an epoch is merged
   at most once, what is merged is a result of one direct pass over all of its projects, and then every part
   key is deleted and no message left.
   */
  lemma PipelineComputesADirectPass(projects: Projects, batches: seq<Projects>, run: seq<State>, k: nat)
    requires IsSplit(projects, batches) && IsRun(batches, run) && k < |run|
    ensures |run[k].results| <= 1
    ensures forall r | r in run[k].results :: IsDirectResult(projects, r)
    ensures run[k].results != [] ==> run[k].store == map[] && run[k].queue == []
  {
    RunInv(batches, run, k);
    if run[k].results != [] {
      PushedMeansStored(batches, run[k]);
      MergedPartsAreADirectResult(projects, batches, run[k].stored);
    }
  }

  /** Without ties and empty CIDs, every run that completes an epoch returns what a single worker would. */
  lemma UntiedPipelineIsDeterministic(projects: Projects, batches: seq<Projects>, run: seq<State>, k: nat, direct: Part)
    requires IsSplit(projects, batches) && IsRun(batches, run) && k < |run| && run[k].results != []
    requires CidsNonEmpty(projects) && NoTies(projects) && IsDirectResult(projects, direct)
    ensures run[k].results == [direct]
  {
    PipelineComputesADirectPass(projects, batches, run, k);
    DirectResultsAgree(projects, run[k].results[0], direct);
  }

  /** In every interleaving the message is pushed only once every part is stored. */
  lemma PushedOnlyWhenStored(batches: seq<Projects>, run: seq<State>, k: nat)
    requires IsRun(batches, run) && k < |run| && run[k].counter.pushes != []
    ensures AllPartsStored(batches, run[k].stored)
  {
    RunInv(batches, run, k);
    PushedMeansStored(batches, run[k]);
  }

  // ---------------------------------------------------------------- runs that complete

  lemma OneMoreState(batches: seq<Projects>, run: seq<State>, s: State, step: Step) returns (longer: seq<State>)
    requires IsRun(batches, run) && NextBy(batches, run[|run| - 1], s, step)
    ensures IsRun(batches, longer) && longer == run + [s]
  {
    longer := run + [s];
    forall k | 0 < k < |longer|
      ensures StepAt(batches, longer, k)
    {
      if k < |run| {
        assert StepAt(batches, run, k);
      }
    }
  }

  /** The counter once the first k of n parts have been counted and reported one after the other. */
  ghost function CountedInTurn(n: nat, k: nat): Progress.State
    requires k <= n
  {
    Progress.State(seq(n, i => if i < k then Progress.Reported else Progress.Uncounted), k, if k == n && n > 0 then [n] else [])
  }

  /** The parts with numbers from lo up to hi. */
  ghost function Range(parts: map<nat, Part>, lo: nat, hi: nat): map<nat, Part> {
    map i: nat | lo <= i < hi && i in parts :: parts[i]
  }

  /** The first k parts are stored, counted and reported, and nothing else has happened. */
  ghost function WorkersDone(parts: map<nat, Part>, n: nat, k: nat): State
    requires k <= n
  {
    State(CountedInTurn(n, k), if k == n && n > 0 then [n] else [], Range(parts, 0, k), Range(parts, 0, k), Waiting, [])
  }

  lemma OneWorker(batches: seq<Projects>, parts: map<nat, Part>, run: seq<State>, k: nat) returns (longer: seq<State>)
    requires k < |batches| && k in parts && IsDirectResult(batches[k], parts[k])
    requires IsRun(batches, run) && run[|run| - 1] == WorkersDone(parts, |batches|, k)
    ensures IsRun(batches, longer) && longer[|longer| - 1] == WorkersDone(parts, |batches|, k + 1)
  {
    var n, s := |batches|, WorkersDone(parts, |batches|, k);
    var s1 := s.(store := s.store[k := parts[k]], stored := s.stored[k := parts[k]]);
    longer := OneMoreState(batches, run, s1, Stores(k, parts[k]));
    var s2 := s1.(counter := Progress.State(s.counter.phases[k := Progress.Counted(k + 1)], k + 1, s.counter.pushes));
    longer := OneMoreState(batches, longer, s2, Counts(k));
    var last := WorkersDone(parts, n, k + 1);
    assert last.counter.phases == s2.counter.phases[k := Progress.Reported];
    assert Range(parts, 0, k)[k := parts[k]] == Range(parts, 0, k + 1);
    longer := OneMoreState(batches, longer, last, Reports(k));
  }

  lemma {:induction false} WorkersRun(batches: seq<Projects>, parts: map<nat, Part>, k: nat) returns (run: seq<State>)
    requires k <= |batches| && AllPartsStored(batches, parts)
    ensures IsRun(batches, run) && run[|run| - 1] == WorkersDone(parts, |batches|, k)
  {
    if k == 0 {
      run := [WorkersDone(parts, |batches|, 0)];
    } else {
      run := WorkersRun(batches, parts, k - 1);
      run := OneWorker(batches, parts, run, k - 1);
    }
  }

  /** The aggregator has fetched and deleted the first k parts. */
  ghost function Fetched(parts: map<nat, Part>, n: nat, k: nat): State {
    State(CountedInTurn(n, n), [], Range(parts, k, n), Range(parts, 0, n), Merging(k, n, MergeUpTo(parts, k)), [])
  }

  /** The aggregator fetches part k. */
  lemma NextFetch(batches: seq<Projects>, parts: map<nat, Part>, k: nat)
    requires k < |batches| && AllPartsStored(batches, parts)
    ensures NextBy(batches, Fetched(parts, |batches|, k), Fetched(parts, |batches|, k + 1), Fetches)
  {
    assert Range(parts, k, |batches|) - {k} == Range(parts, k + 1, |batches|);
  }

  lemma {:induction false} FetchesRun(batches: seq<Projects>, parts: map<nat, Part>, k: nat) returns (run: seq<State>)
    requires 0 < |batches| && k <= |batches| && AllPartsStored(batches, parts)
    ensures IsRun(batches, run) && run[|run| - 1] == Fetched(parts, |batches|, k)
  {
    if k == 0 {
      run := WorkersRun(batches, parts, |batches|);
      run := OneMoreState(batches, run, Fetched(parts, |batches|, 0), Pops);
    } else {
      run := FetchesRun(batches, parts, k - 1);
      NextFetch(batches, parts, k - 1);
      run := OneMoreState(batches, run, Fetched(parts, |batches|, k), Fetches);
    }
  }

  /** Whatever a direct pass may return, some run of the pipeline completes the epoch with it. */
  lemma EveryDirectResultIsReached(projects: Projects, batches: seq<Projects>, direct: Part) returns (run: seq<State>)
    requires IsSplit(projects, batches) && batches != [] && IsDirectResult(projects, direct)
    ensures IsRun(batches, run) && run[|run| - 1].results == [direct]
  {
    var parts := EveryDirectResultIsAMerge(projects, batches, direct);
    var n := |batches|;
    run := FetchesRun(batches, parts, n);
    var s := run[|run| - 1];
    run := OneMoreState(batches, run, s.(counter := s.counter.(completed := 0), aggregator := Waiting, results := [direct]), Finishes);
  }
}
