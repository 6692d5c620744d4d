/**
 From deliveries to votes: dequeuer workers process whatever is delivered, repeats included, and when
 an epoch's window closes the event monitor counts the recorded submissions per project and CID.
 One sequencer id is assumed, so each submission id has one record key; keys do not expire.
 */
module VoteCollection {
  import opened Dequeuer
  import opened JoinedTexts
  import opened Sequences
  import opened SubmissionIds
  import opened Tallies
  import L1 = Level1Finalization

  // ---------------------------------------------------------------- deliveries

  datatype Delivery = Delivery(submission: Submission, verdict: Verdict, processedAt: int)

  function IdOf(d: Delivery): string {
    SubmissionId(d.submission.request)
  }

  function RecordOf(d: Delivery): ProcessedSubmission
    requires d.verdict.Accepted?
  {
    ProcessedSubmission(IdOf(d), d.submission, d.verdict.snapshotterAddr, d.processedAt)
  }

  /** Up to 1000 submissions are remembered; one more, and only the newest 500 are. */
  ghost predicate Remembered(all: Memory, kept: Memory) {
    if |all| <= 1000 then kept == all else IsNewest(all, kept, 500)
  }

  /** A delivery with a remembered id, or a rejected one, leaves everything alone. */
  ghost predicate Ignored(d: Delivery, memory: Memory, store: Store, memory': Memory, store': Store) {
    (IdOf(d) in memory || d.verdict.Rejected?) && memory' == memory && store' == store
  }

  /** An accepted one is remembered and recorded. Its id may be remembered already if another goroutine is processing it too. */
  ghost predicate Recorded(d: Delivery, memory: Memory, store: Store, memory': Memory, store': Store) {
    d.verdict.Accepted? && Remembered(memory[IdOf(d) := RecordOf(d)], memory') && store' == Stored(store, RecordOf(d))
  }

  /** What one delivery does to the dequeuer's memory and to Redis. */
  ghost predicate Delivered(d: Delivery, memory: Memory, store: Store, memory': Memory, store': Store) {
    Ignored(d, memory, store, memory', store') || Recorded(d, memory, store, memory', store')
  }

  /** A dequeuer worker: builds the id and processes the submission. */
  method Deliver(dequeuer: Dequeuer, submission: Submission, now: int)
    requires dequeuer.Valid()
    modifies dequeuer, dequeuer.redis
    ensures dequeuer.Valid()
    ensures Delivered(Delivery(submission, dequeuer.checks.Examine(submission), now),
                      old(dequeuer.processedSubmissions), old(dequeuer.redis.store),
                      dequeuer.processedSubmissions, dequeuer.redis.store)
  {
    var submissionId := SubmissionId(submission.request);
    var outcome := dequeuer.ProcessSubmission(submission, submissionId, now);
  }

  // ---------------------------------------------------------------- runs

  /**
   The states of Redis and of the dequeuer's memory before, between and after the deliveries. The dequeuer
   may be restarted before a delivery, with nothing remembered.
   */
  datatype Run = Run(deliveries: seq<Delivery>, restarted: seq<bool>, memories: seq<Memory>, stores: seq<Store>) {
    ghost predicate Valid() {
      && |restarted| == |deliveries| && |memories| == |stores| == |deliveries| + 1
      && memories[0] == map[] && stores[0] == Store(map[], map[])
      && forall k | 0 <= k < |deliveries| :: StepAt(k)
    }

    /** What is remembered when delivery k comes. */
    ghost function MemoryAt(k: int): Memory
      requires 0 <= k < |restarted| <= |memories|
    {
      if restarted[k] then map[] else memories[k]
    }

    ghost predicate StepAt(k: int)
      requires 0 <= k < |deliveries| == |restarted| && |memories| == |stores| == |deliveries| + 1
    {
      Delivered(deliveries[k], MemoryAt(k), stores[k], memories[k + 1], stores[k + 1])
    }
  }

  /**
   Accepted deliveries with the same id are for the same protocol state and data market: ids do not name
   them, and the dequeuer remembers ids only.
   */
  ghost predicate OneNamespacePerId(ds: seq<Delivery>) {
    forall d, e | d in ds && e in ds && d.verdict.Accepted? && e.verdict.Accepted? && IdOf(d) == IdOf(e) ::
      NamespaceOf(d.submission) == NamespaceOf(e.submission)
  }

  /** d was accepted for the given namespace and epoch. */
  predicate Counts(d: Delivery, ns: Namespace, epoch: nat) {
    d.verdict.Accepted? && NamespaceOf(d.submission) == ns && d.submission.request.epochId == epoch
  }

  /** The ids of the accepted submissions of an epoch. */
  ghost function AcceptedIds(ds: seq<Delivery>, ns: Namespace, epoch: nat): set<string> {
    set d | d in ds && Counts(d, ns, epoch) :: IdOf(d)
  }

  /** The record under a key is that of some accepted delivery with this id. */
  ghost predicate RecordedBy(ds: seq<Delivery>, store: Store, ns: Namespace, id: string) {
    (ns, id) in store.records && exists d :: d in ds && d.verdict.Accepted? && IdOf(d) == id && store.records[(ns, id)] == RecordOf(d)
  }

  /** What is remembered under an id is the record of an accepted delivery, and is in the set of its epoch. */
  ghost predicate RememberedFrom(ds: seq<Delivery>, memory: Memory, store: Store, id: string)
    requires id in memory
  {
    exists d :: d in ds && d.verdict.Accepted? && IdOf(d) == id && memory[id] == RecordOf(d)
                && id in store.EpochSet(NamespaceOf(d.submission), d.submission.request.epochId)
  }

  ghost predicate MemoryInv(ds: seq<Delivery>, memory: Memory, store: Store) {
    forall id | id in memory :: RememberedFrom(ds, memory, store, id)
  }

  /** The epoch's set holds the ids of its accepted submissions, and each has its record. */
  ghost predicate EpochInv(ds: seq<Delivery>, store: Store, ns: Namespace, epoch: nat) {
    && store.EpochSet(ns, epoch) == AcceptedIds(ds, ns, epoch)
    && forall id | id in AcceptedIds(ds, ns, epoch) :: RecordedBy(ds, store, ns, id)
  }

  lemma AcceptedIdsSnoc(ds: seq<Delivery>, d: Delivery, ns: Namespace, epoch: nat)
    ensures AcceptedIds(ds + [d], ns, epoch) ==
            if Counts(d, ns, epoch) then AcceptedIds(ds, ns, epoch) + {IdOf(d)} else AcceptedIds(ds, ns, epoch)
  {
    assert forall x :: x in ds + [d] <==> x in ds || x == d;
  }

  /** A delivery whose id is already recorded adds no id. */
  lemma RepeatAddsNoId(ds: seq<Delivery>, d: Delivery, earlier: Delivery, ns: Namespace, epoch: nat)
    requires earlier in ds && earlier.verdict.Accepted? && IdOf(earlier) == IdOf(d)
    requires NamespaceOf(earlier.submission) == NamespaceOf(d.submission)
    ensures AcceptedIds(ds + [d], ns, epoch) == AcceptedIds(ds, ns, epoch)
  {
    AcceptedIdsSnoc(ds, d, ns, epoch);
    SameIdSameEpoch(earlier.submission.request, d.submission.request);
    if Counts(d, ns, epoch) {
      assert IdOf(earlier) in AcceptedIds(ds, ns, epoch);
    }
  }

  lemma RecordedByMore(ds: seq<Delivery>, d: Delivery, store: Store, ns: Namespace, id: string)
    requires RecordedBy(ds, store, ns, id)
    ensures RecordedBy(ds + [d], store, ns, id)
  {
    var e :| e in ds && e.verdict.Accepted? && IdOf(e) == id && store.records[(ns, id)] == RecordOf(e);
    assert e in ds + [d];
  }

  /** What an id stands for in memory after a delivery: what it stood for before, or the delivery's record. */
  lemma RememberedOldOrNew(d: Delivery, memory: Memory, store: Store, memory': Memory, store': Store, id: string)
    requires Delivered(d, memory, store, memory', store') && id in memory'
    ensures (id in memory && memory'[id] == memory[id]) || (d.verdict.Accepted? && id == IdOf(d) && memory'[id] == RecordOf(d))
    ensures d.verdict.Accepted? && id == IdOf(d) && id !in memory ==> store' == Stored(store, RecordOf(d))
  {
  }

  lemma StillRemembered(ds: seq<Delivery>, d: Delivery, memory: Memory, store: Store, memory': Memory, store': Store, id: string)
    requires MemoryInv(ds, memory, store) && Delivered(d, memory, store, memory', store') && id in memory'
    ensures RememberedFrom(ds + [d], memory', store', id)
  {
    if d.verdict.Accepted? {
      StoredRecordsExactly(store, RecordOf(d));
    }
    RememberedOldOrNew(d, memory, store, memory', store', id);
    if id in memory && memory'[id] == memory[id] {
      assert RememberedFrom(ds, memory, store, id);
      var e :| e in ds && e.verdict.Accepted? && IdOf(e) == id && memory[id] == RecordOf(e)
               && id in store.EpochSet(NamespaceOf(e.submission), e.submission.request.epochId);
      assert e in ds + [d];
    } else {
      assert d in ds + [d];
    }
  }

  /** After a restart, only what has been delivered since is remembered. */
  lemma {:induction false} RestartForgets(run: Run, k: nat, l: nat, id: string)
    requires run.Valid() && k < l <= |run.deliveries| && run.restarted[k] && id in run.memories[l]
    ensures exists j :: k <= j < l && IdOf(run.deliveries[j]) == id
  {
    var d := run.deliveries[l - 1];
    assert run.StepAt(l - 1);
    RememberedOldOrNew(d, run.MemoryAt(l - 1), run.stores[l - 1], run.memories[l], run.stores[l], id);
    if IdOf(d) == id {
      assert k <= l - 1 < l;
    } else {
      RestartForgets(run, k, l - 1, id);
    }
  }

  lemma {:induction false} MemoryRunInv(run: Run, k: nat)
    requires run.Valid() && k <= |run.deliveries|
    ensures MemoryInv(run.deliveries[..k], run.memories[k], run.stores[k])
  {
    if k > 0 {
      MemoryRunInv(run, k - 1);
      assert run.StepAt(k - 1);
      var before, d := run.deliveries[..k - 1], run.deliveries[k - 1];
      assert run.deliveries[..k] == before + [d];
      forall id | id in run.memories[k]
        ensures RememberedFrom(run.deliveries[..k], run.memories[k], run.stores[k], id)
      {
        StillRemembered(before, d, run.MemoryAt(k - 1), run.stores[k - 1], run.memories[k], run.stores[k], id);
      }
    }
  }

  lemma IgnoredInv(ds: seq<Delivery>, d: Delivery, memory: Memory, store: Store, ns: Namespace, epoch: nat)
    requires OneNamespacePerId(ds + [d])
    requires MemoryInv(ds, memory, store) && (IdOf(d) in memory || d.verdict.Rejected?)
    requires EpochInv(ds, store, ns, epoch)
    ensures EpochInv(ds + [d], store, ns, epoch)
  {
    AcceptedIdsSnoc(ds, d, ns, epoch);
    if d.verdict.Accepted? {
      assert RememberedFrom(ds, memory, store, IdOf(d));
      var earlier :| earlier in ds && earlier.verdict.Accepted? && IdOf(earlier) == IdOf(d) && memory[IdOf(d)] == RecordOf(earlier);
      assert earlier in ds + [d] && d in ds + [d];
      RepeatAddsNoId(ds, d, earlier, ns, epoch);
    }
    forall id | id in AcceptedIds(ds, ns, epoch)
      ensures RecordedBy(ds + [d], store, ns, id)
    {
      RecordedByMore(ds, d, store, ns, id);
    }
  }

  lemma StillRecorded(ds: seq<Delivery>, d: Delivery, store: Store, ns: Namespace, id: string)
    requires d.verdict.Accepted?
    requires RecordedBy(ds, store, ns, id) || (NamespaceOf(d.submission) == ns && IdOf(d) == id)
    ensures RecordedBy(ds + [d], Stored(store, RecordOf(d)), ns, id)
  {
    if NamespaceOf(d.submission) == ns && IdOf(d) == id {
      assert d in ds + [d];
    } else {
      var e :| e in ds && e.verdict.Accepted? && IdOf(e) == id && store.records[(ns, id)] == RecordOf(e);
      assert e in ds + [d];
    }
  }

  lemma RecordedInv(ds: seq<Delivery>, d: Delivery, store: Store, ns: Namespace, epoch: nat)
    requires EpochInv(ds, store, ns, epoch) && d.verdict.Accepted?
    ensures EpochInv(ds + [d], Stored(store, RecordOf(d)), ns, epoch)
  {
    AcceptedIdsSnoc(ds, d, ns, epoch);
    forall id | id in AcceptedIds(ds + [d], ns, epoch)
      ensures RecordedBy(ds + [d], Stored(store, RecordOf(d)), ns, id)
    {
      StillRecorded(ds, d, store, ns, id);
    }
  }

  lemma {:induction false} RunInv(run: Run, k: nat, ns: Namespace, epoch: nat)
    requires run.Valid() && OneNamespacePerId(run.deliveries) && k <= |run.deliveries|
    ensures EpochInv(run.deliveries[..k], run.stores[k], ns, epoch)
  {
    if k == 0 {
      assert run.deliveries[..0] == [];
    } else {
      RunInv(run, k - 1, ns, epoch);
      MemoryRunInv(run, k - 1);
      assert run.StepAt(k - 1);
      var before, d := run.deliveries[..k - 1], run.deliveries[k - 1];
      assert run.deliveries[..k] == before + [d];
      assert forall x | x in before + [d] :: x in run.deliveries;
      if Recorded(d, run.MemoryAt(k - 1), run.stores[k - 1], run.memories[k], run.stores[k]) {
        RecordedInv(before, d, run.stores[k - 1], ns, epoch);
      } else {
        IgnoredInv(before, d, run.MemoryAt(k - 1), run.stores[k - 1], ns, epoch);
      }
    }
  }

  // ---------------------------------------------------------------- what is recorded was admitted

  /** Every verdict is that of the dequeuer's checks. */
  ghost predicate Examined(ds: seq<Delivery>, checks: Checks) {
    forall d | d in ds :: d.verdict == checks.Examine(d.submission)
  }

  /** The record is of a delivered submission that the checks admit with the recorded address. */
  ghost predicate WasAdmitted(ds: seq<Delivery>, checks: Checks, ns: Namespace, id: string, p: ProcessedSubmission) {
    && p.id == id && checks.Admits(p.submission, p.snapshotterAddr)
    && exists d :: d in ds && d.submission == p.submission && d.processedAt == p.processedAt
                   && IdOf(d) == id && ns == (d.submission.protocolState, d.submission.dataMarket)
  }

  lemma StillAdmitted(ds: seq<Delivery>, d: Delivery, checks: Checks, ns: Namespace, id: string, p: ProcessedSubmission)
    requires WasAdmitted(ds, checks, ns, id, p)
    ensures WasAdmitted(ds + [d], checks, ns, id, p)
  {
    var e :| e in ds && e.submission == p.submission && e.processedAt == p.processedAt
             && IdOf(e) == id && ns == (e.submission.protocolState, e.submission.dataMarket);
    assert e in ds + [d];
  }

  lemma NowAdmitted(ds: seq<Delivery>, d: Delivery, checks: Checks)
    requires d.verdict.Accepted? && d.verdict == checks.Examine(d.submission)
    ensures WasAdmitted(ds + [d], checks, NamespaceOf(d.submission), IdOf(d), RecordOf(d))
  {
    AcceptedExactlyWhenAdmitted(checks, d.submission, d.verdict.snapshotterAddr);
    assert d in ds + [d];
  }

  /** In every run, each record is of some delivered submission that the checks admit, with the address they recover. */
  lemma {:induction false} RecordsWereAdmitted(run: Run, checks: Checks, k: nat, ns: Namespace, id: string)
    requires run.Valid() && Examined(run.deliveries, checks) && k <= |run.deliveries| && (ns, id) in run.stores[k].records
    ensures WasAdmitted(run.deliveries[..k], checks, ns, id, run.stores[k].records[(ns, id)])
  {
    assert run.StepAt(k - 1);
    var before, d := run.deliveries[..k - 1], run.deliveries[k - 1];
    assert run.deliveries[..k] == before + [d];
    if (ns, id) in run.stores[k - 1].records && run.stores[k].records[(ns, id)] == run.stores[k - 1].records[(ns, id)] {
      RecordsWereAdmitted(run, checks, k - 1, ns, id);
      StillAdmitted(before, d, checks, ns, id, run.stores[k].records[(ns, id)]);
    } else {
      StoredRecordsExactly(run.stores[k - 1], RecordOf(d));
      NowAdmitted(before, d, checks);
    }
  }

  /** Conversely, a submission that the checks admit is recorded with that address, unless its id is remembered. */
  lemma AdmittedIsRecorded(run: Run, checks: Checks, k: nat, addr: Address)
    requires run.Valid() && Examined(run.deliveries, checks) && k < |run.deliveries|
    requires IdOf(run.deliveries[k]) !in run.MemoryAt(k) && checks.Admits(run.deliveries[k].submission, addr)
    ensures var d := run.deliveries[k];
            var ns, id := (d.submission.protocolState, d.submission.dataMarket), IdOf(d);
            && (ns, id) in run.stores[k + 1].records
            && run.stores[k + 1].records[(ns, id)] == ProcessedSubmission(id, d.submission, addr, d.processedAt)
            && id in run.stores[k + 1].EpochSet(ns, d.submission.request.epochId)
  {
    var d := run.deliveries[k];
    assert run.StepAt(k) && d in run.deliveries;
    AcceptedExactlyWhenAdmitted(checks, d.submission, addr);
    StoredRecordsExactly(run.stores[k], RecordOf(d));
  }

  // ---------------------------------------------------------------- when an acceptance is missed

  /** Delivery k repeats an accepted submission for a namespace and id, whatever its record says. */
  ghost predicate Repeats(run: Run, k: int, ns: Namespace, id: string) {
    0 <= k < |run.deliveries| && run.deliveries[k].verdict.Accepted?
    && NamespaceOf(run.deliveries[k].submission) == ns && IdOf(run.deliveries[k]) == id
  }

  /** Delivery k was ignored because its id is remembered from another namespace. */
  ghost predicate Shadowed(run: Run, k: int)
    requires run.Valid() && 0 <= k < |run.deliveries|
  {
    var d, memory := run.deliveries[k], run.MemoryAt(k);
    && IdOf(d) in memory && NamespaceOf(memory[IdOf(d)].submission) != NamespaceOf(d.submission)
    && run.stores[k + 1] == run.stores[k]
  }

  ghost predicate AlwaysShadowed(run: Run, ns: Namespace, id: string)
    requires run.Valid()
  {
    forall k | Repeats(run, k, ns, id) :: Shadowed(run, k)
  }

  /** What is in an epoch's set stays there. */
  lemma {:induction false} EpochSetsGrow(run: Run, k: nat, l: nat, ns: Namespace, epoch: nat)
    requires run.Valid() && k <= l <= |run.deliveries|
    ensures run.stores[k].EpochSet(ns, epoch) <= run.stores[l].EpochSet(ns, epoch)
  {
    if k < l {
      EpochSetsGrow(run, k, l - 1, ns, epoch);
      assert run.StepAt(l - 1);
    }
  }

  /** An accepted delivery whose id does not get into its epoch's set is shadowed. */
  lemma MissedIsShadowed(run: Run, k: nat)
    requires run.Valid() && k < |run.deliveries| && run.deliveries[k].verdict.Accepted?
    requires IdOf(run.deliveries[k]) !in run.stores[k + 1].EpochSet(NamespaceOf(run.deliveries[k].submission), run.deliveries[k].submission.request.epochId)
    ensures Shadowed(run, k)
  {
    var d := run.deliveries[k];
    var id := IdOf(d);
    assert run.StepAt(k);
    StoredRecordsExactly(run.stores[k], RecordOf(d));
    MemoryRunInv(run, k);
    assert id in run.MemoryAt(k) && RememberedFrom(run.deliveries[..k], run.memories[k], run.stores[k], id);
    var e :| e in run.deliveries[..k] && e.verdict.Accepted? && IdOf(e) == id && run.memories[k][id] == RecordOf(e)
             && id in run.stores[k].EpochSet(NamespaceOf(e.submission), e.submission.request.epochId);
    SameIdSameEpoch(d.submission.request, e.submission.request);
  }

  /** While every delivery for a namespace and id is shadowed, the id is in none of the namespace's sets. */
  lemma {:induction false} ShadowedIsMissed(run: Run, k: nat, ns: Namespace, epoch: nat, id: string)
    requires run.Valid() && k <= |run.deliveries| && AlwaysShadowed(run, ns, id)
    ensures id !in run.stores[k].EpochSet(ns, epoch)
  {
    if k > 0 {
      ShadowedIsMissed(run, k - 1, ns, epoch, id);
      assert run.StepAt(k - 1);
      var d := run.deliveries[k - 1];
      if Repeats(run, k - 1, ns, id) {
        assert Shadowed(run, k - 1);
      } else if d.verdict.Accepted? {
        StoredRecordsExactly(run.stores[k - 1], RecordOf(d));
      }
    }
  }

  /**
   In every run: an accepted submission is missing from its epoch's set at the end exactly when each of its
   deliveries came while its id was remembered from another namespace, and was ignored for that.
   */
  lemma MissedExactlyWhenAlwaysShadowed(run: Run, d: Delivery)
    requires run.Valid() && d in run.deliveries && d.verdict.Accepted?
    ensures var ns, epoch := NamespaceOf(d.submission), d.submission.request.epochId;
            IdOf(d) !in run.stores[|run.deliveries|].EpochSet(ns, epoch) <==> AlwaysShadowed(run, ns, IdOf(d))
  {
    var ns, epoch, id, n := NamespaceOf(d.submission), d.submission.request.epochId, IdOf(d), |run.deliveries|;
    if AlwaysShadowed(run, ns, id) {
      ShadowedIsMissed(run, n, ns, epoch, id);
    }
    if id !in run.stores[n].EpochSet(ns, epoch) {
      forall k | Repeats(run, k, ns, id)
        ensures Shadowed(run, k)
      {
        EpochSetsGrow(run, k + 1, n, ns, epoch);
        SameIdSameEpoch(d.submission.request, run.deliveries[k].submission.request);
        MissedIsShadowed(run, k);
      }
    }
  }

  /** Nothing else is in an epoch's set. */
  lemma {:induction false} OnlyAcceptedAreRecorded(run: Run, k: nat, ns: Namespace, epoch: nat)
    requires run.Valid() && k <= |run.deliveries|
    ensures run.stores[k].EpochSet(ns, epoch) <= AcceptedIds(run.deliveries[..k], ns, epoch)
  {
    if k > 0 {
      OnlyAcceptedAreRecorded(run, k - 1, ns, epoch);
      assert run.StepAt(k - 1);
      var before, d := run.deliveries[..k - 1], run.deliveries[k - 1];
      assert run.deliveries[..k] == before + [d];
      OneDeliveryRecordsAccepted(before, d, run.MemoryAt(k - 1), run.stores[k - 1], run.memories[k], run.stores[k], ns, epoch);
    }
  }

  lemma OneDeliveryRecordsAccepted(ds: seq<Delivery>, d: Delivery, memory: Memory, store: Store, memory': Memory, store': Store, ns: Namespace, epoch: nat)
    requires Delivered(d, memory, store, memory', store') && store.EpochSet(ns, epoch) <= AcceptedIds(ds, ns, epoch)
    ensures store'.EpochSet(ns, epoch) <= AcceptedIds(ds + [d], ns, epoch)
  {
    AcceptedIdsSnoc(ds, d, ns, epoch);
    if store' != store {
      StoredRecordsExactly(store, RecordOf(d));
    }
  }

  // ---------------------------------------------------------------- sequences of which every acceptance reaches its epoch

  /** In every run, every epoch's set ends up with the ids of its accepted submissions. */
  ghost predicate RecordsEveryAcceptance(ds: seq<Delivery>) {
    forall run: Run, ns, epoch | run.Valid() && run.deliveries == ds :: run.stores[|ds|].EpochSet(ns, epoch) == AcceptedIds(ds, ns, epoch)
  }

  /** Every id that was ever accepted. */
  ghost function AllAcceptedIds(ds: seq<Delivery>): set<string> {
    set d | d in ds && d.verdict.Accepted? :: IdOf(d)
  }

  lemma AllAcceptedIdsSnoc(ds: seq<Delivery>, d: Delivery)
    ensures AllAcceptedIds(ds + [d]) == if d.verdict.Accepted? then AllAcceptedIds(ds) + {IdOf(d)} else AllAcceptedIds(ds)
  {
    assert forall x :: x in ds + [d] <==> x in ds || x == d;
  }

  /** Every recorded id is remembered, and is in sets of one namespace only. */
  ghost predicate KeptInv(memory: Memory, store: Store) {
    && (forall ns, epoch, id | id in store.EpochSet(ns, epoch) :: id in memory)
    && (forall ns, epoch, n, e, id | id in store.EpochSet(ns, epoch) && id in store.EpochSet(n, e) :: ns == n)
  }

  lemma KeepingOneMore(memory: Memory, store: Store, p: ProcessedSubmission)
    requires KeptInv(memory, store) && p.id !in memory
    ensures KeptInv(memory[p.id := p], Stored(store, p))
  {
    StoredRecordsExactly(store, p);
  }

  ghost function Longer(run: Run, d: Delivery, memory: Memory, store: Store): Run {
    Run(run.deliveries + [d], run.restarted + [false], run.memories + [memory], run.stores + [store])
  }

  lemma EarlierStepsStay(run: Run, d: Delivery, memory: Memory, store: Store, k: nat)
    requires run.Valid() && k < |run.deliveries|
    ensures Longer(run, d, memory, store).StepAt(k)
  {
    assert run.StepAt(k);
    assert Longer(run, d, memory, store).MemoryAt(k) == run.MemoryAt(k);
  }

  lemma OneMoreDelivery(run: Run, d: Delivery, memory: Memory, store: Store) returns (longer: Run)
    requires run.Valid() && Delivered(d, run.memories[|run.deliveries|], run.stores[|run.deliveries|], memory, store)
    ensures longer.Valid() && longer == Longer(run, d, memory, store)
  {
    longer := Longer(run, d, memory, store);
    var n := |run.deliveries|;
    assert longer.MemoryAt(n) == run.memories[n];
    assert longer.StepAt(n);
    forall k | 0 <= k < |longer.deliveries|
      ensures longer.StepAt(k)
    {
      if k < n {
        EarlierStepsStay(run, d, memory, store, k);
      }
    }
  }

  /** A new id among at most 1000 is remembered beside all others. */
  lemma RememberingOneMore(ds: seq<Delivery>, d: Delivery, memory: Memory, store: Store)
    requires d.verdict.Accepted? && memory.Keys == AllAcceptedIds(ds) && |AllAcceptedIds(ds + [d])| <= 1000
    ensures memory[IdOf(d) := RecordOf(d)].Keys == AllAcceptedIds(ds + [d])
    ensures Recorded(d, memory, store, memory[IdOf(d) := RecordOf(d)], Stored(store, RecordOf(d)))
  {
    AllAcceptedIdsSnoc(ds, d);
    var more := memory[IdOf(d) := RecordOf(d)];
    assert more.Keys == memory.Keys + {IdOf(d)};
    assert |more| == |more.Keys|;
  }

  /** Every id accepted in the run is still remembered. */
  ghost predicate KeepsAll(run: Run) {
    && run.Valid()
    && KeptInv(run.memories[|run.deliveries|], run.stores[|run.deliveries|])
    && run.memories[|run.deliveries|].Keys == AllAcceptedIds(run.deliveries)
  }

  /** What remembering all leads to when one more is delivered. */
  lemma KeptMemory(d: Delivery, ds: seq<Delivery>, memory: Memory, store: Store) returns (memory': Memory, store': Store)
    requires KeptInv(memory, store) && memory.Keys == AllAcceptedIds(ds) && |AllAcceptedIds(ds + [d])| <= 1000
    ensures Delivered(d, memory, store, memory', store') && KeptInv(memory', store') && memory'.Keys == AllAcceptedIds(ds + [d])
  {
    if d.verdict.Rejected? || IdOf(d) in memory {
      AllAcceptedIdsSnoc(ds, d);
      memory', store' := memory, store;
    } else {
      KeepingOneMore(memory, store, RecordOf(d));
      RememberingOneMore(ds, d, memory, store);
      memory', store' := memory[IdOf(d) := RecordOf(d)], Stored(store, RecordOf(d));
    }
  }

  /** Up to 1000 different ids, a dequeuer that is not restarted forgets none. */
  lemma {:induction false} KeepAll(ds: seq<Delivery>) returns (run: Run)
    requires |AllAcceptedIds(ds)| <= 1000
    ensures KeepsAll(run) && run.deliveries == ds
  {
    if ds == [] {
      run := Run([], [], [map[]], [Store(map[], map[])]);
    } else {
      var n := |ds| - 1;
      var front, d := ds[..n], ds[n];
      assert ds == front + [d];
      AllAcceptedIdsSnoc(front, d);
      SubsetsAreSmaller(AllAcceptedIds(front), AllAcceptedIds(ds));
      var before := KeepAll(front);
      var memory, store := KeptMemory(d, front, before.memories[n], before.stores[n]);
      run := OneMoreDelivery(before, d, memory, store);
    }
  }

  /** Of two accepted submissions with one id in different markets, one is missing from its epoch when nothing is forgotten. */
  lemma OtherNamespaceIsShadowed(ds: seq<Delivery>, d: Delivery, e: Delivery) returns (run: Run)
    requires |AllAcceptedIds(ds)| <= 1000
    requires d in ds && e in ds && d.verdict.Accepted? && e.verdict.Accepted? && IdOf(d) == IdOf(e)
    requires NamespaceOf(d.submission) != NamespaceOf(e.submission)
    ensures run.Valid() && run.deliveries == ds
    ensures IdOf(d) !in run.stores[|ds|].EpochSet(NamespaceOf(d.submission), d.submission.request.epochId)
            || IdOf(e) !in run.stores[|ds|].EpochSet(NamespaceOf(e.submission), e.submission.request.epochId)
  {
    run := KeepAll(ds);
  }

  /** For sequences of any length it is enough that no two accepted deliveries share an id across namespaces. */
  lemma NoAcceptanceIsMissedWithoutSharedIds(ds: seq<Delivery>)
    requires OneNamespacePerId(ds)
    ensures RecordsEveryAcceptance(ds)
  {
    forall run: Run, ns, epoch | run.Valid() && run.deliveries == ds
      ensures run.stores[|ds|].EpochSet(ns, epoch) == AcceptedIds(ds, ns, epoch)
    {
      RunInv(run, |ds|, ns, epoch);
      assert ds[..|ds|] == ds;
    }
  }

  /** Up to 1000 different accepted ids, which are never forgotten, it is the exact condition. */
  lemma EveryAcceptanceIsRecordedExactlyWithoutSharedIds(ds: seq<Delivery>)
    requires |AllAcceptedIds(ds)| <= 1000
    ensures RecordsEveryAcceptance(ds) <==> OneNamespacePerId(ds)
  {
    if OneNamespacePerId(ds) {
      NoAcceptanceIsMissedWithoutSharedIds(ds);
    } else {
      var d, e :| d in ds && e in ds && d.verdict.Accepted? && e.verdict.Accepted? && IdOf(d) == IdOf(e)
                  && NamespaceOf(d.submission) != NamespaceOf(e.submission);
      var run := OtherNamespaceIsShadowed(ds, d, e);
      assert IdOf(d) in AcceptedIds(ds, NamespaceOf(d.submission), d.submission.request.epochId);
      assert IdOf(e) in AcceptedIds(ds, NamespaceOf(e.submission), e.submission.request.epochId);
    }
  }

  // ---------------------------------------------------------------- votes are slots

  /** Among the given ids, those recorded for a project and CID. */
  ghost function Naming(store: Store, ns: Namespace, ids: set<string>, project: string, cid: string): set<string> {
    set id | id in ids && (ns, id) in store.records && Names(store.records[(ns, id)].submission.request, project, cid)
  }

  predicate Names(r: Request, project: string, cid: string) {
    r.projectId == project && r.snapshotCid == cid
  }

  /** The slots from which a CID was accepted for a project in an epoch. */
  ghost function Slots(ds: seq<Delivery>, ns: Namespace, epoch: nat, project: string, cid: string): set<nat> {
    set d | d in ds && Counts(d, ns, epoch) && Names(d.submission.request, project, cid) :: d.submission.request.slotId
  }

  ghost function IdsOfSlots(slots: set<nat>, epoch: nat, project: string, cid: string): set<string> {
    set slot | slot in slots :: SubmissionId(Request(epoch, project, slot, cid))
  }

  lemma SlotsHaveDistinctIds(epoch: nat, project: string, cid: string, s: nat, t: nat)
    requires SubmissionId(Request(epoch, project, s, cid)) == SubmissionId(Request(epoch, project, t, cid))
    ensures s == t
  {
    var prefix := Decimal(epoch) + "-" + project + "-";
    assert SubmissionId(Request(epoch, project, s, cid)) == prefix + Decimal(s) + ['-'] + cid;
    assert SubmissionId(Request(epoch, project, t, cid)) == prefix + Decimal(t) + ['-'] + cid;
    SameEnd('-', prefix + Decimal(s), cid, prefix + Decimal(t), cid);
    assert Decimal(s) == (prefix + Decimal(s))[|prefix|..];
    assert Decimal(t) == (prefix + Decimal(t))[|prefix|..];
    DecimalIsInjective(s, t);
  }

  lemma {:induction false} AsManyIdsAsSlots(slots: set<nat>, epoch: nat, project: string, cid: string)
    ensures |IdsOfSlots(slots, epoch, project, cid)| == |slots|
  {
    if slots != {} {
      var slot :| slot in slots;
      var rest := slots - {slot};
      var id := SubmissionId(Request(epoch, project, slot, cid));
      AsManyIdsAsSlots(rest, epoch, project, cid);
      assert IdsOfSlots(slots, epoch, project, cid) == IdsOfSlots(rest, epoch, project, cid) + {id};
      forall t | t in rest
        ensures SubmissionId(Request(epoch, project, t, cid)) != id
      {
        if SubmissionId(Request(epoch, project, t, cid)) == id {
          SlotsHaveDistinctIds(epoch, project, cid, slot, t);
        }
      }
    }
  }

  /** The CIDs delivered can be told apart in ids (SubmissionIds says exactly when). */
  ghost predicate NoOverlaps(ds: seq<Delivery>) {
    forall d, e | d in ds && e in ds :: !Overlaps('-', d.submission.request.snapshotCid, e.submission.request.snapshotCid)
  }

  /** The record of an accepted delivery has that delivery's request. */
  lemma RecordHasRequest(ds: seq<Delivery>, store: Store, ns: Namespace, epoch: nat, d: Delivery)
    requires EpochInv(ds, store, ns, epoch) && NoOverlaps(ds) && d in ds && Counts(d, ns, epoch)
    ensures IdOf(d) in store.EpochSet(ns, epoch) && (ns, IdOf(d)) in store.records
    ensures store.records[(ns, IdOf(d))].submission.request == d.submission.request
  {
    assert IdOf(d) in AcceptedIds(ds, ns, epoch);
    assert RecordedBy(ds, store, ns, IdOf(d));
    var e :| e in ds && e.verdict.Accepted? && IdOf(e) == IdOf(d) && store.records[(ns, IdOf(d))] == RecordOf(e);
    SameIdOnlyByOverlap(d.submission.request, e.submission.request);
  }

  lemma NamedHasSlot(ds: seq<Delivery>, store: Store, ns: Namespace, epoch: nat, project: string, cid: string, id: string)
    requires EpochInv(ds, store, ns, epoch) && NoOverlaps(ds)
    requires id in Naming(store, ns, store.EpochSet(ns, epoch), project, cid)
    ensures id in IdsOfSlots(Slots(ds, ns, epoch, project, cid), epoch, project, cid)
  {
    assert id in AcceptedIds(ds, ns, epoch);
    var d :| d in ds && Counts(d, ns, epoch) && IdOf(d) == id;
    RecordHasRequest(ds, store, ns, epoch, d);
    var slot := d.submission.request.slotId;
    assert d.submission.request == Request(epoch, project, slot, cid);
    assert slot in Slots(ds, ns, epoch, project, cid);
  }

  lemma SlotHasName(ds: seq<Delivery>, store: Store, ns: Namespace, epoch: nat, project: string, cid: string, slot: nat)
    requires EpochInv(ds, store, ns, epoch) && NoOverlaps(ds)
    requires slot in Slots(ds, ns, epoch, project, cid)
    ensures SubmissionId(Request(epoch, project, slot, cid)) in Naming(store, ns, store.EpochSet(ns, epoch), project, cid)
  {
    var d :| d in ds && Counts(d, ns, epoch) && Names(d.submission.request, project, cid) && d.submission.request.slotId == slot;
    RecordHasRequest(ds, store, ns, epoch, d);
    assert d.submission.request == Request(epoch, project, slot, cid);
  }

  lemma RecordedIdsAreSlotIds(ds: seq<Delivery>, store: Store, ns: Namespace, epoch: nat, project: string, cid: string)
    requires EpochInv(ds, store, ns, epoch) && NoOverlaps(ds)
    ensures Naming(store, ns, store.EpochSet(ns, epoch), project, cid) == IdsOfSlots(Slots(ds, ns, epoch, project, cid), epoch, project, cid)
  {
    forall id | id in Naming(store, ns, store.EpochSet(ns, epoch), project, cid)
      ensures id in IdsOfSlots(Slots(ds, ns, epoch, project, cid), epoch, project, cid)
    {
      NamedHasSlot(ds, store, ns, epoch, project, cid, id);
    }
    forall slot | slot in Slots(ds, ns, epoch, project, cid)
      ensures SubmissionId(Request(epoch, project, slot, cid)) in Naming(store, ns, store.EpochSet(ns, epoch), project, cid)
    {
      SlotHasName(ds, store, ns, epoch, project, cid, slot);
    }
  }

  /**
   After any sequence of deliveries, with repeats and evictions, as many ids are recorded for a project
   and CID of an epoch as there are distinct slots whose accepted submission named them.
   */
  lemma RecordedIdsCountSlots(run: Run, ns: Namespace, epoch: nat, project: string, cid: string)
    requires run.Valid() && OneNamespacePerId(run.deliveries) && NoOverlaps(run.deliveries)
    ensures var store := run.stores[|run.deliveries|];
            |Naming(store, ns, store.EpochSet(ns, epoch), project, cid)| == |Slots(run.deliveries, ns, epoch, project, cid)|
  {
    var n := |run.deliveries|;
    RunInv(run, n, ns, epoch);
    assert run.deliveries[..n] == run.deliveries;
    RecordedIdsAreSlotIds(run.deliveries, run.stores[n], ns, epoch, project, cid);
    AsManyIdsAsSlots(Slots(run.deliveries, ns, epoch, project, cid), epoch, project, cid);
  }

  // ---------------------------------------------------------------- collecting an epoch

  predicate NamesAt(store: Store, ns: Namespace, id: string, project: string, cid: string) {
    (ns, id) in store.records && Names(store.records[(ns, id)].submission.request, project, cid)
  }

  /** How many of the listed ids are recorded for a project and CID. */
  ghost function Tally(store: Store, ns: Namespace, ids: seq<string>, project: string, cid: string): nat {
    if ids == [] then 0
    else Tally(store, ns, ids[..|ids| - 1], project, cid) + (if NamesAt(store, ns, ids[|ids| - 1], project, cid) then 1 else 0)
  }

  lemma TallySnoc(store: Store, ns: Namespace, ids: seq<string>, id: string, project: string, cid: string)
    ensures Tally(store, ns, ids + [id], project, cid) == Tally(store, ns, ids, project, cid) + (if NamesAt(store, ns, id, project, cid) then 1 else 0)
  {
    assert (ids + [id])[..|ids|] == ids;
  }

  lemma NamingWithOneMore(store: Store, ns: Namespace, ids: set<string>, id: string, project: string, cid: string)
    requires id !in ids
    ensures |Naming(store, ns, ids + {id}, project, cid)| ==
            |Naming(store, ns, ids, project, cid)| + (if NamesAt(store, ns, id, project, cid) then 1 else 0)
  {
    var before := Naming(store, ns, ids, project, cid);
    assert id !in before;
    assert Naming(store, ns, ids + {id}, project, cid) == if NamesAt(store, ns, id, project, cid) then before + {id} else before;
  }

  lemma {:induction false} TallyCountsNaming(store: Store, ns: Namespace, ids: seq<string>, project: string, cid: string)
    requires NoDuplicates(ids)
    ensures Tally(store, ns, ids, project, cid) == |Naming(store, ns, Elements(ids), project, cid)|
  {
    if ids == [] {
      assert Naming(store, ns, Elements(ids), project, cid) == {};
    } else {
      var front, last := ids[..|ids| - 1], ids[|ids| - 1];
      TallyCountsNaming(store, ns, front, project, cid);
      ElementsSnoc(front, last);
      assert ids == front + [last];
      NamingWithOneMore(store, ns, Elements(front), last, project, cid);
    }
  }

  /** votes has an entry for exactly what some listed id names, with the number of such ids. */
  ghost predicate IsTally(votes: Votes, store: Store, ns: Namespace, ids: seq<string>) {
    && (forall project, cid :: VotesFor(votes, project, cid) == Tally(store, ns, ids, project, cid))
    && (forall project | project in votes :: votes[project] != map[])
    && OnlyCounted(votes)
  }

  lemma CountVoteTallies(votes: Votes, store: Store, ns: Namespace, ids: seq<string>, id: string)
    requires IsTally(votes, store, ns, ids) && (ns, id) in store.records
    ensures var r := store.records[(ns, id)].submission.request;
            IsTally(CountVote(votes, r.projectId, r.snapshotCid), store, ns, ids + [id])
  {
    var r := store.records[(ns, id)].submission.request;
    var after := CountVote(votes, r.projectId, r.snapshotCid);
    CountVoteAddsOne(votes, r.projectId, r.snapshotCid);
    assert r.snapshotCid in after[r.projectId];
    forall project, cid
      ensures VotesFor(after, project, cid) == Tally(store, ns, ids + [id], project, cid)
    {
      TallySnoc(store, ns, ids, id, project, cid);
      assert VotesFor(votes, project, cid) == Tally(store, ns, ids, project, cid);
    }
  }

  lemma UnrecordedTallies(votes: Votes, store: Store, ns: Namespace, ids: seq<string>, id: string)
    requires IsTally(votes, store, ns, ids) && (ns, id) !in store.records
    ensures IsTally(votes, store, ns, ids + [id])
  {
    forall project, cid
      ensures VotesFor(votes, project, cid) == Tally(store, ns, ids + [id], project, cid)
    {
      TallySnoc(store, ns, ids, id, project, cid);
    }
  }

  /** The metadata entry for a record. */
  function SubmitterOf(p: ProcessedSubmission, now: nat): L1.Submitter {
    L1.Submitter(p.snapshotterAddr, p.submission.request.snapshotCid, p.submission.request.slotId, p.submission.signature, now)
  }

  /** The id is recorded for the project with the address of its submitter. */
  predicate Attributed(store: Store, ns: Namespace, id: string, project: string) {
    && (ns, id) in store.records && store.records[(ns, id)].snapshotterAddr != ""
    && store.records[(ns, id)].submission.request.projectId == project
  }

  /** The metadata of a project: one entry for each listed id recorded for it with an address. */
  ghost function SubmittersOf(store: Store, ns: Namespace, ids: seq<string>, project: string, now: nat): seq<L1.Submitter> {
    if ids == [] then []
    else
      var front, id := SubmittersOf(store, ns, ids[..|ids| - 1], project, now), ids[|ids| - 1];
      if Attributed(store, ns, id, project) then front + [SubmitterOf(store.records[(ns, id)], now)] else front
  }

  lemma SubmittersOfSnoc(store: Store, ns: Namespace, ids: seq<string>, id: string, project: string, now: nat)
    ensures SubmittersOf(store, ns, ids + [id], project, now) ==
            if Attributed(store, ns, id, project) then SubmittersOf(store, ns, ids, project, now) + [SubmitterOf(store.records[(ns, id)], now)]
            else SubmittersOf(store, ns, ids, project, now)
  {
    assert (ids + [id])[..|ids|] == ids;
  }

  type Metadata = map<string, seq<L1.Submitter>>

  function MetadataFor(metadata: Metadata, project: string): seq<L1.Submitter> {
    if project in metadata then metadata[project] else []
  }

  ghost predicate IsMetadata(metadata: Metadata, store: Store, ns: Namespace, ids: seq<string>, now: nat) {
    forall project :: MetadataFor(metadata, project) == SubmittersOf(store, ns, ids, project, now)
  }

  lemma AddMetadata(metadata: Metadata, store: Store, ns: Namespace, ids: seq<string>, id: string, now: nat)
    requires IsMetadata(metadata, store, ns, ids, now) && (ns, id) in store.records && store.records[(ns, id)].snapshotterAddr != ""
    ensures var p := store.records[(ns, id)];
            var project := p.submission.request.projectId;
            IsMetadata(metadata[project := MetadataFor(metadata, project) + [SubmitterOf(p, now)]], store, ns, ids + [id], now)
  {
    forall project {
      SubmittersOfSnoc(store, ns, ids, id, project, now);
    }
  }

  lemma SkipMetadata(metadata: Metadata, store: Store, ns: Namespace, ids: seq<string>, id: string, now: nat)
    requires IsMetadata(metadata, store, ns, ids, now)
    requires (ns, id) !in store.records || store.records[(ns, id)].snapshotterAddr == ""
    ensures IsMetadata(metadata, store, ns, ids + [id], now)
  {
    forall project {
      SubmittersOfSnoc(store, ns, ids, id, project, now);
    }
  }

  /** What is handed on for finalization, when the epoch's ids come in the given order. */
  ghost predicate IsCollection(projects: L1.Projects, store: Store, ns: Namespace, ids: seq<string>, now: nat) {
    && IsTally(map p | p in projects :: projects[p].cidVotes, store, ns, ids)
    && (forall p | p in projects :: projects[p].submissionMetadata == SubmittersOf(store, ns, ids, p, now))
  }

  /** ... and when they come in any order. */
  ghost predicate IsEpochCollection(projects: L1.Projects, store: Store, ns: Namespace, epoch: nat, now: nat) {
    exists ids :: NoDuplicates(ids) && Elements(ids) == store.EpochSet(ns, epoch) && IsCollection(projects, store, ns, ids, now)
  }

  /**
   Counts the epoch's records, in whatever order Redis returns the set's members. A vote is counted
   before the submitter's address is looked at; only the metadata entry needs one.
   */
  method CollectEpochSubmissions(store: Store, ns: Namespace, epoch: nat, now: nat) returns (projects: L1.Projects)
    ensures IsEpochCollection(projects, store, ns, epoch, now)
  {
    var votes: Votes, metadata: Metadata := map[], map[];
    var remaining := store.EpochSet(ns, epoch);
    ghost var ids: seq<string> := [];
    while remaining != {}
      invariant remaining <= store.EpochSet(ns, epoch) && remaining !! Elements(ids)
      invariant NoDuplicates(ids) && Elements(ids) + remaining == store.EpochSet(ns, epoch)
      invariant IsTally(votes, store, ns, ids) && IsMetadata(metadata, store, ns, ids, now)
      decreases remaining
    {
      var id :| id in remaining;
      remaining := remaining - {id};
      ElementsSnoc(ids, id);
      if (ns, id) in store.records {
        var p := store.records[(ns, id)];
        var projectId := p.submission.request.projectId;
        CountVoteTallies(votes, store, ns, ids, id);
        votes := CountVote(votes, projectId, p.submission.request.snapshotCid);
        if p.snapshotterAddr != "" {
          AddMetadata(metadata, store, ns, ids, id, now);
          metadata := metadata[projectId := MetadataFor(metadata, projectId) + [SubmitterOf(p, now)]];
        } else {
          SkipMetadata(metadata, store, ns, ids, id, now);
        }
      } else {
        UnrecordedTallies(votes, store, ns, ids, id);
        SkipMetadata(metadata, store, ns, ids, id, now);
      }
      ids := ids + [id];
    }
    projects := map p | p in votes :: L1.ProjectData(votes[p], MetadataFor(metadata, p));
    assert votes == map p | p in projects :: projects[p].cidVotes;
  }

  /** How many metadata entries name a CID. */
  ghost function EntriesFor(metadata: seq<L1.Submitter>, cid: string): nat {
    CountIf(metadata, (s: L1.Submitter) => s.snapshotCid == cid)
  }

  /** A listed id that is recorded for a project and CID has its submitter's address. */
  ghost predicate AllAddressed(store: Store, ns: Namespace, ids: set<string>, project: string, cid: string) {
    forall id | id in ids && NamesAt(store, ns, id, project, cid) :: store.records[(ns, id)].snapshotterAddr != ""
  }

  lemma {:induction false} EntriesAndVotes(store: Store, ns: Namespace, ids: seq<string>, project: string, cid: string, now: nat)
    ensures EntriesFor(SubmittersOf(store, ns, ids, project, now), cid) <= Tally(store, ns, ids, project, cid)
    ensures EntriesFor(SubmittersOf(store, ns, ids, project, now), cid) == Tally(store, ns, ids, project, cid)
            <==> AllAddressed(store, ns, Elements(ids), project, cid)
  {
    if ids != [] {
      var front, id := ids[..|ids| - 1], ids[|ids| - 1];
      assert ids == front + [id];
      assert forall x :: x in Elements(ids) <==> x in Elements(front) || x == id;
      EntriesAndVotes(store, ns, front, project, cid, now);
      if Attributed(store, ns, id, project) {
        CountIfSnoc(SubmittersOf(store, ns, front, project, now), (s: L1.Submitter) => s.snapshotCid == cid, SubmitterOf(store.records[(ns, id)], now));
      }
    }
  }

  /** A CID has as many metadata entries as votes exactly when no record that names it lacks an address; otherwise it has fewer. */
  lemma EntriesMatchVotesExactlyWhenAddressed(projects: L1.Projects, store: Store, ns: Namespace, epoch: nat, now: nat, project: string, cid: string)
    requires IsEpochCollection(projects, store, ns, epoch, now)
    requires project in projects && cid in projects[project].cidVotes
    ensures EntriesFor(projects[project].submissionMetadata, cid) <= projects[project].cidVotes[cid]
    ensures EntriesFor(projects[project].submissionMetadata, cid) == projects[project].cidVotes[cid]
            <==> AllAddressed(store, ns, store.EpochSet(ns, epoch), project, cid)
  {
    var ids :| NoDuplicates(ids) && Elements(ids) == store.EpochSet(ns, epoch) && IsCollection(projects, store, ns, ids, now);
    var votes: Votes := map p | p in projects :: projects[p].cidVotes;
    assert VotesFor(votes, project, cid) == Tally(store, ns, ids, project, cid);
    EntriesAndVotes(store, ns, ids, project, cid, now);
  }

  /** The dequeuer records every accepted submission with the address it recovered. */
  lemma RecordsAreAddressed(ds: seq<Delivery>, store: Store, ns: Namespace, epoch: nat, project: string, cid: string)
    requires EpochInv(ds, store, ns, epoch)
    ensures AllAddressed(store, ns, store.EpochSet(ns, epoch), project, cid)
  {
    forall id | id in store.EpochSet(ns, epoch) && NamesAt(store, ns, id, project, cid)
      ensures store.records[(ns, id)].snapshotterAddr != ""
    {
      assert RecordedBy(ds, store, ns, id);
    }
  }

  /**
   What is collected after any sequence of deliveries: for each project and CID as many votes, and as
   many metadata entries, as there are distinct slots whose accepted submission named them, and an entry
   only where there is a vote.
   */
  lemma CollectedVotesCountSlots(run: Run, projects: L1.Projects, ns: Namespace, epoch: nat, now: nat, project: string, cid: string)
    requires run.Valid() && OneNamespacePerId(run.deliveries) && NoOverlaps(run.deliveries)
    requires IsEpochCollection(projects, run.stores[|run.deliveries|], ns, epoch, now)
    ensures var slots := |Slots(run.deliveries, ns, epoch, project, cid)|;
            && (project in projects && cid in projects[project].cidVotes <==> slots > 0)
            && (slots > 0 ==> projects[project].cidVotes[cid] == slots)
            && (slots > 0 ==> EntriesFor(projects[project].submissionMetadata, cid) == slots)
  {
    var n := |run.deliveries|;
    var store := run.stores[n];
    var ids :| NoDuplicates(ids) && Elements(ids) == store.EpochSet(ns, epoch) && IsCollection(projects, store, ns, ids, now);
    var votes: Votes := map p | p in projects :: projects[p].cidVotes;
    RecordedIdsCountSlots(run, ns, epoch, project, cid);
    TallyCountsNaming(store, ns, ids, project, cid);
    assert VotesFor(votes, project, cid) == Tally(store, ns, ids, project, cid);
    RunInv(run, n, ns, epoch);
    assert run.deliveries[..n] == run.deliveries;
    RecordsAreAddressed(run.deliveries, store, ns, epoch, project, cid);
    if project in projects && cid in projects[project].cidVotes {
      EntriesMatchVotesExactlyWhenAddressed(projects, store, ns, epoch, now, project, cid);
    }
  }
}
