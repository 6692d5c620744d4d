/**
 The submission dequeuer: it skips ids it remembers, validates, remembers what it has accepted in a
 bounded map, and records accepted submissions in Redis for the event monitor to count.
 */
module Dequeuer {
  import opened Batches
  import opened Sequences
  import opened SubmissionIds

  datatype Submission = Submission(request: Request, signature: string, protocolState: string, dataMarket: string)

  datatype ProcessedSubmission = ProcessedSubmission(id: string, submission: Submission, snapshotterAddr: string, processedAt: int)

  datatype Rejection = Heartbeat | EmptyCid | EmptyProject | EmptyMarket | BadSignature | SlotNotRegistered

  const ZERO_ADDRESS := "0x0000000000000000000000000000000000000000"

  /** A recovered address as its hex form, "0x" and forty digits. */
  type Address = s: string | |s| == 42 witness ZERO_ADDRESS

  /** What validation makes of a submission: a rejection, or the recovered snapshotter address. */
  datatype Verdict = Rejected(reason: Rejection) | Accepted(snapshotterAddr: Address)

  // ---------------------------------------------------------------- validation

  function ValidateSubmission(s: Submission): Option<Rejection> {
    if s.request.epochId == 0 && s.request.snapshotCid == "" then Some(Heartbeat)
    else if s.request.snapshotCid == "" then Some(EmptyCid)
    else if s.request.projectId == "" then Some(EmptyProject)
    else if s.dataMarket == "" then Some(EmptyMarket)
    else None
  }

  /**
   The checks that depend on code and state outside this model: signature recovery (EIP-712) and the
   registration of a slot to an address.
   */
  datatype Checks = Checks(recover: Submission -> Option<Address>, registered: (nat, string) -> bool, enableSlotValidation: bool) {
    function Examine(s: Submission): Verdict {
      var invalid := ValidateSubmission(s);
      if invalid.Some? then Rejected(invalid.value)
      else if s.signature == "" then Rejected(BadSignature)
      else
        var signer := recover(s);
        if signer.None? then Rejected(BadSignature)
        else if enableSlotValidation && signer.value != ZERO_ADDRESS && !registered(s.request.slotId, signer.value) then Rejected(SlotNotRegistered)
        else Accepted(signer.value)
    }

    /** A complete, signed submission whose signer was recovered as the given address, and may submit for the slot. */
    ghost predicate Admits(s: Submission, addr: string) {
      && s.request.snapshotCid != "" && s.request.projectId != "" && s.dataMarket != "" && s.signature != ""
      && recover(s).Some? && recover(s).value == addr
      && (enableSlotValidation ==> addr == "0x" + seq(40, _ => '0') || registered(s.request.slotId, addr))
    }
  }

  /** What is accepted is what the checks admit, with the recovered address. */
  lemma AcceptedExactlyWhenAdmitted(checks: Checks, s: Submission, addr: Address)
    ensures checks.Examine(s) == Accepted(addr) <==> checks.Admits(s, addr)
  {
    assert ZERO_ADDRESS == "0x" + seq(40, _ => '0');
  }

  /** The first thing that is missing is the reason of a rejection; the address counts only once the rest is there. */
  lemma ReasonsForRejection(checks: Checks, s: Submission)
    ensures var r, complete := s.request, s.request.snapshotCid != "" && s.request.projectId != "" && s.dataMarket != "";
            var verdict := checks.Examine(s);
            && (verdict == Rejected(Heartbeat) <==> r.epochId == 0 && r.snapshotCid == "")
            && (verdict == Rejected(EmptyCid) <==> r.epochId != 0 && r.snapshotCid == "")
            && (verdict == Rejected(EmptyProject) <==> r.snapshotCid != "" && r.projectId == "")
            && (verdict == Rejected(EmptyMarket) <==> r.snapshotCid != "" && r.projectId != "" && s.dataMarket == "")
            && (verdict == Rejected(BadSignature) <==> complete && (s.signature == "" || checks.recover(s).None?))
            && (verdict == Rejected(SlotNotRegistered) <==>
                  complete && s.signature != "" && checks.recover(s).Some? && !checks.Admits(s, checks.recover(s).value))
  {
    assert ZERO_ADDRESS == "0x" + seq(40, _ => '0');
  }

  // ---------------------------------------------------------------- sorting in place

  datatype Entry = Entry(id: string, time: int)

  /** a[..n] is in its final order: ascending, and nothing behind it is older. */
  ghost predicate SettledUpTo(s: seq<Entry>, n: nat) {
    forall i, j | 0 <= i < n && i < j < |s| :: s[i].time <= s[j].time
  }

  /** Nothing from i + 1 up to j is older than the entry at i. */
  ghost predicate OldestUpTo(s: seq<Entry>, i: nat, j: nat)
    requires i < j <= |s|
  {
    forall k | i < k < j :: s[i].time <= s[k].time
  }

  /** Exchanging an older entry into position i keeps what is settled, and makes it the oldest so far. */
  lemma Exchange(s: seq<Entry>, i: nat, j: nat)
    requires i < j < |s| && SettledUpTo(s, i) && OldestUpTo(s, i, j) && s[i].time > s[j].time
    ensures var t := s[i := s[j]][j := s[i]];
            SettledUpTo(t, i) && OldestUpTo(t, i, j + 1) && multiset(t) == multiset(s)
  {}

  /** One pass of the outer loop: the oldest of a[i..] ends up at i. */
  method SettleOne(a: array<Entry>, i: nat)
    requires i < a.Length && SettledUpTo(a[..], i)
    modifies a
    ensures SettledUpTo(a[..], i + 1) && multiset(a[..]) == multiset(old(a[..]))
  {
    for j := i + 1 to a.Length
      invariant SettledUpTo(a[..], i) && OldestUpTo(a[..], i, j) && multiset(a[..]) == multiset(old(a[..]))
    {
      if a[i].time > a[j].time {
        Exchange(a[..], i, j);
        ghost var before := a[..];
        a[i], a[j] := a[j], a[i];
        assert a[..] == before[i := before[j]][j := before[i]];
      }
    }
    Settled(a[..], i);
  }

  lemma Settled(s: seq<Entry>, i: nat)
    requires i < |s| && SettledUpTo(s, i) && OldestUpTo(s, i, |s|)
    ensures SettledUpTo(s, i + 1)
  {}

  /** The exchange sort of cleanupOldSubmissions, oldest first. */
  method SortByTime(a: array<Entry>)
    modifies a
    ensures SettledUpTo(a[..], a.Length) && multiset(a[..]) == multiset(old(a[..]))
  {
    var i := 0;
    while i < a.Length - 1
      invariant 0 <= i <= a.Length && (a.Length > 0 ==> i < a.Length)
      invariant SettledUpTo(a[..], i) && multiset(a[..]) == multiset(old(a[..]))
    {
      SettleOne(a, i);
      i := i + 1;
    }
  }

  // ---------------------------------------------------------------- the bounded memory

  type Memory = map<string, ProcessedSubmission>

  /** kept are n of the submissions in all, unchanged, and none that is left out is newer than one of them. */
  ghost predicate IsNewest(all: Memory, kept: Memory, n: nat) {
    && |kept| == n
    && (forall id | id in kept :: id in all && kept[id] == all[id])
    && (forall id, dropped | id in kept && dropped in all && dropped !in kept :: all[dropped].processedAt <= all[id].processedAt)
  }

  /** s lists the remembered submissions, each once, with the time it was processed. */
  ghost predicate Lists(s: seq<Entry>, memory: Memory) {
    && NoDuplicates(s)
    && (forall e | e in s :: e.id in memory && e.time == memory[e.id].processedAt)
    && (forall id | id in memory :: Entry(id, memory[id].processedAt) in s)
  }

  ghost function Ids(s: seq<Entry>): seq<string> {
    seq(|s|, i requires 0 <= i < |s| => s[i].id)
  }

  lemma ListsOfPermutation(s: seq<Entry>, t: seq<Entry>, memory: Memory)
    requires Lists(s, memory) && multiset(s) == multiset(t)
    ensures Lists(t, memory) && NoDuplicates(Ids(t))
  {
    PermutationKeepsNoDuplicates(s, t);
    PermutationHasSameElements(s, t);
    forall i, j | 0 <= i < j < |t|
      ensures t[i].id != t[j].id
    {
      assert t[i] in t && t[j] in t;
    }
  }

  lemma KeptIsListedLate(t: seq<Entry>, memory: Memory, n: nat, id: string)
    requires Lists(t, memory) && NoDuplicates(Ids(t)) && n <= |t|
    ensures id in memory && id !in Ids(t[..n]) <==> id in Ids(t[n..])
  {
    assert forall k | 0 <= k < n :: Ids(t[..n])[k] == Ids(t)[k];
    assert forall k | n <= k < |t| :: Ids(t[n..])[k - n] == Ids(t)[k];
    if id in memory {
      var i :| 0 <= i < |t| && t[i] == Entry(id, memory[id].processedAt);
      assert Ids(t)[i] == id;
    }
    if id in Ids(t[n..]) {
      var i :| 0 <= i < |t[n..]| && Ids(t[n..])[i] == id;
      assert t[n + i] in t && Ids(t)[n + i] == id;
    }
  }

  /** Every id listed late is as recent as every id listed early. */
  lemma LateIsNewer(t: seq<Entry>, memory: Memory, n: nat, late: string, early: string)
    requires Lists(t, memory) && SettledUpTo(t, |t|) && n <= |t| && late in Ids(t[n..]) && early in Ids(t[..n])
    ensures late in memory && early in memory && memory[early].processedAt <= memory[late].processedAt
  {
    var i :| 0 <= i < |t[n..]| && Ids(t[n..])[i] == late;
    var j :| 0 <= j < |t[..n]| && Ids(t[..n])[j] == early;
    assert t[j] in t && t[n + i] in t;
  }

  lemma KeptAreTheRest(t: seq<Entry>, memory: Memory, kept: Memory, n: nat)
    requires Lists(t, memory) && NoDuplicates(Ids(t)) && n <= |t|
    requires forall id :: id in kept <==> id in memory && id !in Ids(t[..n])
    ensures |kept| == |t| - n && forall id :: id in kept <==> id in Ids(t[n..])
  {
    var rest := Ids(t[n..]);
    assert forall i | 0 <= i < |rest| :: rest[i] == Ids(t)[n + i];
    forall id
      ensures id in kept <==> id in rest
    {
      KeptIsListedLate(t, memory, n, id);
    }
    DistinctElementsCount(rest);
    assert kept.Keys == Elements(rest);
  }

  /** What remains of memory when the first n entries of a sorted list of it are deleted. */
  lemma RestIsNewest(t: seq<Entry>, memory: Memory, kept: Memory, n: nat)
    requires Lists(t, memory) && NoDuplicates(Ids(t)) && SettledUpTo(t, |t|) && n <= |t|
    requires forall id :: id in kept <==> id in memory && id !in Ids(t[..n])
    requires forall id | id in kept :: kept[id] == memory[id]
    ensures IsNewest(memory, kept, |t| - n)
  {
    KeptAreTheRest(t, memory, kept, n);
    forall id, dropped | id in kept && dropped in memory && dropped !in kept
      ensures memory[dropped].processedAt <= memory[id].processedAt
    {
      LateIsNewer(t, memory, n, id, dropped);
    }
  }

  // ---------------------------------------------------------------- Redis

  /** The protocol state and data market under which keys are stored. */
  type Namespace = (string, string)

  function NamespaceOf(s: Submission): Namespace {
    (s.protocolState, s.dataMarket)
  }

  /** The accepted submissions by key, and the set of their ids per epoch. */
  datatype Store = Store(records: map<(Namespace, string), ProcessedSubmission>, epochSets: map<(Namespace, nat), set<string>>) {
    function EpochSet(ns: Namespace, epoch: nat): set<string> {
      if (ns, epoch) in epochSets then epochSets[(ns, epoch)] else {}
    }
  }

  /** SET of the record and SADD of its id. */
  function Stored(store: Store, p: ProcessedSubmission): Store {
    var ns, epoch := NamespaceOf(p.submission), p.submission.request.epochId;
    Store(store.records[(ns, p.id) := p], store.epochSets[(ns, epoch) := store.EpochSet(ns, epoch) + {p.id}])
  }

  /** store' has p under its key and its id in its epoch's set; every other record and set is as in store. */
  ghost predicate RecordsExactly(store: Store, p: ProcessedSubmission, store': Store) {
    var ns, epoch := (p.submission.protocolState, p.submission.dataMarket), p.submission.request.epochId;
    && (forall key :: key in store'.records <==> key in store.records || key == (ns, p.id))
    && (forall key | key in store'.records :: store'.records[key] == if key == (ns, p.id) then p else store.records[key])
    && (forall n, e :: store'.EpochSet(n, e) == if n == ns && e == epoch then store.EpochSet(n, e) + {p.id} else store.EpochSet(n, e))
  }

  lemma StoredRecordsExactly(store: Store, p: ProcessedSubmission)
    ensures RecordsExactly(store, p, Stored(store, p))
  {}

  /** Storing a submission again, whatever its new record says, adds no id to any epoch's set. */
  lemma StoringAgainAddsNoId(store: Store, p: ProcessedSubmission, again: ProcessedSubmission)
    requires again.id == p.id && again.submission.request.epochId == p.submission.request.epochId
    requires NamespaceOf(again.submission) == NamespaceOf(p.submission)
    ensures forall ns, epoch :: Stored(Stored(store, p), again).EpochSet(ns, epoch) == Stored(store, p).EpochSet(ns, epoch)
    ensures Stored(Stored(store, p), again).records == Stored(store, again).records
  {
    StoredRecordsExactly(store, p);
    StoredRecordsExactly(Stored(store, p), again);
  }

  class SubmissionStore {
    var store: Store

    constructor ()
      ensures store == Store(map[], map[])
    {
      store := Store(map[], map[]);
    }

    method Set(ns: Namespace, id: string, p: ProcessedSubmission)
      modifies this
      ensures store == old(store).(records := old(store).records[(ns, id) := p])
    {
      store := store.(records := store.records[(ns, id) := p]);
    }

    method SAdd(ns: Namespace, epoch: nat, id: string)
      modifies this
      ensures store == old(store).(epochSets := old(store).epochSets[(ns, epoch) := old(store).EpochSet(ns, epoch) + {id}])
    {
      store := store.(epochSets := store.epochSets[(ns, epoch) := store.EpochSet(ns, epoch) + {id}]);
    }

    method StoreProcessingResult(p: ProcessedSubmission)
      modifies this
      ensures RecordsExactly(old(store), p, store)
      ensures store == Stored(old(store), p)
    {
      Set(NamespaceOf(p.submission), p.id, p);
      SAdd(NamespaceOf(p.submission), p.submission.request.epochId, p.id);
      StoredRecordsExactly(old(store), p);
    }
  }

  // ---------------------------------------------------------------- the dequeuer

  datatype Outcome = Duplicate | Failed(reason: Rejection) | Processed

  class Dequeuer {
    const checks: Checks
    const redis: SubmissionStore
    var processedSubmissions: Memory
    var totalProcessed: nat
    var successfulCount: nat
    var failedCount: nat

    constructor (checks: Checks, redis: SubmissionStore)
      ensures Valid() && processedSubmissions == map[] && totalProcessed == 0
      ensures this.checks == checks && this.redis == redis
    {
      this.checks, this.redis := checks, redis;
      processedSubmissions := map[];
      totalProcessed, successfulCount, failedCount := 0, 0, 0;
    }

    /** At most 1000 submissions are remembered, and every processed one has succeeded or failed. */
    ghost predicate Valid()
      reads this
    {
      |processedSubmissions| <= 1000 && totalProcessed == successfulCount + failedCount
    }

    method UpdateStats(success: bool)
      modifies this`totalProcessed, this`successfulCount, this`failedCount
      ensures totalProcessed == old(totalProcessed) + 1
      ensures successfulCount == old(successfulCount) + (if success then 1 else 0)
      ensures failedCount == old(failedCount) + (if success then 0 else 1)
    {
      totalProcessed := totalProcessed + 1;
      if success {
        successfulCount := successfulCount + 1;
      } else {
        failedCount := failedCount + 1;
      }
    }

    /** Collects the map's entries in whatever order it yields them. */
    method ListEntries() returns (entries: array<Entry>)
      ensures fresh(entries) && Lists(entries[..], processedSubmissions) && entries.Length == |processedSubmissions|
    {
      var list: seq<Entry> := [];
      var remaining := processedSubmissions.Keys;
      while remaining != {}
        invariant remaining <= processedSubmissions.Keys
        invariant NoDuplicates(list) && |list| + |remaining| == |processedSubmissions|
        invariant forall e | e in list :: e.id in processedSubmissions && e.id !in remaining && e.time == processedSubmissions[e.id].processedAt
        invariant forall id | id in processedSubmissions && id !in remaining :: Entry(id, processedSubmissions[id].processedAt) in list
        decreases remaining
      {
        var id :| id in remaining;
        remaining := remaining - {id};
        var entry := Entry(id, processedSubmissions[id].processedAt);
        ElementsSnoc(list, entry);
        list := list + [entry];
      }
      entries := new Entry[|list|](i requires 0 <= i < |list| => list[i]);
      assert entries[..] == list;
    }

    /** Keeps the 500 most recent submissions. */
    method CleanupOldSubmissions()
      modifies this`processedSubmissions
      ensures if |old(processedSubmissions)| <= 500 then processedSubmissions == old(processedSubmissions)
              else IsNewest(old(processedSubmissions), processedSubmissions, 500)
    {
      if |processedSubmissions| <= 500 {
        return;
      }
      var entries := ListEntries();
      ghost var listed := entries[..];
      SortByTime(entries);
      ghost var sorted := entries[..];
      ghost var memory := processedSubmissions;
      ListsOfPermutation(listed, sorted, memory);
      var toRemove := entries.Length - 500;
      for i := 0 to toRemove
        invariant entries[..] == sorted
        invariant forall id :: id in processedSubmissions <==> id in memory && id !in Ids(sorted[..i])
        invariant forall id | id in processedSubmissions :: processedSubmissions[id] == memory[id]
      {
        assert sorted[..i + 1] == sorted[..i] + [sorted[i]];
        assert Ids(sorted[..i + 1]) == Ids(sorted[..i]) + [sorted[i].id];
        processedSubmissions := processedSubmissions - {entries[i].id};
      }
      RestIsNewest(sorted, memory, processedSubmissions, toRemove);
    }

    /** `now` is the clock when the submission is processed. */
    method ProcessSubmission(submission: Submission, submissionId: string, now: int) returns (outcome: Outcome)
      requires Valid()
      modifies this, redis
      ensures Valid()
      ensures submissionId in old(processedSubmissions) ==>
                && outcome == Duplicate && processedSubmissions == old(processedSubmissions)
                && redis.store == old(redis.store) && totalProcessed == old(totalProcessed)
      ensures outcome == Processed <==> submissionId !in old(processedSubmissions) && exists addr :: checks.Admits(submission, addr)
      ensures outcome == Processed ==>
                var key := ((submission.protocolState, submission.dataMarket), submissionId);
                key in redis.store.records && checks.Admits(submission, redis.store.records[key].snapshotterAddr)
      ensures submissionId !in old(processedSubmissions) ==>
                match checks.Examine(submission)
                case Rejected(reason) =>
                  && outcome == Failed(reason) && processedSubmissions == old(processedSubmissions) && redis.store == old(redis.store)
                  && failedCount == old(failedCount) + 1 && successfulCount == old(successfulCount)
                case Accepted(addr) =>
                  var p := ProcessedSubmission(submissionId, submission, addr, now);
                  var all := old(processedSubmissions)[submissionId := p];
                  && outcome == Processed && RecordsExactly(old(redis.store), p, redis.store) && redis.store == Stored(old(redis.store), p)
                  && failedCount == old(failedCount) && successfulCount == old(successfulCount) + 1
                  && if |all| <= 1000 then processedSubmissions == all else IsNewest(all, processedSubmissions, 500)
    {
      if submissionId in processedSubmissions {
        return Duplicate;
      }
      ghost var addr := checks.recover(submission);
      if addr.Some? {
        AcceptedExactlyWhenAdmitted(checks, submission, addr.value);
      }
      match checks.Examine(submission) {
        case Rejected(reason) =>
          UpdateStats(false);
          outcome := Failed(reason);
        case Accepted(addr) =>
          var p := ProcessedSubmission(submissionId, submission, addr, now);
          processedSubmissions := processedSubmissions[submissionId := p];
          if |processedSubmissions| > 1000 {
            CleanupOldSubmissions();
          }
          redis.StoreProcessingResult(p);
          UpdateStats(true);
          outcome := Processed;
      }
    }
  }
}
