/**
 Level 1: the collected votes of an epoch are split into batches, finalizer workers pick a winning
 CID per project, batch by batch, and the aggregator merges the parts into the local batch.

 Go visits maps in no particular order, so a loop over a map here takes any remaining key next, and
 what a worker returns is described by a relation: ties between CIDs may go either way.
 */
module Level1Finalization {
  import opened Batches
  import opened Sequences
  import opened Splitting
  import opened Sums
  import MerkleRoot

  /** One submission as the event monitor hands it on, with its submitter. */
  datatype Submitter = Submitter(submitterId: string, snapshotCid: string, slotId: nat, signature: string, timestamp: nat)

  /** All CIDs named for a project with their vote counts. */
  datatype ProjectData = ProjectData(cidVotes: map<string, int>, submissionMetadata: seq<Submitter>)

  type Projects = map<string, ProjectData>

  /** What a worker stores for a project it could resolve. */
  datatype ProjectResult = ProjectResult(cid: string, votes: int, totalVotes: int, uniqueCids: nat, submissionMetadata: seq<Submitter>)

  type Part = map<string, ProjectResult>

  // ---------------------------------------------------------------- what the result of a pass is

  /** cid has a vote and no CID has more. */
  ghost predicate IsTop(cidVotes: map<string, int>, cid: string) {
    cid in cidVotes && cidVotes[cid] > 0 && forall c | c in cidVotes :: cidVotes[c] <= cidVotes[cid]
  }

  /** The entry of project id in part is one that a direct look at its votes allows. */
  ghost predicate Resolved(data: ProjectData, part: Part, id: string) {
    if id in part then
      var r := part[id];
      && r.cid != "" && IsTop(data.cidVotes, r.cid)
      && r.votes == data.cidVotes[r.cid] && r.totalVotes == Sum(data.cidVotes)
      && r.uniqueCids == |data.cidVotes| && r.submissionMetadata == data.submissionMetadata
    else
      (forall c | c in data.cidVotes :: data.cidVotes[c] <= 0) || IsTop(data.cidVotes, "")
  }

  /** part is what one pass over all of projects may produce. */
  ghost predicate IsDirectResult(projects: Projects, part: Part) {
    part.Keys <= projects.Keys && forall id | id in projects :: Resolved(projects[id], part, id)
  }

  /** The event monitor counts only votes for CIDs that are not empty. */
  ghost predicate CidsNonEmpty(projects: Projects) {
    forall id | id in projects :: "" !in projects[id].cidVotes
  }

  /** Every project has exactly one CID that may win. */
  ghost predicate NoTies(projects: Projects) {
    forall id, c, d | id in projects && IsTop(projects[id].cidVotes, c) && IsTop(projects[id].cidVotes, d) :: c == d
  }

  /** Two passes agree on which projects are resolved and on every count; only tied CIDs may differ. */
  lemma DirectResultsAgree(projects: Projects, a: Part, b: Part)
    requires IsDirectResult(projects, a) && IsDirectResult(projects, b) && CidsNonEmpty(projects)
    ensures a.Keys == b.Keys
    ensures forall id | id in a :: a[id].votes == b[id].votes && a[id].totalVotes == b[id].totalVotes
    ensures forall id | id in projects :: id in a <==> exists c | c in projects[id].cidVotes :: projects[id].cidVotes[c] > 0
    ensures NoTies(projects) ==> a == b
  {
    forall id | id in projects
      ensures id in a <==> id in b
      ensures id in a ==> a[id].votes == b[id].votes && a[id].totalVotes == b[id].totalVotes && (NoTies(projects) ==> a[id] == b[id])
    {
      assert Resolved(projects[id], a, id) && Resolved(projects[id], b, id);
    }
  }

  // ---------------------------------------------------------------- one worker, one part

  /** The inner loop of processBatchPart: highest vote count wins, the first one seen on a tie. */
  method SelectWinner(cidVotes: map<string, int>) returns (winningCid: string, maxVotes: int, totalVotes: int)
    ensures totalVotes == Sum(cidVotes)
    ensures if maxVotes > 0 then IsTop(cidVotes, winningCid) && cidVotes[winningCid] == maxVotes
            else maxVotes == 0 && winningCid == "" && forall c | c in cidVotes :: cidVotes[c] <= 0
  {
    winningCid, maxVotes, totalVotes := "", 0, 0;
    var remaining := cidVotes.Keys;
    ghost var seen: map<string, int> := map[];
    while remaining != {}
      invariant remaining <= cidVotes.Keys
      invariant seen == cidVotes - remaining
      invariant totalVotes == Sum(seen)
      invariant maxVotes >= 0 && forall c | c in seen :: seen[c] <= maxVotes
      invariant if maxVotes > 0 then winningCid in seen && seen[winningCid] == maxVotes else winningCid == ""
      decreases remaining
    {
      var cid :| cid in remaining;
      var votes := cidVotes[cid];
      remaining := remaining - {cid};
      SumUpdate(seen, cid, votes);
      seen := seen[cid := votes];
      totalVotes := totalVotes + votes;
      if votes > maxVotes {
        winningCid := cid;
        maxVotes := votes;
      }
    }
    assert seen == cidVotes;
  }

  method ProcessBatchPart(projects: Projects) returns (partResults: Part)
    ensures IsDirectResult(projects, partResults)
  {
    partResults := map[];
    var remaining := projects.Keys;
    while remaining != {}
      invariant remaining <= projects.Keys
      invariant partResults.Keys <= projects.Keys - remaining
      invariant forall id | id in projects && id !in remaining :: Resolved(projects[id], partResults, id)
      decreases remaining
    {
      var projectId :| projectId in remaining;
      remaining := remaining - {projectId};
      var data := projects[projectId];
      var winningCid, maxVotes, totalVotes := SelectWinner(data.cidVotes);
      if winningCid != "" {
        partResults := partResults[projectId := ProjectResult(winningCid, maxVotes, totalVotes, |data.cidVotes|, data.submissionMetadata)];
      }
      assert Resolved(data, partResults, projectId);
    }
  }

  // ---------------------------------------------------------------- merging the parts

  /** The parts with numbers below n that are in the store, merged in ascending order. */
  ghost function MergeUpTo(store: map<nat, Part>, n: nat): Part {
    if n == 0 then map[]
    else MergeUpTo(store, n - 1) + (if n - 1 in store then store[n - 1] else map[])
  }

  /** A project that only part i reports has that report in the merge; one that nobody reports is absent. */
  lemma {:induction false} MergeUpToAt(store: map<nat, Part>, n: nat, i: nat, id: string)
    requires i < n && i in store
    requires forall j | j in store && j != i :: id !in store[j]
    ensures id in MergeUpTo(store, n) <==> id in store[i]
    ensures id in store[i] ==> MergeUpTo(store, n)[id] == store[i][id]
  {
    if n - 1 == i {
      MergeUpToAbsent(store, i, id);
    } else {
      MergeUpToAt(store, n - 1, i, id);
    }
  }

  lemma {:induction false} MergeUpToAbsent(store: map<nat, Part>, n: nat, id: string)
    requires forall j: nat | j < n && j in store :: id !in store[j]
    ensures id !in MergeUpTo(store, n)
  {
    if n > 0 {
      MergeUpToAbsent(store, n - 1, id);
    }
  }

  /** Every part of the split is stored and is a result of its own batch. */
  ghost predicate AllPartsStored(batches: seq<Projects>, store: map<nat, Part>) {
    forall i: nat | i < |batches| :: i in store && IsDirectResult(batches[i], store[i])
  }

  /** ... or is still to be stored, if it is the given one. */
  ghost predicate AllButOneStored(batches: seq<Projects>, store: map<nat, Part>, batchId: nat) {
    forall i: nat | i < |batches| && i != batchId :: i in store && IsDirectResult(batches[i], store[i])
  }

  /** Splitting, resolving each batch on its own and merging is one of the results of a direct pass. */
  lemma MergedPartsAreADirectResult(projects: Projects, batches: seq<Projects>, store: map<nat, Part>)
    requires IsSplit(projects, batches) && AllPartsStored(batches, store) && (forall i | i in store :: i < |batches|)
    ensures IsDirectResult(projects, MergeUpTo(store, |batches|))
  {
    var merged := MergeUpTo(store, |batches|);
    forall id | id in projects
      ensures Resolved(projects[id], merged, id)
    {
      InSomeBatch(batches, id);
      var i: nat :| i < |batches| && id in batches[i];
      BatchesAreDisjoint(projects, batches, i, id);
      MergeUpToAt(store, |batches|, i, id);
      assert Resolved(batches[i][id], store[i], id);
    }
    forall id | id in merged
      ensures id in projects
    {
      if id !in projects {
        InSomeBatch(batches, id);
        MergeUpToAbsent(store, |batches|, id);
      }
    }
  }

  /** Conversely, whatever a direct pass may return, some choice of winners in the parts merges to it. */
  lemma EveryDirectResultIsAMerge(projects: Projects, batches: seq<Projects>, direct: Part) returns (store: map<nat, Part>)
    requires IsSplit(projects, batches) && IsDirectResult(projects, direct)
    ensures AllPartsStored(batches, store) && (forall i | i in store :: i < |batches|)
    ensures MergeUpTo(store, |batches|) == direct
  {
    store := map i: nat | i < |batches| :: Restricted(direct, batches[i].Keys);
    forall i: nat | i < |batches|
      ensures IsDirectResult(batches[i], store[i])
    {
      forall id | id in batches[i]
        ensures id in projects && batches[i][id] == projects[id]
      {
        BatchesAreDisjoint(projects, batches, i, id);
      }
      RestrictedIsDirect(projects, batches[i], direct);
    }
    MergedPartsAreADirectResult(projects, batches, store);
    RestrictionsMergeBack(projects, batches, direct, store);
  }

  lemma RestrictionsMergeBack(projects: Projects, batches: seq<Projects>, direct: Part, store: map<nat, Part>)
    requires IsSplit(projects, batches) && direct.Keys <= projects.Keys
    requires MergeUpTo(store, |batches|).Keys <= projects.Keys
    requires store == map i: nat | i < |batches| :: Restricted(direct, batches[i].Keys)
    ensures MergeUpTo(store, |batches|) == direct
  {
    var merged := MergeUpTo(store, |batches|);
    forall id | id in projects
      ensures id in merged <==> id in direct
      ensures id in merged ==> merged[id] == direct[id]
    {
      RestrictionAt(projects, batches, direct, store, id);
    }
    assert merged.Keys == direct.Keys;
  }

  lemma RestrictionAt(projects: Projects, batches: seq<Projects>, direct: Part, store: map<nat, Part>, id: string)
    requires IsSplit(projects, batches) && id in projects
    requires store == map i: nat | i < |batches| :: Restricted(direct, batches[i].Keys)
    ensures id in MergeUpTo(store, |batches|) <==> id in direct
    ensures id in direct ==> MergeUpTo(store, |batches|)[id] == direct[id]
  {
    InSomeBatch(batches, id);
    var i: nat :| i < |batches| && id in batches[i];
    BatchesAreDisjoint(projects, batches, i, id);
    MergeUpToAt(store, |batches|, i, id);
  }

  ghost function Restricted(part: Part, ids: set<string>): Part {
    map id | id in ids && id in part :: part[id]
  }

  lemma RestrictedIsDirect(projects: Projects, batch: Projects, direct: Part)
    requires IsDirectResult(projects, direct)
    requires forall id | id in batch :: id in projects && batch[id] == projects[id]
    ensures IsDirectResult(batch, Restricted(direct, batch.Keys))
  {
    forall id | id in batch
      ensures Resolved(batch[id], Restricted(direct, batch.Keys), id)
    {
      assert Resolved(projects[id], direct, id);
    }
  }

  /** The Redis keys that hold the batch parts of one epoch. */
  class PartStore {
    var parts: map<nat, Part>

    constructor ()
      ensures parts == map[]
    {
      parts := map[];
    }

    /** The worker's SET of its part: the last part of a split to be stored completes the store, in whatever order they come. */
    method StorePart(batchId: nat, part: Part)
      modifies this
      ensures batchId in parts && parts[batchId] == part
      ensures forall i: nat | i != batchId :: (i in parts <==> i in old(parts)) && (i in parts ==> parts[i] == old(parts)[i])
      ensures forall batches: seq<Projects> | batchId < |batches| && IsDirectResult(batches[batchId], part) ::
                AllPartsStored(batches, parts) <==> AllButOneStored(batches, old(parts), batchId)
    {
      parts := parts[batchId := part];
    }

    /** Fetch, merge and delete the parts one after the other; a missing part is skipped. */
    method AggregateWorkerParts(totalParts: nat) returns (aggregatedResults: Part)
      modifies this
      ensures aggregatedResults == MergeUpTo(old(parts), totalParts)
      ensures parts == map i | i in old(parts) && i >= totalParts :: old(parts)[i]
    {
      aggregatedResults := map[];
      for i := 0 to totalParts
        invariant aggregatedResults == MergeUpTo(old(parts), i)
        invariant parts == map j | j in old(parts) && j >= i :: old(parts)[j]
      {
        if i in parts {
          aggregatedResults := aggregatedResults + parts[i];
          parts := parts - {i};
        }
      }
    }
  }

  // ---------------------------------------------------------------- the local batch

  /** Go's conversion of a vote count to uint32 wraps around. */
  function ToUint32(votes: int): nat {
    votes % 0x1_0000_0000
  }

  /** Every Level-1 entry counts as one vote, confirmed by this validator alone. */
  function Confirmed(s: Submitter, sequencerId: string): SubmissionMetadata {
    SubmissionMetadata(s.submitterId, s.snapshotCid, s.slotId, s.signature, s.timestamp, 1, [sequencerId])
  }

  function ConfirmAll(metadata: seq<Submitter>, sequencerId: string): seq<SubmissionMetadata> {
    seq(|metadata|, i requires 0 <= i < |metadata| => Confirmed(metadata[i], sequencerId))
  }

  /** The votes and submitters of the projects named by ids. */
  ghost function VotesOf(results: Part, ids: set<string>): map<string, nat> {
    map id | id in ids && id in results :: ToUint32(results[id].votes)
  }

  ghost function DetailsOf(results: Part, ids: set<string>, sequencerId: string): Details {
    map id | id in ids && id in results && results[id].submissionMetadata != [] :: ConfirmAll(results[id].submissionMetadata, sequencerId)
  }

  lemma OneMoreProject(results: Part, ids: set<string>, id: string, sequencerId: string)
    requires id in results && id !in ids
    ensures VotesOf(results, ids + {id}) == VotesOf(results, ids)[id := ToUint32(results[id].votes)]
    ensures DetailsOf(results, ids + {id}, sequencerId) ==
            if results[id].submissionMetadata != []
            then DetailsOf(results, ids, sequencerId)[id := ConfirmAll(results[id].submissionMetadata, sequencerId)]
            else DetailsOf(results, ids, sequencerId)
  {}

  /** batch lists exactly the merged results: parallel arrays without repetition, and per project the votes and submitters. */
  ghost predicate IsLocalBatch(results: Part, batch: FinalizedBatch, hash: MerkleRoot.Hash, sequencerId: string) {
    && |batch.projectIds| == |batch.snapshotCids| && NoDuplicates(batch.projectIds)
    && Elements(batch.projectIds) == results.Keys
    && (forall i | 0 <= i < |batch.projectIds| :: batch.snapshotCids[i] == results[batch.projectIds[i]].cid)
    && batch.projectVotes == VotesOf(results, results.Keys)
    && batch.submissionDetails == DetailsOf(results, results.Keys, sequencerId)
    && batch.merkleRoot == hash(MerkleRoot.Combined(batch.projectIds, batch.snapshotCids))
    && batch.sequencerId == sequencerId
  }

  method CollectMetadata(metadata: seq<Submitter>, sequencerId: string) returns (confirmed: seq<SubmissionMetadata>)
    ensures confirmed == ConfirmAll(metadata, sequencerId)
  {
    confirmed := [];
    for i := 0 to |metadata|
      invariant |confirmed| == i
      invariant forall j | 0 <= j < i :: confirmed[j] == Confirmed(metadata[j], sequencerId)
    {
      confirmed := confirmed + [Confirmed(metadata[i], sequencerId)];
    }
  }

  /** A project without submitters has a JSON null there and gets no entry in the details. */
  method CreateFinalizedBatchFromParts(hash: MerkleRoot.Hash, epochId: nat, sequencerId: string, results: Part) returns (batch: FinalizedBatch)
    ensures IsLocalBatch(results, batch, hash, sequencerId) && batch.epochId == epochId
  {
    var projectIds: seq<string>, snapshotCids: seq<string> := [], [];
    var projectVotes: map<string, nat> := map[];
    var submissionDetails: Details := map[];
    var remaining := results.Keys;
    ghost var done: set<string> := {};
    while remaining != {}
      invariant done + remaining == results.Keys && done !! remaining
      invariant |projectIds| == |snapshotCids| && NoDuplicates(projectIds) && Elements(projectIds) == done
      invariant forall i | 0 <= i < |projectIds| :: projectIds[i] in results && snapshotCids[i] == results[projectIds[i]].cid
      invariant projectVotes == VotesOf(results, done)
      invariant submissionDetails == DetailsOf(results, done, sequencerId)
      decreases remaining
    {
      var projectId :| projectId in remaining;
      remaining := remaining - {projectId};
      var r := results[projectId];
      ElementsSnoc(projectIds, projectId);
      OneMoreProject(results, done, projectId, sequencerId);
      projectIds := projectIds + [projectId];
      snapshotCids := snapshotCids + [r.cid];
      projectVotes := projectVotes[projectId := ToUint32(r.votes)];
      if r.submissionMetadata != [] {
        var confirmed := CollectMetadata(r.submissionMetadata, sequencerId);
        submissionDetails := submissionDetails[projectId := confirmed];
      }
      done := done + {projectId};
    }
    assert done == results.Keys;
    var root := MerkleRoot.CalculateMerkleRoot(hash, projectIds, snapshotCids);
    batch := FinalizedBatch(epochId, projectIds, snapshotCids, root, sequencerId, projectVotes, submissionDetails, map[], "", 0);
  }
}
