/**
 The whole way of an epoch on one sequencer: deliveries, collection, splitting, parallel finalization
 and merging, put together. The local batch says of every project what the accepted submissions say.
 */
module LocalBatch {
  import opened Batches
  import opened Dequeuer
  import opened Sequences
  import opened Splitting
  import opened VoteCollection
  import L1 = Level1Finalization
  import Pipeline = Level1Pipeline
  import MerkleRoot

  /** What is collected for an epoch once all deliveries of the run have been processed. */
  ghost predicate IsCollected(run: Run, ns: Namespace, epoch: nat, now: nat, projects: L1.Projects) {
    && run.Valid() && OneNamespacePerId(run.deliveries) && NoOverlaps(run.deliveries)
    && IsEpochCollection(projects, run.stores[|run.deliveries|], ns, epoch, now)
  }

  /** How many slots had a submission accepted that named the CID for the project. */
  ghost function Support(run: Run, ns: Namespace, epoch: nat, project: string, cid: string): nat {
    |Slots(run.deliveries, ns, epoch, project, cid)|
  }

  lemma EmptyCidHasNoSupport(run: Run, checks: Checks, ns: Namespace, epoch: nat, project: string)
    requires Examined(run.deliveries, checks)
    ensures Support(run, ns, epoch, project, "") == 0
  {
    assert forall d | d in run.deliveries && d.verdict.Accepted? :: d.submission.request.snapshotCid != "";
    assert Slots(run.deliveries, ns, epoch, project, "") == {};
  }

  /** What one direct pass may report for a project, in terms of slots. */
  lemma ReportedExactlyWithSupport(run: Run, checks: Checks, ns: Namespace, epoch: nat, now: nat, projects: L1.Projects,
                                   part: L1.Part, project: string)
    requires IsCollected(run, ns, epoch, now, projects) && Examined(run.deliveries, checks)
    requires L1.IsDirectResult(projects, part)
    ensures project in part <==> exists cid :: Support(run, ns, epoch, project, cid) > 0
    ensures project in part ==> forall cid :: Support(run, ns, epoch, project, cid) <= Support(run, ns, epoch, project, part[project].cid)
    ensures project in part ==> part[project].votes == Support(run, ns, epoch, project, part[project].cid) > 0
  {
    forall cid
      ensures Support(run, ns, epoch, project, cid) > 0 <==> project in projects && cid in projects[project].cidVotes
      ensures Support(run, ns, epoch, project, cid) > 0 ==> projects[project].cidVotes[cid] == Support(run, ns, epoch, project, cid)
    {
      CollectedVotesCountSlots(run, projects, ns, epoch, now, project, cid);
    }
    EmptyCidHasNoSupport(run, checks, ns, epoch, project);
    if project in projects {
      assert L1.Resolved(projects[project], part, project);
    }
  }

  /**
   For every sequence of deliveries, every way to split the epoch and every interleaving of workers and
   aggregator: the local batch lists exactly the projects that some slot's accepted submission names,
   each with a CID that the most slots named, and with that number of slots as its votes.
   */
  lemma LocalBatchReflectsSubmissions(run: Run, checks: Checks, ns: Namespace, epoch: nat, now: nat, projects: L1.Projects,
                                      batches: seq<L1.Projects>, states: seq<Pipeline.State>, k: nat,
                                      hash: MerkleRoot.Hash, batch: FinalizedBatch, sequencerId: string, project: string)
    requires IsCollected(run, ns, epoch, now, projects) && Examined(run.deliveries, checks)
    requires IsSplit(projects, batches) && Pipeline.IsRun(batches, states) && k < |states| && states[k].results != []
    requires L1.IsLocalBatch(states[k].results[0], batch, hash, sequencerId)
    ensures project in batch.projectIds <==> exists cid :: Support(run, ns, epoch, project, cid) > 0
    ensures forall i | 0 <= i < |batch.projectIds| && batch.projectIds[i] == project ::
              && (forall cid :: Support(run, ns, epoch, project, cid) <= Support(run, ns, epoch, project, batch.snapshotCids[i]))
              && project in batch.projectVotes
              && batch.projectVotes[project] == Support(run, ns, epoch, project, batch.snapshotCids[i]) % 0x1_0000_0000
  {
    var merged := states[k].results[0];
    Pipeline.PipelineComputesADirectPass(projects, batches, states, k);
    assert merged in states[k].results;
    ReportedExactlyWithSupport(run, checks, ns, epoch, now, projects, merged, project);
    assert project in batch.projectIds <==> project in Elements(batch.projectIds);
  }
}
