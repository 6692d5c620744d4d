/**
 Both levels together: what the network-wide batch says of the submissions that the validators'
 dequeuers accepted, when its views are local batches.
 */
module NetworkBatch {
  import opened Batches
  import opened Dequeuer
  import opened Level2Aggregation
  import opened Level2Agreement
  import opened LocalBatch
  import opened Sequences
  import opened Splitting
  import opened Tallies
  import opened VoteCollection
  import L1 = Level1Finalization
  import Pipeline = Level1Pipeline
  import MerkleRoot
  import opened SubmissionIds

  /** What happened in an epoch on one validator, from its deliveries to its local batch. */
  datatype Node = Node(
    sequencerId: string,
    checks: Checks,
    run: Run,
    now: nat,
    projects: L1.Projects,
    parts: seq<L1.Projects>,
    states: seq<Pipeline.State>,
    batch: FinalizedBatch
  ) {
    /** The local batch is one that the deliveries, the split and the interleaving of workers and aggregator may lead to. */
    ghost predicate Finalized(ns: Namespace, epoch: nat, hash: MerkleRoot.Hash) {
      && LocalBatch.IsCollected(run, ns, epoch, now, projects) && Examined(run.deliveries, checks)
      && IsSplit(projects, parts) && Pipeline.IsRun(parts, states)
      && states[|states| - 1].results != []
      && L1.IsLocalBatch(states[|states| - 1].results[0], batch, hash, sequencerId)
    }

    ghost function Store(): Store
      requires run.Valid()
    {
      run.stores[|run.deliveries|]
    }

    /** The addresses recorded with a submission of the epoch that names the CID for the project. */
    ghost function Addresses(ns: Namespace, epoch: nat, project: string, cid: string): set<string>
      requires run.Valid()
    {
      AddressesIn(Store(), ns, Store().EpochSet(ns, epoch), project, cid)
    }
  }

  ghost function AddressesIn(store: Store, ns: Namespace, ids: set<string>, project: string, cid: string): set<string> {
    set id | id in Naming(store, ns, ids, project, cid) :: store.records[(ns, id)].snapshotterAddr
  }

  ghost predicate AllFinalized(nodes: seq<Node>, ns: Namespace, epoch: nat, hash: MerkleRoot.Hash) {
    forall n | n in nodes :: n.Finalized(ns, epoch, hash)
  }

  function BatchesOf(nodes: seq<Node>): seq<FinalizedBatch> {
    seq(|nodes|, i requires 0 <= i < |nodes| => nodes[i].batch)
  }

  /** Every delivered CID is free of colons, as IPFS CIDs are. */
  ghost predicate ColonFreeDeliveries(nodes: seq<Node>) {
    forall n, d | n in nodes && d in n.run.deliveries :: ':' !in d.submission.request.snapshotCid
  }

  /** The addresses that some validator recorded with the CID. */
  ghost function Supporters(nodes: seq<Node>, ns: Namespace, epoch: nat, project: string, cid: string): set<string>
    requires forall n | n in nodes :: n.run.Valid()
  {
    set n, address | n in nodes && address in n.Addresses(ns, epoch, project, cid) :: address
  }

  // ---------------------------------------------------------------- the entries of one local batch

  /** The entries of a batch for a project. */
  function EntriesIn(batch: FinalizedBatch, project: string): seq<SubmissionMetadata> {
    if project in batch.submissionDetails then batch.submissionDetails[project] else []
  }

  /** The submitters in the metadata are the recorded addresses. */
  lemma {:induction false} MetadataAddresses(store: Store, ns: Namespace, ids: seq<string>, project: string, now: nat, s: L1.Submitter)
    ensures s in SubmittersOf(store, ns, ids, project, now) <==>
            exists id :: id in ids && Attributed(store, ns, id, project) && s == SubmitterOf(store.records[(ns, id)], now)
  {
    if ids != [] {
      var front, last := ids[..|ids| - 1], ids[|ids| - 1];
      MetadataAddresses(store, ns, front, project, now, s);
      assert ids == front + [last];
      assert last in ids && forall id | id in front :: id in ids;
      assert forall id | id in ids :: id in front || id == last;
    }
  }

  /** What the aggregator of a node merged. */
  ghost function Merged(n: Node): L1.Part
    requires n.states != [] && n.states[|n.states| - 1].results != []
  {
    n.states[|n.states| - 1].results[0]
  }

  lemma MergedIsDirect(n: Node, ns: Namespace, epoch: nat, hash: MerkleRoot.Hash)
    requires n.Finalized(ns, epoch, hash)
    ensures L1.IsDirectResult(n.projects, Merged(n))
  {
    Pipeline.PipelineComputesADirectPass(n.projects, n.parts, n.states, |n.states| - 1);
    assert Merged(n) in n.states[|n.states| - 1].results;
  }

  /** A collected project has a vote, so it is resolved. */
  lemma CollectedProjectsAreMerged(n: Node, ns: Namespace, epoch: nat, hash: MerkleRoot.Hash, project: string)
    requires n.Finalized(ns, epoch, hash)
    ensures project in Merged(n) <==> project in n.projects
    ensures project in Merged(n) ==> Merged(n)[project].submissionMetadata == n.projects[project].submissionMetadata
  {
    MergedIsDirect(n, ns, epoch, hash);
    if project in n.projects {
      HasAVote(n.projects, n.Store(), ns, epoch, n.now, project);
      var cid :| cid in n.projects[project].cidVotes;
      CollectedVotesCountSlots(n.run, n.projects, ns, epoch, n.now, project, cid);
      ReportedExactlyWithSupport(n.run, n.checks, ns, epoch, n.now, n.projects, Merged(n), project);
      assert Support(n.run, ns, epoch, project, cid) > 0;
      assert L1.Resolved(n.projects[project], Merged(n), project);
    }
  }

  lemma HasAVote(projects: L1.Projects, store: Store, ns: Namespace, epoch: nat, now: nat, project: string)
    requires IsEpochCollection(projects, store, ns, epoch, now) && project in projects
    ensures exists cid :: cid in projects[project].cidVotes
  {
    var ids :| NoDuplicates(ids) && Elements(ids) == store.EpochSet(ns, epoch) && IsCollection(projects, store, ns, ids, now);
    var votes := map p | p in projects :: projects[p].cidVotes;
    assert votes[project] != map[];
    assert projects[project].cidVotes.Keys != {};
  }

  /** The local batch has one entry for each recorded submission of a project, confirmed by this validator alone. */
  lemma EntriesAreConfirmed(n: Node, ns: Namespace, epoch: nat, hash: MerkleRoot.Hash, project: string)
    requires n.Finalized(ns, epoch, hash)
    ensures EntriesIn(n.batch, project) ==
            if project in n.projects then L1.ConfirmAll(n.projects[project].submissionMetadata, n.sequencerId) else []
    ensures project in n.batch.submissionDetails <==> EntriesIn(n.batch, project) != []
  {
    CollectedProjectsAreMerged(n, ns, epoch, hash, project);
    DetailsAt(Merged(n), n.sequencerId, project);
  }

  lemma DetailsAt(results: L1.Part, sequencerId: string, id: string)
    ensures var details := L1.DetailsOf(results, results.Keys, sequencerId);
            && (id in details <==> id in results && results[id].submissionMetadata != [])
            && (id in details ==> details[id] == L1.ConfirmAll(results[id].submissionMetadata, sequencerId) != [])
  {
  }

  /** e is the entry of a validator for a submission it recorded. */
  ghost predicate IsEntryFor(n: Node, ns: Namespace, epoch: nat, project: string, e: SubmissionMetadata)
    requires n.run.Valid()
  {
    exists id :: id in n.Store().EpochSet(ns, epoch) && Attributed(n.Store(), ns, id, project)
                 && e == L1.Confirmed(SubmitterOf(n.Store().records[(ns, id)], n.now), n.sequencerId)
  }

  lemma CollectedMetadata(projects: L1.Projects, store: Store, ns: Namespace, epoch: nat, now: nat, project: string, s: L1.Submitter)
    requires IsEpochCollection(projects, store, ns, epoch, now)
    ensures project in projects && s in projects[project].submissionMetadata <==>
            exists id :: id in store.EpochSet(ns, epoch) && Attributed(store, ns, id, project) && s == SubmitterOf(store.records[(ns, id)], now)
  {
    var ids :| NoDuplicates(ids) && Elements(ids) == store.EpochSet(ns, epoch) && IsCollection(projects, store, ns, ids, now);
    MetadataAddresses(store, ns, ids, project, now, s);
    assert forall id :: id in ids <==> id in store.EpochSet(ns, epoch);
    if id :| id in ids && Attributed(store, ns, id, project) {
      AttributedIsCollected(projects, store, ns, ids, now, id, project);
    }
  }

  lemma AttributedIsCollected(projects: L1.Projects, store: Store, ns: Namespace, ids: seq<string>, now: nat, id: string, project: string)
    requires NoDuplicates(ids) && IsCollection(projects, store, ns, ids, now) && id in ids && Attributed(store, ns, id, project)
    ensures project in projects
  {
    var cid := store.records[(ns, id)].submission.request.snapshotCid;
    var votes: Votes := map p | p in projects :: projects[p].cidVotes;
    TallyCountsNaming(store, ns, ids, project, cid);
    assert id in Naming(store, ns, Elements(ids), project, cid);
    assert VotesFor(votes, project, cid) == Tally(store, ns, ids, project, cid);
  }

  lemma EntriesAreRecorded(n: Node, ns: Namespace, epoch: nat, hash: MerkleRoot.Hash, project: string, e: SubmissionMetadata)
    requires n.Finalized(ns, epoch, hash)
    ensures e in EntriesIn(n.batch, project) <==> IsEntryFor(n, ns, epoch, project, e)
  {
    EntriesAreConfirmed(n, ns, epoch, hash, project);
    if e in EntriesIn(n.batch, project) {
      var metadata := n.projects[project].submissionMetadata;
      var i :| 0 <= i < |metadata| && e == L1.Confirmed(metadata[i], n.sequencerId);
      CollectedMetadata(n.projects, n.Store(), ns, epoch, n.now, project, metadata[i]);
    }
    if IsEntryFor(n, ns, epoch, project, e) {
      var id :| id in n.Store().EpochSet(ns, epoch) && Attributed(n.Store(), ns, id, project)
                && e == L1.Confirmed(SubmitterOf(n.Store().records[(ns, id)], n.now), n.sequencerId);
      var s := SubmitterOf(n.Store().records[(ns, id)], n.now);
      CollectedMetadata(n.projects, n.Store(), ns, epoch, n.now, project, s);
      var i :| 0 <= i < |n.projects[project].submissionMetadata| && n.projects[project].submissionMetadata[i] == s;
      assert EntriesIn(n.batch, project)[i] == e;
    }
  }

  /** The submitters of a CID in a local batch are the addresses recorded with it. */
  lemma SubmittersAreAddresses(n: Node, ns: Namespace, epoch: nat, hash: MerkleRoot.Hash, project: string, cid: string)
    requires n.Finalized(ns, epoch, hash)
    ensures Submitters(EntriesIn(n.batch, project), cid) == n.Addresses(ns, epoch, project, cid)
  {
    var store, entries := n.Store(), EntriesIn(n.batch, project);
    forall address | address in Submitters(entries, cid)
      ensures address in n.Addresses(ns, epoch, project, cid)
    {
      var e :| e in entries && e.snapshotCid == cid && e.submitterId == address;
      EntriesAreRecorded(n, ns, epoch, hash, project, e);
      var id :| id in store.EpochSet(ns, epoch) && Attributed(store, ns, id, project)
                && e == L1.Confirmed(SubmitterOf(store.records[(ns, id)], n.now), n.sequencerId);
      assert id in Naming(store, ns, store.EpochSet(ns, epoch), project, cid);
    }
    forall address | address in n.Addresses(ns, epoch, project, cid)
      ensures address in Submitters(entries, cid)
    {
      var id :| id in Naming(store, ns, store.EpochSet(ns, epoch), project, cid) && store.records[(ns, id)].snapshotterAddr == address;
      HasAddress(n, ns, epoch, project, cid, id);
      var e := L1.Confirmed(SubmitterOf(store.records[(ns, id)], n.now), n.sequencerId);
      assert IsEntryFor(n, ns, epoch, project, e);
      EntriesAreRecorded(n, ns, epoch, hash, project, e);
      assert e in entries && e.snapshotCid == cid && e.submitterId == address;
    }
  }

  lemma HasAddress(n: Node, ns: Namespace, epoch: nat, project: string, cid: string, id: string)
    requires n.run.Valid() && OneNamespacePerId(n.run.deliveries)
    requires id in Naming(n.Store(), ns, n.Store().EpochSet(ns, epoch), project, cid)
    ensures Attributed(n.Store(), ns, id, project)
  {
    RunInv(n.run, |n.run.deliveries|, ns, epoch);
    assert n.run.deliveries[..|n.run.deliveries|] == n.run.deliveries;
    RecordsAreAddressed(n.run.deliveries, n.Store(), ns, epoch, project, cid);
    assert NamesAt(n.Store(), ns, id, project, cid);
  }

  /** For a project, the local batch has single votes of this validator, from the addresses it recorded. */
  ghost predicate Reports(n: Node, ns: Namespace, epoch: nat, project: string) {
    && n.run.Valid()
    && (forall e | e in EntriesIn(n.batch, project) :: e.voteCount == 1 && e.validatorsConfirming == [n.sequencerId])
    && (forall cid :: Submitters(EntriesIn(n.batch, project), cid) == n.Addresses(ns, epoch, project, cid))
    && (project in n.batch.submissionDetails <==> EntriesIn(n.batch, project) != [])
  }

  lemma FinalizedReports(n: Node, ns: Namespace, epoch: nat, hash: MerkleRoot.Hash, project: string)
    requires n.Finalized(ns, epoch, hash)
    ensures Reports(n, ns, epoch, project)
  {
    EntriesAreConfirmed(n, ns, epoch, hash, project);
    forall e | e in EntriesIn(n.batch, project)
      ensures e.voteCount == 1 && e.validatorsConfirming == [n.sequencerId]
    {
      EntriesAreRecorded(n, ns, epoch, hash, project, e);
    }
    forall cid
      ensures Submitters(EntriesIn(n.batch, project), cid) == n.Addresses(ns, epoch, project, cid)
    {
      SubmittersAreAddresses(n, ns, epoch, hash, project, cid);
    }
  }

  ghost predicate AllReport(nodes: seq<Node>, ns: Namespace, epoch: nat, project: string) {
    forall n | n in nodes :: Reports(n, ns, epoch, project)
  }

  lemma AllFinalizedReport(nodes: seq<Node>, ns: Namespace, epoch: nat, hash: MerkleRoot.Hash, project: string)
    requires AllFinalized(nodes, ns, epoch, hash)
    ensures AllReport(nodes, ns, epoch, project)
  {
    forall n | n in nodes
      ensures Reports(n, ns, epoch, project)
    {
      FinalizedReports(n, ns, epoch, hash, project);
    }
  }

  // ---------------------------------------------------------------- recorded and accepted

  /** The addresses recovered from the accepted submissions of an epoch that name the CID for the project. */
  ghost function AcceptedAddresses(ds: seq<Delivery>, ns: Namespace, epoch: nat, project: string, cid: string): set<string> {
    set d | d in ds && Counts(d, ns, epoch) && Names(d.submission.request, project, cid) :: d.verdict.snapshotterAddr
  }

  /** Accepted deliveries with the same id come from the same address. */
  ghost predicate OneAddressPerId(ds: seq<Delivery>) {
    forall d, e | d in ds && e in ds && d.verdict.Accepted? && e.verdict.Accepted? && IdOf(d) == IdOf(e) ::
      d.verdict.snapshotterAddr == e.verdict.snapshotterAddr
  }

  /** What is recorded was accepted; of several addresses for one id, though, only one is recorded. */
  lemma RecordedAddressesWereAccepted(n: Node, ns: Namespace, epoch: nat, project: string, cid: string)
    requires n.run.Valid() && OneNamespacePerId(n.run.deliveries) && NoOverlaps(n.run.deliveries)
    ensures n.Addresses(ns, epoch, project, cid) <= AcceptedAddresses(n.run.deliveries, ns, epoch, project, cid)
    ensures OneAddressPerId(n.run.deliveries) ==> n.Addresses(ns, epoch, project, cid) == AcceptedAddresses(n.run.deliveries, ns, epoch, project, cid)
  {
    var ds, store := n.run.deliveries, n.Store();
    RunInv(n.run, |ds|, ns, epoch);
    assert ds[..|ds|] == ds;
    forall address | address in n.Addresses(ns, epoch, project, cid)
      ensures address in AcceptedAddresses(ds, ns, epoch, project, cid)
    {
      var id :| id in Naming(store, ns, store.EpochSet(ns, epoch), project, cid) && store.records[(ns, id)].snapshotterAddr == address;
      RecordWasAccepted(ds, store, ns, epoch, project, cid, id);
    }
    if OneAddressPerId(ds) {
      forall address | address in AcceptedAddresses(ds, ns, epoch, project, cid)
        ensures address in n.Addresses(ns, epoch, project, cid)
      {
        var d :| d in ds && Counts(d, ns, epoch) && Names(d.submission.request, project, cid) && d.verdict.snapshotterAddr == address;
        AcceptedIsRecorded(ds, store, ns, epoch, d);
        assert IdOf(d) in Naming(store, ns, store.EpochSet(ns, epoch), project, cid);
      }
    }
  }

  lemma RecordWasAccepted(ds: seq<Delivery>, store: Store, ns: Namespace, epoch: nat, project: string, cid: string, id: string)
    requires EpochInv(ds, store, ns, epoch) && OneNamespacePerId(ds)
    requires id in Naming(store, ns, store.EpochSet(ns, epoch), project, cid)
    ensures store.records[(ns, id)].snapshotterAddr in AcceptedAddresses(ds, ns, epoch, project, cid)
  {
    var d :| d in ds && Counts(d, ns, epoch) && IdOf(d) == id;
    assert RecordedBy(ds, store, ns, id);
    var e :| e in ds && e.verdict.Accepted? && IdOf(e) == id && store.records[(ns, id)] == RecordOf(e);
    SubmissionIds.SameIdSameEpoch(d.submission.request, e.submission.request);
    assert Counts(e, ns, epoch);
  }

  lemma AcceptedIsRecorded(ds: seq<Delivery>, store: Store, ns: Namespace, epoch: nat, d: Delivery)
    requires EpochInv(ds, store, ns, epoch) && NoOverlaps(ds) && OneAddressPerId(ds) && d in ds && Counts(d, ns, epoch)
    ensures IdOf(d) in store.EpochSet(ns, epoch) && (ns, IdOf(d)) in store.records
    ensures store.records[(ns, IdOf(d))].submission.request == d.submission.request
    ensures store.records[(ns, IdOf(d))].snapshotterAddr == d.verdict.snapshotterAddr
  {
    RecordHasRequest(ds, store, ns, epoch, d);
    assert RecordedBy(ds, store, ns, IdOf(d));
  }

  // ---------------------------------------------------------------- the entries of all views

  lemma {:induction false} EntriesOfNodes(nodes: seq<Node>, project: string, e: SubmissionMetadata)
    ensures e in Entries(BatchesOf(nodes), project) <==> exists n :: n in nodes && e in EntriesIn(n.batch, project)
  {
    if nodes != [] {
      var front, last := nodes[..|nodes| - 1], nodes[|nodes| - 1];
      EntriesOfNodes(front, project, e);
      assert BatchesOf(nodes)[..|nodes| - 1] == BatchesOf(front);
      assert last in nodes && forall n | n in front :: n in nodes;
      assert forall n | n in nodes :: n in front || n == last;
    }
  }

  /** The submitters of a CID in all views are the addresses that some validator recorded with it. */
  lemma SubmittersAreSupporters(nodes: seq<Node>, ns: Namespace, epoch: nat, project: string, cid: string)
    requires AllReport(nodes, ns, epoch, project)
    ensures Submitters(Entries(BatchesOf(nodes), project), cid) == Supporters(nodes, ns, epoch, project, cid)
  {
    var entries := Entries(BatchesOf(nodes), project);
    forall address | address in Submitters(entries, cid)
      ensures address in Supporters(nodes, ns, epoch, project, cid)
    {
      var e :| e in entries && e.snapshotCid == cid && e.submitterId == address;
      EntriesOfNodes(nodes, project, e);
      var n :| n in nodes && e in EntriesIn(n.batch, project);
      assert address in Submitters(EntriesIn(n.batch, project), cid);
    }
    forall address | address in Supporters(nodes, ns, epoch, project, cid)
      ensures address in Submitters(entries, cid)
    {
      var n :| n in nodes && address in n.Addresses(ns, epoch, project, cid);
      SupporterHasAnEntry(nodes, n, ns, epoch, project, address, cid);
    }
  }

  /** An address that a validator recorded with a CID has an entry among the views, confirmed by this validator. */
  lemma SupporterHasAnEntry(nodes: seq<Node>, n: Node, ns: Namespace, epoch: nat, project: string, address: string, cid: string)
    requires n in nodes && Reports(n, ns, epoch, project) && address in n.Addresses(ns, epoch, project, cid)
    ensures exists e :: e in Entries(BatchesOf(nodes), project) && Pair(e) == (address, cid) && e.validatorsConfirming == [n.sequencerId]
  {
    assert address in Submitters(EntriesIn(n.batch, project), cid);
    var e :| e in EntriesIn(n.batch, project) && e.snapshotCid == cid && e.submitterId == address;
    EntriesOfNodes(nodes, project, e);
  }

  lemma EntryNamesDeliveredCid(n: Node, ns: Namespace, epoch: nat, project: string, e: SubmissionMetadata)
    requires n.run.Valid() && OneNamespacePerId(n.run.deliveries) && IsEntryFor(n, ns, epoch, project, e)
    ensures e.voteCount == 1 && exists d :: d in n.run.deliveries && d.submission.request.snapshotCid == e.snapshotCid
  {
    var ds, store := n.run.deliveries, n.Store();
    RunInv(n.run, |ds|, ns, epoch);
    assert ds[..|ds|] == ds;
    var id :| id in store.EpochSet(ns, epoch) && Attributed(store, ns, id, project)
              && e == L1.Confirmed(SubmitterOf(store.records[(ns, id)], n.now), n.sequencerId);
    assert RecordedBy(ds, store, ns, id);
  }

  lemma ViewsAreColonFree(nodes: seq<Node>, ns: Namespace, epoch: nat, hash: MerkleRoot.Hash)
    requires AllFinalized(nodes, ns, epoch, hash) && ColonFreeDeliveries(nodes)
    ensures ColonFree(BatchesOf(nodes))
  {
    forall v, id, e | v in BatchesOf(nodes) && id in v.submissionDetails && e in v.submissionDetails[id]
      ensures ':' !in e.snapshotCid
    {
      var i :| 0 <= i < |nodes| && nodes[i].batch == v;
      EntriesAreRecorded(nodes[i], ns, epoch, hash, id, e);
      EntryNamesDeliveredCid(nodes[i], ns, epoch, id, e);
    }
  }

  /** Every entry counts as one vote, and none collide when the delivered CIDs are free of colons. */
  lemma EntriesAreSingleVotes(nodes: seq<Node>, ns: Namespace, epoch: nat, hash: MerkleRoot.Hash, project: string)
    requires AllFinalized(nodes, ns, epoch, hash)
    ensures forall e | e in Entries(BatchesOf(nodes), project) :: e.voteCount == 1
    ensures ColonFreeDeliveries(nodes) ==> ColonFree(BatchesOf(nodes)) && CollisionFree(Entries(BatchesOf(nodes), project))
  {
    AllFinalizedReport(nodes, ns, epoch, hash, project);
    forall e | e in Entries(BatchesOf(nodes), project)
      ensures e.voteCount == 1
    {
      EntriesOfNodes(nodes, project, e);
    }
    if ColonFreeDeliveries(nodes) {
      ViewsAreColonFree(nodes, ns, epoch, hash);
      ColonFreeViewsDoNotCollide(BatchesOf(nodes), project);
    }
  }

  // ---------------------------------------------------------------- the network-wide batch

  /** A listed view has an entry for the project. */
  lemma NamedExactlyWithEntries(nodes: seq<Node>, ns: Namespace, epoch: nat, project: string)
    requires AllReport(nodes, ns, epoch, project)
    ensures Named(BatchesOf(nodes), project) <==> exists e :: e in Entries(BatchesOf(nodes), project)
  {
    if Named(BatchesOf(nodes), project) {
      var v :| v in BatchesOf(nodes) && project in v.submissionDetails;
      var i :| 0 <= i < |nodes| && nodes[i].batch == v;
      assert Reports(nodes[i], ns, epoch, project);
      var e := EntriesIn(v, project)[0];
      EntriesOfNodes(nodes, project, e);
    }
    if e :| e in Entries(BatchesOf(nodes), project) {
      EntriesOfNodes(nodes, project, e);
      var n :| n in nodes && e in EntriesIn(n.batch, project);
      var i :| 0 <= i < |nodes| && nodes[i] == n;
      assert BatchesOf(nodes)[i] == n.batch;
    }
  }

  /**
   From the validators' deliveries to the network-wide batch, whatever each of them received, in whatever
   order and however often, and however each split and processed its epoch: the batch lists exactly the
   projects for which some validator recorded a submission ...
   */
  lemma NetworkBatchListsSupportedProjects(nodes: seq<Node>, ns: Namespace, epoch: nat, hash: MerkleRoot.Hash, a: FinalizedBatch, project: string)
    requires AllFinalized(nodes, ns, epoch, hash) && IsAggregate(BatchesOf(nodes), a)
    ensures project in a.projectIds <==> exists cid :: Supporters(nodes, ns, epoch, project, cid) != {}
  {
    AllFinalizedReport(nodes, ns, epoch, hash, project);
    ListedExactlyWhenNamed(BatchesOf(nodes), a, project);
    NamedExactlyWithEntries(nodes, ns, epoch, project);
    SupportedExactlyWithEntries(nodes, ns, epoch, project);
  }

  lemma ListedExactlyWhenNamed(views: seq<FinalizedBatch>, a: FinalizedBatch, project: string)
    requires IsAggregate(views, a)
    ensures project in a.projectIds <==> Named(views, project)
  {
    assert project in a.projectIds <==> project in Elements(a.projectIds);
    assert project in a.projectVotes <==> Named(views, project);
  }

  lemma SupportedExactlyWithEntries(nodes: seq<Node>, ns: Namespace, epoch: nat, project: string)
    requires AllReport(nodes, ns, epoch, project)
    ensures (exists cid :: Supporters(nodes, ns, epoch, project, cid) != {}) <==> exists e :: e in Entries(BatchesOf(nodes), project)
  {
    var entries := Entries(BatchesOf(nodes), project);
    if e :| e in entries {
      SubmittersAreSupporters(nodes, ns, epoch, project, e.snapshotCid);
      assert e.submitterId in Supporters(nodes, ns, epoch, project, e.snapshotCid);
    }
    if cid :| Supporters(nodes, ns, epoch, project, cid) != {} {
      SubmittersAreSupporters(nodes, ns, epoch, project, cid);
      var address :| address in Submitters(entries, cid);
    }
  }

  /** ... each with a CID that the most addresses named: distinct ones, whichever validators recorded them. */
  lemma NetworkBatchReflectsSubmissions(nodes: seq<Node>, ns: Namespace, epoch: nat, hash: MerkleRoot.Hash, a: FinalizedBatch, i: nat)
    requires AllFinalized(nodes, ns, epoch, hash) && ColonFreeDeliveries(nodes) && IsAggregate(BatchesOf(nodes), a) && i < |a.projectIds|
    ensures var project := a.projectIds[i];
            && (forall cid :: |Supporters(nodes, ns, epoch, project, cid)| <= |Supporters(nodes, ns, epoch, project, a.snapshotCids[i])|)
            && Supporters(nodes, ns, epoch, project, a.snapshotCids[i]) != {}
  {
    var project := a.projectIds[i];
    EntriesAreSingleVotes(nodes, ns, epoch, hash, project);
    AllFinalizedReport(nodes, ns, epoch, hash, project);
    forall cid
      ensures |Supporters(nodes, ns, epoch, project, cid)| <= |Supporters(nodes, ns, epoch, project, a.snapshotCids[i])|
    {
      SubmittersAreSupporters(nodes, ns, epoch, project, cid);
      SubmittersAreSupporters(nodes, ns, epoch, project, a.snapshotCids[i]);
      ListedHasMostSubmitters(BatchesOf(nodes), a, i, cid);
    }
    NetworkBatchListsSupportedProjects(nodes, ns, epoch, hash, a, project);
    var cid :| Supporters(nodes, ns, epoch, project, cid) != {};
    assert |Supporters(nodes, ns, epoch, project, cid)| > 0;
  }

  lemma ListedHasMostSubmitters(views: seq<FinalizedBatch>, a: FinalizedBatch, i: nat, cid: string)
    requires IsAggregate(views, a) && i < |a.projectIds| && CollisionFree(Entries(views, a.projectIds[i]))
    ensures |Submitters(Entries(views, a.projectIds[i]), cid)| <= |Submitters(Entries(views, a.projectIds[i]), a.snapshotCids[i])|
  {
    var entries, merged := Entries(views, a.projectIds[i]), a.submissionDetails[a.projectIds[i]];
    CidCountsDistinctSubmitters(entries, merged, cid);
    CidCountsDistinctSubmitters(entries, merged, a.snapshotCids[i]);
    assert CidCount(merged, cid) <= CidCount(merged, a.snapshotCids[i]);
  }

  /** The CID alone has the most supporters. */
  ghost predicate MostSupported(nodes: seq<Node>, ns: Namespace, epoch: nat, project: string, cid: string)
    requires forall n | n in nodes :: n.run.Valid()
  {
    forall c | c != cid :: |Supporters(nodes, ns, epoch, project, c)| < |Supporters(nodes, ns, epoch, project, cid)|
  }

  lemma MostSupportedIsPlurality(nodes: seq<Node>, ns: Namespace, epoch: nat, project: string, cid: string)
    requires AllReport(nodes, ns, epoch, project)
    ensures MostSupported(nodes, ns, epoch, project, cid) <==> IsUniquePlurality(Entries(BatchesOf(nodes), project), cid)
  {
    forall c {
      SubmittersAreSupporters(nodes, ns, epoch, project, c);
    }
  }

  lemma PluralityExactlyWhenMostSupported(nodes: seq<Node>, ns: Namespace, epoch: nat, project: string)
    requires AllReport(nodes, ns, epoch, project)
    ensures HasUniquePlurality(Entries(BatchesOf(nodes), project)) <==> exists cid :: MostSupported(nodes, ns, epoch, project, cid)
  {
    if cid :| IsUniquePlurality(Entries(BatchesOf(nodes), project), cid) {
      MostSupportedIsPlurality(nodes, ns, epoch, project, cid);
    }
    if cid :| MostSupported(nodes, ns, epoch, project, cid) {
      MostSupportedIsPlurality(nodes, ns, epoch, project, cid);
    }
  }

  /** All nodes that hold these local batches list the same CID for a project exactly if one CID has the most supporters. */
  lemma NodesAgreeExactlyOnMostSupported(nodes: seq<Node>, ns: Namespace, epoch: nat, hash: MerkleRoot.Hash, a: FinalizedBatch, project: string)
    requires AllFinalized(nodes, ns, epoch, hash) && ColonFreeDeliveries(nodes) && IsAggregate(BatchesOf(nodes), a) && project in a.projectIds
    ensures NodesAgree(BatchesOf(nodes), project) <==> exists cid :: MostSupported(nodes, ns, epoch, project, cid)
  {
    AllFinalizedReport(nodes, ns, epoch, hash, project);
    EntriesAreSingleVotes(nodes, ns, epoch, hash, project);
    ListedHasEntries(nodes, ns, epoch, a, project);
    NodesAgreeExactlyWithAUniquePlurality(BatchesOf(nodes), a, project);
    PluralityExactlyWhenMostSupported(nodes, ns, epoch, project);
  }

  lemma ListedHasEntries(nodes: seq<Node>, ns: Namespace, epoch: nat, a: FinalizedBatch, project: string)
    requires AllReport(nodes, ns, epoch, project) && IsAggregate(BatchesOf(nodes), a) && project in a.projectIds
    ensures Entries(BatchesOf(nodes), project) != []
  {
    ListedExactlyWhenNamed(BatchesOf(nodes), a, project);
    NamedExactlyWithEntries(nodes, ns, epoch, project);
  }

  /** The supporters are those whose submissions were accepted, where each id was accepted from one address only. */
  lemma SupportersWereAccepted(nodes: seq<Node>, ns: Namespace, epoch: nat, hash: MerkleRoot.Hash, project: string, cid: string)
    requires AllFinalized(nodes, ns, epoch, hash)
    ensures var accepted := set n, address | n in nodes && address in AcceptedAddresses(n.run.deliveries, ns, epoch, project, cid) :: address;
            && Supporters(nodes, ns, epoch, project, cid) <= accepted
            && ((forall n | n in nodes :: OneAddressPerId(n.run.deliveries)) ==> Supporters(nodes, ns, epoch, project, cid) == accepted)
  {
    forall n | n in nodes {
      RecordedAddressesWereAccepted(n, ns, epoch, project, cid);
    }
  }

  // ---------------------------------------------------------------- who confirms what

  lemma {:induction false} ConfirmedBySome(entries: seq<SubmissionMetadata>, validator: string)
    ensures validator in Confirmations(entries) <==> exists e :: e in entries && validator in e.validatorsConfirming
  {
    if entries != [] {
      var front, last := entries[..|entries| - 1], entries[|entries| - 1];
      ConfirmedBySome(front, validator);
      assert entries == front + [last];
      assert last in entries && forall e | e in front :: e in entries;
      assert forall e | e in entries :: e in front || e == last;
    }
  }

  lemma {:induction false} OneConfirmationEach(entries: seq<SubmissionMetadata>)
    requires forall e | e in entries :: |e.validatorsConfirming| == 1
    ensures |Confirmations(entries)| == |entries|
  {
    if entries != [] {
      var front, last := entries[..|entries| - 1], entries[|entries| - 1];
      assert entries == front + [last];
      assert last in entries && forall e | e in front :: e in entries;
      OneConfirmationEach(front);
    }
  }

  /** The validators that recorded a submission from this address with this CID. */
  ghost function Recorders(nodes: seq<Node>, ns: Namespace, epoch: nat, project: string, address: string, cid: string): set<string>
    requires forall n | n in nodes :: n.run.Valid()
  {
    set n | n in nodes && address in n.Addresses(ns, epoch, project, cid) :: n.sequencerId
  }

  /** An entry of some view is confirmed by one validator, which recorded it. */
  lemma EntryHasARecorder(nodes: seq<Node>, ns: Namespace, epoch: nat, project: string, e: SubmissionMetadata)
    requires AllReport(nodes, ns, epoch, project) && e in Entries(BatchesOf(nodes), project)
    ensures |e.validatorsConfirming| == 1 && e.validatorsConfirming[0] in Recorders(nodes, ns, epoch, project, e.submitterId, e.snapshotCid)
  {
    EntriesOfNodes(nodes, project, e);
    var n :| n in nodes && e in EntriesIn(n.batch, project);
    assert e.submitterId in Submitters(EntriesIn(n.batch, project), e.snapshotCid);
  }

  /** The entries of one submitter and CID are together confirmed by those who recorded it. */
  lemma ConfirmedByRecorders(nodes: seq<Node>, ns: Namespace, epoch: nat, project: string, same: seq<SubmissionMetadata>, address: string, cid: string)
    requires AllReport(nodes, ns, epoch, project)
    requires forall e :: e in same <==> e in Entries(BatchesOf(nodes), project) && Pair(e) == (address, cid)
    ensures Elements(Confirmations(same)) == Recorders(nodes, ns, epoch, project, address, cid)
    ensures |Confirmations(same)| == |same|
  {
    forall validator | validator in Confirmations(same)
      ensures validator in Recorders(nodes, ns, epoch, project, address, cid)
    {
      ConfirmedBySome(same, validator);
      var e :| e in same && validator in e.validatorsConfirming;
      EntryHasARecorder(nodes, ns, epoch, project, e);
    }
    forall validator | validator in Recorders(nodes, ns, epoch, project, address, cid)
      ensures validator in Confirmations(same)
    {
      var n :| n in nodes && address in n.Addresses(ns, epoch, project, cid) && n.sequencerId == validator;
      SupporterHasAnEntry(nodes, n, ns, epoch, project, address, cid);
      ConfirmedBySome(same, validator);
    }
    forall e | e in same
      ensures |e.validatorsConfirming| == 1
    {
      EntryHasARecorder(nodes, ns, epoch, project, e);
    }
    OneConfirmationEach(same);
  }

  /** In the network-wide batch an entry is confirmed by exactly the validators that recorded it, once for each of its votes. */
  lemma EntriesAreConfirmedByTheirRecorders(nodes: seq<Node>, ns: Namespace, epoch: nat, hash: MerkleRoot.Hash, a: FinalizedBatch,
                                            project: string, m: SubmissionMetadata)
    requires AllFinalized(nodes, ns, epoch, hash) && ColonFreeDeliveries(nodes) && IsAggregate(BatchesOf(nodes), a)
    requires project in a.submissionDetails && m in a.submissionDetails[project]
    ensures Elements(m.validatorsConfirming) == Recorders(nodes, ns, epoch, project, m.submitterId, m.snapshotCid)
    ensures m.voteCount == |m.validatorsConfirming|
  {
    var entries, merged := Entries(BatchesOf(nodes), project), a.submissionDetails[project];
    EntriesAreSingleVotes(nodes, ns, epoch, hash, project);
    AllFinalizedReport(nodes, ns, epoch, hash, project);
    MergedEntryCountsItsVotes(entries, merged, m);
    SameKeyIsSamePair(entries, merged, m);
    ConfirmedByRecorders(nodes, ns, epoch, project, WithKey(entries, KeyOf(m)), m.submitterId, m.snapshotCid);
  }

  lemma SameKeyIsSamePair(entries: seq<SubmissionMetadata>, merged: seq<SubmissionMetadata>, m: SubmissionMetadata)
    requires IsMerge(entries, merged) && CollisionFree(entries) && m in merged
    ensures forall e :: e in WithKey(entries, KeyOf(m)) <==> e in entries && Pair(e) == Pair(m)
  {
    WithKeyHasKey(entries, KeyOf(m));
    var original := MergedComesFrom(entries, merged, m);
  }

  // ---------------------------------------------------------------- entries are accepted submissions

  /** The entry says what the validator accepted: a delivery for the epoch and project, its slot, CID and signature, and the recovered address. */
  ghost predicate IsSubmission(n: Node, ns: Namespace, epoch: nat, project: string, e: SubmissionMetadata, d: Delivery) {
    && d in n.run.deliveries && ns == (d.submission.protocolState, d.submission.dataMarket)
    && d.submission.request == Request(epoch, project, e.slotId, e.snapshotCid)
    && e.signature == d.submission.signature && n.checks.Admits(d.submission, e.submitterId)
    && e.timestamp == n.now
  }

  lemma EntriesAreSubmissions(n: Node, ns: Namespace, epoch: nat, hash: MerkleRoot.Hash, project: string, e: SubmissionMetadata)
    requires n.Finalized(ns, epoch, hash) && e in EntriesIn(n.batch, project)
    ensures exists d :: IsSubmission(n, ns, epoch, project, e, d)
    ensures e.voteCount == 1 && e.validatorsConfirming == [n.sequencerId]
  {
    EntriesAreRecorded(n, ns, epoch, hash, project, e);
    var ds, store := n.run.deliveries, n.Store();
    RunInv(n.run, |ds|, ns, epoch);
    assert ds[..|ds|] == ds;
    var id :| id in store.EpochSet(ns, epoch) && Attributed(store, ns, id, project)
              && e == L1.Confirmed(SubmitterOf(store.records[(ns, id)], n.now), n.sequencerId);
    var d := RecordedDelivery(n, ns, epoch, id);
    assert IsSubmission(n, ns, epoch, project, e, d);
  }

  /** What is recorded under an id of the epoch's set is one of the accepted deliveries for it. */
  lemma RecordedDelivery(n: Node, ns: Namespace, epoch: nat, id: string) returns (d: Delivery)
    requires n.run.Valid() && OneNamespacePerId(n.run.deliveries) && Examined(n.run.deliveries, n.checks)
    requires EpochInv(n.run.deliveries, n.Store(), ns, epoch) && id in n.Store().EpochSet(ns, epoch)
    ensures d in n.run.deliveries && d.submission.request.epochId == epoch && ns == (d.submission.protocolState, d.submission.dataMarket)
    ensures (ns, id) in n.Store().records && n.Store().records[(ns, id)].submission == d.submission
    ensures n.checks.Admits(d.submission, n.Store().records[(ns, id)].snapshotterAddr)
  {
    var counted :| counted in n.run.deliveries && Counts(counted, ns, epoch) && IdOf(counted) == id;
    assert RecordedBy(n.run.deliveries, n.Store(), ns, id);
    d :| d in n.run.deliveries && d.verdict.Accepted? && IdOf(d) == id && n.Store().records[(ns, id)] == RecordOf(d);
    SubmissionIds.SameIdSameEpoch(counted.submission.request, d.submission.request);
    AcceptedExactlyWhenAdmitted(n.checks, d.submission, d.verdict.snapshotterAddr);
  }

  /** Conversely, the slot of every admitted submission of the epoch has an entry with its CID. */
  lemma SubmissionsHaveEntries(n: Node, ns: Namespace, epoch: nat, hash: MerkleRoot.Hash, d: Delivery, addr: Address)
    requires n.Finalized(ns, epoch, hash) && d in n.run.deliveries && n.checks.Admits(d.submission, addr)
    requires ns == (d.submission.protocolState, d.submission.dataMarket) && d.submission.request.epochId == epoch
    ensures exists e :: e in EntriesIn(n.batch, d.submission.request.projectId)
                        && e.slotId == d.submission.request.slotId && e.snapshotCid == d.submission.request.snapshotCid
  {
    var ds, store, project := n.run.deliveries, n.Store(), d.submission.request.projectId;
    AcceptedExactlyWhenAdmitted(n.checks, d.submission, addr);
    RunInv(n.run, |ds|, ns, epoch);
    assert ds[..|ds|] == ds;
    RecordHasRequest(ds, store, ns, epoch, d);
    assert IdOf(d) in Naming(store, ns, store.EpochSet(ns, epoch), project, d.submission.request.snapshotCid);
    HasAddress(n, ns, epoch, project, d.submission.request.snapshotCid, IdOf(d));
    var e := L1.Confirmed(SubmitterOf(store.records[(ns, IdOf(d))], n.now), n.sequencerId);
    assert IsEntryFor(n, ns, epoch, project, e);
    EntriesAreRecorded(n, ns, epoch, hash, project, e);
  }

  /** So every entry of the network-wide batch is a submission that some validator accepted. */
  lemma NetworkEntriesAreSubmissions(nodes: seq<Node>, ns: Namespace, epoch: nat, hash: MerkleRoot.Hash, a: FinalizedBatch,
                                     project: string, m: SubmissionMetadata)
    requires AllFinalized(nodes, ns, epoch, hash) && IsAggregate(BatchesOf(nodes), a)
    requires project in a.submissionDetails && m in a.submissionDetails[project]
    ensures exists n, d :: n in nodes && IsSubmission(n, ns, epoch, project, m, d)
  {
    var e := MergedComesFrom(Entries(BatchesOf(nodes), project), a.submissionDetails[project], m);
    EntriesOfNodes(nodes, project, e);
    var n :| n in nodes && e in EntriesIn(n.batch, project);
    EntriesAreSubmissions(n, ns, epoch, hash, project, e);
    var d :| IsSubmission(n, ns, epoch, project, e, d);
    assert IsSubmission(n, ns, epoch, project, m, d);
  }

  // ---------------------------------------------------------------- the votes

  /** The validator lists the CID for the project. */
  ghost predicate ListsAt(n: Node, i: nat, project: string) {
    i < |n.batch.projectIds| && i < |n.batch.snapshotCids| && n.batch.projectIds[i] == project
  }

  /** What the validator counted for the CID it lists. */
  ghost function LocalCount(n: Node, ns: Namespace, epoch: nat, project: string, i: nat): nat
    requires ListsAt(n, i, project)
  {
    Support(n.run, ns, epoch, project, n.batch.snapshotCids[i]) % 0x1_0000_0000
  }

  /** The local batch has entries for the projects it lists, and their votes are those counts. */
  ghost predicate ReportsVotes(n: Node, ns: Namespace, epoch: nat, project: string) {
    && (project in n.batch.submissionDetails <==> exists i: nat :: ListsAt(n, i, project))
    && (forall i: nat | ListsAt(n, i, project) ::
          project in n.batch.projectVotes && n.batch.projectVotes[project] == LocalCount(n, ns, epoch, project, i))
  }

  lemma FinalizedReportsVotes(n: Node, ns: Namespace, epoch: nat, hash: MerkleRoot.Hash, project: string)
    requires n.Finalized(ns, epoch, hash)
    ensures ReportsVotes(n, ns, epoch, project)
  {
    LocalBatchReflectsSubmissions(n.run, n.checks, ns, epoch, n.now, n.projects, n.parts, n.states, |n.states| - 1,
                                  hash, n.batch, n.sequencerId, project);
    ListedHasEntriesLocally(n, ns, epoch, hash, project);
    ListedSomewhere(n, project);
  }

  lemma ListedSomewhere(n: Node, project: string)
    requires |n.batch.projectIds| == |n.batch.snapshotCids|
    ensures project in n.batch.projectIds <==> exists i: nat :: ListsAt(n, i, project)
  {
    if project in n.batch.projectIds {
      var i :| 0 <= i < |n.batch.projectIds| && n.batch.projectIds[i] == project;
      assert ListsAt(n, i, project);
    }
  }

  lemma ListedHasEntriesLocally(n: Node, ns: Namespace, epoch: nat, hash: MerkleRoot.Hash, project: string)
    requires n.Finalized(ns, epoch, hash)
    ensures project in n.batch.submissionDetails <==> project in n.batch.projectIds
    ensures |n.batch.projectIds| == |n.batch.snapshotCids|
  {
    CollectedProjectsAreMerged(n, ns, epoch, hash, project);
    EntriesAreConfirmed(n, ns, epoch, hash, project);
    assert project in n.batch.projectIds <==> project in Elements(n.batch.projectIds);
    if project in n.projects {
      HasAVote(n.projects, n.Store(), ns, epoch, n.now, project);
      var cid :| cid in n.projects[project].cidVotes;
      CollectedVotesCountSlots(n.run, n.projects, ns, epoch, n.now, project, cid);
      assert n.projects[project].submissionMetadata != [];
    }
  }

  /** The network-wide vote count of a project is the highest number of slots that any validator counted for the CID it lists, as a uint32. */
  lemma NetworkVotesAreHighest(nodes: seq<Node>, ns: Namespace, epoch: nat, hash: MerkleRoot.Hash, a: FinalizedBatch, project: string)
    requires AllFinalized(nodes, ns, epoch, hash) && IsAggregate(BatchesOf(nodes), a) && project in a.projectVotes
    ensures exists n, i: nat :: n in nodes && ListsAt(n, i, project) && a.projectVotes[project] == LocalCount(n, ns, epoch, project, i)
    ensures forall n, i: nat | n in nodes && ListsAt(n, i, project) :: LocalCount(n, ns, epoch, project, i) <= a.projectVotes[project]
  {
    forall n | n in nodes
      ensures ReportsVotes(n, ns, epoch, project)
    {
      FinalizedReportsVotes(n, ns, epoch, hash, project);
    }
    HighestOfReports(nodes, ns, epoch, project, a.projectVotes[project]);
  }

  lemma HighestOfReports(nodes: seq<Node>, ns: Namespace, epoch: nat, project: string, votes: nat)
    requires (forall n | n in nodes :: ReportsVotes(n, ns, epoch, project)) && IsHighestVote(BatchesOf(nodes), project, votes)
    ensures exists n, i: nat :: n in nodes && ListsAt(n, i, project) && votes == LocalCount(n, ns, epoch, project, i)
    ensures forall n, i: nat | n in nodes && ListsAt(n, i, project) :: LocalCount(n, ns, epoch, project, i) <= votes
  {
    var views := BatchesOf(nodes);
    forall n, i: nat | n in nodes && ListsAt(n, i, project)
      ensures LocalCount(n, ns, epoch, project, i) <= votes
    {
      var k :| 0 <= k < |nodes| && nodes[k] == n;
      assert views[k] == n.batch && n.batch in views;
    }
    var v :| v in views && project in v.submissionDetails && votes == if project in v.projectVotes then v.projectVotes[project] else 0;
    var k :| 0 <= k < |nodes| && views[k] == v;
    assert nodes[k] in nodes;
    var i: nat :| ListsAt(nodes[k], i, project);
  }
}
