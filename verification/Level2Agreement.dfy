/**
 What the Level-2 aggregate of a node depends on: the set and multiplicity of the validators' views,
 not the order in which they arrive nor which of them is the node's own.
 */
module Level2Agreement {
  import opened Batches
  import opened Sequences
  import opened Level2Aggregation

  // ---------------------------------------------------------------- submitters and CIDs

  /** Entries are merged under one key only if they name the same submitter and CID. */
  ghost predicate CollisionFree(entries: seq<SubmissionMetadata>) {
    forall d, e | d in entries && e in entries && KeyOf(d) == KeyOf(e) :: Pair(d) == Pair(e)
  }

  function Pair(e: SubmissionMetadata): (string, string) {
    (e.submitterId, e.snapshotCid)
  }

  ghost function Pairs(entries: seq<SubmissionMetadata>): set<(string, string)> {
    set e | e in entries :: Pair(e)
  }

  /** The submitters of the CID. */
  ghost function Submitters(entries: seq<SubmissionMetadata>, cid: string): set<string> {
    set e | e in entries && e.snapshotCid == cid :: e.submitterId
  }

  /** CIDs without a colon suffice: the last colon of a key then ends the submitter id. */
  lemma ColonFreeCidsDoNotCollide(entries: seq<SubmissionMetadata>)
    requires forall e | e in entries :: ':' !in e.snapshotCid
    ensures CollisionFree(entries)
  {
    forall d, e | d in entries && e in entries && KeyOf(d) == KeyOf(e)
      ensures Pair(d) == Pair(e)
    {
      assert KeyOf(d) == d.submitterId + [':'] + d.snapshotCid;
      assert KeyOf(e) == e.submitterId + [':'] + e.snapshotCid;
      SplitAtLast(d.submitterId, e.submitterId, d.snapshotCid, e.snapshotCid, ':');
    }
  }

  /** An entry of the merge repeats the submitter and CID of an original entry with its key. */
  lemma MergedComesFrom(entries: seq<SubmissionMetadata>, merged: seq<SubmissionMetadata>, m: SubmissionMetadata)
    returns (e: SubmissionMetadata)
    requires IsMerge(entries, merged) && m in merged
    ensures e in entries && KeyOf(e) == KeyOf(m) && Pair(e) == Pair(m) && SameSubmission(e, m)
  {
    CombineKeepsKey(entries, KeyOf(m));
    e :| e in entries && KeyOf(e) == KeyOf(m) && SameSubmission(e, Combine(WithKey(entries, KeyOf(m))));
  }

  /** Without collisions, merging neither loses nor invents a (submitter, CID) pair. */
  lemma MergeKeepsPairs(entries: seq<SubmissionMetadata>, merged: seq<SubmissionMetadata>)
    requires IsMerge(entries, merged) && CollisionFree(entries)
    ensures Pairs(merged) == Pairs(entries)
  {
    forall m | m in merged
      ensures Pair(m) in Pairs(entries)
    {
      var e := MergedComesFrom(entries, merged, m);
    }
    forall e | e in entries
      ensures Pair(e) in Pairs(merged)
    {
      var m :| m in merged && KeyOf(m) == KeyOf(e);
      var d := MergedComesFrom(entries, merged, m);
      assert Pair(d) == Pair(e);
    }
  }

  ghost predicate DistinctPairs(merged: seq<SubmissionMetadata>) {
    forall i, j | 0 <= i < j < |merged| :: Pair(merged[i]) != Pair(merged[j])
  }

  lemma SubmittersSnoc(front: seq<SubmissionMetadata>, last: SubmissionMetadata, cid: string)
    ensures Submitters(front + [last], cid) ==
            if last.snapshotCid == cid then Submitters(front, cid) + {last.submitterId} else Submitters(front, cid)
  {
    forall s
      ensures s in Submitters(front + [last], cid) <==> s in Submitters(front, cid) || (last.snapshotCid == cid && s == last.submitterId)
    {
      if s in Submitters(front, cid) {
        var e :| e in front && e.snapshotCid == cid && e.submitterId == s;
        assert e in front + [last];
      }
      if last.snapshotCid == cid && s == last.submitterId {
        assert last in front + [last];
      }
    }
  }

  lemma {:induction false} CidCountIsSubmitterCount(merged: seq<SubmissionMetadata>, cid: string)
    requires DistinctPairs(merged)
    ensures CidCount(merged, cid) == |Submitters(merged, cid)|
  {
    if merged != [] {
      var n := |merged| - 1;
      var front, last := merged[..n], merged[n];
      CidCountIsSubmitterCount(front, cid);
      assert merged == front + [last];
      SubmittersSnoc(front, last, cid);
      assert forall e | e in front :: Pair(e) != Pair(last);
    }
  }

  /** The count that decides on a CID is the number of distinct submitters who named it. */
  lemma CidCountsDistinctSubmitters(entries: seq<SubmissionMetadata>, merged: seq<SubmissionMetadata>, cid: string)
    requires IsMerge(entries, merged) && CollisionFree(entries)
    ensures CidCount(merged, cid) == |Submitters(entries, cid)|
  {
    MergeKeepsPairs(entries, merged);
    forall i, j | 0 <= i < j < |merged|
      ensures Pair(merged[i]) != Pair(merged[j])
    {
      assert KeyOf(merged[i]) != KeyOf(merged[j]);
    }
    CidCountIsSubmitterCount(merged, cid);
    SubmittersFromPairs(merged, cid);
    SubmittersFromPairs(entries, cid);
  }

  lemma SubmittersFromPairs(entries: seq<SubmissionMetadata>, cid: string)
    ensures Submitters(entries, cid) == set p | p in Pairs(entries) && p.1 == cid :: p.0
  {
    forall s
      ensures s in Submitters(entries, cid) <==> (s, cid) in Pairs(entries)
    {
      if s in Submitters(entries, cid) {
        var e :| e in entries && e.snapshotCid == cid && e.submitterId == s;
        assert Pair(e) in Pairs(entries);
      }
    }
  }

  // ---------------------------------------------------------------- permutations

  lemma {:induction false} WithKeyMultiplicity(entries: seq<SubmissionMetadata>, key: string, e: SubmissionMetadata)
    ensures multiset(WithKey(entries, key))[e] == if KeyOf(e) == key then multiset(entries)[e] else 0
  {
    if entries != [] {
      var n := |entries| - 1;
      WithKeyMultiplicity(entries[..n], key, e);
      assert entries == entries[..n] + [entries[n]];
    }
  }

  lemma WithKeyOfPermutation(a: seq<SubmissionMetadata>, b: seq<SubmissionMetadata>, key: string)
    requires multiset(a) == multiset(b)
    ensures multiset(WithKey(a, key)) == multiset(WithKey(b, key))
  {
    forall e
      ensures multiset(WithKey(a, key))[e] == multiset(WithKey(b, key))[e]
    {
      WithKeyMultiplicity(a, key, e);
      WithKeyMultiplicity(b, key, e);
    }
  }

  lemma {:induction false} ConfirmationsConcat(a: seq<SubmissionMetadata>, b: seq<SubmissionMetadata>)
    ensures Confirmations(a + b) == Confirmations(a) + Confirmations(b)
  {
    if b == [] {
      assert a + b == a;
    } else {
      var n, ab := |b| - 1, a + b;
      var last := b[n].validatorsConfirming;
      ConfirmationsConcat(a, b[..n]);
      assert ab[..|ab| - 1] == a + b[..n] && ab[|ab| - 1] == b[n];
      assert Confirmations(ab) == Confirmations(a + b[..n]) + last;
      assert Confirmations(a) + Confirmations(b[..n]) + last == Confirmations(a) + (Confirmations(b[..n]) + last);
    }
  }

  lemma ConfirmationsInsert(a: seq<SubmissionMetadata>, e: SubmissionMetadata, b: seq<SubmissionMetadata>)
    ensures multiset(Confirmations(a + [e] + b)) == multiset(Confirmations(a + b)) + multiset(e.validatorsConfirming)
  {
    ConfirmationsConcat(a, b);
    ConfirmationsConcat(a + [e], b);
    assert (a + [e])[..|a|] == a;
  }

  lemma {:induction false} ConfirmationsOfPermutation(a: seq<SubmissionMetadata>, b: seq<SubmissionMetadata>)
    requires multiset(a) == multiset(b)
    ensures multiset(Confirmations(a)) == multiset(Confirmations(b))
    decreases |a|
  {
    if a == [] {
      PermutationHasSameElements(a, b);
    } else {
      var last := a[|a| - 1];
      var before, after := RemoveLast(a, b);
      ConfirmationsOfPermutation(a[..|a| - 1], before + after);
      ConfirmationsInsert(before, last, after);
    }
  }

  lemma {:induction false} EntriesConcat(a: seq<FinalizedBatch>, b: seq<FinalizedBatch>, id: string)
    ensures Entries(a + b, id) == Entries(a, id) + Entries(b, id)
  {
    if b == [] {
      assert a + b == a;
    } else {
      var n := |b| - 1;
      EntriesConcat(a, b[..n], id);
      assert (a + b)[..|a + b| - 1] == a + b[..n];
    }
  }

  lemma EntriesInsert(a: seq<FinalizedBatch>, v: FinalizedBatch, b: seq<FinalizedBatch>, id: string)
    ensures multiset(Entries(a + [v] + b, id)) ==
            multiset(Entries(a + b, id)) + multiset(if id in v.submissionDetails then v.submissionDetails[id] else [])
  {
    EntriesConcat(a, b, id);
    EntriesConcat(a + [v], b, id);
    assert (a + [v])[..|a|] == a;
  }

  lemma {:induction false} EntriesOfPermutation(a: seq<FinalizedBatch>, b: seq<FinalizedBatch>, id: string)
    requires multiset(a) == multiset(b)
    ensures multiset(Entries(a, id)) == multiset(Entries(b, id))
    decreases |a|
  {
    if a == [] {
      PermutationHasSameElements(a, b);
    } else {
      var last := a[|a| - 1];
      var before, after := RemoveLast(a, b);
      EntriesOfPermutation(a[..|a| - 1], before + after, id);
      EntriesInsert(before, last, after, id);
    }
  }

  // ---------------------------------------------------------------- order independence

  /** Every CID in the views is free of colons, as IPFS CIDs are. */
  ghost predicate ColonFree(views: seq<FinalizedBatch>) {
    forall v, id, e | v in views && id in v.submissionDetails && e in v.submissionDetails[id] :: ':' !in e.snapshotCid
  }

  lemma {:induction false} EntriesComeFromViews(views: seq<FinalizedBatch>, id: string)
    ensures forall e | e in Entries(views, id) :: exists v :: v in views && id in v.submissionDetails && e in v.submissionDetails[id]
  {
    if views != [] {
      var n := |views| - 1;
      EntriesComeFromViews(views[..n], id);
      assert forall v | v in views[..n] :: v in views;
      assert views[n] in views;
    }
  }

  lemma ColonFreeViewsDoNotCollide(views: seq<FinalizedBatch>, id: string)
    requires ColonFree(views)
    ensures CollisionFree(Entries(views, id))
  {
    EntriesComeFromViews(views, id);
    ColonFreeCidsDoNotCollide(Entries(views, id));
  }

  /** cid alone is named by the most distinct submitters. */
  ghost predicate IsUniquePlurality(entries: seq<SubmissionMetadata>, cid: string) {
    forall c | c != cid :: |Submitters(entries, c)| < |Submitters(entries, cid)|
  }

  lemma HighestVoteIsUnique(v: seq<FinalizedBatch>, w: seq<FinalizedBatch>, id: string, m: nat, n: nat)
    requires multiset(v) == multiset(w) && IsHighestVote(v, id, m) && IsHighestVote(w, id, n)
    ensures m == n
  {
    PermutationHasSameElements(v, w);
    var x :| x in v && id in x.submissionDetails && VotesIn(x, id) == m;
    assert x in w;
    var y :| y in w && id in y.submissionDetails && VotesIn(y, id) == n;
    assert y in v;
  }

  lemma NamedByPermutation(v: seq<FinalizedBatch>, w: seq<FinalizedBatch>, id: string)
    requires multiset(v) == multiset(w) && Named(v, id)
    ensures Named(w, id)
  {
    PermutationHasSameElements(v, w);
    var x :| x in v && id in x.submissionDetails;
    assert x in w;
  }

  /** Views in any order, whichever is the node's own, give the same projects and vote counts. */
  lemma VotesAreOrderIndependent(v: seq<FinalizedBatch>, w: seq<FinalizedBatch>, a: FinalizedBatch, b: FinalizedBatch)
    requires multiset(v) == multiset(w) && IsAggregate(v, a) && IsAggregate(w, b)
    ensures a.projectVotes == b.projectVotes
  {
    forall id | id in a.projectVotes
      ensures id in b.projectVotes && a.projectVotes[id] == b.projectVotes[id]
    {
      NamedByPermutation(v, w, id);
      HighestVoteIsUnique(v, w, id, a.projectVotes[id], b.projectVotes[id]);
    }
    forall id | id in b.projectVotes
      ensures id in a.projectVotes
    {
      NamedByPermutation(w, v, id);
    }
    SameEntries(a.projectVotes, b.projectVotes);
  }

  lemma EntriesAgree(v: seq<FinalizedBatch>, w: seq<FinalizedBatch>, id: string)
    requires multiset(v) == multiset(w) && ColonFree(v)
    ensures CollisionFree(Entries(v, id)) && CollisionFree(Entries(w, id))
    ensures Pairs(Entries(v, id)) == Pairs(Entries(w, id))
    ensures forall c :: Submitters(Entries(v, id), c) == Submitters(Entries(w, id), c)
  {
    EntriesOfPermutation(v, w, id);
    SamePairs(Entries(v, id), Entries(w, id));
    ColonFreeViewsDoNotCollide(v, id);
    PermutationHasSameElements(v, w);
    ColonFreeViewsDoNotCollide(w, id);
    forall c
      ensures Submitters(Entries(v, id), c) == Submitters(Entries(w, id), c)
    {
      SubmittersFromPairs(Entries(v, id), c);
      SubmittersFromPairs(Entries(w, id), c);
    }
  }

  lemma SamePairs(a: seq<SubmissionMetadata>, b: seq<SubmissionMetadata>)
    requires multiset(a) == multiset(b)
    ensures Pairs(a) == Pairs(b)
  {
    PermutationHasSameElements(a, b);
  }

  /** ... and per project the same (submitter, CID) pairs, and the same submitters behind every CID. */
  lemma SubmissionsAreOrderIndependent(v: seq<FinalizedBatch>, w: seq<FinalizedBatch>, a: FinalizedBatch, b: FinalizedBatch, id: string)
    requires multiset(v) == multiset(w) && IsAggregate(v, a) && IsAggregate(w, b) && ColonFree(v)
    requires id in a.submissionDetails && id in b.submissionDetails
    ensures Pairs(a.submissionDetails[id]) == Pairs(b.submissionDetails[id]) == Pairs(Entries(v, id))
    ensures forall c :: CidCount(a.submissionDetails[id], c) == CidCount(b.submissionDetails[id], c) == |Submitters(Entries(v, id), c)|
  {
    EntriesAgree(v, w, id);
    MergeKeepsPairs(Entries(v, id), a.submissionDetails[id]);
    MergeKeepsPairs(Entries(w, id), b.submissionDetails[id]);
    forall c
      ensures CidCount(a.submissionDetails[id], c) == CidCount(b.submissionDetails[id], c) == |Submitters(Entries(v, id), c)|
    {
      CidCountsDistinctSubmitters(Entries(v, id), a.submissionDetails[id], c);
      CidCountsDistinctSubmitters(Entries(w, id), b.submissionDetails[id], c);
    }
  }

  /** ... so that a CID named by the most distinct submitters is chosen by every node that holds these views. */
  lemma UniquePluralityWinsEverywhere(v: seq<FinalizedBatch>, w: seq<FinalizedBatch>, a: FinalizedBatch, i: nat, cid: string)
    requires multiset(v) == multiset(w) && IsAggregate(w, a) && ColonFree(v) && i < |a.projectIds|
    requires IsUniquePlurality(Entries(v, a.projectIds[i]), cid)
    ensures a.snapshotCids[i] == cid
  {
    var id := a.projectIds[i];
    EntriesAgree(v, w, id);
    CidCountsDistinctSubmitters(Entries(w, id), a.submissionDetails[id], cid);
    CidCountsDistinctSubmitters(Entries(w, id), a.submissionDetails[id], a.snapshotCids[i]);
    assert CidCount(a.submissionDetails[id], cid) <= CidCount(a.submissionDetails[id], a.snapshotCids[i]);
  }

  /** A CID with as high a count as the listed one could have been listed in its place. */
  lemma TiedCidIsListed(projectIds: seq<string>, cids: seq<string>, details: Details, i: nat, c: string)
    requires ListsConsensus(projectIds, cids, details) && i < |projectIds| && details[projectIds[i]] != []
    requires CidCount(details[projectIds[i]], c) >= CidCount(details[projectIds[i]], cids[i])
    ensures ListsConsensus(projectIds, cids[i := c], details)
  {
    assert IsConsensusCid(details[projectIds[i]], cids[i]);
    assert IsConsensusCid(details[projectIds[i]], c);
  }

  lemma TiedCidIsPossible(v: seq<FinalizedBatch>, a: FinalizedBatch, i: nat, c: string)
    requires IsAggregate(v, a) && i < |a.projectIds| && a.submissionDetails[a.projectIds[i]] != []
    requires CidCount(a.submissionDetails[a.projectIds[i]], c) >= CidCount(a.submissionDetails[a.projectIds[i]], a.snapshotCids[i])
    ensures IsAggregate(v, a.(snapshotCids := a.snapshotCids[i := c]))
  {
    TiedCidIsListed(a.projectIds, a.snapshotCids, a.submissionDetails, i, c);
  }

  /** Every node that holds these views, in whatever order, lists cid for the project. */
  ghost predicate NodesAgreeOn(v: seq<FinalizedBatch>, id: string, cid: string) {
    forall w, b, j | multiset(v) == multiset(w) && IsAggregate(w, b) && 0 <= j < |b.projectIds| && b.projectIds[j] == id :: b.snapshotCids[j] == cid
  }

  lemma UniquePluralityIsAgreedOn(v: seq<FinalizedBatch>, id: string, cid: string)
    requires ColonFree(v) && IsUniquePlurality(Entries(v, id), cid)
    ensures NodesAgreeOn(v, id, cid)
  {
    forall w, b, j | multiset(v) == multiset(w) && IsAggregate(w, b) && 0 <= j < |b.projectIds| && b.projectIds[j] == id
      ensures b.snapshotCids[j] == cid
    {
      UniquePluralityWinsEverywhere(v, w, b, j, cid);
    }
  }

  lemma NothingIsAgreedOn(v: seq<FinalizedBatch>, id: string)
    requires Entries(v, id) == []
    ensures NodesAgreeOn(v, id, "")
  {
    forall w, b, j | multiset(v) == multiset(w) && IsAggregate(w, b) && 0 <= j < |b.projectIds| && b.projectIds[j] == id
      ensures b.snapshotCids[j] == ""
    {
      EntriesOfPermutation(v, w, id);
      NothingNamed(Entries(w, id), b.submissionDetails[id], b.snapshotCids[j]);
    }
  }

  /** As high a number of submitters as the listed CID has makes another listing possible. */
  lemma TieCanBeListed(v: seq<FinalizedBatch>, a: FinalizedBatch, i: nat, c: string) returns (b: FinalizedBatch)
    requires IsAggregate(v, a) && ColonFree(v) && i < |a.projectIds| && Entries(v, a.projectIds[i]) != []
    requires |Submitters(Entries(v, a.projectIds[i]), c)| >= |Submitters(Entries(v, a.projectIds[i]), a.snapshotCids[i])|
    ensures IsAggregate(v, b) && b.projectIds == a.projectIds && b.snapshotCids == a.snapshotCids[i := c]
  {
    var id := a.projectIds[i];
    ColonFreeViewsDoNotCollide(v, id);
    TieInMerge(Entries(v, id), a.submissionDetails[id], c, a.snapshotCids[i]);
    TiedCidIsPossible(v, a, i, c);
    b := a.(snapshotCids := a.snapshotCids[i := c]);
  }

  lemma TieInMerge(entries: seq<SubmissionMetadata>, merged: seq<SubmissionMetadata>, c: string, d: string)
    requires IsMerge(entries, merged) && CollisionFree(entries) && entries != [] && |Submitters(entries, c)| >= |Submitters(entries, d)|
    ensures merged != [] && CidCount(merged, c) >= CidCount(merged, d)
  {
    assert entries[0] in entries;
    CidCountsDistinctSubmitters(entries, merged, c);
    CidCountsDistinctSubmitters(entries, merged, d);
  }

  lemma AnotherListing(v: seq<FinalizedBatch>, b: FinalizedBatch, i: nat, id: string, cid: string)
    requires IsAggregate(v, b) && i < |b.projectIds| && b.projectIds[i] == id && b.snapshotCids[i] != cid
    ensures !NodesAgreeOn(v, id, cid)
  {}

  /** ... so that nodes agree on a project's CID exactly if it alone is named by the most distinct submitters, or nobody names any. */
  lemma NodesAgreeExactlyOnUniquePluralities(v: seq<FinalizedBatch>, a: FinalizedBatch, i: nat)
    requires IsAggregate(v, a) && ColonFree(v) && i < |a.projectIds|
    ensures var id, cid := a.projectIds[i], a.snapshotCids[i];
            NodesAgreeOn(v, id, cid) <==> IsUniquePlurality(Entries(v, id), cid) || Entries(v, id) == []
  {
    var id, cid := a.projectIds[i], a.snapshotCids[i];
    if IsUniquePlurality(Entries(v, id), cid) {
      UniquePluralityIsAgreedOn(v, id, cid);
    } else if Entries(v, id) == [] {
      NothingIsAgreedOn(v, id);
      NothingNamed(Entries(v, id), a.submissionDetails[id], cid);
    } else {
      var c :| c != cid && |Submitters(Entries(v, id), c)| >= |Submitters(Entries(v, id), cid)|;
      var b := TieCanBeListed(v, a, i, c);
      AnotherListing(v, b, i, id, cid);
    }
  }

  ghost predicate NodesAgree(v: seq<FinalizedBatch>, id: string) {
    exists cid :: NodesAgreeOn(v, id, cid)
  }

  ghost predicate HasUniquePlurality(entries: seq<SubmissionMetadata>) {
    exists cid :: IsUniquePlurality(entries, cid)
  }

  /** In terms of the views alone: nodes agree exactly if some CID is named by the most distinct submitters, or nobody names any. */
  lemma NodesAgreeExactlyWithAUniquePlurality(v: seq<FinalizedBatch>, a: FinalizedBatch, id: string)
    requires IsAggregate(v, a) && ColonFree(v) && id in a.projectIds
    ensures NodesAgree(v, id) <==> HasUniquePlurality(Entries(v, id)) || Entries(v, id) == []
  {
    var i: nat :| i < |a.projectIds| && a.projectIds[i] == id;
    NodesAgreeExactlyOnUniquePluralities(v, a, i);
    if cid :| NodesAgreeOn(v, id, cid) {
      assert multiset(v) == multiset(v) && IsAggregate(v, a);
      assert a.snapshotCids[i] == cid;
    }
    if cid :| IsUniquePlurality(Entries(v, id), cid) {
      UniquePluralityIsAgreedOn(v, id, cid);
    }
  }

  lemma NothingNamed(entries: seq<SubmissionMetadata>, merged: seq<SubmissionMetadata>, cid: string)
    requires multiset(entries) == multiset{} && IsMerge(entries, merged) && IsConsensusCid(merged, cid)
    ensures cid == ""
  {
    assert |entries| == |multiset(entries)|;
    assert entries == [];
    assert merged != [] ==> WithKey(entries, KeyOf(merged[0])) != [];
  }

  /** ... and each (submitter, CID) entry carries the same votes and is confirmed by the same validators, order aside. */
  lemma AttributionIsOrderIndependent(v: seq<FinalizedBatch>, w: seq<FinalizedBatch>, a: FinalizedBatch, b: FinalizedBatch, id: string,
                                      m: SubmissionMetadata, n: SubmissionMetadata)
    requires multiset(v) == multiset(w) && IsAggregate(v, a) && IsAggregate(w, b)
    requires id in a.submissionDetails && id in b.submissionDetails
    requires m in a.submissionDetails[id] && n in b.submissionDetails[id] && KeyOf(m) == KeyOf(n)
    requires forall e | e in Entries(v, id) :: e.voteCount == 1
    ensures m.voteCount == n.voteCount == |WithKey(Entries(v, id), KeyOf(m))|
    ensures multiset(m.validatorsConfirming) == multiset(n.validatorsConfirming)
  {
    EntriesOfPermutation(v, w, id);
    MergedEntriesAgree(Entries(v, id), Entries(w, id), a.submissionDetails[id], b.submissionDetails[id], m, n);
  }

  lemma MergedEntriesAgree(p: seq<SubmissionMetadata>, q: seq<SubmissionMetadata>, mergedP: seq<SubmissionMetadata>, mergedQ: seq<SubmissionMetadata>,
                           m: SubmissionMetadata, n: SubmissionMetadata)
    requires multiset(p) == multiset(q) && IsMerge(p, mergedP) && IsMerge(q, mergedQ)
    requires m in mergedP && n in mergedQ && KeyOf(m) == KeyOf(n) && forall e | e in p :: e.voteCount == 1
    ensures m.voteCount == n.voteCount == |WithKey(p, KeyOf(m))|
    ensures multiset(m.validatorsConfirming) == multiset(n.validatorsConfirming)
  {
    MergedIsCombined(p, mergedP, m);
    MergedIsCombined(q, mergedQ, n);
    WithKeyOfPermutation(p, q, KeyOf(m));
    WithKeyHasKey(p, KeyOf(m));
    CombinationsAgree(WithKey(p, KeyOf(m)), WithKey(q, KeyOf(m)));
  }

  lemma MergedIsCombined(entries: seq<SubmissionMetadata>, merged: seq<SubmissionMetadata>, m: SubmissionMetadata)
    requires IsMerge(entries, merged) && m in merged
    ensures WithKey(entries, KeyOf(m)) != [] && m == Combine(WithKey(entries, KeyOf(m)))
  {}

  /** Combining entries with one vote each gives the number of entries and all confirmations, in whatever order they come. */
  lemma CombinationsAgree(p: seq<SubmissionMetadata>, q: seq<SubmissionMetadata>)
    requires p != [] && multiset(p) == multiset(q) && forall e | e in p :: e.voteCount == 1
    ensures q != [] && Combine(p).voteCount == |p| == Combine(q).voteCount
    ensures multiset(Combine(p).validatorsConfirming) == multiset(Combine(q).validatorsConfirming)
  {
    PermutationHasSameElements(p, q);
    ConfirmationsOfPermutation(p, q);
    assert p[0] in p && q[0] in q;
  }

  // ---------------------------------------------------------------- conservation

  ghost function TotalVotes(merged: seq<SubmissionMetadata>): int {
    if merged == [] then 0 else TotalVotes(merged[..|merged| - 1]) + merged[|merged| - 1].voteCount
  }

  ghost function Without(entries: seq<SubmissionMetadata>, key: string): seq<SubmissionMetadata> {
    if entries == [] then []
    else
      var last := entries[|entries| - 1];
      Without(entries[..|entries| - 1], key) + (if KeyOf(last) == key then [] else [last])
  }

  lemma {:induction false} WithoutOthers(entries: seq<SubmissionMetadata>, key: string, other: string)
    ensures |entries| == |WithKey(entries, key)| + |Without(entries, key)|
    ensures forall e :: e in Without(entries, key) <==> e in entries && KeyOf(e) != key
    ensures other != key ==> WithKey(Without(entries, key), other) == WithKey(entries, other)
  {
    if entries != [] {
      var n := |entries| - 1;
      WithoutOthers(entries[..n], key, other);
      assert entries == entries[..n] + [entries[n]];
      if KeyOf(entries[n]) != key {
        WithKeySnoc(Without(entries[..n], key), entries[n], other);
      } else {
        assert Without(entries, key) == Without(entries[..n], key);
        if other != key {
          assert WithKey(entries, other) == WithKey(entries[..n], other);
        }
      }
    }
  }

  /**
   Level-1 entries carry one vote each. Then every merged entry's vote count is the number of views'
   entries with its key, and its confirmations are theirs, in order ...
   */
  lemma MergedEntryCountsItsVotes(entries: seq<SubmissionMetadata>, merged: seq<SubmissionMetadata>, m: SubmissionMetadata)
    requires IsMerge(entries, merged) && m in merged && forall e | e in entries :: e.voteCount == 1
    ensures m.voteCount == |WithKey(entries, KeyOf(m))|
    ensures m.validatorsConfirming == Confirmations(WithKey(entries, KeyOf(m)))
  {
    WithKeyHasKey(entries, KeyOf(m));
    assert WithKey(entries, KeyOf(m))[0] in entries;
  }

  /** ... and no vote is lost or counted twice. */
  lemma {:induction false} VotesAreConserved(entries: seq<SubmissionMetadata>, merged: seq<SubmissionMetadata>)
    requires IsMerge(entries, merged) && forall e | e in entries :: e.voteCount == 1
    ensures TotalVotes(merged) == |entries|
    decreases |merged|
  {
    assert entries != [] ==> entries[0] in entries;
    if merged != [] {
      var n := |merged| - 1;
      var key := KeyOf(merged[n]);
      MergedEntryCountsItsVotes(entries, merged, merged[n]);
      WithoutOthers(entries, key, key);
      RestIsMerge(entries, merged);
      VotesAreConserved(Without(entries, key), merged[..n]);
    }
  }

  lemma RestIsMerge(entries: seq<SubmissionMetadata>, merged: seq<SubmissionMetadata>)
    requires IsMerge(entries, merged) && merged != []
    ensures IsMerge(Without(entries, KeyOf(merged[|merged| - 1])), merged[..|merged| - 1])
  {
    var n := |merged| - 1;
    var key := KeyOf(merged[n]);
    var rest := Without(entries, key);
    forall i | 0 <= i < n
      ensures WithKey(rest, KeyOf(merged[i])) == WithKey(entries, KeyOf(merged[i]))
    {
      WithoutOthers(entries, key, KeyOf(merged[i]));
    }
    forall e | e in rest
      ensures exists m :: m in merged[..n] && KeyOf(m) == KeyOf(e)
    {
      RestIsCovered(entries, merged, e);
    }
  }

  lemma RestIsCovered(entries: seq<SubmissionMetadata>, merged: seq<SubmissionMetadata>, e: SubmissionMetadata)
    requires merged != [] && e in Without(entries, KeyOf(merged[|merged| - 1]))
    requires forall e | e in entries :: exists m :: m in merged && KeyOf(m) == KeyOf(e)
    ensures exists m :: m in merged[..|merged| - 1] && KeyOf(m) == KeyOf(e)
  {
    var n := |merged| - 1;
    WithoutOthers(entries, KeyOf(merged[n]), KeyOf(merged[n]));
    var m :| m in merged && KeyOf(m) == KeyOf(e);
    assert merged == merged[..n] + [merged[n]];
    assert m in merged[..n];
  }

  // ---------------------------------------------------------------- exactly when merging is order independent

  lemma {:induction false} MergeTableExists(entries: seq<SubmissionMetadata>) returns (table: map<string, SubmissionMetadata>)
    ensures IsMergeTable(entries, table)
  {
    if entries == [] {
      table := map[];
    } else {
      var n := |entries| - 1;
      var before := MergeTableExists(entries[..n]);
      MergeTableSnoc(entries[..n], entries[n], before);
      assert entries == entries[..n] + [entries[n]];
      table := before[KeyOf(entries[n]) := Absorb(before, entries[n])];
    }
  }

  lemma MergeExists(entries: seq<SubmissionMetadata>) returns (merged: seq<SubmissionMetadata>)
    ensures IsMerge(entries, merged)
  {
    var table := MergeTableExists(entries);
    var keys := Enumerate(table.Keys);
    merged := seq(|keys|, i requires 0 <= i < |keys| => assert keys[i] in Elements(keys); table[keys[i]]);
    forall key | key in table
      ensures table[key] in merged
    {
      assert key in Elements(keys);
      var i :| 0 <= i < |keys| && keys[i] == key;
      assert merged[i] == table[key];
    }
    ListedTableIsMerge(entries, table, keys, merged);
  }

  /** The pairs that merging keeps are the same for every order of the entries. */
  ghost predicate KeepsSamePairsInAnyOrder(entries: seq<SubmissionMetadata>) {
    forall reordered, m, n | multiset(reordered) == multiset(entries) && IsMerge(entries, m) && IsMerge(reordered, n) :: Pairs(m) == Pairs(n)
  }

  /** Whichever of two colliding entries comes first is the one whose submitter and CID are kept. */
  lemma FirstOfKeyIsKept(entries: seq<SubmissionMetadata>, d: SubmissionMetadata) returns (reordered: seq<SubmissionMetadata>)
    requires d in entries
    ensures multiset(reordered) == multiset(entries)
    ensures forall m | IsMerge(reordered, m) :: Pair(d) in Pairs(m)
  {
    var i :| 0 <= i < |entries| && entries[i] == d;
    var rest := entries[..i] + entries[i + 1..];
    reordered := [d] + rest;
    assert entries == entries[..i] + [d] + entries[i + 1..];
    WithKeyFirst(d, rest, KeyOf(d));
    forall m | IsMerge(reordered, m)
      ensures Pair(d) in Pairs(m)
    {
      assert reordered[0] == d && d in reordered;
      var e :| e in m && KeyOf(e) == KeyOf(d);
      assert e == Combine(WithKey(reordered, KeyOf(d)));
      assert Pair(e) == Pair(d);
    }
  }

  lemma {:induction false} WithKeyFirst(d: SubmissionMetadata, rest: seq<SubmissionMetadata>, key: string)
    requires KeyOf(d) == key
    ensures WithKey([d] + rest, key) != [] && WithKey([d] + rest, key)[0] == d
  {
    if rest == [] {
      assert [d] + rest == [] + [d];
      WithKeySnoc([], d, key);
    } else {
      var n := |rest| - 1;
      WithKeyFirst(d, rest[..n], key);
      assert [d] + rest == [d] + rest[..n] + [rest[n]];
      WithKeySnoc([d] + rest[..n], rest[n], key);
    }
  }

  /** A merge keeps one pair per key, so at most one of two colliding entries survives. */
  lemma OnlyOneCollidingPairSurvives(entries: seq<SubmissionMetadata>, merged: seq<SubmissionMetadata>, d: SubmissionMetadata, e: SubmissionMetadata)
    requires IsMerge(entries, merged) && KeyOf(d) == KeyOf(e) && Pair(d) != Pair(e)
    ensures Pair(d) !in Pairs(merged) || Pair(e) !in Pairs(merged)
  {
    assert forall x, y | x in merged && y in merged && KeyOf(x) == KeyOf(y) :: x == y;
    assert forall x | x in merged && Pair(x) == Pair(d) :: KeyOf(x) == KeyOf(d);
    assert forall y | y in merged && Pair(y) == Pair(e) :: KeyOf(y) == KeyOf(e);
  }

  /** Merging keeps the same pairs in every order exactly when no two entries collide. */
  lemma OrderIndependentExactlyWithoutCollisions(entries: seq<SubmissionMetadata>)
    ensures KeepsSamePairsInAnyOrder(entries) <==> CollisionFree(entries)
  {
    if CollisionFree(entries) {
      forall reordered, m, n | multiset(reordered) == multiset(entries) && IsMerge(entries, m) && IsMerge(reordered, n)
        ensures Pairs(m) == Pairs(n)
      {
        PermutationHasSameElements(reordered, entries);
        MergeKeepsPairs(entries, m);
        MergeKeepsPairs(reordered, n);
        SamePairs(entries, reordered);
      }
    } else {
      var d, e :| d in entries && e in entries && KeyOf(d) == KeyOf(e) && Pair(d) != Pair(e);
      var m := MergeExists(entries);
      OnlyOneCollidingPairSurvives(entries, m, d, e);
      var dropped := if Pair(d) !in Pairs(m) then d else e;
      var reordered := FirstOfKeyIsKept(entries, dropped);
      var n := MergeExists(reordered);
      assert Pair(dropped) in Pairs(n) && Pair(dropped) !in Pairs(m);
    }
  }

  /** Such a collision: submitter "a" with CID "b:c" and submitter "a:b" with CID "c". */
  lemma ColonsCollide(d: SubmissionMetadata, e: SubmissionMetadata)
    requires Pair(d) == ("a", "b:c") && Pair(e) == ("a:b", "c")
    ensures !CollisionFree([d, e])
  {
    assert KeyOf(d) == "a:b:c" && KeyOf(e) == "a:b:c";
    assert Pair(d).0 != Pair(e).0;
    assert [d, e][0] == d && [d, e][1] == e;
  }

  // ---------------------------------------------------------------- the validator count

  /** The id a message is counted under; none if it has no decodable batch. */
  ghost function IdsOf(m: Incoming): set<string> {
    if m.Message? && m.body.Some? then {ViewId(m)} else {}
  }

  ghost function OwnIds(ourBatch: Option<FinalizedBatch>): set<string> {
    if ourBatch.Some? then {ourBatch.value.sequencerId} else {}
  }

  ghost function IdsOfAll(incoming: seq<Incoming>): seq<set<string>> {
    seq(|incoming|, i requires 0 <= i < |incoming| => IdsOf(incoming[i]))
  }

  lemma {:induction false} ViewIdsAreAUnion(ourBatch: Option<FinalizedBatch>, incoming: seq<Incoming>)
    ensures ViewIds(ourBatch, incoming) == UnionOf(OwnIds(ourBatch), IdsOfAll(incoming))
    ensures |Views(ourBatch, incoming)| == |OwnIds(ourBatch)| + SumBy(IdsOfAll(incoming), (s: set<string>) => |s|)
  {
    if incoming == [] {
      assert IdsOfAll(incoming) == [];
    } else {
      var front := incoming[..|incoming| - 1];
      ViewIdsAreAUnion(ourBatch, front);
      assert IdsOfAll(incoming)[..|incoming| - 1] == IdsOfAll(front);
    }
  }

  /** The validator count is at most the number of aggregated batches, and equal exactly when no two are counted under one id. */
  lemma CountsBatchesExactlyWithDistinctIds(ourBatch: Option<FinalizedBatch>, incoming: seq<Incoming>)
    ensures |CountedIds(ourBatch, incoming)| <= |Views(ourBatch, incoming)|
    ensures |CountedIds(ourBatch, incoming)| == |Views(ourBatch, incoming)| <==> Apart(OwnIds(ourBatch), IdsOfAll(incoming))
  {
    ViewIdsAreCountedIds(ourBatch, incoming);
    ViewIdsAreAUnion(ourBatch, incoming);
    UnionCounts(OwnIds(ourBatch), IdsOfAll(incoming));
  }

  predicate HasHeader(m: Incoming, id: string) {
    m.Message? && m.body.Some? && m.header.Some? && m.header.value.batchIpfsCid != "" && m.header.value.validatorId == id
  }

  /** Batches with headers of different validators are counted once each. */
  lemma DistinctHeadersCountOnceEach(incoming: seq<Incoming>, ids: seq<string>)
    requires |incoming| == |ids| && NoDuplicates(ids) && forall i | 0 <= i < |ids| :: HasHeader(incoming[i], ids[i])
    ensures |CountedIds(None, incoming)| == |incoming|
  {
    forall i | 0 <= i < |ids|
      ensures IdsOf(incoming[i]) == {ids[i]}
    {}
    AllCounted(incoming, ids);
  }

  predicate NamesSequencer(m: Incoming, id: string) {
    m.Message? && m.body.Some? && m.header.None? && m.body.value.sequencerId == id != ""
  }

  /** So are batches without headers that name different sequencers, whatever their keys. */
  lemma DistinctSequencersCountOnceEach(incoming: seq<Incoming>, ids: seq<string>)
    requires |incoming| == |ids| && NoDuplicates(ids) && forall i | 0 <= i < |ids| :: NamesSequencer(incoming[i], ids[i])
    ensures |CountedIds(None, incoming)| == |incoming|
  {
    forall i | 0 <= i < |ids|
      ensures IdsOf(incoming[i]) == {ids[i]}
    {}
    AllCounted(incoming, ids);
  }

  lemma AllCounted(incoming: seq<Incoming>, ids: seq<string>)
    requires |incoming| == |ids| && NoDuplicates(ids) && forall i | 0 <= i < |ids| :: IdsOf(incoming[i]) == {ids[i]}
    ensures |CountedIds(None, incoming)| == |incoming|
  {
    ViewIdsAreCountedIds(None, incoming);
    ViewIdsAreAUnion(None, incoming);
    SingletonsCount(IdsOfAll(incoming), ids);
  }

  /** Two batches that carry their own IPFS CID are read as headers without a validator id, and counted once. */
  lemma BatchesWithOwnCidCountOnce(v: FinalizedBatch, w: FinalizedBatch, a: string, b: string)
    requires v.batchIpfsCid != "" && w.batchIpfsCid != ""
    ensures var incoming := [Message(Some(ValidatorHeader("", v.batchIpfsCid)), Some(v), a), Message(Some(ValidatorHeader("", w.batchIpfsCid)), Some(w), b)];
            |Views(None, incoming)| == 2 && |CountedIds(None, incoming)| == 1
  {
    var m := Message(Some(ValidatorHeader("", v.batchIpfsCid)), Some(v), a);
    var n := Message(Some(ValidatorHeader("", w.batchIpfsCid)), Some(w), b);
    IdsSnoc(None, [], m);
    IdsSnoc(None, [m], n);
    ViewsSnoc(None, [], m);
    ViewsSnoc(None, [m], n);
    assert [] + [m] == [m] && [m] + [n] == [m, n];
    assert ViewIds(None, [m, n]) == {""};
    ViewIdsAreCountedIds(None, [m, n]);
  }
}
