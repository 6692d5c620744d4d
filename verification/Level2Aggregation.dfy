/**
 Level 2: one node combines its own local batch with the batches it received from other validators
 into the network-wide batch of an epoch (createAggregatedBatch).
 */
module Level2Aggregation {
  import opened Batches
  import opened Sequences
  import MerkleRoot

  // ---------------------------------------------------------------- the validators' views

  datatype ValidatorHeader = ValidatorHeader(validatorId: string, batchIpfsCid: string)

  /**
   What a Redis key of an incoming batch yields: nothing, or JSON that is decoded in up to two ways.
   `keySegment` is the fourth colon-separated segment of the key, the fallback validator id.
   */
  datatype Incoming = Missing | Message(header: Option<ValidatorHeader>, body: Option<FinalizedBatch>, keySegment: string)

  predicate TakesHeader(m: Incoming) {
    m.Message? && m.header.Some? && m.header.value.batchIpfsCid != ""
  }

  /** The batch that a message contributes, if it contributes one. */
  function ViewsOf(incoming: seq<Incoming>): seq<FinalizedBatch> {
    if incoming == [] then []
    else
      var m := incoming[|incoming| - 1];
      ViewsOf(incoming[..|incoming| - 1]) + (if m.Message? && m.body.Some? then [m.body.value] else [])
  }

  /** All views a node aggregates: its own first, if it has one. */
  function Views(ourBatch: Option<FinalizedBatch>, incoming: seq<Incoming>): seq<FinalizedBatch> {
    (if ourBatch.Some? then [ourBatch.value] else []) + ViewsOf(incoming)
  }

  /** The id under which a message is counted; a batch that carries its own IPFS CID has none. */
  function ViewId(m: Incoming): string
    requires m.Message? && m.body.Some?
  {
    if TakesHeader(m) then m.header.value.validatorId
    else if m.body.value.sequencerId != "" then m.body.value.sequencerId
    else m.keySegment
  }

  // ---------------------------------------------------------------- what the aggregate is

  /** All entries for a project, in the order of the views. */
  ghost function Entries(views: seq<FinalizedBatch>, id: string): seq<SubmissionMetadata> {
    if views == [] then []
    else
      var last := views[|views| - 1];
      Entries(views[..|views| - 1], id) + (if id in last.submissionDetails then last.submissionDetails[id] else [])
  }

  function VotesIn(view: FinalizedBatch, id: string): nat {
    if id in view.projectVotes then view.projectVotes[id] else 0
  }

  /** Some view lists the project. */
  ghost predicate Named(views: seq<FinalizedBatch>, id: string) {
    exists v :: v in views && id in v.submissionDetails
  }

  /** n is the highest vote count among the views that list the project. */
  ghost predicate IsHighestVote(views: seq<FinalizedBatch>, id: string, n: nat) {
    && (exists v :: v in views && id in v.submissionDetails && n == if id in v.projectVotes then v.projectVotes[id] else 0)
    && (forall v | v in views && id in v.submissionDetails && id in v.projectVotes :: v.projectVotes[id] <= n)
  }

  /** The text under which entries of a project are merged. */
  function KeyOf(e: SubmissionMetadata): string {
    e.submitterId + ":" + e.snapshotCid
  }

  ghost function WithKey(entries: seq<SubmissionMetadata>, key: string): seq<SubmissionMetadata> {
    if entries == [] then []
    else
      var last := entries[|entries| - 1];
      WithKey(entries[..|entries| - 1], key) + (if KeyOf(last) == key then [last] else [])
  }

  ghost function Confirmations(entries: seq<SubmissionMetadata>): seq<string> {
    if entries == [] then []
    else Confirmations(entries[..|entries| - 1]) + entries[|entries| - 1].validatorsConfirming
  }

  /** The first of the entries, with the votes and confirmations of all of them. */
  ghost function Combine(entries: seq<SubmissionMetadata>): SubmissionMetadata
    requires entries != []
  {
    entries[0].(voteCount := entries[0].voteCount + |entries| - 1, validatorsConfirming := Confirmations(entries))
  }

  /** The two entries are for the same submission: submitter, CID, slot, signature and time. */
  predicate SameSubmission(d: SubmissionMetadata, e: SubmissionMetadata) {
    && d.submitterId == e.submitterId && d.snapshotCid == e.snapshotCid
    && d.slotId == e.slotId && d.signature == e.signature && d.timestamp == e.timestamp
  }

  /** merged has exactly one entry for every key that occurs, combined from all entries with that key. */
  ghost predicate IsMerge(entries: seq<SubmissionMetadata>, merged: seq<SubmissionMetadata>) {
    && (forall i | 0 <= i < |merged| :: WithKey(entries, KeyOf(merged[i])) != [] && merged[i] == Combine(WithKey(entries, KeyOf(merged[i]))))
    && (forall i, j | 0 <= i < j < |merged| :: KeyOf(merged[i]) != KeyOf(merged[j]))
    && (forall e | e in entries :: exists m :: m in merged && KeyOf(m) == KeyOf(e))
  }

  ghost function CidCount(merged: seq<SubmissionMetadata>, cid: string): nat {
    if merged == [] then 0
    else CidCount(merged[..|merged| - 1], cid) + (if merged[|merged| - 1].snapshotCid == cid then 1 else 0)
  }

  /** No CID occurs in more merged entries; a project without entries gets the empty CID. */
  ghost predicate IsConsensusCid(merged: seq<SubmissionMetadata>, cid: string) {
    && (forall c :: CidCount(merged, c) <= CidCount(merged, cid))
    && (merged == [] ==> cid == "")
  }

  /** The projects some view lists, with their highest votes and their merged entries. */
  ghost predicate MergesViews(views: seq<FinalizedBatch>, votes: map<string, nat>, details: Details) {
    && (forall id :: id in votes <==> Named(views, id))
    && details.Keys == votes.Keys
    && (forall id | id in votes :: IsHighestVote(views, id, votes[id]))
    && (forall id | id in details :: IsMerge(Entries(views, id), details[id]))
  }

  /** The parallel arrays name every project once, with a consensus CID. */
  ghost predicate ListsConsensus(projectIds: seq<string>, snapshotCids: seq<string>, details: Details) {
    && |projectIds| == |snapshotCids| && NoDuplicates(projectIds) && Elements(projectIds) == details.Keys
    && (forall i | 0 <= i < |projectIds| :: projectIds[i] in details && IsConsensusCid(details[projectIds[i]], snapshotCids[i]))
  }

  ghost predicate IsAggregate(views: seq<FinalizedBatch>, a: FinalizedBatch) {
    MergesViews(views, a.projectVotes, a.submissionDetails) && ListsConsensus(a.projectIds, a.snapshotCids, a.submissionDetails)
  }

  // ---------------------------------------------------------------- collecting the views

  /** details and votes account for project id in views. */
  ghost predicate AccountsFor(views: seq<FinalizedBatch>, details: Details, votes: map<string, nat>, id: string) {
    && (id in votes <==> Named(views, id)) && (id in details <==> id in votes)
    && (id in votes ==> details[id] == Entries(views, id) && IsHighestVote(views, id, votes[id]))
  }

  ghost predicate Accumulated(views: seq<FinalizedBatch>, details: Details, votes: map<string, nat>) {
    forall id :: AccountsFor(views, details, votes, id)
  }

  lemma {:induction false} EntriesOfUnnamed(views: seq<FinalizedBatch>, id: string)
    requires !Named(views, id)
    ensures Entries(views, id) == []
  {
    if views != [] {
      var n := |views| - 1;
      assert views[n] in views;
      assert forall v | v in views[..n] :: v in views;
      EntriesOfUnnamed(views[..n], id);
    }
  }

  /** One more view that does not list the project changes nothing for it. */
  lemma UnlistedStays(views: seq<FinalizedBatch>, view: FinalizedBatch, id: string)
    requires id !in view.submissionDetails
    ensures Named(views + [view], id) <==> Named(views, id)
    ensures Entries(views + [view], id) == Entries(views, id)
    ensures forall n :: IsHighestVote(views, id, n) ==> IsHighestVote(views + [view], id, n)
  {
    assert (views + [view])[..|views|] == views;
    assert forall v :: v in views + [view] <==> v in views || v == view;
  }

  /** One more view that lists the project adds its entries and may raise the vote count. */
  lemma ListedGrows(views: seq<FinalizedBatch>, view: FinalizedBatch, id: string, before: Option<nat>)
    requires id in view.submissionDetails
    requires if Named(views, id) then before.Some? && IsHighestVote(views, id, before.value) else before.None?
    ensures Named(views + [view], id)
    ensures Entries(views + [view], id) == Entries(views, id) + view.submissionDetails[id]
    ensures IsHighestVote(views + [view], id,
              if before.None? || VotesIn(view, id) > before.value then VotesIn(view, id) else before.value)
  {
    assert (views + [view])[..|views|] == views;
    assert forall v :: v in views + [view] <==> v in views || v == view;
  }

  /** Of view, only the projects in `remaining` are still to be added. */
  ghost predicate Merging(views: seq<FinalizedBatch>, view: FinalizedBatch, details: Details, votes: map<string, nat>, remaining: set<string>) {
    forall id :: AccountsAt(views, view, details, votes, remaining, id)
  }

  ghost predicate AccountsAt(views: seq<FinalizedBatch>, view: FinalizedBatch, details: Details, votes: map<string, nat>, remaining: set<string>, id: string) {
    AccountsFor(if id in remaining then views else views + [view], details, votes, id)
  }

  lemma MergingStarts(views: seq<FinalizedBatch>, view: FinalizedBatch, details: Details, votes: map<string, nat>)
    requires Accumulated(views, details, votes)
    ensures Merging(views, view, details, votes, view.submissionDetails.Keys)
  {
    forall id
      ensures AccountsAt(views, view, details, votes, view.submissionDetails.Keys, id)
    {
      assert AccountsFor(views, details, votes, id);
      if id !in view.submissionDetails {
        UnlistedStays(views, view, id);
      }
    }
  }

  lemma MergingContinues(views: seq<FinalizedBatch>, view: FinalizedBatch, details: Details, votes: map<string, nat>, remaining: set<string>, id: string)
    requires Merging(views, view, details, votes, remaining) && id in remaining && id in view.submissionDetails
    ensures id in details <==> id in votes
    ensures
      var entries := (if id in details then details[id] else []) + view.submissionDetails[id];
      Merging(views, view, details[id := entries], if id !in votes || VotesIn(view, id) > votes[id] then votes[id := VotesIn(view, id)] else votes, remaining - {id})
  {
    assert AccountsAt(views, view, details, votes, remaining, id);
    ListedGrows(views, view, id, if id in votes then Some(votes[id]) else None);
    if id !in votes {
      EntriesOfUnnamed(views, id);
    }
    var details' := details[id := (if id in details then details[id] else []) + view.submissionDetails[id]];
    var votes' := if id !in votes || VotesIn(view, id) > votes[id] then votes[id := VotesIn(view, id)] else votes;
    forall other
      ensures AccountsAt(views, view, details', votes', remaining - {id}, other)
    {
      assert AccountsAt(views, view, details, votes, remaining, other);
    }
  }

  lemma MergingEnds(views: seq<FinalizedBatch>, view: FinalizedBatch, details: Details, votes: map<string, nat>)
    requires Merging(views, view, details, votes, {})
    ensures Accumulated(views + [view], details, votes)
  {
    forall id
      ensures AccountsFor(views + [view], details, votes, id)
    {
      assert AccountsAt(views, view, details, votes, {}, id);
    }
  }

  /** The body of the loops over `SubmissionDetails`: append the entries, keep the higher vote count. */
  method MergeView(ghost views: seq<FinalizedBatch>, details: Details, votes: map<string, nat>, view: FinalizedBatch)
    returns (details': Details, votes': map<string, nat>)
    requires Accumulated(views, details, votes)
    ensures Accumulated(views + [view], details', votes')
  {
    details', votes' := details, votes;
    var remaining := view.submissionDetails.Keys;
    MergingStarts(views, view, details, votes);
    while remaining != {}
      invariant remaining <= view.submissionDetails.Keys
      invariant Merging(views, view, details', votes', remaining)
      decreases remaining
    {
      var id :| id in remaining;
      MergingContinues(views, view, details', votes', remaining, id);
      remaining := remaining - {id};
      details' := details'[id := (if id in details' then details'[id] else []) + view.submissionDetails[id]];
      if id !in votes' || VotesIn(view, id) > votes'[id] {
        votes' := votes'[id := VotesIn(view, id)];
      }
    }
    MergingEnds(views, view, details', votes');
  }

  // ---------------------------------------------------------------- merging duplicates

  lemma WithKeySnoc(entries: seq<SubmissionMetadata>, e: SubmissionMetadata, key: string)
    ensures WithKey(entries + [e], key) == WithKey(entries, key) + (if KeyOf(e) == key then [e] else [])
  {
    assert (entries + [e])[..|entries|] == entries;
  }

  lemma {:induction false} WithKeyHasKey(entries: seq<SubmissionMetadata>, key: string)
    ensures forall e :: e in WithKey(entries, key) <==> e in entries && KeyOf(e) == key
  {
    if entries != [] {
      var n := |entries| - 1;
      WithKeyHasKey(entries[..n], key);
      assert entries == entries[..n] + [entries[n]];
    }
  }

  lemma CombineSnoc(entries: seq<SubmissionMetadata>, e: SubmissionMetadata)
    requires entries != []
    ensures Combine(entries + [e]) ==
            Combine(entries).(voteCount := Combine(entries).voteCount + 1,
                              validatorsConfirming := Combine(entries).validatorsConfirming + e.validatorsConfirming)
  {
    assert (entries + [e])[..|entries|] == entries;
  }

  lemma CombineOne(e: SubmissionMetadata)
    ensures Combine([e]) == e
  {
    assert [e][..0] == [];
    assert Confirmations([e]) == [] + e.validatorsConfirming;
  }

  /** The entry kept under a key has that key. */
  lemma CombineKeepsKey(entries: seq<SubmissionMetadata>, key: string)
    requires WithKey(entries, key) != []
    ensures KeyOf(Combine(WithKey(entries, key))) == key
    ensures exists e :: e in entries && KeyOf(e) == key && SameSubmission(e, Combine(WithKey(entries, key)))
  {
    WithKeyHasKey(entries, key);
    assert WithKey(entries, key)[0] in WithKey(entries, key);
  }

  /** table holds, under every key that occurs in entries, what is to be kept of it. */
  ghost predicate IsMergeTable(entries: seq<SubmissionMetadata>, table: map<string, SubmissionMetadata>) {
    forall key :: (key in table <==> WithKey(entries, key) != []) && (key in table ==> table[key] == Combine(WithKey(entries, key)))
  }

  /** What the table holds under the key of e once e has been seen. */
  function Absorb(table: map<string, SubmissionMetadata>, e: SubmissionMetadata): SubmissionMetadata {
    if KeyOf(e) in table then
      var kept := table[KeyOf(e)];
      kept.(validatorsConfirming := kept.validatorsConfirming + e.validatorsConfirming, voteCount := kept.voteCount + 1)
    else e
  }

  lemma MergeTableSnoc(entries: seq<SubmissionMetadata>, e: SubmissionMetadata, table: map<string, SubmissionMetadata>)
    requires IsMergeTable(entries, table)
    ensures IsMergeTable(entries + [e], table[KeyOf(e) := Absorb(table, e)])
  {
    var table' := table[KeyOf(e) := Absorb(table, e)];
    forall key
      ensures key in table' <==> WithKey(entries + [e], key) != []
      ensures key in table' ==> table'[key] == Combine(WithKey(entries + [e], key))
    {
      WithKeySnoc(entries, e, key);
      if key == KeyOf(e) {
        if key in table {
          CombineSnoc(WithKey(entries, key), e);
        } else {
          CombineOne(e);
          assert WithKey(entries + [e], key) == [e];
        }
      } else {
        assert WithKey(entries + [e], key) == WithKey(entries, key);
      }
    }
  }

  method MergeDuplicates(subs: seq<SubmissionMetadata>) returns (mergedList: seq<SubmissionMetadata>)
    ensures IsMerge(subs, mergedList)
  {
    var merged: map<string, SubmissionMetadata> := map[];
    for i := 0 to |subs|
      invariant IsMergeTable(subs[..i], merged)
    {
      var sub := subs[i];
      MergeTableSnoc(subs[..i], sub, merged);
      assert subs[..i + 1] == subs[..i] + [sub];
      var key := KeyOf(sub);
      if key in merged {
        merged := merged[key := merged[key].(
          validatorsConfirming := merged[key].validatorsConfirming + sub.validatorsConfirming,
          voteCount := merged[key].voteCount + 1)];
      } else {
        merged := merged[key := sub];
      }
    }
    assert subs[..|subs|] == subs;
    mergedList := ListTable(subs, merged);
  }

  method ListTable(ghost subs: seq<SubmissionMetadata>, merged: map<string, SubmissionMetadata>) returns (mergedList: seq<SubmissionMetadata>)
    requires IsMergeTable(subs, merged)
    ensures IsMerge(subs, mergedList)
  {
    mergedList := [];
    ghost var keys: seq<string> := [];
    var remaining := merged.Keys;
    while remaining != {}
      invariant remaining <= merged.Keys
      invariant |keys| == |mergedList| && NoDuplicates(keys)
      invariant forall i | 0 <= i < |keys| :: keys[i] in merged && keys[i] !in remaining && mergedList[i] == merged[keys[i]]
      invariant forall key | key in merged && key !in remaining :: merged[key] in mergedList
      decreases remaining
    {
      var key :| key in remaining;
      remaining := remaining - {key};
      keys := keys + [key];
      mergedList := mergedList + [merged[key]];
    }
    ListedTableIsMerge(subs, merged, keys, mergedList);
  }

  lemma ListedTableIsMerge(subs: seq<SubmissionMetadata>, merged: map<string, SubmissionMetadata>, keys: seq<string>, mergedList: seq<SubmissionMetadata>)
    requires IsMergeTable(subs, merged) && |keys| == |mergedList| && NoDuplicates(keys)
    requires forall i | 0 <= i < |keys| :: keys[i] in merged && mergedList[i] == merged[keys[i]]
    requires forall key | key in merged :: merged[key] in mergedList
    ensures IsMerge(subs, mergedList)
  {
    forall i | 0 <= i < |keys|
      ensures KeyOf(mergedList[i]) == keys[i]
    {
      CombineKeepsKey(subs, keys[i]);
    }
    forall e | e in subs
      ensures exists m :: m in mergedList && KeyOf(m) == KeyOf(e)
    {
      WithKeyHasKey(subs, KeyOf(e));
      assert e in WithKey(subs, KeyOf(e));
      CombineKeepsKey(subs, KeyOf(e));
      assert merged[KeyOf(e)] in mergedList;
    }
  }

  // ---------------------------------------------------------------- the consensus CID

  /** counts has exactly the CIDs that occur, each with its number of entries. */
  ghost predicate IsTally(merged: seq<SubmissionMetadata>, counts: map<string, nat>) {
    forall c :: CidCount(merged, c) == (if c in counts then counts[c] else 0) && (c in counts ==> counts[c] > 0)
  }

  lemma TallySnoc(merged: seq<SubmissionMetadata>, e: SubmissionMetadata, counts: map<string, nat>)
    requires IsTally(merged, counts)
    ensures IsTally(merged + [e], counts[e.snapshotCid := (if e.snapshotCid in counts then counts[e.snapshotCid] else 0) + 1])
  {
    assert (merged + [e])[..|merged|] == merged;
    forall c
      ensures CidCount(merged + [e], c) == CidCount(merged, c) + (if e.snapshotCid == c then 1 else 0)
    {}
  }

  method ConsensusCid(merged: seq<SubmissionMetadata>) returns (consensusCid: string)
    ensures IsConsensusCid(merged, consensusCid)
  {
    var cidCounts: map<string, nat> := map[];
    for i := 0 to |merged|
      invariant IsTally(merged[..i], cidCounts)
    {
      var cid := merged[i].snapshotCid;
      TallySnoc(merged[..i], merged[i], cidCounts);
      assert merged[..i + 1] == merged[..i] + [merged[i]];
      cidCounts := cidCounts[cid := (if cid in cidCounts then cidCounts[cid] else 0) + 1];
    }
    assert merged[..|merged|] == merged;
    consensusCid := MostCounted(cidCounts);
    forall c
      ensures CidCount(merged, c) <= CidCount(merged, consensusCid)
    {}
    if merged == [] {
      assert forall c | c in cidCounts :: CidCount(merged, c) > 0;
    }
  }

  method MostCounted(cidCounts: map<string, nat>) returns (consensusCid: string)
    requires forall c | c in cidCounts :: cidCounts[c] > 0
    ensures if cidCounts == map[] then consensusCid == ""
            else consensusCid in cidCounts && forall c | c in cidCounts :: cidCounts[c] <= cidCounts[consensusCid]
  {
    consensusCid := "";
    var maxCount: nat := 0;
    var remaining := cidCounts.Keys;
    while remaining != {}
      invariant remaining <= cidCounts.Keys
      invariant forall c | c in cidCounts && c !in remaining :: cidCounts[c] <= maxCount
      invariant if maxCount == 0 then consensusCid == "" && remaining == cidCounts.Keys
                else consensusCid in cidCounts && cidCounts[consensusCid] == maxCount
      decreases remaining
    {
      var cid :| cid in remaining;
      remaining := remaining - {cid};
      if cidCounts[cid] > maxCount {
        maxCount := cidCounts[cid];
        consensusCid := cid;
      }
    }
  }

  // ---------------------------------------------------------------- the whole aggregation

  /** The distinct ids under which the views are counted. */
  ghost function ViewIds(ourBatch: Option<FinalizedBatch>, incoming: seq<Incoming>): set<string> {
    if incoming == [] then
      if ourBatch.Some? then {ourBatch.value.sequencerId} else {}
    else
      var m := incoming[|incoming| - 1];
      var earlier := ViewIds(ourBatch, incoming[..|incoming| - 1]);
      if m.Message? && m.body.Some? then earlier + {ViewId(m)} else earlier
  }

  /** The messages with a decodable batch count under their header's validator, if the header announces an IPFS CID ... */
  ghost function HeaderIds(incoming: seq<Incoming>): set<string> {
    set m | m in incoming && m.Message? && m.body.Some? && m.header.Some? && m.header.value.batchIpfsCid != "" :: m.header.value.validatorId
  }

  /** ... else under the sequencer their batch names ... */
  ghost function SequencerIds(incoming: seq<Incoming>): set<string> {
    set m | m in incoming && m.Message? && m.body.Some? && (m.header.None? || m.header.value.batchIpfsCid == "")
            && m.body.value.sequencerId != "" :: m.body.value.sequencerId
  }

  /** ... and only where it names none, under a segment of their key. */
  ghost function SegmentIds(incoming: seq<Incoming>): set<string> {
    set m | m in incoming && m.Message? && m.body.Some? && (m.header.None? || m.header.value.batchIpfsCid == "")
            && m.body.value.sequencerId == "" :: m.keySegment
  }

  ghost function CountedIds(ourBatch: Option<FinalizedBatch>, incoming: seq<Incoming>): set<string> {
    (if ourBatch.Some? then {ourBatch.value.sequencerId} else {}) + HeaderIds(incoming) + SequencerIds(incoming) + SegmentIds(incoming)
  }

  lemma CountedOneMore(incoming: seq<Incoming>, m: Incoming)
    ensures HeaderIds(incoming + [m]) == HeaderIds(incoming) + HeaderIds([m])
    ensures SequencerIds(incoming + [m]) == SequencerIds(incoming) + SequencerIds([m])
    ensures SegmentIds(incoming + [m]) == SegmentIds(incoming) + SegmentIds([m])
  {
    assert forall x :: x in incoming + [m] <==> x in incoming || x in [m];
  }

  lemma CountedSnoc(ourBatch: Option<FinalizedBatch>, incoming: seq<Incoming>, m: Incoming)
    ensures CountedIds(ourBatch, incoming + [m]) == CountedIds(ourBatch, incoming) + CountedIds(None, [m])
  {
    CountedOneMore(incoming, m);
  }

  /** A message without a decodable batch counts nobody; any other counts one id. */
  lemma CountedByOne(m: Incoming)
    ensures CountedIds(None, [m]) == if m.Message? && m.body.Some? then {ViewId(m)} else {}
  {
    assert forall x :: x in [m] <==> x == m;
  }

  lemma {:induction false} ViewIdsAreCountedIds(ourBatch: Option<FinalizedBatch>, incoming: seq<Incoming>)
    ensures ViewIds(ourBatch, incoming) == CountedIds(ourBatch, incoming)
  {
    if incoming != [] {
      var front, m := incoming[..|incoming| - 1], incoming[|incoming| - 1];
      ViewIdsAreCountedIds(ourBatch, front);
      assert incoming == front + [m];
      CountedSnoc(ourBatch, front, m);
      CountedByOne(m);
    }
  }

  /** The epoch is the first that is not zero, if any is. */
  ghost predicate IsFirstEpoch(views: seq<FinalizedBatch>, epochId: nat) {
    if epochId == 0 then forall v | v in views :: v.epochId == 0
    else exists i :: 0 <= i < |views| && views[i].epochId == epochId && forall j | 0 <= j < i :: views[j].epochId == 0
  }

  lemma {:induction false} FirstEpochIsFirst(views: seq<FinalizedBatch>)
    ensures IsFirstEpoch(views, FirstEpoch(views))
  {
    if views != [] {
      var front := views[..|views| - 1];
      FirstEpochIsFirst(front);
      assert views == front + [views[|views| - 1]];
      if FirstEpoch(front) != 0 {
        var i :| 0 <= i < |front| && front[i].epochId == FirstEpoch(front) && forall j | 0 <= j < i :: front[j].epochId == 0;
        assert views[i].epochId == FirstEpoch(views);
      } else if FirstEpoch(views) != 0 {
        assert forall j | 0 <= j < |front| :: views[j] in front;
        assert views[|views| - 1].epochId == FirstEpoch(views);
      }
    }
  }

  /** The message announces the IPFS CID for the validator id. */
  predicate Announces(m: Incoming, id: string, cid: string) {
    m.Message? && m.header.Some? && m.header.value == ValidatorHeader(id, cid) && cid != ""
  }

  /** The CID is the last one announced for the id. */
  ghost predicate IsLastAnnounced(incoming: seq<Incoming>, id: string, cid: string) {
    exists i :: 0 <= i < |incoming| && Announces(incoming[i], id, cid)
                && forall j, c | i < j < |incoming| :: !Announces(incoming[j], id, c)
  }

  lemma LastAnnouncedSnoc(incoming: seq<Incoming>, m: Incoming, id: string, cid: string)
    ensures IsLastAnnounced(incoming + [m], id, cid) <==>
            Announces(m, id, cid) || (IsLastAnnounced(incoming, id, cid) && forall c :: !Announces(m, id, c))
  {
    var more, n := incoming + [m], |incoming|;
    if Announces(m, id, cid) {
      assert Announces(more[n], id, cid);
    }
    if IsLastAnnounced(incoming, id, cid) && forall c :: !Announces(m, id, c) {
      var i :| 0 <= i < n && Announces(incoming[i], id, cid) && forall j, c | i < j < n :: !Announces(incoming[j], id, c);
      assert Announces(more[i], id, cid);
    }
    if IsLastAnnounced(more, id, cid) {
      var i :| 0 <= i < |more| && Announces(more[i], id, cid) && forall j, c | i < j < |more| :: !Announces(more[j], id, c);
      assert more[n] == m;
      if i < n {
        assert Announces(incoming[i], id, cid);
        assert forall j, c | i < j < n :: incoming[j] == more[j] && !Announces(incoming[j], id, c);
      }
    }
  }

  lemma {:induction false} AnnouncedCidsAreLast(incoming: seq<Incoming>, id: string, cid: string)
    ensures id in AnnouncedCids(incoming) && AnnouncedCids(incoming)[id] == cid <==> IsLastAnnounced(incoming, id, cid)
  {
    if incoming != [] {
      var front, m := incoming[..|incoming| - 1], incoming[|incoming| - 1];
      AnnouncedCidsAreLast(front, id, cid);
      LastAnnouncedSnoc(front, m, id, cid);
      assert incoming == front + [m];
      assert TakesHeader(m) ==> Announces(m, m.header.value.validatorId, m.header.value.batchIpfsCid);
    }
  }

  /** The views are the own batch, if there is one, and the batches of the messages that have one. */
  lemma {:induction false} ViewsAreReceived(ourBatch: Option<FinalizedBatch>, incoming: seq<Incoming>)
    ensures |Views(ourBatch, incoming)| == (if ourBatch.Some? then 1 else 0) + CountIf(incoming, (m: Incoming) => m.Message? && m.body.Some?)
    ensures forall v :: v in Views(ourBatch, incoming) <==>
              ourBatch == Some(v) || exists m :: m in incoming && m.Message? && m.body == Some(v)
  {
    if incoming != [] {
      var front, m := incoming[..|incoming| - 1], incoming[|incoming| - 1];
      ViewsAreReceived(ourBatch, front);
      ViewsSnoc(ourBatch, front, m);
      CountIfSnoc(front, (m: Incoming) => m.Message? && m.body.Some?, m);
      assert incoming == front + [m];
      assert forall x :: x in incoming <==> x in front || x == m;
    }
  }

  /** The epoch of the first view that names one; 0 if none does. */
  ghost function FirstEpoch(views: seq<FinalizedBatch>): nat {
    if views == [] then 0
    else
      var earlier := FirstEpoch(views[..|views| - 1]);
      if earlier != 0 then earlier else views[|views| - 1].epochId
  }

  /** The IPFS CID last announced under each validator id. */
  ghost function AnnouncedCids(incoming: seq<Incoming>): map<string, string> {
    if incoming == [] then map[]
    else
      var m := incoming[|incoming| - 1];
      var earlier := AnnouncedCids(incoming[..|incoming| - 1]);
      if TakesHeader(m) then earlier[m.header.value.validatorId := m.header.value.batchIpfsCid] else earlier
  }

  /** What the node has gathered while reading the batches. */
  datatype Collected = Collected(details: Details, votes: map<string, nat>, epochId: nat, batchCids: map<string, string>, viewIds: set<string>)

  ghost predicate IsCollected(ourBatch: Option<FinalizedBatch>, incoming: seq<Incoming>, c: Collected) {
    && Accumulated(Views(ourBatch, incoming), c.details, c.votes)
    && c.epochId == FirstEpoch(Views(ourBatch, incoming))
    && c.batchCids == AnnouncedCids(incoming) && c.viewIds == ViewIds(ourBatch, incoming)
  }

  lemma ViewsSnoc(ourBatch: Option<FinalizedBatch>, incoming: seq<Incoming>, m: Incoming)
    ensures var now := Views(ourBatch, incoming);
            Views(ourBatch, incoming + [m]) == if m.Message? && m.body.Some? then now + [m.body.value] else now
  {
    assert (incoming + [m])[..|incoming|] == incoming;
  }

  lemma FirstEpochSnoc(views: seq<FinalizedBatch>, view: FinalizedBatch)
    ensures FirstEpoch(views + [view]) == if FirstEpoch(views) != 0 then FirstEpoch(views) else view.epochId
  {
    assert (views + [view])[..|views|] == views;
  }

  lemma IdsSnoc(ourBatch: Option<FinalizedBatch>, incoming: seq<Incoming>, m: Incoming)
    ensures AnnouncedCids(incoming + [m]) ==
              if TakesHeader(m) then AnnouncedCids(incoming)[m.header.value.validatorId := m.header.value.batchIpfsCid]
              else AnnouncedCids(incoming)
    ensures ViewIds(ourBatch, incoming + [m]) ==
              if m.Message? && m.body.Some? then ViewIds(ourBatch, incoming) + {ViewId(m)} else ViewIds(ourBatch, incoming)
  {
    assert (incoming + [m])[..|incoming|] == incoming;
  }

  /** Our own batch, if there is one. */
  method CollectOurs(ourBatch: Option<FinalizedBatch>) returns (c: Collected)
    ensures IsCollected(ourBatch, [], c)
  {
    if ourBatch.Some? {
      var details, votes := MergeView([], map[], map[], ourBatch.value);
      assert [] + [ourBatch.value] == Views(ourBatch, []);
      FirstEpochSnoc([], ourBatch.value);
      c := Collected(details, votes, ourBatch.value.epochId, map[], {ourBatch.value.sequencerId});
    } else {
      assert Views(ourBatch, []) == [];
      c := Collected(map[], map[], 0, map[], {});
    }
  }

  /** The body of the loop over the incoming keys. */
  method CollectOne(ghost ourBatch: Option<FinalizedBatch>, ghost incoming: seq<Incoming>, c: Collected, m: Incoming) returns (c': Collected)
    requires IsCollected(ourBatch, incoming, c)
    ensures IsCollected(ourBatch, incoming + [m], c')
  {
    ViewsSnoc(ourBatch, incoming, m);
    IdsSnoc(ourBatch, incoming, m);
    c' := c;
    if TakesHeader(m) {
      c' := c'.(batchCids := c'.batchCids[m.header.value.validatorId := m.header.value.batchIpfsCid]);
    }
    if m.Message? && m.body.Some? {
      var batch := m.body.value;
      FirstEpochSnoc(Views(ourBatch, incoming), batch);
      var details, votes := MergeView(Views(ourBatch, incoming), c.details, c.votes, batch);
      c' := c'.(details := details, votes := votes, viewIds := c'.viewIds + {ViewId(m)},
                epochId := if c'.epochId == 0 then batch.epochId else c'.epochId);
    }
  }

  method CreateAggregatedBatch(hash: MerkleRoot.Hash, sequencerId: string, ourBatch: Option<FinalizedBatch>, incoming: seq<Incoming>)
    returns (aggregated: FinalizedBatch)
    ensures IsAggregate(Views(ourBatch, incoming), aggregated)
    ensures aggregated.merkleRoot == hash(MerkleRoot.Combined(aggregated.projectIds, aggregated.snapshotCids))
    ensures IsFirstEpoch(Views(ourBatch, incoming), aggregated.epochId) && aggregated.sequencerId == sequencerId
    ensures forall id, cid :: id in aggregated.validatorBatches && aggregated.validatorBatches[id] == cid <==> IsLastAnnounced(incoming, id, cid)
    ensures aggregated.validatorCount == |CountedIds(ourBatch, incoming)|
  {
    var c := CollectOurs(ourBatch);
    for i := 0 to |incoming|
      invariant IsCollected(ourBatch, incoming[..i], c)
    {
      assert incoming[..i + 1] == incoming[..i] + [incoming[i]];
      c := CollectOne(ourBatch, incoming[..i], c, incoming[i]);
    }
    assert incoming[..|incoming|] == incoming;
    ghost var views := Views(ourBatch, incoming);
    var merged, projectIds, snapshotCids := MergeAndSelect(views, c.details, c.votes);
    var root := MerkleRoot.CalculateMerkleRoot(hash, projectIds, snapshotCids);
    aggregated := FinalizedBatch(c.epochId, projectIds, snapshotCids, root, sequencerId, c.votes, merged, c.batchCids, "", |c.viewIds|);
    AccumulatedNames(views, c.details, c.votes);
    FirstEpochIsFirst(views);
    ViewIdsAreCountedIds(ourBatch, incoming);
    forall id, cid {
      AnnouncedCidsAreLast(incoming, id, cid);
    }
  }

  lemma AccumulatedNames(views: seq<FinalizedBatch>, details: Details, votes: map<string, nat>)
    requires Accumulated(views, details, votes)
    ensures forall id :: id in votes <==> Named(views, id)
    ensures forall id | id in votes :: IsHighestVote(views, id, votes[id])
  {
    forall id
      ensures id in votes <==> Named(views, id)
      ensures id in votes ==> IsHighestVote(views, id, votes[id])
    {
      assert AccountsFor(views, details, votes, id);
    }
  }

  /** The loop that replaces each project's entries by their merge. */
  method MergeAll(details: Details) returns (merged: Details)
    ensures merged.Keys == details.Keys
    ensures forall id | id in merged :: IsMerge(details[id], merged[id])
  {
    merged := map[];
    var remaining := details.Keys;
    while remaining != {}
      invariant remaining <= details.Keys && merged.Keys == details.Keys - remaining
      invariant forall id | id in merged :: IsMerge(details[id], merged[id])
      decreases remaining
    {
      var id :| id in remaining;
      remaining := remaining - {id};
      var mergedList := MergeDuplicates(details[id]);
      merged := merged[id := mergedList];
    }
  }

  /** The loop that lists the projects with their consensus CIDs. */
  method SelectAll(merged: Details, ids: set<string>) returns (projectIds: seq<string>, snapshotCids: seq<string>)
    requires merged.Keys == ids
    ensures |projectIds| == |snapshotCids| && NoDuplicates(projectIds) && Elements(projectIds) == ids
    ensures forall i | 0 <= i < |projectIds| :: projectIds[i] in merged && IsConsensusCid(merged[projectIds[i]], snapshotCids[i])
  {
    projectIds, snapshotCids := [], [];
    var remaining := ids;
    while remaining != {}
      invariant remaining <= ids && Elements(projectIds) == ids - remaining
      invariant |projectIds| == |snapshotCids| && NoDuplicates(projectIds)
      invariant forall i | 0 <= i < |projectIds| :: projectIds[i] in merged && IsConsensusCid(merged[projectIds[i]], snapshotCids[i])
      decreases remaining
    {
      var id :| id in remaining;
      remaining := remaining - {id};
      var cid := ConsensusCid(merged[id]);
      ElementsSnoc(projectIds, id);
      assert id !in Elements(projectIds);
      projectIds := projectIds + [id];
      snapshotCids := snapshotCids + [cid];
    }
  }

  method MergeAndSelect(ghost views: seq<FinalizedBatch>, details: Details, votes: map<string, nat>)
    returns (merged: Details, projectIds: seq<string>, snapshotCids: seq<string>)
    requires Accumulated(views, details, votes)
    ensures merged.Keys == votes.Keys
    ensures forall id | id in merged :: IsMerge(Entries(views, id), merged[id])
    ensures |projectIds| == |snapshotCids| && NoDuplicates(projectIds) && Elements(projectIds) == votes.Keys
    ensures forall i | 0 <= i < |projectIds| :: projectIds[i] in merged && IsConsensusCid(merged[projectIds[i]], snapshotCids[i])
  {
    merged := MergeAll(details);
    forall id
      ensures id in merged <==> id in votes
      ensures id in merged ==> IsMerge(Entries(views, id), merged[id])
    {
      assert AccountsFor(views, details, votes, id);
    }
    assert merged.Keys == votes.Keys;
    projectIds, snapshotCids := SelectAll(merged, votes.Keys);
  }
}
