/**
 The vote aggregator of an epoch: votes are grouped by their root, and a group with enough of the votes
 gives the consensus result. Groups are visited in any order, so the result is a relation.
 */
module VoteAggregator {
  import opened Batches
  import opened Sequences
  import MerkleRoot

  type Root = seq<bv8>

  /** The vote of each sequencer. */
  type Ballot = map<string, FinalizedBatch>

  datatype ConsensusResult = ConsensusResult(
    epochId: nat,
    projectIds: seq<string>,
    snapshotCids: seq<string>,
    participantBitmap: seq<bv8>,
    totalValidators: nat,
    participatingValidators: nat,
    merkleRoot: Root
  )

  /** Votes are kept under their sequencer's id and are for one epoch. */
  ghost predicate Keyed(votes: Ballot, epochId: nat) {
    forall id | id in votes :: votes[id].sequencerId == id && votes[id].epochId == epochId
  }

  // ---------------------------------------------------------------- the threshold

  /** Go's int(float64(total) * threshold): the product without its fraction. */
  function Required(total: nat, threshold: real): int {
    var product := total as real * threshold;
    if product >= 0.0 then product.Floor else -((-product).Floor)
  }

  ghost function Voters(votes: Ballot, root: Root): set<string> {
    set id | id in votes && votes[id].merkleRoot == root
  }

  /** Somebody voted for the root, and enough did. */
  ghost predicate Suffices(votes: Ballot, threshold: real, root: Root) {
    Voters(votes, root) != {} && |Voters(votes, root)| >= Required(|votes|, threshold)
  }

  // ---------------------------------------------------------------- the bitmap

  predicate BitSet(b: bv8, j: nat)
    requires j < 8
  {
    (b >> j) & 1 == 1
  }

  function WithBit(b: bv8, i: nat): bv8
    requires i < 8
  {
    b | (1 << i)
  }

  lemma WithBitSetsOneBit(b: bv8, i: nat, j: nat)
    requires i < 8 && j < 8
    ensures BitSet(WithBit(b, i), j) <==> j == i || BitSet(b, j)
  {
    assert j == 0 || j == 1 || j == 2 || j == 3 || j == 4 || j == 5 || j == 6 || j == 7;
    assert i == 0 || i == 1 || i == 2 || i == 3 || i == 4 || i == 5 || i == 6 || i == 7;
  }

  /** The bitmap has room for n bits, rounded up to bytes, and exactly its first set bits are set. */
  ghost predicate HasFirstBits(bitmap: seq<bv8>, n: nat, bits: nat) {
    && |bitmap| == (n + 7) / 8
    && forall k: nat | k < 8 * |bitmap| :: BitSet(bitmap[k / 8], k % 8) <==> k < bits
  }

  lemma NextBit(bitmap: seq<bv8>, n: nat, i: nat)
    requires HasFirstBits(bitmap, n, i) && i < n
    ensures HasFirstBits(bitmap[i / 8 := WithBit(bitmap[i / 8], i % 8)], n, i + 1)
  {
    var after := bitmap[i / 8 := WithBit(bitmap[i / 8], i % 8)];
    forall k: nat | k < 8 * |bitmap|
      ensures BitSet(after[k / 8], k % 8) <==> k < i + 1
    {
      if k / 8 == i / 8 {
        WithBitSetsOneBit(bitmap[i / 8], i % 8, k % 8);
        assert k % 8 == i % 8 <==> k == i;
      }
    }
  }

  ghost function PowerOf2(n: nat): nat {
    if n == 0 then 1 else 2 * PowerOf2(n - 1)
  }

  /** Bit k of a byte counts 2^k: all bytes are full but perhaps the last, which has its lowest bits set. */
  lemma BytesOfBitmap(bitmap: seq<bv8>, n: nat, i: nat)
    requires HasFirstBits(bitmap, n, n) && i < |bitmap|
    ensures bitmap[i] as int == PowerOf2(if n - 8 * i >= 8 then 8 else n - 8 * i) - 1
  {
    var bits := if n - 8 * i >= 8 then 8 else n - 8 * i;
    forall j: nat | j < 8
      ensures BitSet(bitmap[i], j) <==> j < bits
    {
      assert (8 * i + j) / 8 == i && (8 * i + j) % 8 == j;
    }
    LowBits(bitmap[i], bits);
  }

  lemma LowBits(b: bv8, bits: nat)
    requires 0 < bits <= 8 && forall j: nat | j < 8 :: BitSet(b, j) <==> j < bits
    ensures b as int == PowerOf2(bits) - 1
  {
    assert BitSet(b, 0) && (BitSet(b, 1) <==> bits > 1) && (BitSet(b, 2) <==> bits > 2) && (BitSet(b, 3) <==> bits > 3);
    assert (BitSet(b, 4) <==> bits > 4) && (BitSet(b, 5) <==> bits > 5) && (BitSet(b, 6) <==> bits > 6) && (BitSet(b, 7) <==> bits > 7);
    assert b == if bits == 8 then 255 else if bits == 7 then 127 else if bits == 6 then 63 else if bits == 5 then 31
                else if bits == 4 then 15 else if bits == 3 then 7 else if bits == 2 then 3 else 1;
    assert PowerOf2(4) == 16 && PowerOf2(8) == 256;
  }

  method CreateParticipantBitmap(participants: seq<string>) returns (bitmap: seq<bv8>)
    ensures HasFirstBits(bitmap, |participants|, |participants|)
  {
    var bits := new bv8[(|participants| + 7) / 8](_ => 0);
    for i := 0 to |participants|
      invariant HasFirstBits(bits[..], |participants|, i)
    {
      ghost var before := bits[..];
      NextBit(before, |participants|, i);
      bits[i / 8] := WithBit(bits[i / 8], i % 8);
      assert bits[..] == before[i / 8 := WithBit(before[i / 8], i % 8)];
    }
    bitmap := bits[..];
  }

  // ---------------------------------------------------------------- grouping

  ghost function Participants(group: seq<FinalizedBatch>): seq<string> {
    seq(|group|, i requires 0 <= i < |group| => group[i].sequencerId)
  }

  /** group lists the votes for root among those of the ids in done, each once. */
  ghost predicate IsGroup(group: seq<FinalizedBatch>, votes: Ballot, done: set<string>, root: Root) {
    && NoDuplicates(Participants(group))
    && (forall b | b in group :: b.sequencerId in done && b.sequencerId in votes && votes[b.sequencerId] == b && b.merkleRoot == root)
    && (forall id | id in done && id in votes && votes[id].merkleRoot == root :: votes[id] in group)
  }

  type Groups = map<Root, seq<FinalizedBatch>>

  function GroupOf(groups: Groups, root: Root): seq<FinalizedBatch> {
    if root in groups then groups[root] else []
  }

  ghost predicate AreGroups(groups: Groups, votes: Ballot, done: set<string>) {
    && (forall root :: IsGroup(GroupOf(groups, root), votes, done, root))
    && (forall root | root in groups :: groups[root] != [])
  }

  lemma GroupGrows(group: seq<FinalizedBatch>, votes: Ballot, done: set<string>, root: Root, id: string)
    requires IsGroup(group, votes, done, root) && id in votes && id !in done && votes[id].sequencerId == id
    ensures IsGroup(if votes[id].merkleRoot == root then group + [votes[id]] else group, votes, done + {id}, root)
  {
    if votes[id].merkleRoot == root {
      var after := group + [votes[id]];
      var ids := Participants(group);
      forall i | 0 <= i < |ids|
        ensures ids[i] in done
      {
        assert group[i] in group;
      }
      assert Participants(after) == ids + [id];
      assert after[|group|] == votes[id];
      assert forall b | b in group :: b in after;
    }
  }

  lemma GroupsGrow(groups: Groups, votes: Ballot, done: set<string>, id: string)
    requires AreGroups(groups, votes, done) && id in votes && id !in done && votes[id].sequencerId == id
    ensures AreGroups(groups[votes[id].merkleRoot := GroupOf(groups, votes[id].merkleRoot) + [votes[id]]], votes, done + {id})
  {
    var after := groups[votes[id].merkleRoot := GroupOf(groups, votes[id].merkleRoot) + [votes[id]]];
    forall root
      ensures IsGroup(GroupOf(after, root), votes, done + {id}, root)
    {
      GroupGrows(GroupOf(groups, root), votes, done, root, id);
    }
  }

  method GroupByRoot(votes: Ballot, ghost epochId: nat) returns (rootGroups: Groups)
    requires Keyed(votes, epochId)
    ensures AreGroups(rootGroups, votes, votes.Keys)
  {
    rootGroups := map[];
    var remaining := votes.Keys;
    ghost var done: set<string> := {};
    while remaining != {}
      invariant done + remaining == votes.Keys && done !! remaining
      invariant AreGroups(rootGroups, votes, done)
      decreases remaining
    {
      var id :| id in remaining;
      remaining := remaining - {id};
      var batch := votes[id];
      GroupsGrow(rootGroups, votes, done, id);
      rootGroups := rootGroups[batch.merkleRoot := GroupOf(rootGroups, batch.merkleRoot) + [batch]];
      done := done + {id};
    }
    assert done == votes.Keys;
  }

  /** A group has as many votes as the root has voters. */
  lemma GroupHasTheVoters(group: seq<FinalizedBatch>, votes: Ballot, epochId: nat, root: Root)
    requires Keyed(votes, epochId) && IsGroup(group, votes, votes.Keys, root)
    ensures |group| == |Voters(votes, root)|
  {
    var ids := Participants(group);
    forall id
      ensures id in Elements(ids) <==> id in Voters(votes, root)
    {
      if id in Voters(votes, root) {
        var i :| 0 <= i < |group| && group[i] == votes[id];
        assert ids[i] == id;
      }
      if id in ids {
        var i :| 0 <= i < |ids| && ids[i] == id;
        assert group[i] in group;
      }
    }
    assert Elements(ids) == Voters(votes, root);
    DistinctElementsCount(ids);
  }

  // ---------------------------------------------------------------- consensus

  /** r is what the votes for its root give: the arrays of one of them, counts and a bitmap of as many bits as voters. */
  ghost predicate IsResult(r: ConsensusResult, votes: Ballot, epochId: nat, threshold: real) {
    var voters := Voters(votes, r.merkleRoot);
    && Suffices(votes, threshold, r.merkleRoot)
    && r.epochId == epochId
    && (exists id :: id in voters && r.projectIds == votes[id].projectIds && r.snapshotCids == votes[id].snapshotCids)
    && HasFirstBits(r.participantBitmap, |voters|, |voters|)
    && r.totalValidators == |votes| % 0x1_0000_0000
    && r.participatingValidators == |voters| % 0x1_0000_0000
  }

  method BuildConsensusResult(batches: seq<FinalizedBatch>, votes: Ballot, ghost epochId: nat, ghost threshold: real, ghost root: Root)
    returns (r: ConsensusResult)
    requires Keyed(votes, epochId) && batches != [] && IsGroup(batches, votes, votes.Keys, root)
    requires Suffices(votes, threshold, root)
    ensures r.merkleRoot == root && IsResult(r, votes, epochId, threshold)
  {
    var refBatch := batches[0];
    var participants: seq<string> := [];
    for i := 0 to |batches|
      invariant |participants| == i
    {
      participants := participants + [batches[i].sequencerId];
    }
    var bitmap := CreateParticipantBitmap(participants);
    GroupHasTheVoters(batches, votes, epochId, root);
    r := ConsensusResult(refBatch.epochId, refBatch.projectIds, refBatch.snapshotCids, bitmap,
                         |votes| % 0x1_0000_0000, |batches| % 0x1_0000_0000, refBatch.merkleRoot);
    assert refBatch in batches;
    assert refBatch.sequencerId in Voters(votes, root);
  }

  method CheckConsensus(votes: Ballot, ghost epochId: nat, threshold: real) returns (consensus: Option<ConsensusResult>)
    requires Keyed(votes, epochId)
    ensures consensus.None? <==> forall root :: !Suffices(votes, threshold, root)
    ensures consensus.Some? ==> IsResult(consensus.value, votes, epochId, threshold)
  {
    var rootGroups := GroupByRoot(votes, epochId);
    var requiredVotes := Required(|votes|, threshold);
    var remaining := rootGroups.Keys;
    while remaining != {}
      invariant remaining <= rootGroups.Keys
      invariant forall root | root in rootGroups && root !in remaining :: !Suffices(votes, threshold, root)
      decreases remaining
    {
      var root :| root in remaining;
      remaining := remaining - {root};
      assert IsGroup(GroupOf(rootGroups, root), votes, votes.Keys, root);
      GroupHasTheVoters(rootGroups[root], votes, epochId, root);
      if |rootGroups[root]| >= requiredVotes {
        var r := BuildConsensusResult(rootGroups[root], votes, epochId, threshold, root);
        assert Suffices(votes, threshold, root);
        return Some(r);
      }
    }
    forall root
      ensures !Suffices(votes, threshold, root)
    {
      if root !in rootGroups {
        assert IsGroup(GroupOf(rootGroups, root), votes, votes.Keys, root);
        GroupHasTheVoters(GroupOf(rootGroups, root), votes, epochId, root);
      }
    }
    consensus := None;
  }

  datatype Outcome = WindowClosed | WrongEpoch | Counted(consensus: Option<ConsensusResult>)

  class VoteAggregator {
    const epochId: nat
    const voteThreshold: real
    const votingDeadline: int
    var votes: Ballot

    constructor (epochId: nat, threshold: real, now: int, votingDuration: int)
      ensures Valid() && votes == map[] && this.epochId == epochId && voteThreshold == threshold && votingDeadline == now + votingDuration
    {
      this.epochId, voteThreshold, votingDeadline := epochId, threshold, now + votingDuration;
      votes := map[];
    }

    ghost predicate Valid()
      reads this
    {
      Keyed(votes, epochId)
    }

    /** A sequencer's later vote replaces its earlier one; each vote that counts is followed by a check. */
    method AddVote(batch: FinalizedBatch, now: int) returns (outcome: Outcome)
      requires Valid()
      modifies this
      ensures Valid()
      ensures outcome == WindowClosed <==> now > votingDeadline
      ensures outcome == WrongEpoch <==> now <= votingDeadline && batch.epochId != epochId
      ensures votes == if outcome.Counted? then old(votes)[batch.sequencerId := batch] else old(votes)
      ensures outcome.Counted? ==>
                match outcome.consensus
                case None => forall root :: !Suffices(votes, voteThreshold, root)
                case Some(r) => IsResult(r, votes, epochId, voteThreshold)
    {
      if now > votingDeadline {
        return WindowClosed;
      }
      if batch.epochId != epochId {
        return WrongEpoch;
      }
      votes := votes[batch.sequencerId := batch];
      var consensus := CheckConsensus(votes, epochId, voteThreshold);
      outcome := Counted(consensus);
    }
  }

  // ---------------------------------------------------------------- when the root does not depend on the order

  /** Two groups have at most all the votes between them. */
  lemma GroupsAreDisjoint(votes: Ballot, a: Root, b: Root)
    requires a != b
    ensures |Voters(votes, a)| + |Voters(votes, b)| <= |votes|
  {
    assert Voters(votes, a) !! Voters(votes, b);
    assert |Voters(votes, a) + Voters(votes, b)| == |Voters(votes, a)| + |Voters(votes, b)|;
    SubsetsAreSmaller(Voters(votes, a) + Voters(votes, b), votes.Keys);
  }

  /** No two roots can both have enough of that many votes. */
  ghost predicate RootIsUnique(total: nat, threshold: real) {
    forall votes: Ballot, epochId: nat, a, b |
      |votes| == total && Keyed(votes, epochId) && Suffices(votes, threshold, a) && Suffices(votes, threshold, b) :: a == b
  }

  /** A voter's batch; only its root matters here. */
  function VoteFor(root: Root, id: string, epochId: nat): FinalizedBatch {
    FinalizedBatch(epochId, [], [], root, id, map[], map[], map[], "", 0)
  }

  lemma VotersWithOneMore(votes: Ballot, id: string, batch: FinalizedBatch, root: Root)
    requires id !in votes
    ensures Voters(votes[id := batch], root) == if root == batch.merkleRoot then Voters(votes, root) + {id} else Voters(votes, root)
  {}

  /** m votes for a and n for b. */
  /** One more sequencer votes for the root. */
  lemma OneMoreVote(votes: Ballot, id: string, root: Root, other: Root, epochId: nat) returns (more: Ballot)
    requires Keyed(votes, epochId) && id !in votes && root != other
    ensures more.Keys == votes.Keys + {id} && Keyed(more, epochId) && |more| == |votes| + 1
    ensures |Voters(more, root)| == |Voters(votes, root)| + 1 && |Voters(more, other)| == |Voters(votes, other)|
  {
    var vote := VoteFor(root, id, epochId);
    more := votes[id := vote];
    CountWithOneMore(votes, id, vote, root);
    CountWithOneMore(votes, id, vote, other);
  }

  lemma CountWithOneMore(votes: Ballot, id: string, batch: FinalizedBatch, root: Root)
    requires id !in votes
    ensures |Voters(votes[id := batch], root)| == |Voters(votes, root)| + (if root == batch.merkleRoot then 1 else 0)
    ensures |votes[id := batch]| == |votes| + 1
  {
    VotersWithOneMore(votes, id, batch, root);
    assert id !in Voters(votes, root);
  }

  lemma {:induction false} SplitVotes(a: Root, b: Root, m: nat, n: nat, epochId: nat) returns (votes: Ballot)
    requires a != b
    ensures Keyed(votes, epochId) && |votes| == m + n
    ensures |Voters(votes, a)| == m && |Voters(votes, b)| == n
    ensures forall id | id in votes :: |id| < m + n
    decreases m + n
  {
    if m + n == 0 {
      votes := map[];
    } else {
      var id := seq(m + n - 1, _ => '0');
      var root, other := if m > 0 then a else b, if m > 0 then b else a;
      var rest := SplitVotes(a, b, if m > 0 then m - 1 else m, if m > 0 then n else n - 1, epochId);
      assert id !in rest;
      votes := OneMoreVote(rest, id, root, other, epochId);
    }
  }

  /** The root is independent of the order in which groups are visited exactly when twice the floored threshold exceeds the votes. */
  lemma RootIsUniqueExactlyAboveHalf(total: nat, threshold: real)
    ensures RootIsUnique(total, threshold) <==> total < 2 || 2 * Required(total, threshold) > total
  {
    if total < 2 || 2 * Required(total, threshold) > total {
      forall votes: Ballot, epochId: nat, a, b |
        |votes| == total && Keyed(votes, epochId) && Suffices(votes, threshold, a) && Suffices(votes, threshold, b)
        ensures a == b
      {
        if a != b {
          GroupsAreDisjoint(votes, a, b);
        }
      }
    } else {
      var votes := SplitVotes([0], [1], total / 2, total - total / 2, 0);
      assert Suffices(votes, threshold, [0]) && Suffices(votes, threshold, [1]);
      assert [0 as bv8][0] != [1 as bv8][0];
    }
  }

  /** A threshold above one half is enough once there are enough votes to make up for what flooring takes away. */
  lemma UniqueInALargeElectorate(total: nat, threshold: real)
    requires total as real * (2.0 * threshold - 1.0) >= 2.0
    ensures RootIsUnique(total, threshold)
  {
    RootIsUniqueExactlyAboveHalf(total, threshold);
    var product := total as real * threshold;
    assert total as real * (2.0 * threshold - 1.0) == 2.0 * product - total as real;
  }

  /** Two thirds, floored, is not a majority of two, three or four votes. */
  lemma TwoThirdsOfFewIsNoMajority(total: nat)
    requires 2 <= total <= 4
    ensures !RootIsUnique(total, 0.66)
  {
    RootIsUniqueExactlyAboveHalf(total, 0.66);
    assert total as real * 0.66 == if total == 2 then 1.32 else if total == 3 then 1.98 else 2.64;
  }

  // ---------------------------------------------------------------- announcements, vote after vote

  /** The votes after the first k of the given batches have been added in time, each from the aggregator's epoch. */
  ghost function BallotAfter(batches: seq<FinalizedBatch>, k: nat): Ballot
    requires k <= |batches|
  {
    if k == 0 then map[] else BallotAfter(batches, k - 1)[batches[k - 1].sequencerId := batches[k - 1]]
  }

  /** Adding the k-th vote may announce the root. */
  ghost predicate Announced(batches: seq<FinalizedBatch>, threshold: real, k: nat, root: Root) {
    0 < k <= |batches| && Suffices(BallotAfter(batches, k), threshold, root)
  }

  /** Whatever votes come in, no two of the announced results have different roots. */
  ghost predicate AnnouncementsAgree(threshold: real) {
    forall batches, i, j, a, b | Announced(batches, threshold, i, a) && Announced(batches, threshold, j, b) :: a == b
  }

  /** Below a threshold of two, a single vote is announced, and so is the vote that replaces it. */
  lemma ReplacedVoteIsAnnouncedAgain(threshold: real, id: string, a: Root, b: Root)
    requires threshold < 2.0
    ensures var batches := [VoteFor(a, id, 0), VoteFor(b, id, 0)];
            Announced(batches, threshold, 1, a) && Announced(batches, threshold, 2, b)
  {
    var batches := [VoteFor(a, id, 0), VoteFor(b, id, 0)];
    assert BallotAfter(batches, 1) == map[id := VoteFor(a, id, 0)];
    assert BallotAfter(batches, 2) == map[id := VoteFor(b, id, 0)];
    assert Voters(BallotAfter(batches, 1), a) == {id} && Voters(BallotAfter(batches, 2), b) == {id};
    assert 1.0 * threshold < 2.0;
    assert Required(1, threshold) <= 1;
  }

  lemma {:induction false} SomeVotes(batches: seq<FinalizedBatch>, k: nat)
    requires 0 < k <= |batches|
    ensures BallotAfter(batches, k) != map[]
  {
    assert batches[k - 1].sequencerId in BallotAfter(batches, k);
  }

  /** From a threshold of two on, more votes are required than there are. */
  lemma NothingIsAnnounced(batches: seq<FinalizedBatch>, threshold: real, k: nat, root: Root)
    requires threshold >= 2.0
    ensures !Announced(batches, threshold, k, root)
  {
    if 0 < k <= |batches| {
      var votes := BallotAfter(batches, k);
      SomeVotes(batches, k);
      ScaledAtLeast(|votes|, threshold, 2.0);
      assert Required(|votes|, threshold) >= 2 * |votes|;
      SubsetsAreSmaller(Voters(votes, root), votes.Keys);
      assert votes.Keys != {};
    }
  }

  lemma ScaledAtLeast(n: nat, threshold: real, bound: real)
    requires threshold >= bound
    ensures n as real * threshold >= n as real * bound
  {
    assert n as real * (threshold - bound) >= 0.0;
    assert n as real * threshold == n as real * (threshold - bound) + n as real * bound;
  }

  /** So announced results cannot differ in their roots exactly for thresholds from two on, where nothing is announced at all. */
  lemma AnnouncementsAgreeExactlyFromTwoOn(threshold: real)
    ensures AnnouncementsAgree(threshold) <==> threshold >= 2.0
    ensures AnnouncementsAgree(threshold) <==> forall batches, k, root :: !Announced(batches, threshold, k, root)
  {
    if threshold >= 2.0 {
      forall batches, k, root
        ensures !Announced(batches, threshold, k, root)
      {
        NothingIsAnnounced(batches, threshold, k, root);
      }
    } else {
      ReplacedVoteIsAnnouncedAgain(threshold, "s", [0], [1]);
      assert [0 as bv8][0] != [1 as bv8][0];
    }
  }

  // ---------------------------------------------------------------- ... when no sequencer changes its root

  /** A sequencer that votes again votes for the same root. */
  ghost predicate RootsAreKept(batches: seq<FinalizedBatch>) {
    forall i, j | 0 <= i < j < |batches| && batches[i].sequencerId == batches[j].sequencerId :: batches[i].merkleRoot == batches[j].merkleRoot
  }

  ghost predicate VotedWithin(batches: seq<FinalizedBatch>, k: nat, batch: FinalizedBatch) {
    exists i :: 0 <= i < k && i < |batches| && batches[i] == batch
  }

  lemma {:induction false} BallotHoldsVotes(batches: seq<FinalizedBatch>, k: nat, id: string)
    requires k <= |batches| && id in BallotAfter(batches, k)
    ensures BallotAfter(batches, k)[id].sequencerId == id && VotedWithin(batches, k, BallotAfter(batches, k)[id])
  {
    if batches[k - 1].sequencerId == id {
      assert BallotAfter(batches, k)[id] == batches[k - 1];
    } else {
      BallotHoldsVotes(batches, k - 1, id);
    }
  }

  lemma {:induction false} VotersStayIn(batches: seq<FinalizedBatch>, k: nat)
    requires 0 < k <= |batches|
    ensures batches[0].sequencerId in BallotAfter(batches, k)
  {
    if k > 1 {
      VotersStayIn(batches, k - 1);
    }
  }

  lemma WholeSet<T>(a: set<T>, b: set<T>)
    requires a <= b && |a| >= |b|
    ensures a == b
  {
    assert b == a + (b - a);
    assert |b| == |a| + |b - a|;
  }

  /** From a threshold of one on, only a root that all votes name is announced, so it is the first one's. */
  lemma AnnouncedIsTheFirst(batches: seq<FinalizedBatch>, threshold: real, k: nat, root: Root)
    requires threshold >= 1.0 && RootsAreKept(batches) && Announced(batches, threshold, k, root)
    ensures batches[0].merkleRoot == root
  {
    var votes, id := BallotAfter(batches, k), batches[0].sequencerId;
    ScaledAtLeast(|votes|, threshold, 1.0);
    assert Required(|votes|, threshold) >= |votes|;
    WholeSet(Voters(votes, root), votes.Keys);
    VotersStayIn(batches, k);
    BallotHoldsVotes(batches, k, id);
    var i :| 0 <= i < k && i < |batches| && batches[i] == votes[id];
    assert id in Voters(votes, root);
  }

  /** Votes that keep their roots never have results with different roots announced. */
  ghost predicate KeptRootsAgree(threshold: real) {
    forall batches, i, j, a, b | RootsAreKept(batches) && Announced(batches, threshold, i, a) && Announced(batches, threshold, j, b) :: a == b
  }

  /** Below a threshold of one, the first vote is announced whatever its root, and so may be another sequencer's. */
  lemma FirstTwoVotesAreAnnounced(threshold: real, a: Root, b: Root)
    requires threshold < 1.0
    ensures var batches := [VoteFor(a, "s", 0), VoteFor(b, "t", 0)];
            RootsAreKept(batches) && Announced(batches, threshold, 1, a) && Announced(batches, threshold, 2, b)
  {
    var batches := [VoteFor(a, "s", 0), VoteFor(b, "t", 0)];
    var one, two := BallotAfter(batches, 1), BallotAfter(batches, 2);
    assert "s" != "t";
    assert BallotAfter(batches, 0) == map[];
    assert one == map["s" := batches[0]];
    assert two == one["t" := batches[1]];
    assert two == map["s" := VoteFor(a, "s", 0), "t" := VoteFor(b, "t", 0)];
    assert "s" in Voters(one, a) && "t" in Voters(two, b);
    SubsetsAreSmaller({"s"}, Voters(one, a));
    SubsetsAreSmaller({"t"}, Voters(two, b));
    assert |two.Keys| == |{"s", "t"}| == 2;
    assert 1.0 * threshold < 1.0 && 2.0 * threshold < 2.0;
    assert Required(1, threshold) <= 0 && Required(2, threshold) <= 1;
  }

  /** This is so exactly for thresholds from one on. */
  lemma KeptRootsAgreeExactlyFromOneOn(threshold: real)
    ensures KeptRootsAgree(threshold) <==> threshold >= 1.0
  {
    if threshold >= 1.0 {
      forall batches, i, j, a, b | RootsAreKept(batches) && Announced(batches, threshold, i, a) && Announced(batches, threshold, j, b)
        ensures a == b
      {
        AnnouncedIsTheFirst(batches, threshold, i, a);
        AnnouncedIsTheFirst(batches, threshold, j, b);
      }
    } else {
      FirstTwoVotesAreAnnounced(threshold, [0], [1]);
      assert [0 as bv8][0] != [1 as bv8][0];
    }
  }

  // ---------------------------------------------------------------- results on different nodes

  /** Every vote's root is computed from its arrays, which can be told apart in the hashed string. */
  ghost predicate RootsAreFaithful(votes: Ballot, hash: MerkleRoot.Hash) {
    forall id | id in votes ::
      && MerkleRoot.Encodable(votes[id].projectIds, votes[id].snapshotCids)
      && votes[id].merkleRoot == hash(MerkleRoot.Combined(votes[id].projectIds, votes[id].snapshotCids))
  }

  /** The string a batch's root is computed from. */
  ghost function Preimage(batch: FinalizedBatch): string
    requires |batch.projectIds| <= |batch.snapshotCids|
  {
    MerkleRoot.Combined(batch.projectIds, batch.snapshotCids)
  }

  /** No two votes have the same root from different strings. */
  ghost predicate NoCollisions(votes: Ballot, hash: MerkleRoot.Hash)
    requires RootsAreFaithful(votes, hash)
  {
    forall i, j | i in votes && j in votes && votes[i].merkleRoot == votes[j].merkleRoot :: Preimage(votes[i]) == Preimage(votes[j])
  }

  /**
   Whatever order the groups and the votes in them are visited in, the same votes give the same result,
   if the floored threshold is a majority and roots are faithful hashes of the arrays.
   */
  lemma ResultsAgree(votes: Ballot, epochId: nat, threshold: real, hash: MerkleRoot.Hash, r: ConsensusResult, r': ConsensusResult)
    requires Keyed(votes, epochId) && 2 * Required(|votes|, threshold) > |votes|
    requires IsResult(r, votes, epochId, threshold) && IsResult(r', votes, epochId, threshold)
    requires RootsAreFaithful(votes, hash) && NoCollisions(votes, hash)
    ensures r == r'
  {
    RootIsUniqueExactlyAboveHalf(|votes|, threshold);
    var root := r.merkleRoot;
    assert r'.merkleRoot == root;
    var id :| id in Voters(votes, root) && r.projectIds == votes[id].projectIds && r.snapshotCids == votes[id].snapshotCids;
    var id' :| id' in Voters(votes, root) && r'.projectIds == votes[id'].projectIds && r'.snapshotCids == votes[id'].snapshotCids;
    assert Preimage(votes[id]) == Preimage(votes[id']);
    MerkleRoot.CombinedDeterminesArrays(votes[id].projectIds, votes[id].snapshotCids, votes[id'].projectIds, votes[id'].snapshotCids);
    SameBits(r.participantBitmap, r'.participantBitmap, |Voters(votes, root)|);
  }

  lemma SameBits(a: seq<bv8>, b: seq<bv8>, n: nat)
    requires HasFirstBits(a, n, n) && HasFirstBits(b, n, n)
    ensures a == b
  {
    forall i | 0 <= i < |a|
      ensures a[i] == b[i]
    {
      forall j: nat | j < 8
        ensures BitSet(a[i], j) <==> BitSet(b[i], j)
      {
        assert (8 * i + j) / 8 == i && (8 * i + j) % 8 == j;
      }
      SameByte(a[i], b[i]);
    }
  }

  lemma SameByte(a: bv8, b: bv8)
    requires forall j: nat | j < 8 :: BitSet(a, j) <==> BitSet(b, j)
    ensures a == b
  {
    assert BitSet(a, 0) <==> BitSet(b, 0);
    assert BitSet(a, 1) <==> BitSet(b, 1);
    assert BitSet(a, 2) <==> BitSet(b, 2);
    assert BitSet(a, 3) <==> BitSet(b, 3);
    assert BitSet(a, 4) <==> BitSet(b, 4);
    assert BitSet(a, 5) <==> BitSet(b, 5);
    assert BitSet(a, 6) <==> BitSet(b, 6);
    assert BitSet(a, 7) <==> BitSet(b, 7);
  }
}
