/**
 The consensus package's count of an epoch: every validator's reported votes, and the arrays of its
 batch once fetched, are counted per project and CID; a plurality of at least half of the validators
 makes a CID the project's aggregate.
 */
module EpochVotes {
  import opened Batches
  import opened Sums
  import opened Tallies
  import L1 = Level1Finalization
  import MerkleRoot

  const MIN_VALIDATORS_FOR_CONSENSUS := 2

  /** The arrays of a validator's batch, once fetched from IPFS. */
  datatype Arrays = Arrays(projectIds: seq<string>, snapshotCids: seq<string>)

  /** `votes` is the decoded metadata: a project's entry that carries no CID is None. */
  datatype Report = Report(votes: map<string, Option<string>>, batchData: Option<Arrays>, merkleRoot: seq<bv8>)

  type Reports = map<string, Report>

  // ---------------------------------------------------------------- what a report says

  /** The array entries up to n that name a project and CID. */
  ghost function ListedUpTo(a: Arrays, n: nat, project: string, cid: string): nat
    requires n <= |a.projectIds| && n <= |a.snapshotCids|
  {
    if n == 0 then 0
    else ListedUpTo(a, n - 1, project, cid) + (if a.projectIds[n - 1] == project && a.snapshotCids[n - 1] == cid then 1 else 0)
  }

  /** The array entries up to n that name a project. */
  ghost function EntriesUpTo(a: Arrays, n: nat, project: string): nat
    requires n <= |a.projectIds|
  {
    if n == 0 then 0
    else EntriesUpTo(a, n - 1, project) + (if a.projectIds[n - 1] == project then 1 else 0)
  }

  function Paired(a: Arrays): nat {
    if |a.projectIds| <= |a.snapshotCids| then |a.projectIds| else |a.snapshotCids|
  }

  ghost function MetadataVotes(votes: map<string, Option<string>>, project: string, cid: string): nat {
    if project in votes && votes[project] == Some(cid) then 1 else 0
  }

  ghost function MetadataBallots(votes: map<string, Option<string>>, project: string): nat {
    if project in votes && votes[project].Some? then 1 else 0
  }

  /** How often a report names a CID for a project: in its metadata, and again in its batch. */
  ghost function VotesIn(r: Report, project: string, cid: string): nat {
    MetadataVotes(r.votes, project, cid) + if r.batchData.Some? then ListedUpTo(r.batchData.value, Paired(r.batchData.value), project, cid) else 0
  }

  /** How often a report names any CID for a project. */
  ghost function BallotsIn(r: Report, project: string): nat {
    MetadataBallots(r.votes, project) + if r.batchData.Some? then EntriesUpTo(r.batchData.value, Paired(r.batchData.value), project) else 0
  }

  /** The positions, in both arrays, of a project and CID. */
  ghost function Places(a: Arrays, project: string, cid: string): set<nat> {
    set i: nat | i < |a.projectIds| && i < |a.snapshotCids| && a.projectIds[i] == project && a.snapshotCids[i] == cid
  }

  /** The positions of a project that have a CID. */
  ghost function PlacesOf(a: Arrays, project: string): set<nat> {
    set i: nat | i < |a.projectIds| && i < |a.snapshotCids| && a.projectIds[i] == project
  }

  ghost function PlacesBelow(a: Arrays, n: nat, project: string, cid: string): set<nat> {
    set i | i in Places(a, project, cid) && i < n
  }

  ghost function PlacesOfBelow(a: Arrays, n: nat, project: string): set<nat> {
    set i | i in PlacesOf(a, project) && i < n
  }

  lemma {:induction false} ListedCountsPlaces(a: Arrays, n: nat, project: string, cid: string)
    requires n <= |a.projectIds| && n <= |a.snapshotCids|
    ensures ListedUpTo(a, n, project, cid) == |PlacesBelow(a, n, project, cid)|
  {
    if n > 0 {
      ListedCountsPlaces(a, n - 1, project, cid);
      var before := PlacesBelow(a, n - 1, project, cid);
      assert PlacesBelow(a, n, project, cid) == if n - 1 in Places(a, project, cid) then before + {n - 1} else before;
    }
  }

  lemma {:induction false} EntriesCountPlaces(a: Arrays, n: nat, project: string)
    requires n <= |a.projectIds| && n <= |a.snapshotCids|
    ensures EntriesUpTo(a, n, project) == |PlacesOfBelow(a, n, project)|
  {
    if n > 0 {
      EntriesCountPlaces(a, n - 1, project);
      var before := PlacesOfBelow(a, n - 1, project);
      assert PlacesOfBelow(a, n, project) == if n - 1 in PlacesOf(a, project) then before + {n - 1} else before;
    }
  }

  /** What a report counts: one for its metadata, and one for every position of its fetched arrays that has both a project id and a CID. */
  lemma ReportCountsItsPairs(r: Report, project: string, cid: string)
    ensures VotesIn(r, project, cid) == (if project in r.votes && r.votes[project] == Some(cid) then 1 else 0)
                                        + (if r.batchData.Some? then |Places(r.batchData.value, project, cid)| else 0)
    ensures BallotsIn(r, project) == (if project in r.votes && r.votes[project].Some? then 1 else 0)
                                     + (if r.batchData.Some? then |PlacesOf(r.batchData.value, project)| else 0)
  {
    if r.batchData.Some? {
      var a := r.batchData.value;
      ListedCountsPlaces(a, Paired(a), project, cid);
      EntriesCountPlaces(a, Paired(a), project);
      assert PlacesBelow(a, Paired(a), project, cid) == Places(a, project, cid);
      assert PlacesOfBelow(a, Paired(a), project) == PlacesOf(a, project);
    }
  }

  ghost function VotesByValidator(reports: Reports, project: string, cid: string): map<string, int> {
    map v | v in reports :: VotesIn(reports[v], project, cid)
  }

  ghost function BallotsByValidator(reports: Reports, project: string): map<string, int> {
    map v | v in reports :: BallotsIn(reports[v], project)
  }

  ghost function Count(reports: Reports, project: string, cid: string): int {
    Sum(VotesByValidator(reports, project, cid))
  }

  ghost function Ballots(reports: Reports, project: string): int {
    Sum(BallotsByValidator(reports, project))
  }

  // ---------------------------------------------------------------- counting

  /** after has the votes of before and those in the metadata. */
  ghost predicate MetadataCounted(before: Votes, after: Votes, votes: map<string, Option<string>>) {
    && OnlyCounted(after)
    && (forall p, c :: VotesFor(after, p, c) == VotesFor(before, p, c) + MetadataVotes(votes, p, c))
    && (forall p :: TotalFor(after, p) == TotalFor(before, p) + MetadataBallots(votes, p))
  }

  /** after has the votes of before and those of the first n array entries. */
  ghost predicate ArraysCounted(before: Votes, after: Votes, a: Arrays, n: nat)
    requires n <= |a.projectIds| && n <= |a.snapshotCids|
  {
    && OnlyCounted(after)
    && (forall p, c :: VotesFor(after, p, c) == VotesFor(before, p, c) + ListedUpTo(a, n, p, c))
    && (forall p :: TotalFor(after, p) == TotalFor(before, p) + EntriesUpTo(a, n, p))
  }

  /** The projects of the array entries up to n. */
  ghost function NamedUpTo(a: Arrays, n: nat): set<string>
    requires n <= |a.projectIds|
  {
    if n == 0 then {} else NamedUpTo(a, n - 1) + {a.projectIds[n - 1]}
  }

  /** The projects a report has an entry for, in its metadata (with a CID or without) or at a position that has both an id and a CID. */
  ghost function Mentioned(r: Report): set<string> {
    r.votes.Keys + if r.batchData.Some? then PairedProjects(r.batchData.value) else {}
  }

  ghost function PairedProjects(a: Arrays): set<string> {
    set i: nat | i < |a.projectIds| && i < |a.snapshotCids| :: a.projectIds[i]
  }

  ghost function AllMentioned(reports: Reports): set<string> {
    set v, p | v in reports && p in Mentioned(reports[v]) :: p
  }

  lemma {:induction false} NamedUpToIs(a: Arrays, n: nat, project: string)
    requires n <= |a.projectIds|
    ensures project in NamedUpTo(a, n) <==> exists i: nat :: i < n && a.projectIds[i] == project
  {
    if n > 0 {
      NamedUpToIs(a, n - 1, project);
    }
  }

  lemma NamedIsPaired(a: Arrays)
    ensures NamedUpTo(a, Paired(a)) == PairedProjects(a)
  {
    forall project {
      NamedUpToIs(a, Paired(a), project);
    }
  }

  ghost predicate ReportCounted(before: Votes, after: Votes, r: Report) {
    && OnlyCounted(after)
    && (forall p, c :: VotesFor(after, p, c) == VotesFor(before, p, c) + VotesIn(r, p, c))
    && (forall p :: TotalFor(after, p) == TotalFor(before, p) + BallotsIn(r, p))
  }

  /** One more metadata entry; one without a CID only makes an empty tally for its project. */
  function CountEntry(now: Votes, project: string, entry: Option<string>): Votes {
    match entry
    case Some(cid) => CountVote(now, project, cid)
    case None => if project in now then now else now[project := map[]]
  }

  lemma OneMoreEntry(before: Votes, now: Votes, done: map<string, Option<string>>, project: string, entry: Option<string>)
    requires MetadataCounted(before, now, done) && project !in done
    ensures MetadataCounted(before, CountEntry(now, project, entry), done[project := entry])
  {
    if entry.Some? {
      CountVoteAddsOne(now, project, entry.value);
    }
    var after, done' := CountEntry(now, project, entry), done[project := entry];
    forall p, c
      ensures VotesFor(after, p, c) == VotesFor(before, p, c) + MetadataVotes(done', p, c)
    {
      assert VotesFor(now, p, c) == VotesFor(before, p, c) + MetadataVotes(done, p, c);
    }
    forall p
      ensures TotalFor(after, p) == TotalFor(before, p) + MetadataBallots(done', p)
    {
      assert TotalFor(now, p) == TotalFor(before, p) + MetadataBallots(done, p);
    }
  }

  method CountMetadata(before: Votes, votes: map<string, Option<string>>) returns (after: Votes)
    requires OnlyCounted(before)
    ensures MetadataCounted(before, after, votes) && after.Keys == before.Keys + votes.Keys
  {
    after := before;
    var remaining := votes.Keys;
    ghost var done: map<string, Option<string>> := map[];
    while remaining != {}
      invariant remaining <= votes.Keys && done == votes - remaining
      invariant MetadataCounted(before, after, done) && after.Keys == before.Keys + done.Keys
      decreases remaining
    {
      var project :| project in remaining;
      remaining := remaining - {project};
      OneMoreEntry(before, after, done, project, votes[project]);
      done := done[project := votes[project]];
      after := CountEntry(after, project, votes[project]);
    }
    assert done == votes;
  }

  ghost predicate PairsCounted(before: Votes, after: Votes, a: Arrays, n: nat)
    requires n <= |a.projectIds| && n <= |a.snapshotCids|
  {
    ArraysCounted(before, after, a, n) && after.Keys == before.Keys + NamedUpTo(a, n)
  }

  lemma OneMorePair(before: Votes, now: Votes, a: Arrays, n: nat)
    requires n < |a.projectIds| && n < |a.snapshotCids| && PairsCounted(before, now, a, n)
    ensures PairsCounted(before, CountVote(now, a.projectIds[n], a.snapshotCids[n]), a, n + 1)
  {
    CountVoteAddsOne(now, a.projectIds[n], a.snapshotCids[n]);
  }

  /** An id without a CID at its position is passed over. */
  method CountArrays(before: Votes, a: Arrays) returns (after: Votes)
    requires OnlyCounted(before)
    ensures ArraysCounted(before, after, a, Paired(a)) && after.Keys == before.Keys + PairedProjects(a)
  {
    after := before;
    for i := 0 to |a.projectIds|
      invariant PairsCounted(before, after, a, if i <= Paired(a) then i else Paired(a))
    {
      if i < |a.snapshotCids| {
        OneMorePair(before, after, a, i);
        after := CountVote(after, a.projectIds[i], a.snapshotCids[i]);
      }
    }
    NamedIsPaired(a);
  }

  method CountReport(before: Votes, r: Report) returns (after: Votes)
    requires OnlyCounted(before)
    ensures ReportCounted(before, after, r) && after.Keys == before.Keys + Mentioned(r)
  {
    var metadataCounted := CountMetadata(before, r.votes);
    after := metadataCounted;
    if r.batchData.Some? {
      after := CountArrays(after, r.batchData.value);
    }
    BothCounted(before, metadataCounted, after, r);
  }

  lemma BothCounted(before: Votes, between: Votes, after: Votes, r: Report)
    requires MetadataCounted(before, between, r.votes)
    requires if r.batchData.Some? then ArraysCounted(between, after, r.batchData.value, Paired(r.batchData.value)) else after == between
    ensures ReportCounted(before, after, r)
  {}

  /** votes holds exactly what the reports say. */
  ghost predicate IsTally(votes: Votes, reports: Reports) {
    && OnlyCounted(votes)
    && (forall p, c :: VotesFor(votes, p, c) == Count(reports, p, c))
    && (forall p :: TotalFor(votes, p) == Ballots(reports, p))
  }

  lemma CountWithOneMore(done: Reports, validator: string, r: Report, project: string, cid: string)
    requires validator !in done
    ensures Count(done[validator := r], project, cid) == Count(done, project, cid) + VotesIn(r, project, cid)
  {
    var counts := VotesByValidator(done, project, cid);
    SumUpdate(counts, validator, VotesIn(r, project, cid));
    assert counts[validator := VotesIn(r, project, cid)] == VotesByValidator(done[validator := r], project, cid);
  }

  lemma BallotsWithOneMore(done: Reports, validator: string, r: Report, project: string)
    requires validator !in done
    ensures Ballots(done[validator := r], project) == Ballots(done, project) + BallotsIn(r, project)
  {
    var counts := BallotsByValidator(done, project);
    SumUpdate(counts, validator, BallotsIn(r, project));
    assert counts[validator := BallotsIn(r, project)] == BallotsByValidator(done[validator := r], project);
  }

  lemma OneMoreReport(now: Votes, after: Votes, done: Reports, validator: string, r: Report)
    requires IsTally(now, done) && validator !in done && ReportCounted(now, after, r)
    ensures IsTally(after, done[validator := r])
  {
    forall p, c
      ensures VotesFor(after, p, c) == Count(done[validator := r], p, c)
    {
      CountWithOneMore(done, validator, r, p, c);
    }
    forall p
      ensures TotalFor(after, p) == Ballots(done[validator := r], p)
    {
      BallotsWithOneMore(done, validator, r, p);
    }
  }

  lemma MentionedWithOneMore(done: Reports, validator: string, r: Report)
    requires validator !in done
    ensures AllMentioned(done[validator := r]) == AllMentioned(done) + Mentioned(r)
  {
    var more := done[validator := r];
    forall p | p in AllMentioned(more)
      ensures p in AllMentioned(done) + Mentioned(r)
    {
      var v :| v in more && p in Mentioned(more[v]);
      assert v != validator ==> v in done && done[v] == more[v];
    }
    forall p | p in AllMentioned(done)
      ensures p in AllMentioned(more)
    {
      var v :| v in done && p in Mentioned(done[v]);
      assert v in more && more[v] == done[v];
    }
    assert validator in more && more[validator] == r;
  }

  /** votes is the tally, with an entry for exactly the projects mentioned. */
  ghost predicate Tallied(votes: Votes, reports: Reports) {
    IsTally(votes, reports) && votes.Keys == AllMentioned(reports)
  }

  lemma TalliedWithOneMore(now: Votes, after: Votes, done: Reports, validator: string, r: Report)
    requires Tallied(now, done) && validator !in done && ReportCounted(now, after, r) && after.Keys == now.Keys + Mentioned(r)
    ensures Tallied(after, done[validator := r])
  {
    OneMoreReport(now, after, done, validator, r);
    MentionedWithOneMore(done, validator, r);
  }

  /** The body of the loop over the validators. */
  method CountNext(now: Votes, ghost done: Reports, validator: string, r: Report) returns (after: Votes)
    requires Tallied(now, done) && validator !in done
    ensures Tallied(after, done[validator := r])
  {
    after := CountReport(now, r);
    TalliedWithOneMore(now, after, done, validator, r);
  }

  lemma NothingTallied()
    ensures Tallied(map[], map[])
  {
    assert AllMentioned(map[]) == {};
  }

  method CountReports(reports: Reports) returns (votes: Votes)
    ensures Tallied(votes, reports)
  {
    votes := map[];
    var remaining := reports.Keys;
    ghost var done: Reports := map[];
    NothingTallied();
    while remaining != {}
      invariant remaining <= reports.Keys && done == reports - remaining
      invariant Tallied(votes, done)
      decreases remaining
    {
      var validator :| validator in remaining;
      remaining := remaining - {validator};
      votes := CountNext(votes, done, validator, reports[validator]);
      done := done[validator := reports[validator]];
    }
    assert done == reports;
  }

  // ---------------------------------------------------------------- choosing

  /** The threshold: half of the validators, as a quotient. */
  predicate Suffices(votes: int, validators: nat)
    requires validators > 0
  {
    votes as real / validators as real >= 0.5
  }

  lemma SufficesIsHalf(votes: int, validators: nat)
    requires validators > 0
    ensures Suffices(votes, validators) <==> 2 * votes >= validators
  {
    var q := votes as real / validators as real;
    assert q * validators as real == votes as real;
    if q >= 0.5 {
      assert (q - 0.5) * validators as real >= 0.0;
    } else {
      assert (0.5 - q) * validators as real > 0.0;
    }
  }

  /** A project has a plurality of at least half of the validators, or none of its CIDs has as many. */
  ghost predicate IsChosen(votes: Votes, validators: nat, project: string, aggregated: map<string, string>) {
    if project in aggregated then
      && project in votes && L1.IsTop(votes[project], aggregated[project])
      && 2 * VotesFor(votes, project, aggregated[project]) >= validators
    else
      forall cid :: 2 * VotesFor(votes, project, cid) < validators
  }

  ghost predicate IsAggregate(votes: Votes, validators: nat, aggregated: map<string, string>) {
    forall project :: IsChosen(votes, validators, project, aggregated)
  }

  method ChooseWinners(votes: Votes, validators: nat) returns (aggregated: map<string, string>)
    requires validators >= MIN_VALIDATORS_FOR_CONSENSUS
    ensures IsAggregate(votes, validators, aggregated)
  {
    aggregated := map[];
    var remaining := votes.Keys;
    while remaining != {}
      invariant remaining <= votes.Keys && aggregated.Keys <= votes.Keys - remaining
      invariant forall project | project !in remaining :: IsChosen(votes, validators, project, aggregated)
      decreases remaining
    {
      var project :| project in remaining;
      remaining := remaining - {project};
      var winningCid, maxVotes, _ := L1.SelectWinner(votes[project]);
      SufficesIsHalf(maxVotes, validators);
      if Suffices(maxVotes, validators) {
        aggregated := aggregated[project := winningCid];
      }
      assert IsChosen(votes, validators, project, aggregated);
    }
  }

  /** An outcome that some node holding these reports may reach, for some order of its loops. */
  ghost predicate IsOutcome(reports: Reports, aggregated: map<string, string>) {
    exists votes :: IsTally(votes, reports) && IsAggregate(votes, |reports|, aggregated)
  }

  /** None below the minimum of validators. */
  method AggregateEpochVotes(reports: Reports) returns (status: Option<(Votes, map<string, string>)>)
    ensures status.None? <==> |reports| < 2
    ensures status.Some? ==> IsTally(status.value.0, reports) && IsAggregate(status.value.0, |reports|, status.value.1)
    ensures status.Some? ==> status.value.0.Keys == AllMentioned(reports) && IsOutcome(reports, status.value.1)
  {
    if |reports| < MIN_VALIDATORS_FOR_CONSENSUS {
      return None;
    }
    var projectVotes := CountReports(reports);
    var aggregatedProjects := ChooseWinners(projectVotes, |reports|);
    status := Some((projectVotes, aggregatedProjects));
  }

  // ---------------------------------------------------------------- what one vote per validator gives

  /** Every validator names at most one CID for the project, once. */
  ghost predicate OneVoteEach(reports: Reports, project: string) {
    forall v | v in reports :: BallotsIn(reports[v], project) <= 1
  }

  lemma {:induction false} SumOfOnes(m: map<string, int>)
    requires forall k | k in m :: m[k] <= 1
    ensures Sum(m) <= |m|
    decreases m.Keys
  {
    if m != map[] {
      var k :| k in m;
      SumRemove(m, k);
      SumOfOnes(m - {k});
      assert |m.Keys - {k}| == |m.Keys| - 1;
      assert (m - {k}).Keys == m.Keys - {k};
    }
  }

  /** The counts of a project's CIDs add up to at most the number of validators. */
  lemma VotesAreBounded(reports: Reports, votes: Votes, project: string)
    requires IsTally(votes, reports) && OneVoteEach(reports, project)
    ensures TotalFor(votes, project) == Ballots(reports, project) <= |reports|
  {
    var ballots := BallotsByValidator(reports, project);
    SumOfOnes(ballots);
    assert ballots.Keys == reports.Keys;
  }

  /** A CID that more than half of the validators name is the only possible outcome, on every node. */
  lemma MajorityAlwaysWins(reports: Reports, aggregated: map<string, string>, project: string, cid: string)
    requires OneVoteEach(reports, project) && IsOutcome(reports, aggregated)
    requires 2 * Count(reports, project, cid) > |reports|
    ensures project in aggregated && aggregated[project] == cid
  {
    var votes :| IsTally(votes, reports) && IsAggregate(votes, |reports|, aggregated);
    VotesAreBounded(reports, votes, project);
    assert VotesFor(votes, project, cid) == Count(reports, project, cid);
    assert IsChosen(votes, |reports|, project, aggregated);
    if project in aggregated && aggregated[project] != cid {
      TwoCidsShareTheTotal(votes, project, cid, aggregated[project]);
    }
  }

  /** Two CIDs that are each named by exactly half of the validators. */
  ghost predicate EvenSplit(reports: Reports, project: string, c: string, d: string) {
    c != d && 2 * Count(reports, project, c) == |reports| && 2 * Count(reports, project, d) == |reports|
  }

  /** Nodes with the same reports can differ on a project only if its validators are split evenly over the two CIDs. */
  lemma DifferingNodesAreSplitEvenly(reports: Reports, a: map<string, string>, b: map<string, string>, project: string)
    requires OneVoteEach(reports, project) && IsOutcome(reports, a) && IsOutcome(reports, b)
    ensures project in a <==> project in b
    ensures project in a && a[project] != b[project] ==> EvenSplit(reports, project, a[project], b[project])
  {
    var votesA :| IsTally(votesA, reports) && IsAggregate(votesA, |reports|, a);
    var votesB :| IsTally(votesB, reports) && IsAggregate(votesB, |reports|, b);
    assert IsChosen(votesA, |reports|, project, a) && IsChosen(votesB, |reports|, project, b);
    assert forall c :: VotesFor(votesA, project, c) == Count(reports, project, c) == VotesFor(votesB, project, c);
    if project in a && project in b && a[project] != b[project] {
      VotesAreBounded(reports, votesA, project);
      TwoCidsShareTheTotal(votesA, project, a[project], b[project]);
    }
  }

  lemma HalfIsTop(reports: Reports, votes: Votes, project: string, c: string, d: string)
    requires |reports| > 0 && IsTally(votes, reports) && OneVoteEach(reports, project) && EvenSplit(reports, project, c, d)
    ensures project in votes && L1.IsTop(votes[project], c) && 2 * VotesFor(votes, project, c) == |reports|
  {
    VotesAreBounded(reports, votes, project);
    assert VotesFor(votes, project, c) == Count(reports, project, c);
    assert VotesFor(votes, project, d) == Count(reports, project, d);
    forall x | x in votes[project]
      ensures votes[project][x] <= votes[project][c]
    {
      assert VotesFor(votes, project, x) == votes[project][x];
      if x != c {
        TwoCidsShareTheTotal(votes, project, c, x);
      }
    }
  }

  lemma AnotherTop(votes: Votes, validators: nat, aggregated: map<string, string>, project: string, cid: string)
    requires IsAggregate(votes, validators, aggregated)
    requires project in votes && L1.IsTop(votes[project], cid) && 2 * VotesFor(votes, project, cid) >= validators
    ensures IsAggregate(votes, validators, aggregated[project := cid])
  {
    var changed := aggregated[project := cid];
    forall other
      ensures IsChosen(votes, validators, other, changed)
    {
      assert IsChosen(votes, validators, other, aggregated);
    }
  }

  /** And then either CID is possible, whatever the other projects come to. */
  lemma EvenSplitLeavesBothOpen(reports: Reports, aggregated: map<string, string>, project: string, c: string, d: string)
    requires |reports| >= MIN_VALIDATORS_FOR_CONSENSUS && OneVoteEach(reports, project)
    requires IsOutcome(reports, aggregated) && EvenSplit(reports, project, c, d)
    ensures IsOutcome(reports, aggregated[project := c]) && IsOutcome(reports, aggregated[project := d])
  {
    var votes :| IsTally(votes, reports) && IsAggregate(votes, |reports|, aggregated);
    HalfIsTop(reports, votes, project, c, d);
    AnotherTop(votes, |reports|, aggregated, project, c);
    HalfIsTop(reports, votes, project, d, c);
    AnotherTop(votes, |reports|, aggregated, project, d);
  }

  lemma {:induction false} ListedAtLeastOnce(a: Arrays, n: nat, i: nat)
    requires i < n <= Paired(a)
    ensures ListedUpTo(a, n, a.projectIds[i], a.snapshotCids[i]) >= 1
  {
    if i < n - 1 {
      ListedAtLeastOnce(a, n - 1, i);
    }
  }

  /** One vote each is not a given: a validator whose batch repeats what its metadata says is counted twice. */
  lemma FetchedBatchCountsAgain(r: Report, project: string, cid: string, i: nat)
    requires project in r.votes && r.votes[project] == Some(cid)
    requires r.batchData.Some? && i < |r.batchData.value.projectIds| && i < |r.batchData.value.snapshotCids|
    requires r.batchData.value.projectIds[i] == project && r.batchData.value.snapshotCids[i] == cid
    ensures VotesIn(r, project, cid) >= 2
  {
    ListedAtLeastOnce(r.batchData.value, Paired(r.batchData.value), i);
  }

  predicate NamedAt(a: Arrays, i: nat, project: string) {
    i < |a.projectIds| && i < |a.snapshotCids| && a.projectIds[i] == project
  }

  lemma {:induction false} EntriesUpToCounts(a: Arrays, n: nat, project: string)
    requires n <= Paired(a)
    ensures EntriesUpTo(a, n, project) == 0 <==> forall i: nat | i < n :: !NamedAt(a, i, project)
    ensures EntriesUpTo(a, n, project) <= 1 <==> forall i: nat, j: nat | i < j < n :: !(NamedAt(a, i, project) && NamedAt(a, j, project))
  {
    if n > 0 {
      EntriesUpToCounts(a, n - 1, project);
      assert NamedAt(a, n - 1, project) <==> a.projectIds[n - 1] == project;
    }
  }

  /** A fetched batch names the project once at most, and not at all if the metadata has a CID for it. */
  ghost predicate NamesOnce(r: Report, project: string) {
    r.batchData.Some? ==>
      && (forall i: nat, j: nat | i < j :: !(NamedAt(r.batchData.value, i, project) && NamedAt(r.batchData.value, j, project)))
      && (MetadataBallots(r.votes, project) == 1 ==> forall i: nat :: !NamedAt(r.batchData.value, i, project))
  }

  /** Exactly then the validator has one vote at most for the project. */
  lemma OneVoteEachExactlyWithoutRepeats(reports: Reports, project: string)
    ensures OneVoteEach(reports, project) <==> forall v | v in reports :: NamesOnce(reports[v], project)
  {
    forall v | v in reports
      ensures BallotsIn(reports[v], project) <= 1 <==> NamesOnce(reports[v], project)
    {
      if reports[v].batchData.Some? {
        EntriesUpToCounts(reports[v].batchData.value, Paired(reports[v].batchData.value), project);
      }
    }
  }

  /** The recheck of a fetched batch accepts every local batch, as the aggregator builds it, under the batch's own root. */
  lemma LocalBatchesAreAccepted(results: L1.Part, batch: FinalizedBatch, hash: MerkleRoot.Hash, sequencerId: string)
    requires L1.IsLocalBatch(results, batch, hash, sequencerId)
    ensures |batch.projectIds| == |batch.snapshotCids|
    ensures MerkleRoot.Accepts(hash, batch.merkleRoot, batch.projectIds, batch.snapshotCids)
  {}

  // ---------------------------------------------------------------- the reports in memory

  class Validators {
    var batches: map<nat, Reports>

    constructor ()
      ensures batches == map[]
    {
      batches := map[];
    }

    function Epoch(epochId: nat): Reports
      reads this
    {
      if epochId in batches then batches[epochId] else map[]
    }

    /** A validator's later report replaces its earlier one. */
    method StoreValidatorBatch(epochId: nat, validator: string, report: Report)
      modifies this
      ensures Epoch(epochId) == old(Epoch(epochId))[validator := report]
      ensures forall e | e != epochId :: Epoch(e) == old(Epoch(e))
    {
      if epochId !in batches {
        batches := batches[epochId := map[]];
      }
      batches := batches[epochId := batches[epochId][validator := report]];
    }

    /**
     The end of a fetch that was started for an announced root: arrays with that root are added to the
     validator's current report, whichever that is by now.
     */
    method LoadBatch(hash: MerkleRoot.Hash, epochId: nat, validator: string, announcedRoot: seq<bv8>, fetched: Arrays)
      requires |fetched.projectIds| <= |fetched.snapshotCids|
      modifies this
      ensures forall e | e != epochId :: Epoch(e) == old(Epoch(e))
      ensures Epoch(epochId) ==
              if validator in old(Epoch(epochId)) && MerkleRoot.Accepts(hash, announcedRoot, fetched.projectIds, fetched.snapshotCids)
              then old(Epoch(epochId))[validator := old(Epoch(epochId))[validator].(batchData := Some(fetched))]
              else old(Epoch(epochId))
    {
      var root := MerkleRoot.CalculateMerkleRoot(hash, fetched.projectIds, fetched.snapshotCids);
      if root != announcedRoot {
        return;
      }
      if epochId in batches && validator in batches[epochId] {
        var report := batches[epochId][validator].(batchData := Some(fetched));
        batches := batches[epochId := batches[epochId][validator := report]];
      }
    }

    /** The fetch of a local batch, announced with the root it carries, always reaches the validator's report. */
    method LoadLocalBatch(hash: MerkleRoot.Hash, epochId: nat, validator: string, batch: FinalizedBatch, ghost results: L1.Part)
      requires L1.IsLocalBatch(results, batch, hash, batch.sequencerId)
      requires validator in Epoch(epochId)
      modifies this
      ensures Epoch(epochId) == old(Epoch(epochId))[validator :=
                old(Epoch(epochId))[validator].(batchData := Some(Arrays(batch.projectIds, batch.snapshotCids)))]
    {
      LocalBatchesAreAccepted(results, batch, hash, batch.sequencerId);
      LoadBatch(hash, epochId, validator, batch.merkleRoot, Arrays(batch.projectIds, batch.snapshotCids));
    }
  }
}
