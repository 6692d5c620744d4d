/** Votes per project and CID, counted one at a time in nested maps. */
module Tallies {
  import opened Sums

  type Votes = map<string, map<string, int>>

  function VotesFor(votes: Votes, project: string, cid: string): int {
    if project in votes && cid in votes[project] then votes[project][cid] else 0
  }

  /** All votes for a project, whatever the CID. */
  ghost function TotalFor(votes: Votes, project: string): int {
    if project in votes then Sum(votes[project]) else 0
  }

  /** An entry is there only once a vote was counted for it. */
  ghost predicate OnlyCounted(votes: Votes) {
    forall project, cid | project in votes && cid in votes[project] :: votes[project][cid] > 0
  }

  /** projectVotes[projectID][cid]++, where a missing inner map is made first. */
  function CountVote(votes: Votes, project: string, cid: string): Votes {
    var cids := if project in votes then votes[project] else map[];
    votes[project := cids[cid := VotesFor(votes, project, cid) + 1]]
  }

  lemma CountVoteAddsOne(votes: Votes, project: string, cid: string)
    requires OnlyCounted(votes)
    ensures var after := CountVote(votes, project, cid);
            && OnlyCounted(after)
            && (forall p, c :: VotesFor(after, p, c) == VotesFor(votes, p, c) + (if p == project && c == cid then 1 else 0))
            && (forall p :: TotalFor(after, p) == TotalFor(votes, p) + (if p == project then 1 else 0))
  {
    var cids := if project in votes then votes[project] else map[];
    SumUpdate(cids, cid, VotesFor(votes, project, cid) + 1);
  }

  /** Two CIDs of a project have at most all its votes between them. */
  lemma TwoCidsShareTheTotal(votes: Votes, project: string, c: string, d: string)
    requires OnlyCounted(votes) && c != d
    ensures VotesFor(votes, project, c) + VotesFor(votes, project, d) <= TotalFor(votes, project)
  {
    if project in votes {
      var cids := votes[project];
      RemoveBoth(cids, c, d);
    }
  }

  lemma RemoveBoth(m: map<string, int>, c: string, d: string)
    requires c != d && forall k | k in m :: m[k] >= 0
    ensures (if c in m then m[c] else 0) + (if d in m then m[d] else 0) <= Sum(m)
  {
    var m' := m - {c};
    if c in m {
      SumRemove(m, c);
    } else {
      assert m' == m;
    }
    if d in m' {
      SumRemove(m', d);
      SumNonNegative(m' - {d});
    } else {
      SumNonNegative(m');
    }
  }

  lemma {:induction false} SumNonNegative<K>(m: map<K, int>)
    requires forall k | k in m :: m[k] >= 0
    ensures Sum(m) >= 0
    decreases m.Keys
  {
    if m != map[] {
      var k :| k in m;
      SumRemove(m, k);
      SumNonNegative(m - {k});
    }
  }
}
