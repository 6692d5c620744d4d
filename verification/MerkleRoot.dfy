/**
 The string that is hashed into a batch's root. The aggregator builds it twice (Level 1 and Level 2)
 and the consensus package once more when it rechecks a batch fetched from IPFS.
 */
module MerkleRoot {
  import opened JoinedTexts
  import opened Sequences

  /** SHA-256 is left uninterpreted: every statement below holds for any hash function. */
  type Hash = string -> seq<bv8>

  function Entry(projectId: string, cid: string): string {
    projectId + ":" + cid + ","
  }

  /** What the three builders concatenate; as in Go, a CID array shorter than the id array is an index error. */
  function Combined(projectIds: seq<string>, cids: seq<string>): string
    requires |projectIds| <= |cids|
  {
    if projectIds == [] then ""
    else Entry(projectIds[0], cids[0]) + Combined(projectIds[1..], cids[1..])
  }

  lemma {:induction false} CombinedSnoc(projectIds: seq<string>, cids: seq<string>, i: nat)
    requires i < |projectIds| <= |cids|
    ensures Combined(projectIds[..i + 1], cids[..i + 1]) == Combined(projectIds[..i], cids[..i]) + Entry(projectIds[i], cids[i])
  {
    if i > 0 {
      CombinedSnoc(projectIds[1..], cids[1..], i - 1);
      assert projectIds[..i + 1][1..] == projectIds[1..][..i];
      assert cids[..i + 1][1..] == cids[1..][..i];
      assert projectIds[..i][1..] == projectIds[1..][..i - 1];
      assert cids[..i][1..] == cids[1..][..i - 1];
    }
  }

  /** The loop shared by createFinalizedBatchFromParts, createAggregatedBatch and calculateMerkleRoot. */
  method CalculateMerkleRoot(hash: Hash, projectIds: seq<string>, snapshotCids: seq<string>) returns (root: seq<bv8>)
    requires |projectIds| <= |snapshotCids|
    ensures root == hash(Combined(projectIds, snapshotCids))
  {
    var combined := "";
    for i := 0 to |projectIds|
      invariant combined == Combined(projectIds[..i], snapshotCids[..i])
    {
      CombinedSnoc(projectIds, snapshotCids, i);
      combined := combined + projectIds[i] + ":" + snapshotCids[i] + ",";
      assert combined == Combined(projectIds[..i], snapshotCids[..i]) + Entry(projectIds[i], snapshotCids[i]);
    }
    assert projectIds[..|projectIds|] == projectIds;
    CombinedIgnoresExtraCids(projectIds, snapshotCids);
    root := hash(combined);
  }

  lemma {:induction false} CombinedIgnoresExtraCids(projectIds: seq<string>, cids: seq<string>)
    requires |projectIds| <= |cids|
    ensures Combined(projectIds, cids[..|projectIds|]) == Combined(projectIds, cids)
  {
    if projectIds != [] {
      CombinedIgnoresExtraCids(projectIds[1..], cids[1..]);
      assert cids[..|projectIds|][1..] == cids[1..][..|projectIds| - 1];
    }
  }

  // ---------------------------------------------------------------- the string determines the arrays

  /** No comma in a project id or a CID; both may contain colons. */
  ghost predicate CommaFree(projectIds: seq<string>, cids: seq<string>) {
    && |projectIds| == |cids|
    && (forall i | 0 <= i < |projectIds| :: Free(',', projectIds[i]))
    && (forall i | 0 <= i < |cids| :: Free(',', cids[i]))
  }

  /** c ends in a colon and d, so the start of c can be read as part of a project id. */
  ghost predicate Extends(c: string, d: string) {
    exists x: string :: c == x + ":" + d
  }

  ghost predicate NoneExtends(cids: set<string>) {
    forall c, d | c in cids && d in cids :: !Extends(c, d)
  }

  /** Two entries with one text are the same, unless one CID extends the other. */
  lemma SameEntryOnlyByExtension(p: string, c: string, q: string, d: string)
    requires p + ":" + c == q + ":" + d
    ensures (p == q && c == d) || Extends(c, d) || Extends(d, c)
  {
    if |c| > |d| {
      var z := LongerEnd(':', p, c, q, d);
      assert Extends(c, d);
    } else if |c| < |d| {
      var z := LongerEnd(':', q, d, p, c);
      assert Extends(d, c);
    } else {
      SameEnd(':', p, c, q, d);
    }
  }

  /** Comma-free arrays have the same string only if they are the same arrays, in the same order, unless a CID extends another. */
  lemma {:induction false} SameStringSameArrays(all: set<string>, ids: seq<string>, cids: seq<string>, ids': seq<string>, cids': seq<string>)
    requires CommaFree(ids, cids) && CommaFree(ids', cids') && NoneExtends(all)
    requires (forall c | c in cids :: c in all) && (forall c | c in cids' :: c in all)
    requires Combined(ids, cids) == Combined(ids', cids')
    ensures ids == ids' && cids == cids'
    decreases |ids|
  {
    if ids == [] || ids' == [] {
      assert |ids| == 0 <==> Combined(ids, cids) == "";
      assert |ids'| == 0 <==> Combined(ids', cids') == "";
    } else {
      var a, b := ids[0] + ":" + cids[0], ids'[0] + ":" + cids'[0];
      var restA, restB := Combined(ids[1..], cids[1..]), Combined(ids'[1..], cids'[1..]);
      assert Combined(ids, cids) == a + "," + restA;
      assert Combined(ids', cids') == b + "," + restB;
      SplitAtFirst(a, b, restA, restB, ',');
      SameEntryOnlyByExtension(ids[0], cids[0], ids'[0], cids'[0]);
      SameStringSameArrays(all, ids[1..], cids[1..], ids'[1..], cids'[1..]);
      assert ids == [ids[0]] + ids[1..] && ids' == [ids'[0]] + ids'[1..];
      assert cids == [cids[0]] + cids[1..] && cids' == [cids'[0]] + cids'[1..];
    }
  }

  ghost predicate FromSet(projectIds: seq<string>, cids: seq<string>, all: set<string>) {
    CommaFree(projectIds, cids) && forall c | c in cids :: c in all
  }

  /** The string tells all comma-free arrays with CIDs from the given set apart. */
  ghost predicate StringsDetermineArrays(all: set<string>) {
    forall ids, cids, ids', cids' | FromSet(ids, cids, all) && FromSet(ids', cids', all) && Combined(ids, cids) == Combined(ids', cids') ::
      ids == ids' && cids == cids'
  }

  /** It does exactly when no CID of the set is some text, a colon and a CID of the set. */
  lemma StringsDetermineArraysExactlyWithoutExtensions(all: set<string>)
    requires forall c | c in all :: Free(',', c)
    ensures StringsDetermineArrays(all) <==> NoneExtends(all)
  {
    if NoneExtends(all) {
      forall ids, cids, ids', cids' | FromSet(ids, cids, all) && FromSet(ids', cids', all) && Combined(ids, cids) == Combined(ids', cids')
        ensures ids == ids' && cids == cids'
      {
        SameStringSameArrays(all, ids, cids, ids', cids');
      }
    } else {
      var c, d :| c in all && d in all && Extends(c, d);
      var x: string :| c == x + ":" + d;
      ExtensionSharesAString(x, d);
      assert forall i | 0 <= i < |x| :: x[i] == c[i];
      assert FromSet(["p"], [c], all) && FromSet(["p:" + x], [d], all);
    }
  }

  /** What extends a CID can be read as part of the project id. */
  lemma ExtensionSharesAString(x: string, d: string)
    ensures Combined(["p"], [x + ":" + d]) == Combined(["p:" + x], [d])
  {
    assert Combined(["p"], [x + ":" + d]) == Entry("p", x + ":" + d) + Combined([], []);
    assert Combined(["p:" + x], [d]) == Entry("p:" + x, d) + Combined([], []);
    assert Entry("p", x + ":" + d) == Entry("p:" + x, d);
  }

  /** No comma in a project id, neither colon nor comma in a CID; project ids may contain colons. */
  ghost predicate Encodable(projectIds: seq<string>, cids: seq<string>) {
    CommaFree(projectIds, cids) && forall i | 0 <= i < |cids| :: Free(':', cids[i])
  }

  /** CIDs without colons extend nothing, so such arrays have the same string only if they are the same, in the same order. */
  lemma CombinedDeterminesArrays(ids: seq<string>, cids: seq<string>, ids': seq<string>, cids': seq<string>)
    requires Encodable(ids, cids) && Encodable(ids', cids')
    requires Combined(ids, cids) == Combined(ids', cids')
    ensures ids == ids' && cids == cids'
  {
    var all := Elements(cids) + Elements(cids');
    forall c, d | c in all && d in all
      ensures !Extends(c, d)
    {
      forall x: string
        ensures c != x + ":" + d
      {
        assert (x + ":" + d)[|x|] == ':';
      }
    }
    SameStringSameArrays(all, ids, cids, ids', cids');
  }

  // ---------------------------------------------------------------- the order of the projects

  function Ids(pairs: seq<(string, string)>): seq<string> {
    seq(|pairs|, i requires 0 <= i < |pairs| => pairs[i].0)
  }

  function Cids(pairs: seq<(string, string)>): seq<string> {
    seq(|pairs|, i requires 0 <= i < |pairs| => pairs[i].1)
  }

  /** Listing the same projects and CIDs in any other order gives another string, hence another preimage of the root. */
  lemma OrderMatters(pairs: seq<(string, string)>, reordered: seq<(string, string)>)
    requires Encodable(Ids(pairs), Cids(pairs)) && multiset(pairs) == multiset(reordered) && pairs != reordered
    ensures Encodable(Ids(reordered), Cids(reordered))
    ensures Combined(Ids(pairs), Cids(pairs)) != Combined(Ids(reordered), Cids(reordered))
  {
    PermutationHasSameElements(pairs, reordered);
    forall i | 0 <= i < |reordered|
      ensures Free(',', reordered[i].0) && Free(',', reordered[i].1) && Free(':', reordered[i].1)
    {
      assert reordered[i] in pairs;
      var j :| 0 <= j < |pairs| && pairs[j] == reordered[i];
      assert Ids(pairs)[j] == reordered[i].0 && Cids(pairs)[j] == reordered[i].1;
    }
    if Combined(Ids(pairs), Cids(pairs)) == Combined(Ids(reordered), Cids(reordered)) {
      CombinedDeterminesArrays(Ids(pairs), Cids(pairs), Ids(reordered), Cids(reordered));
      SamePairs(pairs, reordered);
    }
  }

  lemma SamePairs(pairs: seq<(string, string)>, others: seq<(string, string)>)
    requires Ids(pairs) == Ids(others) && Cids(pairs) == Cids(others)
    ensures pairs == others
  {
    assert |pairs| == |Ids(pairs)| && |others| == |Ids(others)|;
    forall i | 0 <= i < |pairs|
      ensures pairs[i] == others[i]
    {
      assert Ids(pairs)[i] == Ids(others)[i] && Cids(pairs)[i] == Cids(others)[i];
    }
  }

  // ---------------------------------------------------------------- the recheck

  /** The recheck of a batch fetched from IPFS against the root that was announced for it. */
  ghost predicate Accepts(hash: Hash, announcedRoot: seq<bv8>, projectIds: seq<string>, cids: seq<string>)
    requires |projectIds| <= |cids|
  {
    hash(Combined(projectIds, cids)) == announcedRoot
  }

  /**
   For a hash without collisions on the strings involved, it accepts exactly the batches whose arrays
   are those the announced root was computed from.
   */
  lemma RecheckAcceptsExactlyTheAnnouncedArrays(hash: Hash, ids: seq<string>, cids: seq<string>,
                                                fetchedIds: seq<string>, fetchedCids: seq<string>)
    requires Encodable(ids, cids) && Encodable(fetchedIds, fetchedCids)
    requires hash(Combined(ids, cids)) == hash(Combined(fetchedIds, fetchedCids))
             ==> Combined(ids, cids) == Combined(fetchedIds, fetchedCids)
    ensures Accepts(hash, hash(Combined(ids, cids)), fetchedIds, fetchedCids) <==> fetchedIds == ids && fetchedCids == cids
  {
    if hash(Combined(fetchedIds, fetchedCids)) == hash(Combined(ids, cids)) {
      CombinedDeterminesArrays(ids, cids, fetchedIds, fetchedCids);
    }
  }
}
