/**
 The id of a submission, "epoch-project-slot-cid", by which the dequeuer and the epoch's set of
 processed submissions tell submissions apart.
 */
module SubmissionIds {
  import opened JoinedTexts
  import opened Sequences

  datatype Request = Request(epochId: nat, projectId: string, slotId: nat, snapshotCid: string)

  function SubmissionId(r: Request): string {
    Decimal(r.epochId) + "-" + r.projectId + "-" + Decimal(r.slotId) + "-" + r.snapshotCid
  }

  /** What follows the epoch. */
  function AfterEpoch(r: Request): string {
    Joined('-', r.projectId, r.slotId, r.snapshotCid)
  }

  lemma IdIsEpochAndRest(r: Request)
    ensures SubmissionId(r) == Decimal(r.epochId) + ['-'] + AfterEpoch(r)
  {}

  /** An id names its epoch, and what follows it. */
  lemma SameIdSameEpoch(a: Request, b: Request)
    requires SubmissionId(a) == SubmissionId(b)
    ensures a.epochId == b.epochId && AfterEpoch(a) == AfterEpoch(b)
  {
    IdIsEpochAndRest(a);
    IdIsEpochAndRest(b);
    DecimalIsDigits(a.epochId);
    DecimalIsDigits(b.epochId);
    SplitAtFirst(Decimal(a.epochId), Decimal(b.epochId), AfterEpoch(a), AfterEpoch(b), '-');
    DecimalIsInjective(a.epochId, b.epochId);
  }

  /** Two requests with the same id are the same, unless one CID overlaps the other. */
  lemma SameIdOnlyByOverlap(a: Request, b: Request)
    requires SubmissionId(a) == SubmissionId(b)
    ensures a == b || Overlaps('-', a.snapshotCid, b.snapshotCid) || Overlaps('-', b.snapshotCid, a.snapshotCid)
  {
    SameIdSameEpoch(a, b);
    SameTextOnlyByOverlap('-', a.projectId, a.slotId, a.snapshotCid, b.projectId, b.slotId, b.snapshotCid);
  }

  /** An overlap is always enough for two different requests with one id. */
  lemma OverlapGivesSameId(c: string, d: string) returns (a: Request, b: Request)
    requires Overlaps('-', c, d)
    ensures a != b && a.snapshotCid == c && b.snapshotCid == d && SubmissionId(a) == SubmissionId(b)
  {
    var p, s, q, t := OverlapGivesSameText('-', c, d);
    a, b := Request(0, p, s, c), Request(0, q, t, d);
    IdIsEpochAndRest(a);
    IdIsEpochAndRest(b);
  }

  /** Ids tell all requests with CIDs from the given set apart. */
  ghost predicate IdsDetermineRequests(cids: set<string>) {
    forall a: Request, b: Request | a.snapshotCid in cids && b.snapshotCid in cids && SubmissionId(a) == SubmissionId(b) :: a == b
  }

  /** They do exactly when no CID of the set overlaps one of the set. */
  lemma IdsDetermineRequestsExactlyWithoutOverlaps(cids: set<string>)
    ensures IdsDetermineRequests(cids) <==> forall c, d | c in cids && d in cids :: !Overlaps('-', c, d)
  {
    if forall c, d | c in cids && d in cids :: !Overlaps('-', c, d) {
      forall a: Request, b: Request | a.snapshotCid in cids && b.snapshotCid in cids && SubmissionId(a) == SubmissionId(b)
        ensures a == b
      {
        SameIdOnlyByOverlap(a, b);
      }
    } else {
      var c, d :| c in cids && d in cids && Overlaps('-', c, d);
      var a, b := OverlapGivesSameId(c, d);
      assert a.snapshotCid in cids && b.snapshotCid in cids;
    }
  }

  /** CIDs without dashes do not overlap anything, whatever dashes project ids contain. */
  lemma DashFreeCidsDoNotOverlap(c: string, d: string)
    requires '-' !in c
    ensures !Overlaps('-', c, d)
  {
    FreeTextDoesNotOverlap('-', c, d);
  }
}
