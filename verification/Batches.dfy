/** The records that travel through the epoch pipeline, as decoded from their JSON. */
module Batches {

  datatype Option<+T> = None | Some(value: T)

  /** A submission with its submitter and the validators that confirm having seen it. */
  datatype SubmissionMetadata = SubmissionMetadata(
    submitterId: string,
    snapshotCid: string,
    slotId: nat,
    signature: string,
    timestamp: nat,
    voteCount: int,
    validatorsConfirming: seq<string>
  )

  type Details = map<string, seq<SubmissionMetadata>>

  /** A local (Level 1) or network-wide (Level 2) batch; `projectIds` and `snapshotCids` are parallel arrays. */
  datatype FinalizedBatch = FinalizedBatch(
    epochId: nat,
    projectIds: seq<string>,
    snapshotCids: seq<string>,
    merkleRoot: seq<bv8>,
    sequencerId: string,
    projectVotes: map<string, nat>,
    submissionDetails: Details,
    validatorBatches: map<string, string>,
    batchIpfsCid: string,
    validatorCount: nat
  )
}
