# Verification of the decentralized sequencer's epoch pipeline

This project models how the sequencer turns the submissions of an epoch into a local batch (Level 1)
and the validators' batches into a network-wide one (Level 2), together with the in-memory indexes
beside that pipeline, and proves properties of the model. `dafny verify dfyconfig.toml` checks it.

How the pieces are modelled:

- Redis is a store of maps, sets and queues whose single commands are atomic. Where goroutines or
  processes interleave between commands (completion counter, Level-1 pipeline, submission windows,
  aggregation windows, event emitter, deduplicator) the model is a step system, and a property holds for
  every run of its steps. Code that runs by itself or under a lock is a method or a class.
- Go visits maps in no particular order. A loop over a map takes any remaining key next, and where ties
  make the result depend on the order, the result is specified by a relation.
- Clock readings, signature recovery, slot registration, SHA-256 and the square root are parameters. Floats are reals.
- JSON records are represented as decoded.

Where a comment and the code differ, the model follows the code: the dequeuer's memory shrinks to 500
entries, not to the last 1000 (pkgs/submissions/dequeuer.go:112-115), and `roundTime` rounds towards zero,
not to the nearest bucket (pkgs/metrics/timeseries.go:354-359).

One module per file:

| module | part of the sequencer |
|---|---|
| `SubmissionIds`, `Dequeuer` | submission ids; validation, duplicate check, bounded memory with its sort and eviction |
| `VoteCollection`, `Tallies` | from deliveries to the votes of an epoch |
| `Splitting`, `Level1Finalization`, `Level1Progress`, `Level1Pipeline` | batches, winner selection, the completion counter, and the whole concurrent Level 1 |
| `LocalBatch` | deliveries to local batch, end to end |
| `MerkleRoot` | the string that is hashed into a batch's root |
| `Level2Aggregation`, `Level2Agreement` | the network-wide batch, and what nodes with the same views agree on |
| `NetworkBatch` | all validators' deliveries to the network-wide batch, end to end |
| `SubmissionWindows`, `AggregationWindows` | when an epoch is finalized and aggregated |
| `EpochVotes`, `VoteAggregator` | counting validators' reports; consensus on a root |
| `SeriesLog`, `Percentiles`, `TimeSeries`, `Histogram` | metric indexes against a plain log of observations |
| `Emitter`, `Deduplicator` | the event emitter's buffer and workers; the cache in front of a shared store |
| `JoinedTexts` | decimals, and texts of a name, a number and a rest, as in ids and deduplication keys |
| `Batches`, `Sums`, `Sequences` | shared records and lemmas |

Properties that turned out not to hold, each with a counterexample and the exact condition under which
the code does meet them:

- Every completed epoch is pushed to Level 1: in every interleaving exactly for up to two parts, because
  `INCR` and the later `SET` are separate commands (`Level1Progress.PushGuaranteedExactlyUpToTwoParts`).
- Submission ids name the submission: exactly when no CID overlaps another
  (`SubmissionIds.IdsDetermineRequestsExactlyWithoutOverlaps`); CIDs without `-` never do.
- Merging keeps the same (submitter, CID) pairs in any order: exactly without key collisions
  (`Level2Agreement.OrderIndependentExactlyWithoutCollisions`).
- `ValidatorCount` is the number of batches: exactly when all are counted under different ids
  (`Level2Agreement.CountsBatchesExactlyWithDistinctIds`).
- The result's root does not depend on map order: exactly for fewer than two votes or when twice the
  floored threshold exceeds them (`VoteAggregator.RootIsUniqueExactlyAboveHalf`).
- Downsampling matches bucketing at the new resolution: exactly when the new bucket size is a multiple of
  the old (`SeriesLog.CoarseningIsExactForMultiplesOnly`).
- The statistics' `Min` and `Max` are the smallest and greatest: exactly as stated by
  `TimeSeries.MinIsExactUnlessZeroIsForgotten` and `TimeSeries.MaxIsExactUnlessAllAreNegative`.
- A deduplicator answers about a key as its store alone: exactly when no cache hit on it is stale
  (`Deduplicator.CachesAreTransparentExactlyWithoutStaleHits`). The caches do not only turn "new" into
  "seen"; when they do the reverse is said by `Deduplicator.NewForSeenExactlyAfterMissedRenewal`.
- A stored source batch is kept until it is aggregated: always for what other validators sent
  (`AggregationWindows.NoIncomingSourceIsLost`), and for the node's own batch, from every reachable state, exactly when
  no aggregation has read its key before and found nothing (`AggregationWindows.CanBeLostExactlyWhenMissed`).
- Every accepted submission reaches its epoch's set: in every run, exactly unless each of its deliveries came
  while its id was remembered from another data market, which ids do not name
  (`VoteCollection.MissedExactlyWhenAlwaysShadowed`). For deliveries with at most 1000 accepted ids, which all stay
  remembered, that is exactly when no two accepted ones share an id across data markets
  (`VoteCollection.EveryAcceptanceIsRecordedExactlyWithoutSharedIds`).
- The string hashed for the root determines the arrays: among comma-free ones exactly when no CID extends
  another with a colon in between (`MerkleRoot.StringsDetermineArraysExactlyWithoutExtensions`).
- Deduplication keys name the snapshot: exactly when no CID overlaps another, here with colons
  (`Deduplicator.KeysDetermineSnapshotsExactlyWithoutOverlaps`).
- Every vote has its submitter in the metadata: exactly when every record has an address
  (`VoteCollection.EntriesMatchVotesExactlyWhenAddressed`), which the dequeuer's records do.
- A validator has at most one vote for a project in the epoch's count: exactly when its fetched batch names it once at
  most, and not if its metadata does (`EpochVotes.OneVoteEachExactlyWithoutRepeats`).
- Nodes with the same views list the same CID: exactly for a unique plurality
  (`Level2Agreement.NodesAgreeExactlyWithAUniquePlurality`), which is one of addresses when the views are local batches
  (`NetworkBatch.NodesAgreeExactlyOnMostSupported`).
- The results announced as votes come in name one root: over all sequences of votes exactly for thresholds of at
  least two, from where nothing is announced (`VoteAggregator.AnnouncementsAgreeExactlyFromTwoOn`), because a vote may
  replace its sequencer's earlier one; as long as no sequencer changes its root, exactly for thresholds of at least one
  (`VoteAggregator.KeptRootsAgreeExactlyFromOneOn`).

## Model

| member | source | states |
|---|---|---|
| SubmissionIds.IdsDetermineRequestsExactlyWithoutOverlaps | cmd/unified/main.go:976-980 | ids tell all requests with CIDs from a set apart if and only if no CID of the set ends in a slot number, a dash and another |
| SubmissionIds.SameIdOnlyByOverlap | cmd/unified/main.go:1016-1020 | two requests with one id are equal unless one CID overlaps the other, dashes in project ids included |
| SubmissionIds.OverlapGivesSameId | cmd/unified/main.go:976-980 | for every overlap there are two different requests with one id |
| SubmissionIds.DashFreeCidsDoNotOverlap | cmd/unified/main.go:976-980 | CIDs without a dash overlap nothing, so ids are uniquely decodable for them |
| JoinedTexts.DecimalReadsBack | cmd/unified/main.go:976-980 | the numbers in ids and keys are in decimal: their digits read back as the number, without leading zeros |
| Dequeuer.SettleOne | pkgs/submissions/dequeuer.go:336-342 | one pass of the outer loop puts the oldest remaining entry next and keeps the entries |
| Dequeuer.SortByTime | pkgs/submissions/dequeuer.go:335-342 | the exchange sort orders the entries by time and permutes them |
| Dequeuer.Dequeuer.ListEntries | pkgs/submissions/dequeuer.go:324-333 | every remembered submission is listed once with its time |
| Dequeuer.Dequeuer.CleanupOldSubmissions | pkgs/submissions/dequeuer.go:318-349 | above 500 exactly 500 submissions remain, unchanged, none older than a removed one; otherwise all remain |
| Dequeuer.AcceptedExactlyWhenAdmitted | pkgs/submissions/dequeuer.go:75-93 | a submission is accepted with an address if and only if it has a CID, a project, a market and a signature from which that address is recovered, and, with slot validation, the address is registered for the slot or is the zero address |
| Dequeuer.ReasonsForRejection | pkgs/submissions/dequeuer.go:223-282 | the first thing that is missing decides the reason of a rejection |
| Dequeuer.Dequeuer.ProcessSubmission | pkgs/submissions/dequeuer.go:61-122 | a remembered id changes nothing; a rejected submission only counts as failed; exactly the admitted ones are remembered, recorded with the recovered address, and counted; at most 1000 are remembered and total is successes plus failures |
| Dequeuer.Dequeuer.UpdateStats | pkgs/submissions/dequeuer.go:351-360 | one more processed, and one more success or failure |
| Dequeuer.SubmissionStore.StoreProcessingResult | pkgs/submissions/dequeuer.go:284-312 | the submission is found under its namespaced key and its id in its epoch's set; every other record and every other set stays as it was |
| Dequeuer.StoringAgainAddsNoId | pkgs/submissions/dequeuer.go:303-311 | storing an id again replaces its record and adds nothing to any epoch's set |
| VoteCollection.Deliver | cmd/unified/main.go:974-994 | a delivery is one of the steps of the delivery runs: ignored, or recorded and perhaps remembered |
| VoteCollection.RestartForgets | pkgs/submissions/dequeuer.go:64-71 | what is remembered after a restart was delivered since |
| VoteCollection.RecordsWereAdmitted | pkgs/submissions/dequeuer.go:75-119 | in every run, each record is of a delivered submission of its protocol state and market that the checks admit, with the recovered address |
| VoteCollection.AdmittedIsRecorded | pkgs/submissions/dequeuer.go:95-119 | conversely, a delivered submission that they admit is recorded with that address and its id is in its epoch's set, unless the id is remembered |
| VoteCollection.RecordedIdsCountSlots | pkgs/submissions/dequeuer.go:284-312 | after any deliveries, repeats and evictions included, as many recorded ids name a project and CID as distinct slots had a submission accepted that named them |
| VoteCollection.MissedExactlyWhenAlwaysShadowed | pkgs/submissions/dequeuer.go:64-119 | in every run, with repeats, evictions, restarts and racing goroutines: an accepted submission is missing from its epoch's set at the end if and only if each of its deliveries was ignored because its id was remembered from another namespace |
| VoteCollection.OnlyAcceptedAreRecorded | pkgs/submissions/dequeuer.go:284-312 | an epoch's set holds ids of its accepted submissions only |
| VoteCollection.NoAcceptanceIsMissedWithoutSharedIds | pkgs/submissions/dequeuer.go:64-119 | for deliveries of any length without an id accepted in two namespaces, all runs record exactly the accepted ids of every namespace and epoch |
| VoteCollection.EveryAcceptanceIsRecordedExactlyWithoutSharedIds | pkgs/submissions/dequeuer.go:64-119 | for deliveries with at most 1000 accepted ids: all runs over them record exactly the accepted ids if and only if no two accepted deliveries share an id across namespaces |
| VoteCollection.OtherNamespaceIsShadowed | pkgs/submissions/dequeuer.go:64-115 | of any two accepted deliveries that do, among at most 1000 accepted ids, one is missing from its epoch's set in a run |
| VoteCollection.CollectEpochSubmissions | pkgs/eventmonitor/monitor.go:646-757 | in whatever order the ids come, every record is counted for its project and CID, and those with an address are listed with their submitter |
| VoteCollection.CollectedVotesCountSlots | pkgs/eventmonitor/monitor.go:683-726 | a project and CID have an entry exactly when some slot's accepted submission named them, and both the count and the number of metadata entries are the number of those slots |
| VoteCollection.EntriesMatchVotesExactlyWhenAddressed | pkgs/eventmonitor/monitor.go:686-711 | whatever is recorded, a CID has at most as many metadata entries as votes, and as many if and only if no record that names it lacks an address |
| VoteCollection.RecordsAreAddressed | pkgs/submissions/dequeuer.go:99-107 | the dequeuer records no submission without an address |
| Splitting.SplitIntoBatches | pkgs/eventmonitor/monitor.go:611-633 | the batches share out all projects unchanged, without overlap, all of the given size but the last, which is not empty; a size below one puts every project in a batch of its own |
| Level1Finalization.SelectWinner | cmd/unified/main.go:1222-1233 | a CID with the most votes is chosen if any has a vote, with its count and the sum of all counts |
| Level1Finalization.ProcessBatchPart | cmd/unified/main.go:1174-1246 | a worker's part is a direct result of its batch: per project a top CID with exact counts, or no entry when there is no vote |
| Level1Finalization.DirectResultsAgree | cmd/unified/main.go:1222-1242 | any two direct results resolve the same projects with the same counts, and without ties are equal |
| Level1Finalization.MergedPartsAreADirectResult | cmd/aggregator/main.go:505-526 | merging any results of the parts of a split is a result of one pass over the whole map |
| Level1Finalization.EveryDirectResultIsAMerge | cmd/aggregator/main.go:505-526 | every result of one whole pass is the merge of some results of the parts |
| Level1Finalization.PartStore.StorePart | cmd/unified/main.go:1248-1257 | the part is found under its number and every other part stays; storing a result of its batch completes a split if and only if all other parts were stored |
| Level1Finalization.PartStore.AggregateWorkerParts | cmd/aggregator/main.go:494-526 | the stored parts are merged in ascending order and deleted, others stay |
| Level1Finalization.CreateFinalizedBatchFromParts | cmd/aggregator/main.go:623-702 | the arrays list every merged project once, aligned with its CID; votes and submitters are those of the merge, one vote and this validator each; the root is that of the arrays |
| Level1Progress.PushedAtMostOnceWhenAllCounted | cmd/unified/main.go:1303-1310 | in every interleaving the counter is at most the number of INCRs, and the Level-1 message is pushed at most once and only when all parts are counted |
| Level1Progress.AtomicCountingPushesExactlyOnce | pkgs/workers/monitoring.go:138-173 | if INCR and SET are one step, a completed epoch is pushed exactly once |
| Level1Progress.PushGuaranteedExactlyUpToTwoParts | pkgs/workers/monitoring.go:146-166 | with separate steps the push is certain if and only if there are at most two parts |
| Level1Progress.ProgressKeys.Incr | cmd/unified/main.go:1305 | the counter goes up by one and the reply is its new value |
| Level1Progress.ProgressKeys.UpdateBatchPartsProgress | pkgs/workers/monitoring.go:138-173 | counter and total are overwritten, and exactly when they are equal and positive the epoch is marked ready and pushed |
| Level1Progress.ProgressKeys.CountAndReport | cmd/unified/main.go:1303-1310 | without another worker in between, the two commands are the protocol's combined step |
| Level1Pipeline.PipelineComputesADirectPass | cmd/aggregator/main.go:391-526 | for every split and every interleaving of workers and aggregator an epoch is merged at most once, the result is one of a direct pass over all projects, and then every part key is deleted |
| Level1Pipeline.UntiedPipelineIsDeterministic | cmd/unified/main.go:1165-1310 | without ties every completing run returns what a single worker would |
| Level1Pipeline.EveryDirectResultIsReached | cmd/aggregator/main.go:391-526 | for every split that is not empty, whatever a direct pass may return is what some run of the pipeline completes the epoch with |
| Level1Pipeline.PushedOnlyWhenStored | cmd/unified/main.go:1248-1310 | in every interleaving the Level-1 message is pushed only once every part is stored, each a result of its batch |
| LocalBatch.LocalBatchReflectsSubmissions | cmd/aggregator/main.go:623-696 | end to end: the local batch lists exactly the projects some slot's accepted submission named, with a CID most slots named and that number of slots as votes |
| LocalBatch.ReportedExactlyWithSupport | cmd/unified/main.go:1178-1246 | what a pass over a collected epoch reports, in terms of slots |
| MerkleRoot.CalculateMerkleRoot | pkgs/consensus/p2p_consensus.go:687-694 | the root is the hash of the string built from the arrays, as both aggregation levels build it |
| MerkleRoot.CombinedDeterminesArrays | cmd/aggregator/main.go:679-685 | without commas, and without colons in CIDs, the string determines both arrays and their order |
| MerkleRoot.StringsDetermineArraysExactlyWithoutExtensions | cmd/aggregator/main.go:679-685 | the string tells all comma-free arrays with CIDs from a set apart if and only if no CID of the set is a text, a colon and a CID of the set |
| MerkleRoot.ExtensionSharesAString | cmd/aggregator/main.go:679-685 | what a CID has before a colon can be read as part of the project id instead |
| MerkleRoot.OrderMatters | cmd/aggregator/main.go:680-683 | any reordering of the projects with their CIDs that differs from the original gives another string |
| MerkleRoot.RecheckAcceptsExactlyTheAnnouncedArrays | pkgs/consensus/p2p_consensus.go:312-317 | for a hash without collisions there, the recheck accepts exactly the announced arrays |
| Level2Aggregation.MergeView | cmd/aggregator/main.go:932-943 | every view's entries are appended and the higher vote count is kept, project by project |
| Level2Aggregation.MergeDuplicates | cmd/aggregator/main.go:946-968 | one entry per submitter-and-CID key, combining votes and confirmations of all entries with it |
| Level2Aggregation.ConsensusCid | cmd/aggregator/main.go:979-995 | no CID occurs in more merged entries than the chosen one |
| Level2Aggregation.CreateAggregatedBatch | cmd/aggregator/main.go:853-1037 | the batch is an aggregate of all views, with the root of its arrays, the first epoch that is not zero, for each validator id the IPFS CID last announced, and as validator count the number of ids of own batch, headers with a CID, batches that name a sequencer, and key segments of those that do not |
| Level2Aggregation.ViewsAreReceived | cmd/aggregator/main.go:867-930 | the views are the own batch and the batches of all messages that have one, once each |
| Level2Agreement.VotesAreOrderIndependent | cmd/aggregator/main.go:866-943 | any order of the views and any choice of the own one gives the same projects and the same highest votes |
| Level2Agreement.SubmissionsAreOrderIndependent | cmd/aggregator/main.go:946-968 | ... and per project the same (submitter, CID) pairs and the same number of submitters behind each CID |
| Level2Agreement.CidCountsDistinctSubmitters | cmd/aggregator/main.go:979-985 | the count of a CID is the number of distinct submitters that named it |
| Level2Agreement.UniquePluralityWinsEverywhere | cmd/aggregator/main.go:971-997 | a CID named by the most distinct submitters, if unique, is chosen by every node with the same views |
| Level2Agreement.NodesAgreeExactlyOnUniquePluralities | cmd/aggregator/main.go:971-997 | all nodes with the same views list the same CID for a project if and only if it alone is named by the most distinct submitters, or nobody names any |
| Level2Agreement.NodesAgreeExactlyWithAUniquePlurality | cmd/aggregator/main.go:971-997 | ... which is a matter of the views alone: nodes agree on some CID if and only if some CID has the most distinct submitters, or there are no entries |
| Level2Agreement.TiedCidIsPossible | cmd/aggregator/main.go:987-996 | a CID with as high a count as the listed one is listed in another outcome from the same views |
| Level2Agreement.AttributionIsOrderIndependent | cmd/aggregator/main.go:954-960 | each merged entry has the same votes and the same confirming validators, order aside |
| Level2Agreement.MergedEntryCountsItsVotes | cmd/aggregator/main.go:946-968 | with one vote per Level-1 entry, a merged entry's votes are the number of entries with its key and its confirmations theirs |
| Level2Agreement.VotesAreConserved | cmd/aggregator/main.go:946-968 | ... and a project's votes add up to its number of entries |
| Level2Agreement.OrderIndependentExactlyWithoutCollisions | cmd/aggregator/main.go:952 | merging keeps the same pairs in every order if and only if no two entries share a key with different pairs |
| Level2Agreement.ColonFreeCidsDoNotCollide | cmd/aggregator/main.go:952 | CIDs without colons never collide |
| Level2Agreement.ColonsCollide | cmd/aggregator/main.go:952 | submitter and CID can share a key with another submitter and CID when one contains a colon |
| Level2Agreement.CountsBatchesExactlyWithDistinctIds | cmd/aggregator/main.go:1029-1030 | the validator count is at most the number of views, and equal if and only if no two are counted under one id |
| Level2Agreement.DistinctHeadersCountOnceEach | cmd/aggregator/main.go:898-901 | batches with headers of different validators are counted once each |
| Level2Agreement.DistinctSequencersCountOnceEach | cmd/aggregator/main.go:909-926 | so are batches without headers that name different sequencers, whatever their keys |
| Level2Agreement.BatchesWithOwnCidCountOnce | cmd/aggregator/main.go:896-930 | two batches that carry their own IPFS CID are counted as one |
| NetworkBatch.NetworkBatchListsSupportedProjects | cmd/aggregator/main.go:971-998 | from the deliveries of all validators: the network-wide batch lists exactly the projects for which some validator recorded a submission |
| NetworkBatch.NetworkBatchReflectsSubmissions | cmd/aggregator/main.go:946-998 | ... each with a CID that no fewer distinct addresses named, in the validators' records, than any other |
| NetworkBatch.NodesAgreeExactlyOnMostSupported | cmd/aggregator/main.go:971-997 | all nodes that hold the same local batches list the same CID for a project if and only if one CID was named by the most distinct addresses |
| NetworkBatch.EntriesAreConfirmedByTheirRecorders | cmd/aggregator/main.go:946-968 | an entry of the network-wide batch is confirmed by exactly the validators that recorded its submitter with its CID, and has one vote per confirmation |
| NetworkBatch.EntriesAreSubmissions | cmd/aggregator/main.go:650-676 | every entry of a local batch has the slot, CID and signature of a delivered submission for the epoch and project, an address the checks admit it with, and the collection time |
| NetworkBatch.SubmissionsHaveEntries | pkgs/eventmonitor/monitor.go:683-726 | conversely, the slot of every admitted submission has an entry with its CID |
| NetworkBatch.NetworkEntriesAreSubmissions | cmd/aggregator/main.go:946-968 | so every entry of the network-wide batch is a submission that some validator admitted |
| NetworkBatch.NetworkVotesAreHighest | cmd/aggregator/main.go:939-942 | a project's vote count is the highest number of slots that any validator counted for the CID it lists, modulo 2^32 |
| NetworkBatch.RecordedAddressesWereAccepted | pkgs/submissions/dequeuer.go:99-119 | the addresses recorded with a CID were recovered from accepted submissions that name it, and are all of these if each id was accepted from one address |
| NetworkBatch.EntriesAreSingleVotes | cmd/aggregator/main.go:659-676 | in local batches every entry is one vote, and no keys collide if the delivered CIDs are free of colons |
| SubmissionWindows.ActiveWindowsAreBounded | pkgs/eventmonitor/monitor.go:415-453 | in every interleaving active windows are at most the held slots, and these at most the semaphore's |
| SubmissionWindows.ReleaseNeverBlocks | pkgs/eventmonitor/monitor.go:512-513 | a closer that removed a window can always give back a slot |
| SubmissionWindows.WindowEndsAtMostOnce | pkgs/eventmonitor/monitor.go:497-525 | Done is closed at most once, and finalization triggered at most once and only by a closeWindow that removed the window |
| SubmissionWindows.QuiescentWindows | pkgs/eventmonitor/monitor.go:449-525 | with nothing under way, the timer of an active window is running, an expired window is removed with Done closed, a window is finalized exactly if closeWindow removed it, Done is closed exactly if anyone did, timers are stopped only by Shutdown and none it met is running, and the held slots are the active windows' and those Shutdown left behind |
| SubmissionWindows.EveryWindowEnds | pkgs/eventmonitor/monitor.go:449-525 | without new windows or Shutdown, timers and closers take at most five steps per window in every interleaving, and when none is left every window is removed, its Done closed, and finalized unless Shutdown removed it |
| SubmissionWindows.OpenerIsNeverStuck | pkgs/eventmonitor/monitor.go:415-453 | in every reachable state the opener is idle or has a step, and every step but the first brings it closer to that |
| AggregationWindows.OneLiveWindowPerEpoch | cmd/aggregator/main.go:453-492 | in every interleaving at most one aggregation window of an epoch is live, and the timer map names it |
| AggregationWindows.WrittenAtMostOnce | cmd/aggregator/main.go:704-787 | the aggregated record of an epoch is written at most once |
| AggregationWindows.RecordsAreFinal | cmd/aggregator/main.go:782-787 | once written it never changes |
| AggregationWindows.RecordsAreBuiltFromArrivals | cmd/aggregator/main.go:746-787 | a record is built only from batches that were stored for its epoch |
| AggregationWindows.NoWindowAfterTheRecord | cmd/aggregator/main.go:232-246 | once the record is there and the messages under way are handled, no window is started for the epoch again |
| AggregationWindows.FailureLeavesAllAsItIs | cmd/aggregator/main.go:709-711 | an aggregation whose check, write or deletion fails leaves batches and records as they are, and its epoch without a window, so that it can be started again |
| AggregationWindows.RestsExactlyWithoutTimers | cmd/aggregator/main.go:453-492 | in every reachable state no window has a step left if and only if the timer map is empty |
| AggregationWindows.DeletedOnlyAfterTheWrite | cmd/aggregator/main.go:839-850 | a source is deleted only after its epoch's record was written, which was built from it unless it was stored after its key had been read and found empty |
| AggregationWindows.DeletionCleansUp | cmd/aggregator/main.go:839-850 | a successful deletion leaves neither a batch the record was built from nor one of the node's own, and every batch of another epoch |
| AggregationWindows.NoSourceIsLostInTime | cmd/aggregator/main.go:737-843 | every other source ever stored is still there or in its epoch's record |
| AggregationWindows.CanBeLostExactlyWhenMissed | cmd/aggregator/main.go:717-850 | from every reachable state, a batch stored now can end up neither kept nor aggregated if and only if an aggregation has already read its key, found nothing, and may still delete it; then it is the node's own |
| AggregationWindows.ArrivalsCanBeAggregated | cmd/aggregator/main.go:737-787 | from every reachable state, an aggregation about to list the validators may list any others whose batches are stored, and has all of these in its record |
| AggregationWindows.NoIncomingSourceIsLost | cmd/p2p-gateway/main.go:914-917 | what another validator stored is in Redis or in its epoch's record at all times, because it is stored before it is listed |
| AggregationWindows.LateOwnBatchIsLost | cmd/aggregator/main.go:717-843 | for every node and epoch there is a run that deletes the node's own batch without it being in any record |
| EpochVotes.CountReport | pkgs/consensus/p2p_consensus.go:384-418 | a report's metadata and its fetched arrays are added, pair by pair, and exactly the projects it mentions get an entry |
| EpochVotes.ReportCountsItsPairs | pkgs/consensus/p2p_consensus.go:384-418 | a report counts once for its metadata and once for every position of its fetched arrays that has both a project id and a CID |
| EpochVotes.CountReports | pkgs/consensus/p2p_consensus.go:378-418 | the tally of a project and CID is the sum over the validators' reports, a project's total is that of all its ballots, and exactly the projects some report mentions have an entry |
| EpochVotes.ChooseWinners | pkgs/consensus/p2p_consensus.go:420-437 | a project has a top CID with at least half of the validators, or none of its CIDs has as many |
| EpochVotes.AggregateEpochVotes | pkgs/consensus/p2p_consensus.go:366-448 | nothing below two validators; else the tally and an aggregate of it |
| EpochVotes.SufficesIsHalf | pkgs/consensus/p2p_consensus.go:434 | the quotient reaches one half exactly when twice the votes reach the validators |
| EpochVotes.VotesAreBounded | pkgs/consensus/p2p_consensus.go:378-418 | with one vote per validator a project's counts add up to at most the number of validators |
| EpochVotes.MajorityAlwaysWins | pkgs/consensus/p2p_consensus.go:420-437 | a CID of more than half is the only outcome, for any order and node |
| EpochVotes.DifferingNodesAreSplitEvenly | pkgs/consensus/p2p_consensus.go:420-437 | nodes with the same reports aggregate the same projects and differ on a CID only at two exact halves |
| EpochVotes.EvenSplitLeavesBothOpen | pkgs/consensus/p2p_consensus.go:425-436 | at two exact halves either CID is a possible outcome |
| EpochVotes.FetchedBatchCountsAgain | pkgs/consensus/p2p_consensus.go:404-418 | a validator whose fetched batch repeats its metadata counts at least twice |
| EpochVotes.OneVoteEachExactlyWithoutRepeats | pkgs/consensus/p2p_consensus.go:384-418 | each validator has at most one vote for a project if and only if no fetched batch names it twice, or repeats it after the metadata |
| EpochVotes.Validators.StoreValidatorBatch | pkgs/consensus/p2p_consensus.go:331-341 | the report replaces the validator's earlier one, other epochs stay |
| EpochVotes.Validators.LoadBatch | pkgs/consensus/p2p_consensus.go:311-326 | arrays with the announced root are added to the validator's current report, and nothing else changes |
| EpochVotes.Validators.LoadLocalBatch | pkgs/consensus/p2p_consensus.go:311-326 | the arrays of every local batch, as the aggregator builds it, are added to the report of a validator that announced its root |
| VoteAggregator.CreateParticipantBitmap | pkgs/consensus/signature_aggregator.go:142-151 | bit k is set exactly for k below the number of participants, in the fewest bytes |
| VoteAggregator.BytesOfBitmap | pkgs/consensus/signature_aggregator.go:142-151 | all bytes of the bitmap are full but perhaps the last, which has its lowest bits set |
| VoteAggregator.GroupByRoot | pkgs/consensus/signature_aggregator.go:69-75 | the groups list every vote once, under its root |
| VoteAggregator.CheckConsensus | pkgs/consensus/signature_aggregator.go:68-89 | no result exactly when no root has enough votes; else the result of a root that has |
| VoteAggregator.BuildConsensusResult | pkgs/consensus/signature_aggregator.go:92-123 | epoch, counts, bitmap and the arrays of one of the group's votes |
| VoteAggregator.VoteAggregator.AddVote | pkgs/consensus/signature_aggregator.go:36-65 | late votes and other epochs are refused; a vote replaces its sequencer's earlier one and is followed by a check |
| VoteAggregator.RootIsUniqueExactlyAboveHalf | pkgs/consensus/signature_aggregator.go:77-86 | no two roots can suffice if and only if there are fewer than two votes or twice the floored threshold exceeds them |
| VoteAggregator.UniqueInALargeElectorate | pkgs/consensus/signature_aggregator.go:79 | a threshold above one half suffices from a number of votes on |
| VoteAggregator.TwoThirdsOfFewIsNoMajority | pkgs/consensus/signature_aggregator.go:15 | 0.66 of two, three or four votes does not |
| VoteAggregator.ResultsAgree | pkgs/consensus/signature_aggregator.go:68-123 | above half and with roots that are faithful hashes, every order gives the same result |
| VoteAggregator.AnnouncementsAgreeExactlyFromTwoOn | pkgs/consensus/signature_aggregator.go:51-86 | over every sequence of votes, no two announced results differ in their roots if and only if the threshold is at least two, and then nothing is announced |
| VoteAggregator.ReplacedVoteIsAnnouncedAgain | pkgs/consensus/signature_aggregator.go:51-62 | below two a single vote is announced, and so is another root in the vote that replaces it |
| VoteAggregator.KeptRootsAgreeExactlyFromOneOn | pkgs/consensus/signature_aggregator.go:77-86 | over every sequence in which no sequencer changes its root, no two announced results differ in their roots if and only if the threshold is at least one |
| VoteAggregator.FirstTwoVotesAreAnnounced | pkgs/consensus/signature_aggregator.go:77-86 | below one the first vote is announced whatever its root, and so may be the second |
| Percentiles.PercentilesAreMonotone | pkgs/metrics/collector.go:492-507 | percentiles lie within the values and do not decrease |
| Percentiles.PercentileIsBetweenRanks | pkgs/metrics/collector.go:497-507 | a percentile lies between the values of its two ranks |
| Percentiles.PercentileInterpolates | pkgs/metrics/collector.go:497-507 | for the rank k + w with a whole number k and a fraction w, the percentile lies the fraction w of the way from the k-th value to the next |
| Percentiles.MedianIsInTheMiddle | pkgs/metrics/collector.go:497-507 | the median is the middle value, or the mean of the two in the middle |
| SeriesLog.RoundTimeIsQuotientTimesSecs | pkgs/metrics/timeseries.go:355-359 | the rounding used here is the truncated quotient times the bucket size |
| SeriesLog.RoundingIsSymmetric | pkgs/metrics/timeseries.go:355-359 | times before 0 round like those after it, towards 0 by less than a bucket |
| SeriesLog.BucketIsAnInterval | pkgs/metrics/timeseries.go:355-359 | for times from 0 on, a bucket is the interval of its size that starts at its key |
| SeriesLog.CoarseningIsExactForMultiplesOnly | pkgs/metrics/timeseries.go:326-334 | rounding twice gives the same buckets as rounding once, for every log, if and only if the new size is a multiple |
| TimeSeries.TimeSeries.constructor | pkgs/metrics/timeseries.go:37-58 | an empty series; a resolution of 0 means a second, a retention of 0 a day |
| TimeSeries.TimeSeries.Secs | pkgs/metrics/timeseries.go:355-359 | the bucket size is the whole seconds of the resolution |
| TimeSeries.TimeSeries.Add | pkgs/metrics/timeseries.go:61-96 | buckets and sorted keys stand for the log with one more observation |
| TimeSeries.InsertSorted | pkgs/metrics/timeseries.go:362-375 | the keys stay strictly increasing and gain exactly the new one |
| TimeSeries.TimeSeries.Cleanup | pkgs/metrics/timeseries.go:378-405 | exactly the observations in buckets before the cutoff go, bucket by bucket |
| TimeSeries.TimeSeries.Query | pkgs/metrics/timeseries.go:99-152 | in ascending order, exactly the buckets in range that a filter of the log would fill, with exact count, sum, minimum, maximum, mean and percentiles |
| TimeSeries.PointIsOrdered | pkgs/metrics/timeseries.go:126-146 | Min <= P50 <= P90 <= P95 <= P99 <= Max |
| TimeSeries.CalculateStats | pkgs/metrics/timeseries.go:408-438 | totals over the points, running minimum and maximum, mean, and as standard deviation the root of the mean squared distance, which is not negative; all zero without points |
| TimeSeries.SquaredDistancesRepeatMeans | pkgs/metrics/timeseries.go:430-435 | the weighted sum of squares is that over the points' means, each repeated once for every value of its point |
| TimeSeries.NoDistanceExactlyForEqualMeans | pkgs/metrics/timeseries.go:430-435 | it is zero if and only if all means are the overall one |
| TimeSeries.TotalsAreThoseOfTheLog | pkgs/metrics/timeseries.go:415-417 | the totals of a query are those of the observations in its range |
| TimeSeries.MinIsExactUnlessZeroIsForgotten | pkgs/metrics/timeseries.go:419-421 | the minimum is the smallest if and only if some point is negative, all are positive, or the last one is zero |
| TimeSeries.MaxIsExactUnlessAllAreNegative | pkgs/metrics/timeseries.go:422-424 | the maximum is the greatest if and only if some maximum is not negative |
| TimeSeries.TimeSeries.Downsample | pkgs/metrics/timeseries.go:309-352 | nothing unless the resolution is larger; else a new series whose buckets hold exactly the values of the old buckets that start in them |
| TimeSeries.DownsamplingConservesValues | pkgs/metrics/timeseries.go:336-349 | the values, their number and their sum are conserved |
| TimeSeries.DownsamplingMatchesDirectBucketing | pkgs/metrics/timeseries.go:309-352 | for multiples the buckets are those of direct observation at the new resolution |
| Histogram.Histogram.constructor | pkgs/metrics/registry.go:338-348 | no observations; the bounds are the given ones in ascending order |
| Histogram.Histogram.Observe | pkgs/metrics/registry.go:355-374 | counts, sum and number stand for one more observation, the points for the last 1000 with their times and the histogram's labels, and the last update is now |
| Histogram.Histogram.Reset | pkgs/metrics/registry.go:398-408 | they stand for no observations |
| Histogram.Histogram.Value | pkgs/metrics/registry.go:376-383 | the mean of the observations, 0 without any |
| Histogram.Histogram.Export | pkgs/metrics/registry.go:410-442 | every bound, repeated ones included, with the number of observations up to it, all of them at the end, and their sum |
| Histogram.BoundsAreInclusive | pkgs/metrics/registry.go:360-361 | what counts for a bound are the observations not above it, equal ones included |
| Histogram.ExportIsCumulative | pkgs/metrics/registry.go:417-429 | exported counts never decrease and are equal at equal bounds |
| Histogram.BucketCount | pkgs/metrics/registry.go:360-361 | each bucket counts what lies above the bound before it and not above its own |
| Emitter.EventsAreConserved | pkgs/events/emitter.go:153-196 | at every step of every interleaving the emitted events are those pending, dropped, queued, held, in a worker or done, the queue is bounded and tokens plus workers are constant |
| Emitter.DispatchIsFirstInFirstOut | pkgs/events/emitter.go:264-295 | the dispatcher takes each sent event once, in the order of sending, and exactly these are held, handled or done |
| Emitter.NothingIsDroppedUnasked | pkgs/events/emitter.go:176-196 | without DropOnOverflow no event that was emitted without a timeout is dropped in any interleaving |
| Emitter.NobodyWaitsWhenDropping | pkgs/events/emitter.go:180-187 | with it no caller of Emit waits for space |
| Emitter.WhatFitsIsNotDropped | pkgs/events/emitter.go:175-187 | either way, as many events as the buffer holds are not dropped without a timeout |
| Emitter.FullBufferDropsOrMakesWait | pkgs/events/emitter.go:175-196 | from every reachable state, an event whose first attempt meets a full buffer may be dropped with DropOnOverflow, and without it has to wait |
| Emitter.TimedEventCanBeDropped | pkgs/events/emitter.go:199-225 | an event emitted with a timeout may be dropped, whatever the configuration |
| Emitter.RestsExactlyWhenAllEnded | pkgs/events/emitter.go:276-288 | with at least one worker, in every reachable state nothing but a new event is possible if and only if every event is done or counted as dropped |
| Emitter.EveryEventEnds | pkgs/events/emitter.go:153-288 | without new events every interleaving takes at most six steps per event, and when none is left each event is done or dropped |
| Deduplicator.SharedStore.SetNX | pkgs/deduplication/deduplicator.go:56-58 | set if absent or expired |
| Deduplicator.Deduplicator.CheckAndMark | pkgs/deduplication/deduplicator.go:47-74 | a cached key is seen; otherwise the store decides and the key is cached; a store error changes nothing |
| Deduplicator.Call | pkgs/deduplication/deduplicator.go:47-74 | a call that nothing comes between is a hit, or a SETNX and a cache addition, of the runs |
| Deduplicator.CachesAreTransparentExactlyWithoutStaleHits | pkgs/deduplication/deduplicator.go:50-71 | for any nodes and evictions every call for a key is answered as the store alone would if and only if the key is never found in a cache after its entry expired |
| Deduplicator.AnswersAreTheStores | pkgs/deduplication/deduplicator.go:50-71 | without expiry the answers are always those of the store alone |
| Deduplicator.NewAnswersAreApart | pkgs/deduplication/deduplicator.go:58-67 | two calls told that a key is new are at least the time to live apart; without expiry there is at most one |
| Deduplicator.NewForSeenExactlyAfterMissedRenewal | pkgs/deduplication/deduplicator.go:50-71 | a call is told "new" where the store alone would say "seen" if and only if it asks at a dead entry and, less than the time to live before, a call for the key was told "seen" where the store alone would say "new" |
| Deduplicator.NewForSeenNeedsAStaleHit | pkgs/deduplication/deduplicator.go:51-54 | ... which takes an earlier stale hit on the key |
| Deduplicator.StaleHitMissesRenewal | pkgs/deduplication/deduplicator.go:51-54 | a stale hit less than the time to live ago that the store alone would have renewed is enough |
| Deduplicator.StaleHitCanMakeSeenNew | pkgs/deduplication/deduplicator.go:51-54 | such a run, for every node and key |
| Deduplicator.AskCanMissARenewalToo | pkgs/deduplication/deduplicator.go:56-67 | a run where the missed renewal is an asking call, and every stale hit lies the time to live or more back |
| Deduplicator.KeysDetermineSnapshotsExactlyWithoutOverlaps | pkgs/deduplication/deduplicator.go:39-43 | the hashed texts tell all snapshots with CIDs from a set apart if and only if no CID of the set ends in a number, a colon and another |
| Deduplicator.SameKeyOnlyByOverlap | pkgs/deduplication/deduplicator.go:40 | two snapshots with one text are the same unless one CID overlaps the other |
| Deduplicator.ColonFreeCidsHaveTheirOwnKeys | pkgs/deduplication/deduplicator.go:40 | without colons in CIDs the text determines project, epoch and CID |

## Left out

- Time to live of Redis keys and Redis errors, except where `Deduplicator` and `AggregationWindows` have steps for them; connection handling, metrics pipelines, timelines and logging, with the slices of hashes and CIDs that only logging takes.
- libp2p, gossip, discovery, gateway handlers, IPFS and RPC clients, settings, the monitor API and the state tracker: plumbing and reads with only easy claims.
- EIP-712 recovery and slot registration are parameters, SHA-256 is any function; injectivity is required only by the lemmas that say so.
- JSON decoding and its type assertions: values are represented as decoded, so the branches for malformed maps are not modelled, nor the loss of precision of large numbers that pass through a float.
- Integer widths: counts and ids are unbounded, except for the conversions to `uint32`, which are taken modulo 2^32 (Go leaves a conversion of an out-of-range float open).
- Floating-point rounding, NaN and infinities: thresholds, percentiles and sums are over the reals.
- Redis keys are pairs of a namespace and an id; that an id is part of a key pattern with wildcards and may match another sequencer's records is not modelled: one sequencer id per market is assumed.
- `VoteCollection` treats the processing of one submission as a step; two goroutines that process the same id at once are covered as two accepted deliveries, a crash between remembering and recording is not.
- The replacement of a batch size below one by 20, which happens before the split.
- Retries of a failed part, repeated triggering of one epoch's finalization and lost queue pushes: every batch of an epoch is handed to one worker once, and every worker finishes its Redis commands in order.
- `SubmissionWindows` has one opener goroutine, as the event loop does, and no `Shutdown` between a window's registration and the start of its timer, where the source would stop a timer that is not there yet.
- `AggregationWindows` identifies an epoch with its canonical string and a batch with its key; that a validator's second batch replaces its first under the same key is seen as an arrival only.
- `AggregationWindows` and the other step systems are not classes: the steps of several goroutines interleave, which methods of one object do not show.
- MerkleRoot.CalculateMerkleRoot: requires a CID for every project id, where the source would stop with an index error.
- EpochVotes.Validators.LoadBatch: the same, for the arrays of a fetched batch.
- VoteAggregator.BuildConsensusResult: the aggregate signature is left out. `aggregateSignatures` takes the first 64 hex digits of the group's signatures and panics when they have fewer than 32 bytes together (pkgs/consensus/signature_aggregator.go:138), so this result, that of `VoteAggregator.CheckConsensus` and the `Counted(Some(..))` outcome of `VoteAggregator.VoteAggregator.AddVote` are the source's only from 32 bytes on.
- BLS fields, timestamps of batches, and the other fields that are only copied.
- `onConsensus`, proposer election and what follows an aggregation; that a result is announced again with every further vote.
- `validatorContributions` and the received-batch counters of the consensus package.
- `Emitter`: starting, stopping and draining, subscriber selection, handler timeouts and the order in which blocked senders get space.
- TimeSeries.TimeSeries.constructor: durations are not negative. A series with a resolution below a second can be made but not used: the source divides by zero on its first rounding.
- `Aggregate`, `Rate` and the series manager of the time series.
- Histogram.Histogram.constructor: sorts a copy of the bounds, where the source sorts the caller's slice in place.
- Counters, gauges, rates and summaries, publishers and writers: easy members.
- `GetStatus`, `GetStats` and other reads.
