# KubeDataGuard, verified

KubeDataGuard decides whether derived data (a search index, a cache, an analytics table) still agrees
with its source, and repairs it when it does not. This project models its decision logic in Dafny 4.11
and proves what its documentation promises about it. `dafny verify dfyconfig.toml` checks everything.

| files | what they model |
|---|---|
| `Paging`, `KeysetScan`, `TargetSearch`, `QueryCheck` | the page loop behind the resumable source scan and the target scan, its checkpoints, and the verdict of a query check, against tables that change between page queries |
| `Schedule`, `RepairPolicy`, `Reconciler`, `Outcomes`, `OperatorRuns` | the operator's reconcile loop as a class, what one reconcile comes to, and whole runs of it against an environment that publishes reports, ends and deletes Jobs, lets time pass, and edits resources |
| `Indexer`, `CdcFrontier` | the consumer that builds the index, with crashes, redelivery and injected skips, and the verdict over outbox, Kafka and target offsets |
| `Orders`, `Checksum` | the row comparison, and the prefix-bucket checksum that narrows it |
| `LocalProof`, `Freshness`, `Handoff` | compare, repair, verify; freshness with whole-second stamps; what a checker hands to a repair |
| `Names`, `FanOut`, `Watermark` | generated names, the fan-out of resource changes, watermarks by text comparison |
| `Common`, `Listing`, `Arithmetic`, `Ordering`, `Decimal`, `DriftReports` | shared datatypes, what it means for a list to hold one entry for each row that has one, arithmetic, string order, decimal text, the status rule |

How things are modelled:

- A scan's `tables` lists the answers the database gives to its successive page queries; when they run
  out, the connection has failed. Nothing relates one table to the next unless a lemma says so. The
  order of keys is a parameter that has to be a strict total order.
- An API call that can fail is a Boolean in `Faults`; an exception is a `None` or an `Err`; the
  environment's moves are the other constructors of `Event`.
- The reconciler keeps reports and Jobs by run id; `Names` and `Schedule` prove when the rendered names
  keep runs apart.
- Hash functions, `strings.ToLower`, clocks and the ISO text of a time are parameters; what is assumed
  of them is a `requires` of the lemma that needs it.

## What turned out not to hold

Each of these has an exact condition or a concrete counterexample among the lemmas below.

- A key that is the empty text is saved in a checkpoint but not resumed from. Repeated runs over a fixed
  table complete if and only if they do not stop at it (`KeysetScan.RepeatedRunsCompleteIff`), and a crash
  behind it has the row read twice (`KeysetScan.CrashLosesNothing`).
- A checkpoint outlives its finished scan, so the second of two checks with one checkpoint id is healthy
  if and only if the source is empty, or holds a single row with the empty key, which is not resumed
  from, and the check has room for it and finds it matched (`QueryCheck.SecondCheckIsHealthyIff`).
- A late firing can skip a slot even when it is less than an interval late: the requeue delay counts
  whole seconds (`Schedule.NextFiring` gives the exact condition, `Schedule.LateFiringCanSkipASlot` a case).
- A successful reconcile of a scheduled Invariant asks for no requeue if and only if a repair has ended
  without a report (`Reconciler.RequeueIsLostIff`, over whole runs `OperatorRuns.ScheduleGoesOn`); the
  next one then waits for some other event, such as the deletion of the Job when its TTL ends.
- A later check with the same finding leaves the old check's id in the status
  (`Reconciler.StatusNamesTheCheckIff`).
- A requeue delay beyond some 292 years overflows (`Schedule.RequeueFitsIff`).
- A bounded frontier proves consumption, not application: a skipped event can hide behind it
  (`CdcFrontier.BoundedMeansConsumed`, `CdcFrontier.BoundedCanHideASkip`).
- A run takes at least one message where there is one, whatever the limit: the limit is kept if and only
  if it is positive, or zero with nothing to take (`Indexer.LimitIsKeptIff`).
- The checksum does not cover currency (`Checksum.CurrencyIsInvisible`,
  `Checksum.HealthyChecksumCanHideAStaleRow`); drift in status shows, because the queries ask for paid
  orders, but as missing and not as stale (`Checksum.StatusDriftShows`). A document that is not paid, or
  is younger than the cutoff, is missing in the checksum report and at most stale in the existence check
  (`Checksum.FilteredComparison`). And sums can cancel: a shorter prefix length shows exactly what
  remains of them (`Checksum.BucketDiffersIff`, `Checksum.ShorterPrefixCanHideAMismatch`).
- A write less than a second before the update it misses can pass as fresh (`Freshness.EarlyWriteCanPass`).
- A repair converges only if source rows with one id agree (`LocalProof.RepairConvergesIff`), and
  repairs the aggregate only if the index held no foreign documents (`LocalProof.AggregateAfterRepair`).
- Invariants whose names differ only in what a label does not allow, like `a.b` and `a-b`, share their
  generated names (`Names.MappedAlikeCollide`), and among names that are not shortened no others do
  (`Names.NamesCollideIff`).
- One Invariant whose `derivedViewRef` has the wrong type silences the fan-out of its whole namespace
  (`FanOut.InjectedSecretIsWatched`).

## Model

| member | source | states |
|---|---|---|
| Paging.SelectIsSuffix | src/dataguard/db.py:455-471 | the rows above a key of a sorted table are a suffix of it |
| Paging.PageFacts | src/dataguard/db.py:454-475 | a page is sorted, at most a page long, from the table, above the cursor, and leaves out a row above the cursor only if it is full and ends below that row |
| Paging.AdvanceInStep | src/dataguard/db.py:480-491 | a page keeps the emitted keys strictly increasing and above the start, moves the cursor up, and passes over no row |
| Paging.WalkInStep | src/dataguard/db.py:447-510 | over any sequence of tables: emitted keys strictly increasing (none twice), all above the resume key, nothing emitted is withdrawn, the cursor never goes back |
| Paging.WalkReadsRealRows | src/dataguard/db.py:447-510 | every emitted row was in the table at one of the page queries made |
| Paging.FullPages | src/dataguard/db.py:447-510 | over any sequence of tables every page read but the last is full, so pages and rows read determine each other up to one page |
| Paging.WalkMissesNothingThatStays | src/dataguard/db.py:447-510 | if the scan ends exhausted, every key above the start that was present at each of its page queries was emitted |
| Paging.WalkFixedTableUnlimited | src/dataguard/db.py:447-510 | over a fixed table an unlimited scan reads exactly the rows above its start and ends |
| Paging.WalkFixedTableLimited | src/dataguard/db.py:449-452 | over a fixed table a limited scan reads exactly the first rows its remaining pages can hold, and is exhausted exactly when it read fewer |
| Paging.QueriesNeeded | src/dataguard/db.py:447-510 | over a fixed table an unlimited loop fails if and only if the store stops answering before it has answered more page queries than the rows left fill pages |
| Paging.StoppedRunContinues | src/dataguard/db.py:447-510 | a run stopped by limit or crash followed by one from its last key reads what one run over the joined tables reads |
| Paging.ReadAndRest | src/dataguard/db.py:447-510 | over a fixed table, what a run read and what is left above its last key make up what was above its start |
| KeysetScan.ExecuteSourceQueryKeyset | src/dataguard/db.py:422-564 | the loop with its page callback: rows, evidence and final store are those of the specified scan, a scan that fails leaves the checkpoint of its last finished page, and over a fixed table the result is what was asked for, as `KeysetScan.ScanReadsAsAsked` says |
| KeysetScan.ScanOverMovingTable | src/dataguard/db.py:447-510 | the scan's guarantees over a moving table together: order, lower bound, real rows, and completeness when completed |
| KeysetScan.RunOverFixedTable | src/dataguard/db.py:440-526 | with n rows left, page size p and limit m: m <= 0 reads all; m > 0 reads min(n, m*p) and completes if and only if n < m*p |
| KeysetScan.ScanReadsAsAsked | src/dataguard/db.py:557-564 | in the caller's terms: the first rows behind the resume key, as many as the requested pages of the requested size, but of at most 5000 rows, hold; complete if and only if there was room left; and every figure of the evidence |
| KeysetScan.LastKeyIsNotEmpty | src/dataguard/db.py:440 | an unfinished run never ends at an empty key if there are none or pages hold at least two rows, so its last key is resumed from |
| KeysetScan.ResumedRunsAreOneScan | src/dataguard/checker.py:311-354 | any chain of limited and crashing runs over moving tables, each resuming from the saved key, reads what one scan over the same tables reads (no empty keys, or pages of two rows and more) |
| KeysetScan.FixedRunProgress | src/dataguard/db.py:440-526 | each unfinished run over a fixed table reads something, and what it read plus what is left is unchanged |
| KeysetScan.FixedRunLastKey | src/dataguard/db.py:440-510 | a run over a fixed table ends unfinished at an empty key if and only if it starts at no key, may read one row only, and the first row has the empty key |
| KeysetScan.RepeatedRunsCompleteIff | src/dataguard/checker.py:311-354 | repeated runs over a fixed table, each from the saved key, complete sooner or later if and only if that is not so |
| KeysetScan.ChainIsFullScan | src/dataguard/checker.py:311-354 | and then they concatenate to the full sorted scan |
| KeysetScan.CrashLosesNothing | src/dataguard/db.py:492-507 | after a crash behind any saved page, the saved pages' rows and those a resumed chain reads are everything above the start, once and in order; only a page of the one row with the empty key is read twice |
| KeysetScan.EmptyKeyStartsOver | src/dataguard/db.py:440 | in the excepted case every repetition reads the row with the empty key again, and nothing else |
| TargetSearch.PaginatedSearch | src/dataguard/search.py:339-380 | the `search_after` loop returns the documents of the specified walk with their key filled in from `_id`, or the error for a bad page size or a failed request; a result that does not change is returned in full if and only if the target answers more requests than it fills pages, of the requested size but of at most 5000 hits |
| TargetSearch.StableResultIsReadInFull | src/dataguard/search.py:339-370 | over a result that does not change the loop returns every hit in order |
| QueryCheck.CompareQueryResults | src/dataguard/invariants.py:278-369 | one missing entry for each row whose key no target row has, one stale entry for each row without a key or whose last target row differs, in the order of the rows |
| QueryCheck.MissingAre | src/dataguard/invariants.py:325-334 | the missing list: which rows, in which order, how many |
| QueryCheck.StaleAre | src/dataguard/invariants.py:305-346 | the stale list: which rows, in which order, how many, against which target row, and in which fields, in the order they are compared in |
| QueryCheck.ByKeyIsLastRow | src/dataguard/invariants.py:297-301 | the target dictionary holds, per key, the last target row with that key |
| QueryCheck.RowVerdict | src/dataguard/invariants.py:305-346 | a row goes unreported if and only if it has a key and the last target row of that key agrees on every compared field |
| QueryCheck.NoDriftMeansAllMatched | src/dataguard/invariants.py:305-346 | no drift is reported if and only if every source row is matched |
| QueryCheck.CheckQueryInvariant | src/dataguard/checker.py:288-405 | report, errors and the checkpoint left behind, on every path, including failures between scan and report |
| QueryCheck.HealthyIsSound | src/dataguard/checker.py:345-405 | even while both stores change: healthy means not resumed, scan finished, and for every key present in the source at each page query made, a row with it was read and, at one of the requests made, the target held an agreeing document with that key |
| QueryCheck.HealthyMeansFinishedAndMatched | src/dataguard/checker.py:377-379 | a healthy report comes from an unresumed, finished scan whose every row is matched |
| QueryCheck.VerdictOverStableStores | src/dataguard/checker.py:345-405 | over stable stores the report is Unknown if and only if the check resumed or its pages, of at most 5000 rows, had no room for more than the table; otherwise Healthy if and only if every source row is matched, and DriftDetected if not |
| QueryCheck.WhereTheCheckStarts | src/dataguard/checker.py:311-320 | behind the given key, or else the checkpoint's, an empty one of either not counting; an error if and only if the checkpoint is another query's |
| QueryCheck.ErrorsInOrder | src/dataguard/checker.py:311-380 | which error a check ends with |
| QueryCheck.CheckpointLeft | src/dataguard/checker.py:322-343 | a check leaves, under its id only, a checkpoint that tells its query, its last key and whether it finished, unless its scan failed before the first page |
| QueryCheck.OtherQueryIsRefused | src/dataguard/checker.py:311-318 | a check of another query with the same id then fails and changes nothing, unless it resets the checkpoint |
| QueryCheck.SecondCheckIsHealthyIff | src/dataguard/checker.py:311-405 | of two checks with one new checkpoint id over stable stores the second is healthy if and only if the source is empty, or holds one row, with the empty key, which there is room for and which is matched; Unknown, whatever the target holds, whenever the first ended at a key to resume from, and when that is |
| Watermark.IsoOrderIsTimeOrder | src/dataguard/db.py:624-627 | for UTC times of the years 1 to 9999, `isoformat` texts compare as their instants, fraction or not (beyond section 5.1 of RFC 3339) |
| Watermark.LatestIsMaximum | src/dataguard/db.py:594-598 | the watermark is a text that occurs and that no other text exceeds |
| Watermark.LatestIsChronologicalMaximum | src/dataguard/invariants.py:697-701 | the watermark by text maximum is the chronologically latest update |
| Schedule.RequeueWithinInterval | internal/controller/job_handoff.go:1244-1255 | the requeue delay is in (0, interval] and ends exactly at the next slot |
| Schedule.RunOfMoment | internal/controller/job_handoff.go:1229-1263 | a run is of the generation and, if there is a positive interval, of the slot of that many seconds in which the clock is |
| Schedule.RequeueFitsIff | internal/controller/job_handoff.go:1244-1249 | the 64-bit arithmetic yields that delay if and only if it fits a `time.Duration` |
| Schedule.NextFiring | internal/controller/job_handoff.go:1233-1263 | a late firing never lands in the slot that asked for it, and lands in exactly the next one if and only if delay and sub-second clock together stay below the interval |
| Schedule.LateFiringCanSkipASlot | internal/controller/job_handoff.go:1244-1249 | a firing late by less than an interval can still skip a slot |
| Schedule.SlotsInOrder | internal/controller/job_handoff.go:1244 | slots follow time |
| Schedule.TextInjective | internal/controller/job_handoff.go:1239-1251 | two run ids are equal only if generation, slot and scheduled-ness are equal |
| RepairPolicy.AutoRepairMode | internal/controller/job_handoff.go:356-396 | no mode while approval is required; otherwise that of the first action the operator may start; malformed fields are errors |
| RepairPolicy.EnvComesFromDecidingAction | internal/controller/job_handoff.go:398-451 | the settings come from the same action that fixed the mode |
| RepairPolicy.ModeOfKind | internal/controller/job_handoff.go:372-393 | the mode of each kind of action: that of its name, or direct-reindex for reindex-records with the annotation; no other kind can be started |
| RepairPolicy.SettingsOfAction | internal/controller/job_handoff.go:411-428 | which field of the action each variable carries, if it is filled |
| RepairPolicy.DirectReindexNeedsAnnotation | internal/controller/job_handoff.go:389-392 | direct reindexing needs the annotation and a reindex action |
| RepairPolicy.FindAutoRepairPolicy | internal/controller/job_handoff.go:321-349 | the loop finds the policy and the mode that `RepairPolicy.FirstGrantingPolicy` describes |
| RepairPolicy.FirstGrantingPolicy | internal/controller/job_handoff.go:321-349 | the first policy in the list that names the Invariant, needs no approval and has an action to start, with that action's mode and settings; an error if one before it has a field of the wrong type that has to be read |
| Reconciler.Operator.ReconcileRepairForDrift | internal/controller/job_handoff.go:240-319 | Job, status and return value on every path; unhandled exactly when no policy allows a repair, and then nothing has changed |
| Reconciler.Operator.ReconcileChecker | internal/controller/job_handoff.go:141-200 | the checker half of a reconcile on every path |
| Reconciler.Operator.Reconcile | internal/controller/job_handoff.go:80-201 | the whole reconcile refines one decision on the cluster it finds, whichever calls fail |
| Reconciler.DriftIsNeverShownHealthy | internal/controller/job_handoff.go:118-138 | a successful reconcile that sees drift and no repair report leaves DriftDetected, Repairing or RepairFailed |
| Reconciler.ReconcileIsIdempotent | internal/controller/job_handoff.go:80-201 | with clock and cluster frozen, one reconcile reaches a fixed point |
| Reconciler.SettledRunIsQuiet | internal/controller/job_handoff.go:832-862 | once a settled report is applied, later reconciles in the slot change nothing, whatever fails and whatever became of the Jobs, and, unless it is a check's report of drift, of the policies |
| Reconciler.RequeueIsLostIff | internal/controller/job_handoff.go:80-319 | a successful reconcile of a scheduled Invariant asks for no requeue if and only if a repair for the run's drift has ended without a report; otherwise it asks for the retry delay or the next slot |
| Reconciler.StatusNamesTheCheckIff | internal/controller/job_handoff.go:832-862 | after a successful reconcile that settles on a report, the status names the current check, and is the report, unless the same finding was shown for another check before |
| Outcomes.CheckIsUnderWay | internal/controller/job_handoff.go:141-200 | without a report for the run its checker Job is there afterwards, whatever the status shows; a shown verdict stays until the Job has ended, otherwise the status is given field by field for each state of the Job |
| Outcomes.RepairIsUnderWay | internal/controller/job_handoff.go:240-319 | reported drift that a policy grants a repair for: the repair Job is there afterwards, a new one with that policy's mode and settings, and the status is given field by field for each state of the Job |
| Outcomes.ReportIsShown | internal/controller/job_handoff.go:80-138 | a repair report, or a check's whose drift no policy answers, is shown with the schedule filled in, unless what is shown says the same in ten fields; no Job is touched; the next reconcile is at the end of the slot |
| Outcomes.BlockedChangesNothing | internal/controller/job_handoff.go:80-130 | a malformed interval, an unreadable report, or a malformed policy that has to be read: an error, and nothing changes |
| Outcomes.EveryCase | internal/controller/job_handoff.go:80-201 | there is no other case |
| Outcomes.FailuresAreClean | internal/controller/job_handoff.go:80-319 | which failing calls end a reconcile with an error and nothing changed; if only writing the status fails, the rest is done; otherwise it does what it does undisturbed |
| Outcomes.SuccessMeansProgress | internal/controller/job_handoff.go:80-319 | a reconcile that succeeds has brought the run forward: its check has a Job, or its granted repair has, or its report is shown |
| OperatorRuns.FoundIsReported | internal/controller/job_handoff.go:203-238 | a report that counts for a run is a payload published for that run, of the same generation and check, with the schedule added |
| OperatorRuns.WritesAreOwnOrFound | internal/controller/job_handoff.go:80-201 | every status written is one of the operator's own, none of them healthy, or a report found for this run |
| OperatorRuns.DecidedStatus | internal/controller/job_handoff.go:605-699 | every status a reconcile decides on carries the current generation and check id |
| OperatorRuns.ProvenanceKept | internal/controller/job_handoff.go:203-238 | every event keeps: a healthy status is a published payload of the same generation and check with the schedule added |
| OperatorRuns.WritesAreCurrent | internal/controller/job_handoff.go:605-699 | a reconcile writes only statuses of the current run |
| OperatorRuns.StatusNeverGoesBackInARun | internal/controller/job_handoff.go:226-236 | in no run does the status of a check give way to that of an earlier one |
| OperatorRuns.StatusNeverGoesBack | internal/controller/job_handoff.go:226-236 | the same for one event |
| OperatorRuns.StartIsJustified | internal/controller/job_handoff.go:240-396 | the full reason for a repair Job: published drift of the same generation and check, no repair report, no Job yet, and a policy that grants mode and settings |
| OperatorRuns.ConservationKept | internal/controller/job_handoff.go:262-278 | repair Jobs created for a run equal those deleted plus the one present |
| OperatorRuns.EveryRunKeepsInv | internal/controller/job_handoff.go:80-319 | the invariants hold along every run |
| OperatorRuns.EveryRunIsSafe | internal/controller/job_handoff.go:80-451 | in every run from a new Invariant: healthy statuses are published reports, every repair Job was justified, and a run has at most one until a deletion |
| OperatorRuns.ScheduleGoesOn | internal/controller/job_handoff.go:80-319 | in every run a successful reconcile of a scheduled Invariant asks for a requeue, unless a repair ended silently, and then that repair Job was created, and justified, for this very run |
| Indexer.IndexerProcess.RunIndexer | src/dataguard/indexer.py:7-61 | processed = indexed + skipped = offsets committed, exactly as many messages as the limit allows and beyond it exactly when `Indexer.LimitIsKeptIff` says so, index and skip count as specified |
| Indexer.LimitIsKeptIff | src/dataguard/events.py:121-134 | a run takes what there is up to the limit, but never a limit below one; the limit is kept if and only if it is positive, or zero with nothing to take |
| Indexer.EveryNthPaidIsSkipped | src/dataguard/indexer.py:27-31 | of the paid events exactly every n-th is skipped, for negative n as for its absolute value, and none for n = 0 |
| Indexer.SkippedIff | src/dataguard/indexer.py:27-31 | an event is skipped if and only if it is paid and the number of paid events up to it is a multiple of the skip value |
| Indexer.WrittenIs | src/dataguard/indexer.py:38-47 | after a run each order's document is that of its last event that was not skipped, at that event's offset, or, without one, the document from before |
| Indexer.RunIsInterleaving | src/dataguard/indexer.py:19-51 | a process run that ends normally is one of the interleavings of the state machine, so it keeps the index the fold of the applied events, also when it starts over after a crash |
| Indexer.StepKeepsOffsets | src/dataguard/indexer.py:38-51 | the reached offset is the committed one or one more, at every step |
| Indexer.WriteKeepsFold | src/dataguard/indexer.py:38-51 | a write, also a redelivered one, keeps the index the fold of the applied events |
| Indexer.SkipKeepsFold | src/dataguard/indexer.py:29-36 | so does a skip |
| Indexer.EveryInterleavingConverges | src/dataguard/events.py:120-134 | for every interleaving of deliveries, writes, skips, commits and crashes on any number of partitions: the index is the fold of the unskipped events below the reached offsets, and committed <= reached <= committed + 1 |
| Indexer.NoSkipsNothingSkipped | src/dataguard/indexer.py:29-36 | without skip steps nothing counts as skipped |
| Indexer.RedeliveryChangesNoContent | src/dataguard/search.py:88-103 | writing an event again changes only its document's time stamp |
| CdcFrontier.CheckPartition | src/dataguard/checker.py:549-582 | the reasons for one published partition, none exactly when stream and target cover it |
| CdcFrontier.CheckStores | src/dataguard/checker.py:502-543 | the reasons before the partition loop, in order, and partial exactly when there is one |
| CdcFrontier.BuildCdcFrontier | src/dataguard/checker.py:492-585 | bounded, partial or unavailable, each exactly when its condition holds, told in the entries of the lists it gets; and all reasons in order |
| CdcFrontier.EndsAre | src/dataguard/checker.py:538-544 | an end is looked up in the last entry of its partition, the only one if partitions are distinct |
| CdcFrontier.AppliedAre | src/dataguard/checker.py:545-548 | so is an applied offset, by topic and partition |
| CdcFrontier.StoreReasonsAre | src/dataguard/checker.py:502-536 | each reason that concerns a store as a whole is given exactly when it applies, with the figures compared |
| CdcFrontier.PartitionReasonsAre | src/dataguard/checker.py:549-582 | each reason of the partition loop is given exactly for the published groups it applies to, with the offsets compared |
| CdcFrontier.NoReasonMeansCovered | src/dataguard/checker.py:549-582 | the partition loop finds nothing if and only if every partition is covered |
| CdcFrontier.BoundedCoversEveryEvent | src/dataguard/db.py:329-376 | bounded: every eligible event is published on the topic, some listed end of its partition lies beyond it, and some listed applied offset of the target is not behind it |
| CdcFrontier.TargetOffsetFrontier | src/dataguard/cache.py:79-113 | per topic and partition the number of its documents and the offset that one of them has and none exceeds; the count of documents with offsets |
| CdcFrontier.CountInIs | src/dataguard/cache.py:79-113 | that number is how many positions hold a document of the topic and partition |
| CdcFrontier.BoundedMeansConsumed | src/dataguard/checker.py:571-582 | with a target built by the consumer: every eligible event was consumed, and is in the target as of its order's last applied event if and only if it was not skipped |
| CdcFrontier.BoundedWithoutSkipsMeansCurrent | src/dataguard/checker.py:571-582 | with a consumer that never skips, whatever its deliveries, crashes and redeliveries: bounded means every eligible event is in the target as of its order's last applied event |
| CdcFrontier.BoundedCanHideASkip | src/dataguard/indexer.py:29-36 | a bounded verdict over a target that misses an order |
| Orders.CompareOrders | src/dataguard/invariants.py:215-238 | the loop reports exactly the missing orders and the stale ones with their differing fields |
| Orders.OrdersListed | src/dataguard/invariants.py:216-250 | one missing entry for each order without a document, one stale entry for each whose document differs in status, amount, currency or version, in the order of the source |
| Orders.FieldsListed | src/dataguard/invariants.py:260-275 | the differing fields by name, in that order |
| Orders.MissingMembers | src/dataguard/invariants.py:215-226 | missing are exactly the source orders without a document |
| Orders.StaleMembers | src/dataguard/invariants.py:228-238 | stale are exactly the source orders whose document differs in a compared field |
| Orders.NoDriftMeansSame | src/dataguard/invariants.py:215-238 | nothing is reported if and only if every order has a document with the same compared fields |
| Orders.AggregateMismatchesAre | src/dataguard/invariants.py:406-432 | which of the two aggregates mismatch |
| Checksum.SummarizeRowsByPrefix | src/dataguard/merkle.py:86-113 | the group-by: one bucket per prefix that occurs, in key order, with the group's sums and latest update |
| Checksum.GroupSums | src/dataguard/merkle.py:86-113 | the sums of a group are the number of its orders and the sums of their amounts and of their versions |
| Checksum.EncodingInjective | src/dataguard/merkle.py:26-32 | buckets with different sums have different texts to hash |
| Checksum.CompareBuckets | src/dataguard/merkle.py:35-57 | the mismatches, in key order, are exactly the buckets of either side whose fingerprints differ, an absent one counting as empty |
| Checksum.MismatchesAreDifferences | src/dataguard/merkle.py:35-57 | with an injective hash, mismatching are exactly the prefixes whose row sums differ |
| Checksum.DiffersIff | src/dataguard/merkle.py:26-32 | a bucket differs if and only if one of these three does |
| Checksum.CheckPaidOrdersChecksum | src/dataguard/checker.py:96-134 | error below length 1, length capped at 12, only paid orders within the cutoff of each query, all of these counted, mismatches exact, rows compared only in mismatching buckets, with separate states of the stores for the sums and the later row queries |
| Checksum.BucketsPartitionTheRows | src/dataguard/invariants.py:398-403 | counts and amounts summed over the buckets are those of the aggregate check |
| Checksum.TilesAddUp | src/dataguard/merkle.py:86-113 | the partition theorem: distinct fine groups that tile a coarse group have sums that add up to its sums |
| Checksum.BucketDiffersIff | src/dataguard/merkle.py:35-57 | across any two prefix lengths: a bucket differs at the shorter one if and only if the sums of the longer prefixes inside it add up differently |
| Checksum.DifferenceComesFromBelow | src/dataguard/merkle.py:86-113 | a coarse group differs only if a fine group inside it does |
| Checksum.MismatchShowsAtGreaterLengths | src/dataguard/merkle.py:86-113 | a mismatch at a prefix length leads to one at every greater length, inside the same bucket; so none at k + 1 means none at k |
| Checksum.NoMismatchMeansEqualAggregates | src/dataguard/invariants.py:406-432 | no mismatch at some length: the aggregate check finds nothing |
| Checksum.ShorterPrefixCanHideAMismatch | src/dataguard/merkle.py:26-32 | amounts exchanged between two buckets show at length 2 and not at length 1 |
| Checksum.NarrowedMissing | src/dataguard/invariants.py:477-498 | the missing rows of the narrowed comparison are the full comparison's, restricted to the fetched buckets |
| Checksum.NarrowedStale | src/dataguard/invariants.py:500-511 | so are the stale ones |
| Checksum.ReportRefinesFullComparison | src/dataguard/invariants.py:473-511 | the report lists exactly the drift that comparing all eligible rows would find, inside buckets whose sums differed, and all of it if and only if every drifted row's bucket differed |
| Checksum.HealthyMeansNoDifference | src/dataguard/invariants.py:513-538 | healthy if and only if no bucket differs |
| Checksum.LostRowsAreAllReported | src/dataguard/checker.py:118-134 | if the target is the source with rows removed, the report lists exactly the removed rows |
| Checksum.FilteredComparison | src/dataguard/checker.py:24-60 | against the existence check, which looks documents up unfiltered: missing is what is missing there or has an ineligible document, stale is what is stale there with an eligible one, and no stale entry differs in status |
| Checksum.ReportAgainstExistenceCheck | src/dataguard/checker.py:96-134 | the checksum report in terms of the existence check of the same rows, exactly |
| Checksum.StatusDriftShows | src/dataguard/search.py:228-229 | if the documents differ from the source in nothing but the status of some orders, the report lists exactly those, as missing, and is healthy if and only if there are none |
| Checksum.EligibleRows | src/dataguard/db.py:264-266 | the queries return exactly the paid orders before the cutoff, in their order |
| Checksum.OneDriftShowsIff | src/dataguard/merkle.py:26-57 | one document that differs shows if and only if its amount or version counts differently: then exactly its bucket mismatches and exactly its order is listed, as stale, in the fields in which it differs |
| Checksum.VersionDriftShows | src/dataguard/merkle.py:26-57 | so a document that differs in version alone is found and listed as stale in "version" |
| Checksum.CurrencyIsInvisible | src/dataguard/merkle.py:26-32 | whatever the cutoff, documents that differ from the orders in currency alone make no bucket differ |
| Checksum.HealthyChecksumCanHideAStaleRow | src/dataguard/merkle.py:26-32 | every eligible order whose document has another currency is stale in the full comparison while the checksum check is healthy |
| LocalProof.MakeSourceOrders | src/dataguard/local_demo.py:153-170 | the orders of positions 1 to count, none below 1 |
| LocalProof.SourceIdsAreDistinct | src/dataguard/local_demo.py:160 | their ids are distinct, also beyond four digits |
| LocalProof.MakeDriftedIndex | src/dataguard/local_demo.py:173-194 | every skip-th order left out, then the third (or last) one written stale |
| LocalProof.DriftedDocs | src/dataguard/local_demo.py:173-194 | the document of each order by position: none for those left out, 250 cents less and version 0 for the one made stale |
| LocalProof.DriftedIndexDrifts | src/dataguard/local_demo.py:186-192 | the drifted index always has a stale order and no foreign documents |
| LocalProof.FirstComparison | src/dataguard/local_demo.py:85-100 | the first comparison reports as missing exactly the positions that the skip value divides, apart from the one made stale, and that one as stale in amount and version |
| LocalProof.RepairIndexFromReport | src/dataguard/local_demo.py:197-236 | exactly the reported documents are rewritten, in sorted order; fails exactly when a reported order is unknown |
| LocalProof.CandidatesAreSourceOrders | src/dataguard/local_demo.py:202-208 | a comparison's candidates are all in the source, so the repair does not fail |
| LocalProof.RepairConvergesIff | src/dataguard/local_demo.py:197-236 | for every index: healthy after the repair if and only if source rows with one id agree |
| LocalProof.RepairConverges | src/dataguard/local_demo.py:197-236 | with distinct ids the check after the repair is healthy, for every index |
| LocalProof.RepairIsMinimal | src/dataguard/local_demo.py:209-221 | only reported documents change, and each of those was missing or differed |
| LocalProof.RepairTwice | src/dataguard/local_demo.py:197-236 | a second repair has no candidates and changes nothing |
| LocalProof.SummaryOfListing | src/dataguard/invariants.py:398-403 | documents with the source's ids and amounts have the source's summary in whatever order they are listed |
| LocalProof.AggregateAfterRepair | src/dataguard/local_demo.py:130-139 | after the repair the aggregate is healthy if and only if the index had no documents of other orders |
| LocalProof.OrderDoesNotMatter | src/dataguard/local_demo.py:104 | two listings of the same documents have the same summary |
| LocalProof.SummarizeIndex | src/dataguard/local_demo.py:104 | the summary of the documents in whatever order they are listed |
| LocalProof.RunLocalProof | src/dataguard/local_demo.py:77-150 | passes if and only if count >= 1, for every skip value |
| Freshness.CompareFreshness | src/dataguard/invariants.py:555-655 | violations and breaches of every row, in order, on each of the four branches |
| Freshness.JudgeIs | src/dataguard/invariants.py:574-635 | exactly when a row is not observed, without evidence, behind its update, over the bound or fresh, and the whole seconds reported |
| Freshness.FindingsAre | src/dataguard/invariants.py:574-635 | each list holds exactly the findings of its kind, one for each row that has one, in the order of the rows |
| Freshness.LatestNotObservedIff | src/dataguard/invariants.py:608-622 | reported as not observed if and only if the stamp is a second or more before the update; then the write really was earlier, and a write a second early is always reported |
| Freshness.EarlyWriteCanPass | src/dataguard/search.py:89 | a write before the update it misses that passes as fresh |
| Freshness.BreachIsRealLag | src/dataguard/invariants.py:624-635 | a breach means the true lag exceeds the bound; exact in terms of the stamp |
| Freshness.SearchIndex.DirectReindex | src/dataguard/repair.py:63-76 | every fetched order is written once, at its own time, and counted |
| Freshness.StampsAfterReindex | src/dataguard/repair.py:65-68 | a document's stamp afterwards is that of a write of its own, or the old one |
| Freshness.RowAfterReindex | src/dataguard/repair.py:63-89 | after reindexing all violations a row is in violation if and only if its write's stamp lies a second or more before its update |
| Freshness.ReindexLeavesNoViolations | src/dataguard/repair.py:63-89 | reindexing at times no earlier than any update leaves no violation, and a healthy report |
| Handoff.CandidateItems | src/dataguard/k8s_report.py:143-157 | keeps the dictionaries in their order, each cut down to order id, reason and mismatches |
| Handoff.RepairOrderIds | src/dataguard/repair.py:79-89 | the sorted set of ids of all three lists; an error exactly if an item has none or a null would be sorted among texts |
| Handoff.HandoffKeepsOrderIds | src/dataguard/k8s_report.py:129-140 | the cut-down report names the same orders as the full one |
| Names.DnsLabel | internal/controller/job_handoff.go:1321-1342 | the builder loop gives a valid label for every prefix and value |
| Names.LabelIsValid | internal/controller/job_handoff.go:1321-1342 | 1 to 63 characters of [a-z0-9-], no hyphen first or last (section 2.1 of RFC 1123, section 2.3.1 of RFC 1035) |
| Names.NothingLeft | internal/controller/job_handoff.go:1331-1335 | where no character of a name is left, it is "dataguard" |
| Names.ShortenedDiffer | internal/controller/job_handoff.go:1336-1341 | shortened names differ if their hashes do |
| Names.PrefixSurvives | internal/controller/job_handoff.go:1331-1341 | a label prefix survives cleaning and shortening |
| Names.JobsNeverCollide | internal/controller/job_handoff.go:1305-1315 | a checker Job and a repair Job never share a name |
| Names.ConfigMapsNeverCollide | internal/controller/job_handoff.go:1309-1319 | nor do a report and a repair report |
| Names.RunIdAtEnd | internal/controller/job_handoff.go:1305-1319 | invariant name and run id are read back from their joined text, hyphens in the name or not |
| Names.NamesDecode | internal/controller/job_handoff.go:1305-1342 | unshortened names of label-character invariants are equal if and only if invariant and run are |
| Names.NamesCollideIff | internal/controller/job_handoff.go:1305-1342 | for all names that are not shortened: equal if and only if the run is the same and the Invariants' names are alike after lower-casing and replacing |
| Names.MappedAlikeCollide | internal/controller/job_handoff.go:1321-1342 | names that are alike then share all generated names, shortened or not |
| Names.DotsCollide | internal/controller/job_handoff.go:1324-1330 | a name with a dot and one with a hyphen in its place, for one |
| FanOut.UpsertEnvVar | internal/controller/job_handoff.go:982-990 | replaces the first variable of the name in place, or appends |
| FanOut.UpsertSetsOne | internal/controller/job_handoff.go:982-990 | sets one variable, keeps the others, adds no name twice |
| FanOut.ApplyDerivedViewEnv | internal/controller/job_handoff.go:927-968 | the target's and pipeline's variables, in the order they are set |
| FanOut.ResolveCheckerEnv | internal/controller/job_handoff.go:876-915 | environment or error on every path |
| FanOut.ResolvedIs | internal/controller/job_handoff.go:876-968 | the environment variable by variable: which Secret and key, or which text, each name gets by target, pipeline and source type, and the base environment for all other names |
| FanOut.ResolveFailsIff | internal/controller/job_handoff.go:886-908 | which reference that leads nowhere, or has the wrong type, is the error |
| FanOut.InvariantRequests | internal/controller/invariant_controller.go:239-281 | exactly the Invariants of the views, strictly sorted; an error if any reference is malformed |
| FanOut.InvariantsForSecret | internal/controller/invariant_controller.go:187-237 | exactly the Invariants reachable from the Secret, strictly sorted; none at all if a reference in the namespace is malformed |
| FanOut.ReachedFromSecretIff | internal/controller/invariant_controller.go:187-237 | those are the Invariants whose DerivedView refers to the Secret itself or to a DataSource that does, and no others |
| FanOut.InvariantsForDataSource | internal/controller/invariant_controller.go:140-171 | the same from a DataSource |
| FanOut.ReachedFromDataSourceIff | internal/controller/invariant_controller.go:140-171 | those whose DerivedView refers to the DataSource, and no others |
| FanOut.InjectedSecretIsWatched | internal/controller/invariant_controller.go:187-237 | if a Job's environment refers to a Secret, the Secret's requests contain the Invariant if and only if no reference in the namespace is malformed |
| FanOut.CheckerJobSecretIsWatched | internal/controller/job_handoff.go:876-1025 | so it is for the environment the checker Job starts from, with whatever values |
| FanOut.ResolvedNamesAreUnique | internal/controller/job_handoff.go:876-915 | a resolved environment has no name twice |
| FanOut.DataSourceChangeIsNoticed | internal/controller/invariant_controller.go:140-171 | the requests for a DataSource that appears, changes or goes away contain every Invariant whose environment that alters, if and only if no reference in the namespace is malformed |
| FanOut.DerivedViewChangeIsNoticed | internal/controller/invariant_controller.go:173-185 | the same for a DerivedView |

## Left out

- Network and store clients: databases, Kafka, OpenSearch, Redis, ClickHouse, S3 and the Kubernetes API are tables, logs, maps and Boolean faults. Reads are of the current state; a stale informer cache is not modelled.
- Values of query rows are texts and compared as such, which is what the comparison does after `str`; SQL text, key quoting, `scan_query_hash`, collations and user-supplied OpenSearch sorts are not part of this model.
- Checkpoint ids are kept apart as given; two ids whose sanitised file names coincide share a checkpoint in the repository.
- The `loaded_checkpoint`, `check_id`, `key_field` and WAL position recorded in checkpoints and evidence: copied values.
- Hash functions: SHA-256 is a parameter, injective where stated; SHA-1 is a parameter of eight hexadecimal digits, so nothing is claimed about two shortened names.
- Statuses leave out `checkedRecords`, `observationWindow` and `topCounterexamples`, which no decision reads.
- The synthetic controller mode, RBAC objects, Job specs, annotation defaults, owner references and Job TTLs, beyond the failure and deletion they can cause.
- The operator's runs keep Jobs and reports by run id, as unshortened names of label-character invariants allow (`Names.NamesDecode`).
- One reconcile sees one clock value; the repository reads the clock more than once.
- Kafka: a commit records the position behind the delivered message, and a partition delivers in offset order; `topic_offset_range` is an input of the frontier check.
- The outbox aggregate query: the proofs use only that its counts count the eligible events and that no recorded offset exceeds its group's maximum; the other columns are evidence.
- A document without an amount counts as zero in every sum; `summarize_paid_orders` raises on one, which the orders of the local proof never are.
- ExecuteSourceQueryKeyset: the error for a page whose rows lack the key column; the page query orders by that column and fails first, which is a failed source here.
- PaginatedSearch: the error for a full page whose last hit has no sort values is a failed request here; both end the check with an error.
- The operator's requeue delays are exact; `Schedule.RequeueFitsIff` says up to which length the 64-bit ones are the same.
- CheckPaidOrdersChecksum: the reported `bucket` label of a row and the evidence's `prefix_length` use the requested length, not the capped one; the cap of 65536 target buckets is not modelled. A cutoff is given by the update times it lets through; the source takes it anew at each query. `Checksum.ReportAgainstExistenceCheck` compares with an existence check that sees the same source rows.
- `DriftReport.counterexamples`, `to_dict`, Markdown, Prometheus and trace output, report files and retention: rendering.
- MakeSourceOrders: without `customer_id` and `created_at`, which no comparison reads; the time text is a parameter.
- Floating point in `total_seconds()`: lags are exact integer microseconds.
- CompareFreshness: time parsing and the reason texts.
- InvariantsForSecret: failing list calls, which also yield no requests.
- The Redis and ClickHouse variants of the checks and the other repair modes, which reuse the same comparisons or only write a request file.
