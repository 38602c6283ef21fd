# A verified model of spanner-etcd

spanner-etcd serves the etcd v3 API from a Cloud Spanner table. Every write appends a row to `kv`,
stamped with its commit timestamp as revision; a read takes the newest row of a key at or below a
revision; compaction deletes superseded rows behind a horizon kept in `kv_rev`; watchers are fed by
a poll loop, a replay of old rows and a change-stream reader.

The project models that behaviour in Dafny and proves what holds of it over every input, every
interleaving and every run. Where the code does not meet what its comments or documentation promise,
the code is modelled as it is, the exact condition under which the promise does hold is proved in both
directions, and a concrete case shows it failing.

## How it is organised

| file | what it holds |
|---|---|
| `Bytes.dfy` | byte strings, their order, prefixes, and the SQL `LIKE` matcher |
| `Rows.dfy` | rows, tables, "newest row of a key under a cap", the map a table shows |
| `Log.dfy` | which rows each request appends, the database invariant, commits |
| `RowChain.dfy` | what the per-key chain of rows promises; compare-and-swap; PrevKv |
| `Compares.dfy` | what the compares of a Txn mean, by the writes they guard |
| `Refinement.dfy` | the row log refines a plain map; transactions in any order |
| `Histories.dfy` | concrete databases, written by real requests, for the failing cases |
| `Compaction.dfy` | writers, replicas and compactors as a step machine, safety over whole runs |
| `Reads.dfy` | Get, List, Count and After as several round trips; list-then-watch |
| `Store.dfy` | the store object: writes, transactions with retries, compaction loops |
| `Watch.dfy`, `Replay.dfy` | the poll cursor, the paginated replay, the handover between them |
| `Subscribers.dfy` | fan-out to subscribers and the teardown protocol |
| `Delivery.dfy` | what a client knows after applying the events that reach it |
| `Ranges.dfy` | `[key, end)` translated into a prefix scan |
| `TxnPaths.dfy`, `ServerKV.dfy` | the server's handlers and its two ways to run a Txn |
| `Leases.dfy`, `ChangeStream.dfy`, `Migrate.dfy` | lease expiry, partition cursors, the migrator |

The database is a value `Db(table, history, kvRev)`: `table` is what Spanner holds, `history` is every
row ever written (specification only; no operation reads it), `kvRev` is the row of `kv_rev`. `Inv(db)`
says that the history is a chain in which each row refers to the live row just before it, and that
any row missing from the table is superseded and at or below the horizon. `Grows(a, b)` says that b is
a later state of the same database. Reads that take several round trips get one state per round trip.
Methods of the store call `Environment()` wherever other replicas may act; callers know only that the
invariant holds afterwards and that the database grew.

## Main results

* **Refinement.** After any run of writes and compaction steps on any number of replicas the table
  shows exactly the map that the committed requests, applied in commit order to an empty map, produce
  (`RunRefinesMap`). The Spanner transaction behind `AtomicTxn` may be aborted and retried any number
  of times; the outcome is that of one attempt on one state (`Store.AtomicTxn`).
* **Row chain.** Over every history a revision is superseded by at most one row, creations and
  tombstones of a key alternate, `create_revision` opens the current life of the key, and a
  compare-and-swap revision can be consumed once (`RowChain`).
* **Compaction.** Over every run the horizon is the maximum of the seed and all recorded targets,
  everything removed lies at or below it, and no read of the present changes. What a whole compaction,
  or one cut off after any number of batches, does to a read of the past is characterised exactly.
* **Compares.** The guarded transactions of clients are the store's own conditional writes: put if
  absent, put or delete if unchanged (`GuardedTxnIsCas`).
* **Snapshots.** A read at revision 0 answers as of the revision it returns although it takes several
  round trips, and a read at any other revision that is not refused answers with the state as of that
  revision (`TimeTravelGet`, `TimeTravelList`). A list followed by the events after its revision
  rebuilds the current map.
* **Watch.** Exact conditions, on the database alone, under which a poll, a replay and the handover
  between them lose nothing. What reaches a subscriber comes in order, and a client that applies it
  knows its prefix as one that applied every event (`ReceivedInOrder`, `ClientCatchesUp`).
* **Txn paths.** On an undisturbed store the atomic and the step-by-step path give the same responses
  exactly when no operation reads a key changed earlier in the branch; the final maps always agree up
  to the revisions the request itself created.
* **Deletes among writers.** A range delete, a lease expiry: whatever else is written meanwhile, a key
  they went over that still shows was written after they began.

## What does not hold

Each of these has its exact condition, and a lemma with a concrete case; for the lease timer and the
closing sentinel the statement named covers every case at once.

* `pkg/store/store.go:1076-1090` asks for a newer row with no upper bound, so a read above the
  compaction target loses its row when the key was written again later (`HistoricalReadSurvivesIff`,
  `HistoricalReadLost`); with the newer row bounded by the target too, none would
  (`BoundedCompactionKeepsReads`). The scan has no order, so a compaction cut off after any number of
  batches of 1000 can answer such a read with an older row (`CutShowsIff`, `EveryCutKeepsReadIff`,
  `HalfCompactionShowsOlderRow`).
* `pkg/store/watch.go:301-319` moves the cursor to the current revision although the page holds at
  most 500 rows. The comment at `pkg/store/watch.go:23-25` promises that no events are dropped; more than
  500 rows between two polls lose some for good (`PollLosesNothingIff`, `SteppedOverIsLost`,
  `PollLosesEvent`).
* `pkg/store/watch.go:181-200` continues a replay after the last revision delivered, so a commit that
  straddles the end of a page loses rows; so does a compaction between the check and the query of a page
  (`ReplayCompleteIff`, `ReplayLosesEvent`, `CompactionOvertakesReplay`).
* A poll loop whose first cursor is read after a replay has ended leaves a gap (`HandoverExact`,
  `GapLosesEvent`).
* A range is scanned by a prefix computed from it, which covers the range only for the ends named by
  `Coverable` (`RangePrefixCoversIff`, `RangePrefixMisses`). Without the end filter of the Txn path the
  answer is right on every table only for the requests named by `ExactUnfiltered`, and the ordinary
  prefix query is not among them (`UnfilteredExactIff`, `BareDeleteExactIff`,
  `OrdinaryPrefixScanOverreaches`, `UnfilteredOvercounts`). That concerns bare Range and DeleteRange,
  and also CountOnly inside a Txn, which the comment at `pkg/server/kv.go:498` calls already correct.
* A watch on a range can miss keys of the range (`WatchPrefixCoversIff`, `WatchMissesRange`) and deliver
  keys outside it; the watch on an ordinary prefix always does the latter (`WatchOnlyRangeIff`,
  `OrdinaryPrefixWatchOverreaches`).
* The `LIKE` pattern is not escaped (`pkg/store/store.go:1139`): a prefix scan is exact exactly for
  prefixes without `%`, `_` and backslash (`PrefixScanExactIffWildcardFree`, `UnderscoreOvermatches`).
* An event from the change stream never carries PrevKv (`pkg/store/changestream.go:582` with
  `pkg/schema/schema.go:96`), which the comment at `pkg/server/watch.go:296-299` calls required
  (`StreamEventAgreesIff`, `StreamDropsPrevKv`).
* `Put` drops the verdict of its update (`pkg/server/kv.go:98`): it reports success although it wrote
  nothing exactly when the row it read is no longer the live one (`ServerKV.Put`, `PutLosesWrite`).
* The sequential path's duplicate test does not look at the empty key (`DuplicateTestMisses`,
  `EmptyKeySlipsThrough`).
* Once a lease timer has begun its attempts, a keepalive does not stop it: any attempt that meets no
  fault expires the lease (`LeaseManager.TimerFires`).
* The closing sentinel always finds room exactly with fewer than 100 concurrent dispatchers; from 100 on
  a full channel is reachable (`SentinelFitsIff`).
* `docs/architecture.md:134` says replicas resume from their cursors after a restart. Cursors are keyed
  by a replica id derived from a memory address (`pkg/store/watch.go:328`), so a new process finds none
  unless the address happens to repeat (`RestartSkipsNothingIff`, `RestartWithoutCursorsLoses`).

## Model

| member | source | states |
|---|---|---|
| Bytes.SuccessorIsImmediate | cmd/migrate/main.go:148 | a key lies after k exactly when it is at or after k followed by a zero byte |
| Bytes.PrefixConvex | pkg/server/kv.go:673-684 | whatever lies between two strings with a common prefix has it too |
| Bytes.PrefixRangeExact | pkg/server/kv.go:671-684 | `[p, PrefixEnd(p))` is exactly the set of strings with prefix p, including the carry over 0xff bytes |
| Bytes.WildcardFreeLike | pkg/store/store.go:1139 | for a prefix without special characters the LIKE pattern selects exactly the strings with the prefix |
| Bytes.PrefixScanExactIffWildcardFree | pkg/store/store.go:1139 | the unescaped pattern selects exactly the keys with the prefix, for every key, if and only if the prefix has no `%`, `_` or backslash |
| Bytes.UnderscoreOvermatches | pkg/store/store.go:1139 | there is a prefix scan that selects a key without the prefix |
| Rows.NewestIs | pkg/store/store.go:205-212 | the row the capped query returns is the unique newest row of the key under the cap |
| Rows.NewestFrame | pkg/store/store.go:205-212 | a read depends only on the rows of its key under its cap |
| Rows.CurrentRevision | pkg/store/store.go:163-184 | the largest revision in the table, 1 for an empty one |
| Rows.ViewAt | pkg/store/store.go:922-946 | the visible map holds a key exactly when its newest row is live, with that row's contents |
| Log.EffectIsBatch | pkg/store/store.go:343-530 | whatever a request appends commits at one timestamp, at most one row per key, each linked to the live row it follows |
| Log.CommitKeepsInv | pkg/store/store.go:343-530 | a commit at a fresh timestamp keeps the chain of every key and the right to have removed what is missing |
| Log.LatestKept | pkg/store/store.go:1072-1090 | reads of the present answer from the table as they would from the full history |
| Log.OldReadsFixed | pkg/store/store.go:188-235 | rows at or below a revision already reached never change |
| Log.CurrentRevisionIsGlobal | pkg/store/store.go:163-184 | the current revision is the newest revision ever committed: compaction cannot lower it |
| Log.CurrentRevisionGrows | pkg/store/store.go:163-184 | the current revision never goes down, and every new row lies above an earlier reading of it |
| RowChain.PrevRevisionNamedOnce | pkg/store/store.go:388-442 | a revision is the prev_revision of at most one row of its key |
| RowChain.TombstoneBetweenCreations | pkg/store/store.go:343-385 | between two creations of a key lies a tombstone |
| RowChain.CreationAfterTombstone | pkg/store/store.go:479-530 | between a tombstone and a later row that is not a creation lies a creation |
| RowChain.CreateRevisionOpensLife | pkg/store/store.go:685-747 | create_revision is the revision of an existing creation, and every row of the key from there up to the row is live and shares it |
| RowChain.VersionZeroIffAbsent | pkg/server/kv.go:657-669 | the version compared and reported is 0 exactly for an absent key, positive otherwise |
| RowChain.CasConsumedOnce | pkg/store/store.go:388-530 | after a commit over revision rev, no later update or conditional delete naming rev writes anything, in any later state |
| RowChain.EventIsState | pkg/server/watch.go:292-314 | an event is a delete exactly when its key shows nothing at its revision, otherwise a put with the value, lease, version and revisions the key shows |
| RowChain.PrevKvIsPredecessor | pkg/server/watch.go:292-314 | the PrevKv of an event is the true predecessor with its value and revisions, without version and lease, and is there exactly when the predecessor exists with a non-nil value |
| RowChain.StreamEventAgreesIff | pkg/store/changestream.go:558-584 | the stream delivers every row with a key as the log does but for PrevKv, which it never carries; so altogether exactly when there is no predecessor with a value |
| RowChain.StreamDropsPrevKv | pkg/store/changestream.go:558-584 | a key put twice: the log reports the previous value of the second row, the stream does not |
| Refinement.CommitLookup | pkg/store/store.go:922-946 | after a commit a written key shows its new row (nothing for a tombstone), every other key what it showed |
| Refinement.After | pkg/store/store.go:343-530 | the state after any request satisfies the invariant and is a later state of the database |
| Refinement.TxnRefines | pkg/store/store.go:645-752 | a transaction reading one table changes the visible map as its operations applied one after the other |
| Refinement.SingleRefines | pkg/store/store.go:343-530 | create, update, delete and lease delete change the visible map as the map operations of that name |
| Refinement.RowLogRefinesMap | pkg/store/store.go:343-803 | every request committed at a fresh timestamp is one step of the map-level store |
| Refinement.TxnOrderIrrelevant | pkg/store/store.go:662-673 | the operations of a branch with distinct mutated keys give the same map in any order |
| Compares.ModEqualsIsCas | pkg/server/kv.go:243-248 | MOD == rev holds exactly when an update, or a conditional delete, at rev would write |
| Compares.ZeroIsCreatable | pkg/server/kv.go:231-248 | VERSION, CREATE and MOD == 0 hold exactly when a create would write |
| Compares.GuardedTxnIsCas | pkg/server/kv.go:219-268 | a Txn that puts or deletes under such a compare writes exactly what create, update or conditional delete write |
| Compares.CreateEqualsNamesCreation | pkg/server/kv.go:237-242 | CREATE == n holds exactly when the history has a creation at n and no tombstone of the key after it |
| Compares.VersionEqualsSpan | pkg/server/kv.go:231-236 | VERSION == n holds exactly when CREATE and MOD lie n - 1 apart |
| Compares.RelationsAgree | pkg/server/kv.go:686-698 | on numbers: != is not ==, > and < hold exactly when == holds for some greater or smaller number |
| Compares.OtherRelations | pkg/server/kv.go:700-708 | values are compared for equality only; a compare on an unsupported target never holds |
| Compares.ComparesAfterPut | pkg/server/kv.go:249-254 | after a put VALUE == w holds exactly for the value put, nil and empty being one, and MOD == n exactly for its revision |
| Compares.ComparesAfterDelete | pkg/server/kv.go:231-254 | after a delete VALUE equals only the empty value and the numbers only 0 |
| Compaction.AdvanceIsMax | pkg/store/store.go:816-841 | recording a target raises the horizon to the larger of the two |
| Compaction.InvSurvivesRemoval | pkg/store/store.go:1041-1070 | deleting rows the history supersedes at or below the horizon keeps the invariant |
| Compaction.StepKeepsInv | pkg/store/store.go:814-1070 | every step of a writer or compactor keeps the system invariant |
| Compaction.RaiseReachesHorizon | pkg/store/store.go:843-869 | a compactor that reads the stored horizon again cleans up exactly as far as it reaches |
| Compaction.RunKeepsInv | pkg/store/store.go:814-1070 | so does every run, and later states grow from earlier ones |
| Compaction.HorizonOverRuns | pkg/store/store.go:814-1070 | over every run the horizon is the maximum of the seed and all recorded targets, never goes down, bounds everything removed, and the current revision never goes down |
| Compaction.CompactorStepKeepsPresent | pkg/store/store.go:1072-1076 | a step of a compactor changes neither the visible map nor the current revision |
| Compaction.PresentSurvivesRuns | pkg/store/store.go:1072-1076 | in every interleaving the newest row ever written for a key is in the table |
| Compaction.RunRefinesMap | pkg/store/store.go:343-1070 | the map shown after any run is the fold of its committed requests over the empty map |
| Compaction.FinishedCompactionRead | pkg/store/store.go:1076-1090 | what a finished compaction does to any capped read: the row stays unless it was eligible, and then nothing is left under the cap |
| Compaction.HistoricalReadSurvivesIff | pkg/store/store.go:1076-1090 | a read above the target survives a finished compaction exactly unless its row is live, at or below the target and superseded above the revision read |
| Compaction.HistoricalReadLost | pkg/store/store.go:1076-1090 | a run of two writes and one whole compaction after which a read above the horizon finds nothing, though the history has a live row for it |
| Compaction.BoundedCompactionKeepsReads | pkg/store/store.go:1076-1090 | with the newer row bounded by the target no read at or above the target would change, even half way through |
| Compaction.EligibleAfterRemoval | pkg/store/store.go:1076-1090 | removing some eligible rows leaves exactly the others eligible |
| Compaction.AfterBatchesIff | pkg/store/store.go:1041-1070 | n batches, each scan free in its choice, can remove any n thousand eligible rows, or all of them if there are no more, and nothing else |
| Compaction.CutShowsIff | pkg/store/store.go:1041-1090 | a compaction stopped after n batches can answer a read with another row exactly when the row seen is eligible, more rows are than n batches hold, and these have room for everything of the key down to that other, live row |
| Compaction.EveryCutKeepsReadIff | pkg/store/store.go:1041-1090 | whatever n batches the scans choose, a read stays as it was exactly unless its row is eligible and live, or an eligible tombstone over a row that can surface |
| Compaction.HalfCompactionShowsOlderRow | pkg/store/store.go:1041-1090 | a run of 1002 writes and one batch of a compaction after which a read above the horizon answers with an older row than the history holds |
| Reads.CappedReadIsSnapshot | pkg/store/store.go:188-235 | rows arriving after the current revision was read cannot enter the capped answer |
| Reads.TwoStepGetIsSnapshot | pkg/store/store.go:188-235 | a Get at revision 0 is never refused, returns the revision it read first, and answers as of it exactly when its row is not compacted away meanwhile or is a tombstone whose removal leaves no older live row uppermost |
| Reads.TimeTravelGet | pkg/store/store.go:188-235 | a Get at a revision above the horizon is not refused and answers with the state as of that revision, whatever was written since, exactly when its row is not compacted away or is a tombstone whose removal leaves no older live row uppermost |
| Reads.AcceptedIsAboveRemoved | pkg/store/store.go:195-200 | a read that is not refused asks for a revision above everything compaction had removed |
| Reads.ListMeansGet | pkg/store/store.go:238-291 | a selected key is listed exactly when Get finds it, with the same row |
| Reads.ListKeysDistinct | pkg/store/store.go:246-262 | the join yields at most one row per key |
| Reads.List | pkg/store/store.go:238-291 | refused exactly at or below a recorded horizon; otherwise the rows in ascending key order up to the limit, the least keys first |
| Reads.TwoStepListIsSnapshot | pkg/store/store.go:238-339 | a list at revision 0 with any limit is a page of exactly the live rows of the selected keys as of the returned revision, all of them without a limit, and Count reports their number |
| Reads.TimeTravelList | pkg/store/store.go:238-339 | List at a revision above the horizon, with none of its rows removed, is a page of any limit of exactly the rows shown as of that revision, and Count is their number |
| Reads.AfterQuery | pkg/store/store.go:533-590 | refused exactly below the horizon; otherwise the rows after the revision in revision order up to the limit |
| Reads.NothingMissed | pkg/store/store.go:533-590 | from the horizon on, the table still holds every row ever written |
| Reads.ReplayRebuilds | pkg/store/store.go:533-590 | replaying the events after r over the map as of r gives the current map for every matching key, in any order of rows of one commit |
| Reads.ListThenWatch | pkg/store/store.go:238-291 | over every run: events after a listed revision miss no row ever written, and replayed over the listed map give the current map, unless the horizon has passed the revision |
| StoreObject.EvaluateCompares | pkg/store/store.go:645-655 | the loop that stops at the first failure decides the conjunction of all compares |
| StoreObject.FindDuplicate | pkg/store/store.go:662-673 | found exactly when two mutations of the branch name the same key |
| StoreObject.ExecuteOps | pkg/store/store.go:675-752 | one result per operation, all read from the table before the transaction; the buffered rows; mutations exactly when a row was buffered |
| StoreObject.RunAttempt | pkg/store/store.go:637-773 | what one run of the callback leaves behind depends on the table it ran on and on nothing before |
| StoreObject.ScanCompactBatch | pkg/store/store.go:1076-1109 | some eligible rows, at most 1000, all of them if there are fewer |
| StoreObject.Store.Create | pkg/store/store.go:343-385 | fails exactly when the key is live and then changes nothing; otherwise the created row commits |
| StoreObject.Store.Update | pkg/store/store.go:388-442 | writes exactly when the live row has the given revision, returns the live row either way, otherwise reports the current revision |
| StoreObject.Store.Delete | pkg/store/store.go:479-530 | writes a tombstone exactly when the key is live and the revision is 0 or matches |
| StoreObject.Store.DeleteIfLease | pkg/store/store.go:445-476 | writes a tombstone exactly when the live row belongs to the lease |
| StoreObject.Store.AtomicTxn | pkg/store/store.go:617-803 | whatever aborts and retries happened, the outcome is that of one attempt on one state: verdict, results, rows and revision; errors exactly for unsupported compares and duplicate mutations, and then nothing changes |
| StoreObject.AttemptCommits | pkg/store/store.go:775-803 | committing an attempt is the transaction of the specification; without mutations the revision is that of the snapshot |
| StoreObject.Store.RecordHorizon | pkg/store/store.go:816-841 | kv_rev becomes the larger of stored value and target, nothing else changes |
| StoreObject.Store.CompactBatch | pkg/store/store.go:1044-1064 | deleting a scanned batch keeps the invariant whatever happened since the scan; alone it removes exactly one batch |
| StoreObject.Store.CompactRows | pkg/store/store.go:1041-1070 | alone, a run not cut off removes exactly the rows eligible at its start and finishes given enough calls; contended, it keeps the invariant |
| StoreObject.ProgressStep | pkg/store/store.go:1041-1070 | batches add up: what is gone was eligible, what was eligible is gone or still eligible, and a short batch was the last |
| StoreObject.ProgressDone | pkg/store/store.go:1041-1070 | with nothing eligible left the run removed exactly the rows eligible at its start |
| StoreObject.ScannedStaySuperseded | pkg/store/store.go:1041-1064 | rows a scan returned are still superseded and below the horizon at any later delete |
| StoreObject.Store.Compact | pkg/store/store.go:814-869 | the target is recorded, the clean-up goes to the larger of target and stored horizon and removes only rows eligible there, all of them if it is not cut off |
| StoreObject.Store.AutoTarget | pkg/store/store.go:974-992 | none exactly for a store whose current revision is at most the age limit plus one, otherwise the larger of age limit and horizon |
| StoreObject.Store.AutoCompactTick | pkg/store/store.go:965-1037 | a tick moves the horizon at least to that target whatever other replicas do between its round trips; alone exactly to it, and removes only rows eligible under it, all of them with calls enough; without a target it changes nothing |
| StoreObject.TickKeepsYoung | pkg/store/store.go:974-992 | a tick alone keeps every row younger than the age limit and above the old horizon, and leaves a store no older than the limit as it is |
| StoreObject.TickRefusesNoYoung | pkg/store/store.go:974-992 | a read of a revision younger than the limit that was accepted before a tick is accepted after it |
| StoreObject.TickKeepsReads | pkg/store/store.go:974-992 | and answers with the same row when that row is as young and above the old horizon |
| StoreObject.TickRemovesOld | pkg/store/store.go:965-1037 | with calls enough no superseded row as old as the limit or older is left |
| Watch.RunGivesTimeline | pkg/store/watch.go:272-319 | every run of writers and compactors is a timeline as the poll loop meets it |
| Watch.QueryIsComplete | pkg/store/store.go:533-590 | nothing after a revision the horizon has not passed is missing from the query |
| Watch.DoPoll | pkg/store/watch.go:301-319 | one pass: dispatches the page and moves the cursor to the current revision, also when refused; stays put on other errors |
| Watch.PollLoop | pkg/store/watch.go:272-298 | the loop is a sequence of such passes; a stale hint does nothing |
| Watch.StaleHintDoesNothing | pkg/store/watch.go:284-298 | a hint at or below the cursor does nothing, any other pass that does not fail sets the cursor to the current revision |
| Watch.PollCursorInvariant | pkg/store/watch.go:272-319 | while no pass is lossy, every row ever committed between the first and the current cursor value was dispatched |
| Watch.CursorGrows | pkg/store/watch.go:272-319 | the cursor never goes back |
| Watch.SteppedOverIsLost | pkg/store/watch.go:301-319 | a row the cursor stepped over is in no later page; the page was full and the row no older than its last, or the row was gone |
| Watch.PollLosesNothingIff | pkg/store/watch.go:301-319 | with commits between its round trips, a poll dispatches every row its cursor moves over exactly unless it is refused, compaction took one of them, or they are more than 500; with the horizon not past the cursor, exactly up to 500 |
| Watch.PollLosesEvent | pkg/store/watch.go:301-319 | a key written 501 times between two polls, and a row the cursor moves over without dispatching it |
| Replay.ReplayPages | pkg/store/watch.go:157-201 | no replay from revision 0; refused at or below the horizon; otherwise pages in sequence, complete exactly with a short page |
| Replay.PagesInOrder | pkg/store/watch.go:181-200 | later pages hold strictly newer rows, even while rows are being appended |
| Replay.ReplayExact | pkg/store/watch.go:181-200 | a finished replay has delivered a row exactly when it matches, was written after the start and by the last query, was not cut off from the rest of its commit by a page boundary, and was not compacted away before the query of the page it falls to |
| Replay.PageCutsIff | pkg/store/watch.go:181-200 | a page cuts a row off exactly when some commit has fewer than 500 waiting rows before it and more than 500 with it |
| Replay.ReplayCompleteIff | pkg/store/watch.go:181-200 | a finished replay delivered every matching row ever written from its start to its last query exactly when no commit straddled the end of a page and no compaction removed a row before the query of the page it falls to |
| Replay.NotOvertakenKeeps | pkg/store/watch.go:181-200 | with no horizon past the start of a page at its query, compaction removed no such row |
| Replay.ReplayLosesEvent | pkg/store/watch.go:181-200 | one transaction of 501 keys, a finished replay from the start, and a row it never delivered |
| Replay.CompactionOvertakesReplay | pkg/store/watch.go:181-200 | two versions of a key, a compaction between the check and the query of the only page, and the row it never delivered |
| Replay.ReplayTerminates | pkg/store/watch.go:181-200 | over an unchanging database n full pages use up n times 500 rows |
| Replay.HandoverExact | pkg/store/watch.go:117-201 | for a whole replay and a whole poll loop started at any time: a matching row the cursor has reached is delivered exactly when it was there at the last replay query or lies above the first cursor; always, if that cursor was read no later than that query |
| Replay.StartupGap | pkg/store/watch.go:272-273 | a row committed after the last replay query and no later than the first cursor value is delivered by neither, whatever else the loop does |
| Replay.GapLosesEvent | pkg/store/watch.go:272-273 | a replay and a poll loop that each lose nothing, and a row delivered by neither |
| Subscribers.MatchingExact | pkg/store/watch.go:240-246 | the batch for a subscriber holds exactly the events with its prefix |
| Subscribers.SelectMatching | pkg/store/watch.go:240-246 | the filter loop computes that batch |
| Subscribers.MatchingOverConcat | pkg/store/watch.go:240-246 | selecting keeps the order of the events and every copy of them |
| Delivery.FilterKeepsState | pkg/store/watch.go:240-246 | a client that applies only the events of its prefix knows every key of the prefix as one that applies them all |
| Subscribers.ChannelIsFifo | pkg/store/watch.go:247-262 | a dispatch adds its batch behind everything waiting; an open subscriber misses a batch exactly when it is cancelled for it |
| Delivery.ChannelHoldsStream | pkg/store/watch.go:229-266 | while there is room a channel holds the matching events of all pages dispatched, in order, each once |
| Delivery.ClientCatchesUp | pkg/store/watch.go:229-266 | a client that applies what its channel holds knows its prefix as of the last page |
| Subscribers.WithoutKeeps | pkg/store/watch.go:211-217 | removal drops one subscriber and keeps the others, without duplicates |
| Subscribers.WithoutClosesGap | pkg/store/watch.go:211-217 | the subscribers on both sides of the removed one stay in order |
| Subscribers.SubscribeThenRemove | pkg/store/watch.go:207-219 | subscribing and leaving again, whoever came in between, leaves the other subscribers in place and order |
| Subscribers.Watcher.Subscribe | pkg/store/watch.go:117-128 | a new subscriber, open with an empty channel, listed once behind all others |
| Subscribers.Watcher.RemoveSub | pkg/store/watch.go:207-219 | exactly that subscriber leaves and is cancelled |
| Subscribers.Watcher.DispatchEvents | pkg/store/watch.go:229-266 | each subscriber gets its matching events as one batch, nothing when closed or none match, and is cancelled exactly when its channel is full |
| Subscribers.ActKeepsInv | pkg/store/watch.go:131-155 | every step of dispatchers, replay, watch loop and teardown keeps the teardown invariant |
| Subscribers.ReceivedInOrder | pkg/store/watch.go:131-201 | in every interleaving until the drain, what the watch loop has received followed by what waits is all that was sent, in the order sent |
| Subscribers.TeardownSafe | pkg/store/watch.go:131-155 | in every interleaving: at most one late batch per dispatcher, at most one sentinel, one by the end with fewer than 100 dispatchers, and nothing received after it |
| Subscribers.DrainEnds | pkg/store/watch.go:140-146 | buffered and still expected batches only go down while draining, so the drain ends |
| Subscribers.SentinelFitsIff | pkg/store/watch.go:147-154 | after the drain the sentinel always finds room exactly when there are fewer than 100 dispatchers |
| Ranges.RangePrefixCoversIff | pkg/server/kv.go:671-684 | the computed prefix covers `[key, end)` exactly for the ends `Coverable` names, the prefix end among them |
| Ranges.RangePrefixMisses | pkg/server/kv.go:671-684 | a range end that is not coverable and a key of the range that the scan does not select |
| Ranges.WatchDelivers | pkg/server/watch.go:316-329 | the keys a watch delivers, byte by byte: all, those agreeing with the key but for its last byte, or with the whole key, a trailing percent sign left out |
| Ranges.WatchPrefixCoversIff | pkg/server/watch.go:316-329 | a watch delivers every key of its range exactly when the end lies within the range of its own prefix |
| Ranges.WatchMissesRange | pkg/server/watch.go:316-329 | there are ranges with keys the watch does not deliver |
| Ranges.WatchOnlyRangeIff | pkg/store/watch.go:240-246 | a watch delivers nothing outside its range exactly when its live prefix is the key itself and the end lies at or beyond the end of that prefix |
| Ranges.OrdinaryPrefixWatchOverreaches | pkg/server/watch.go:324-328 | the watch on a prefix whose last byte is below 0xff also delivers the range end, which lies outside |
| Ranges.UnescapedLikeCoversPrefix | pkg/store/store.go:1139 | without a backslash the pattern matches at least every string with the prefix |
| Ranges.ScanAndFilterExact | pkg/server/kv.go:496-509 | scan plus end filter select exactly the range |
| Ranges.ScanAndFilterExactIff | pkg/server/kv.go:496-509 | for prefixes without special characters, only for coverable ends |
| Ranges.FilterAfterLimit | pkg/server/kv.go:496-509 | filtering a limited page is the same as limiting the filtered list |
| Ranges.TxnRangeExact | pkg/server/kv.go:496-509 | a Txn range returns exactly the page of `[key, end)` with the same limit |
| Ranges.UnfilteredExactIff | pkg/server/kv.go:49-82 | without the filter contents and count are right on every table exactly for requests of everything from a key on, or of a prefix whose end carries into an earlier byte |
| Ranges.OrdinaryPrefixScanOverreaches | pkg/server/kv.go:671-684 | the query for a prefix whose last byte is below 0xff is never among them: it also reaches the range end |
| Ranges.UnfilteredOvercounts | pkg/server/kv.go:52-61 | there is a table and a request for which the count is too large |
| Ranges.FilterPage | pkg/server/kv.go:500-507 | the filter loop keeps exactly the keys before the end, in order |
| TxnPaths.RespondOnMap | pkg/server/kv.go:219-377 | a response depends only on the visible map |
| TxnPaths.ResponsesAgreeIff | pkg/server/kv.go:485-634 | step-by-step responses equal all-at-once responses exactly when no operation reads a key changed before it in the branch |
| TxnPaths.FinalMapsAgree | pkg/server/kv.go:485-634 | the final maps agree key by key up to the revisions of this request |
| TxnPaths.PathsAgree | pkg/server/kv.go:219-437 | both for real runs of the two paths on one database |
| ServerKV.GetNow | pkg/store/store.go:188-235 | a Get at revision 0 on one state returns the live row |
| ServerKV.Put | pkg/server/kv.go:86-113 | fails exactly when a store call does; otherwise reports success, and has written exactly when the key was absent at the create or the row its read found, over several round trips, was still live at the update |
| ServerKV.PutLosesWrite | pkg/server/kv.go:86-113 | states of a store on which a Put that meets no error writes nothing |
| ServerKV.DeleteListed | pkg/server/kv.go:149-163 | among any writers each delete removes what is live when it comes to it and the rows removed are reported in order; a failing delete is passed over or ends the loop |
| ServerKV.DeletedIsRewritten | pkg/server/kv.go:149-163 | among any writers, a listed key whose delete did not fail and that still shows, shows a row written after the loop began |
| ServerKV.QuietDelete | pkg/server/kv.go:149-163 | undisturbed and without failures the loop removes exactly the listed keys |
| ServerKV.QuietReports | pkg/server/kv.go:149-163 | and it reports them all, in order |
| ServerKV.FirstPastEnd | pkg/server/kv.go:579-584 | breaking at the first key past the end leaves exactly the filtered list |
| ServerKV.TxnDeleteRange | pkg/server/kv.go:566-594 | complete exactly without failing deletes; then any key of the scan before the end that still shows was written since; undisturbed it removes exactly those keys and reports them |
| ServerKV.TxnDeleteIsRange | pkg/server/kv.go:566-594 | for a coverable end those are exactly the keys of `[key, end)`, and the count is theirs |
| ServerKV.BareDeleteRange | pkg/server/kv.go:138-171 | without failures any key of the scan that still shows was written since; undisturbed it removes every live key the scan selects, also beyond the end |
| ServerKV.BareDeleteExactIff | pkg/server/kv.go:138-171 | undisturbed it removes exactly `[key, end)` from every map under the very condition for a bare Range |
| ServerKV.EvaluateCompare | pkg/server/kv.go:441-481 | each compare is decided by the state its own read met; the first that fails or is unsupported gives the verdict |
| ServerKV.QuietVerdict | pkg/server/kv.go:441-481 | with one state for all compares: rejected exactly when an unsupported target stands behind compares that hold, otherwise the conjunction |
| ServerKV.FindDuplicateKey | pkg/server/kv.go:387-407 | finds exactly two mutations of one non-empty key |
| ServerKV.DuplicateTestMisses | pkg/server/kv.go:387-407 | a key is mutated twice exactly when the test finds one or the empty key is mutated twice |
| ServerKV.EmptyKeySlipsThrough | pkg/server/kv.go:387-407 | a branch that mutates the empty key twice and passes |
| ServerKV.RejectionsAgree | pkg/server/kv.go:219-407 | the atomic path rejects whatever the sequential one rejects; a difference comes from an empty key mutated twice or an unsupported target behind a failing compare |
| ServerKV.ExecuteOpsInOrder | pkg/server/kv.go:485-634 | a sequential run, each operation answered from the table it met |
| ServerKV.TxnNonAtomic | pkg/server/kv.go:385-437 | invalid exactly for duplicates or a reached unsupported target and then without effect; otherwise the sequential run of the branch |
| ServerKV.TxnAtomic | pkg/server/kv.go:219-377 | invalid exactly for duplicate keys or unsupported targets and then without effect; otherwise responses and effect of one transaction on one state |
| ServerKV.BuildResponses | pkg/server/kv.go:320-377 | the response loop gives each operation the response of its own result |
| Leases.AttachedIsScanned | pkg/store/lease.go:218-250 | the expiry scan finds every key attached to the lease |
| Leases.ScannedIff | pkg/store/lease.go:218-230 | for a real lease the scan finds exactly the keys of which some row carries the lease |
| Leases.DetachedStays | pkg/store/lease.go:252-275 | once a key shows nothing of the lease older than the scan, later states keep it so |
| Leases.ScannedIsEnough | pkg/store/lease.go:218-275 | detaching the scanned keys detaches every key |
| Leases.UntouchedIsTombstoned | pkg/store/lease.go:218-288 | a key attached at the scan that nobody rewrote ends with a tombstone |
| Leases.LeaseDelete | pkg/store/store.go:445-476 | afterwards the key is not attached; it writes exactly when it was, and only a tombstone over a row of the lease |
| Leases.LeaseManager.Grant | pkg/store/lease.go:58-88 | a new id, tracked in memory and in kv_lease with its expiry; on failure nothing changes |
| Leases.LeaseManager.Keepalive | pkg/store/lease.go:142-152 | moves the expiry of that lease only, 0 for an unknown one |
| Leases.LeaseManager.ExpireLeaseKeys | pkg/store/lease.go:218-288 | its own writes are tombstones over rows of the lease; it succeeds exactly when the scan, every delete of a scanned key and the last delete do; then nothing older than its start is attached and the kv_lease row is gone; otherwise the kv_lease row stays |
| Leases.LeaseManager.Revoke | pkg/store/lease.go:94-107 | the memory entry goes exactly when keys and kv_lease row are gone |
| Leases.LeaseManager.TimerFires | pkg/store/lease.go:155-212 | left alone when revoked, rescheduled exactly when kept alive beyond a second; after that a keepalive or a revocation between attempts changes nothing: an attempt without faults expires the lease with all its keys, and other leases are not touched |
| Leases.LeaseManager.LoadLeases | pkg/store/lease.go:320-352 | every decoded row is tracked, entries already there are kept, nothing else appears |
| ChangeStream.PartitionReader.StreamPartition | pkg/store/changestream.go:214-280 | dispatches exactly the records from the resume point on, stops at the end record or where the stream breaks; the resume point becomes the latest timestamp read, and every flush that works brings the cursor up to it, never past an undispatched record |
| ChangeStream.PartitionReader.ReadPartition | pkg/store/changestream.go:177-210 | over all retries nothing is forgotten; when it is done every record up to the end record was dispatched |
| ChangeStream.PartitionReader.FlushCursor | pkg/store/changestream.go:520-528 | the cursor is the resume point, or unchanged when the write fails |
| ChangeStream.RestartSkipsNothingIff | pkg/store/changestream.go:101-126 | over all partitions: a restart skips no undispatched record exactly when the first one of every partition without a cursor is at most a second old or not before the oldest cursor; a partition with a cursor never loses any |
| ChangeStream.RestartRepeatsIff | pkg/store/changestream.go:117-126 | and it repeats a record of a partition with a cursor exactly when the record does not lie before the cursor |
| ChangeStream.RestartWithoutCursorsLoses | pkg/store/changestream.go:101-126 | a restart that finds no cursors skips an undispatched record two seconds old |
| ChangeStream.Restart | pkg/store/changestream.go:95-126 | each partition resumes at its cursor, or at the one start time |
| ChangeStream.StartTime | pkg/store/changestream.go:101-106 | the oldest cursor or a second ago, whichever is earlier |
| ChangeStream.Worklist.TakePending | pkg/store/changestream.go:146-154 | a token already active is dropped, any other becomes active |
| ChangeStream.Worklist.ReachEnd | pkg/store/changestream.go:251-272 | only a partition of which all records are dispatched starts to send its children |
| ChangeStream.Worklist.SendChild | pkg/store/changestream.go:258-267 | children are queued in order, only into free room |
| ChangeStream.Worklist.Finish | pkg/store/changestream.go:157-166 | a partition leaves the active set only after all its children are queued |
| ChangeStream.Worklist.Follow | pkg/store/changestream.go:157-280 | the goroutine of one partition among all others: when it is done, its own reader dispatched every record, every child is known to the worklist, the cursor is flushed unless that fails, and the partition is finished |
| ChangeStream.DrainedMeansAllRead | pkg/store/changestream.go:117-168 | when the worklist is empty every descendant of an initial partition has had all its records dispatched by its reader, through the end record |
| Migrate.NextPageBegins | cmd/migrate/main.go:147-148 | the last key followed by a zero byte is exactly where the next page begins |
| Migrate.CopiedAt | cmd/migrate/main.go:124-133 | after the puts every pair that did not fail is in the destination |
| Migrate.CopiedElsewhere | cmd/migrate/main.go:124-133 | keys not put keep what they had |
| Migrate.CopyAll | cmd/migrate/main.go:95-149 | for every page size the loop ends and puts the pairs exactly once in key order, all of them unless a page could not be read; the counts add up |
| Migrate.Verify | cmd/migrate/main.go:171-223 | succeeds exactly when every source pair is readable in the destination with its value, and counts those that cannot be read and those with another value |
| Migrate.Run | cmd/migrate/main.go:67-168 | a copy that could read its source completes exactly when every put succeeded and, if verifying, every key could be read back; other keys are untouched; a dry run changes nothing; the number of failed puts is reported |

## Left out

- The Spanner client, SQL text, DDL and indexes: a query is modelled as the set of rows it selects.
- Protobuf, JSON and timestamp decoding of change records, records that fail to decode, and the records of rows compaction deletes.
- gRPC plumbing of the Watch server, contexts, metrics, flags, TLS, Helm; the auth, cluster and maintenance services.
- Wall-clock timers, tickers, backoff and the change-stream health flag: they appear as arbitrary choices of when something happens.
- int64 overflow of revisions: revisions are unbounded integers.
- `_` in a LIKE pattern matches one byte here; in Spanner it matches one character.
- Puts with IgnoreValue or IgnoreLease: a Get and a compare-and-swap that are modelled one by one, but not this combination of them.
- KeysOnly ranges: the same rows without their values.
- The seven-day retention of the change stream.
- kv_lease rows removed or kept alive by another replica.
- The order in which poll loop and change stream deliver the same event, and duplicates between them.
- StoreObject.Store.CommitTimestamp: picks one fresh timestamp; callers know only that it is fresh.
- StoreObject.Store.Environment: has an empty body; callers know only its contract, which every interleaving of steps satisfies.
- Ranges.UnfilteredExactIff: for scan prefixes without LIKE special characters; with a `_` in the prefix a scan can be exact for other ends too.
- ServerKV.BareDeleteExactIff: for scan prefixes without LIKE special characters, as above.
- ServerKV.Put: a call that reports an error although it committed is not modelled.
- ServerKV.BareDeleteRange: the list it starts from is read in one state; Reads.TwoStepListIsSnapshot says when several round trips give the same.
- ServerKV.TxnDeleteRange: its list is read in one state, as above.
- ServerKV.TxnNonAtomic: with nobody else writing; under concurrency the source does not promise atomicity. Its compares and its range deletes are modelled among other writers.
- ServerKV.ExecuteOpsInOrder: single-key operations only; ranges are covered by Ranges and the range deletes.
- Replay.HandoverExact: for a replay and a poll loop that lose nothing by themselves; when they do is stated separately.
- Migrate.CopyAll: the source does not change while it is copied.
- Migrate.Run: printing a sample on a dry run is not modelled.
