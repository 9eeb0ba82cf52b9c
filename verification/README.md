# Datacake, modelled and proved

Datacake is a leaderless replicated document store. Every node keeps a last-write-wins set of
document ids with tombstones, orders writes by a hybrid logical clock, mirrors the set in storage,
sends writes to a chosen set of replicas, and repairs itself by polling the other nodes. This project
models those parts and proves what they are for.

To check the project, use `dafny verify dfyconfig.toml`. The modules build on one another:

| file | what it models |
|---|---|
| `Hlc.dfy`, `HlcCodec.dfy`, `HlcText.dfy` | the timestamp as a tuple, as the packed `u64`, and as text |
| `Clocks.dfy` | `send` and `recv`, the clock task, clusters of clocks with arbitrary wall clocks |
| `Records.dfy`, `Replica.dfy` | what a key holds, and the set as a value: the specification |
| `OrSwot.dfy` | the set's mutable tables, every operation proved to be the specified one |
| `Convergence.dfy`, `Merging.dfy`, `Purging.dfy`, `Mixing.dfy`, `Repairing.dfy` | the laws of the set over whole runs |
| `Witnesses.dfy` | reachable inputs at which laws that do not always hold fail |
| `Keyspace.dfy`, `KeyspaceActor.dfy`, `Restarts.dfy` | storage and memory side by side, message by message, with loading, crashes and restarts |
| `Polling.dfy`, `Rebooting.dfy` | the repair poller against a remote node, as a protocol over all interleavings, and restarts of the remote |
| `EndToEnd.dfy` | polling and repairing together, from the remote's records to the local set |
| `Selector.dfy`, `Cycling.dfy`, `Shortfall.dfy`, `Quorum.dfy` | choosing replicas, quorums, and what an acknowledged write means |

A stamp's time counts units of 4 ms, which is what the packed form stores. The number of sources and
the forgiveness period are parameters. Wall clock readings, the random choice of data centers, what
storage manages to do, and the order in which hash maps are listed are inputs, and the theorems hold
for all of them.

Several things the code or its comments suggest do not hold for all inputs. For each, the model keeps
the code's behaviour, the condition in the second column is proved to be exact, and a reachable input
shows the failure:

| what fails | exactly when | input |
|---|---|---|
| `merge` is the join of two sets | `Merging.MergeIsJoinIff` | `Witnesses.MergeDropsEntry`, `Witnesses.MergeSkipsDelete` |
| `diff` follows "the same logic as merge", as its comment says | `Merging.DiffAgreesWithMergeIff` | `Witnesses.DiffMissesOldInsert`, `Witnesses.DiffMissesTie`, `Witnesses.MergeSkipsReported`, `Witnesses.MergeTakesOlderDelete` |
| a call that returns false leaves the set unchanged, as the comment on `insert_with_source` says | `Replicas.FalseCallChangesNothingIff` | `Witnesses.FalseCallMovesStamp` |
| purging shows nowhere | `Purging.PurgeIsInvisibleIff` | `Witnesses.LateWriteShowsPurge`, `Witnesses.MergeBringsBackPurged` |
| a repair brings in all that `diff` reported | `Repairing.RepairCompleteIff`, `Repairing.BatchedRepairIff` | `Witnesses.NewerBatchFirstLoses` |
| two repairs make two replicas equal | `Repairing.TwoWayRepairIff` | `Witnesses.TieStaysApart` |
| after a repair the next `diff` is empty | `Repairing.RepairFixpointIff` | `Witnesses.EpochRecordReturns` |
| storage is never behind memory | `Restarts.NeverBehindIff` | `Witnesses.BatchPutsStorageBehind` |
| storage and memory hold the same | `Restarts.StorageAgreesIff` | `Keyspaces.LateDocumentSplitsState`, `Restarts.RestartSplitsState` |
| the clock loop never panics | `Clocks.PanicsIff`, `Clocks.AheadRegistrationPanicsIff` | `Clocks.OneRequestPanics` |
| a word survives unpacking and printing | `HlcCodec.PackUnpackIff`, `HlcText.RoundTripIff` | `HlcText.FractionOverflows` |
| no update is lost when the remote restarts | `Rebooting.RestartSurvivedIff` | `Polling.EarlierClockLoses` |
| enough replicas are found if there are enough nodes | `Shortfalls.EnoughNodesFoundIff`, `Selector.SingleCenterIff` | `Selector.EnoughNodesFallShort`, `Selector.TwoCentersFallShort` |

## Model

| member | source | states |
|---|---|---|
| `Hlc.ShiftMonotone` | datacake-crdt/src/orswot.rs:118-124 | taking the forgiveness period off two stamps keeps their order when the smaller is past the period |
| `Hlc.ShiftNotMonotone` | datacake-crdt/src/orswot.rs:118-124 | below the period it does not, because the counter is kept while the time saturates |
| `HlcCodec.Fields` | datacake-crdt/src/timestamp.rs:84-110 | every word is the sum of its four fields |
| `HlcCodec.UnpackPack` | datacake-crdt/src/timestamp.rs:277-295 | unpacking inverts packing, and packing makes well-formed words only |
| `HlcCodec.PackUnpackIff` | datacake-crdt/src/timestamp.rs:84-130 | packing inverts unpacking exactly on words with a fraction below 250 |
| `HlcCodec.PackKeepsOrder` | datacake-crdt/src/timestamp.rs:277-285 | comparing words is comparing (seconds, fraction, counter, node) lexicographically |
| `HlcCodec.Layout` | datacake-crdt/src/timestamp.rs:277-285 | the packed word in plain numbers, field by field |
| `HlcText.DigitsRead` | datacake-crdt/src/timestamp.rs:232-243 | reading back printed digits, decimal or hexadecimal, gives the number |
| `HlcText.DigitsAreCanonical` | datacake-crdt/src/timestamp.rs:232-243 | numbers print as plain upper-case digits without leading zeros |
| `HlcText.PadMeans` | datacake-crdt/src/timestamp.rs:232-243 | padding puts zeros before the digits, up to four characters |
| `HlcText.FieldsAreFourWide` | datacake-crdt/src/timestamp.rs:232-243 | the fraction, the counter in hexadecimal and the node print with exactly four characters each |
| `HlcText.OneSecond` | datacake-crdt/src/timestamp.rs:232-243 | one second prints as 1-0000-0000-0000 |
| `HlcText.ParseShow` | datacake-crdt/src/timestamp.rs:232-274 | what parsing a printed word gives, for every word |
| `HlcText.RoundTripIff` | datacake-crdt/src/timestamp.rs:232-274 | a word survives printing and parsing exactly when it is well formed |
| `HlcText.FractionOverflows` | datacake-crdt/src/timestamp.rs:144-147 | the word with a fraction of 250 comes back from printing and parsing as one second |
| `HlcText.ParsedIsWellFormed` | datacake-crdt/src/timestamp.rs:245-274 | whatever the text, a parsed stamp is well formed |
| `HlcText.ParseMeans` | datacake-crdt/src/timestamp.rs:245-274 | a text splits at its first three dashes; it is invalid exactly when a field is no number within its width, and panics exactly beyond 32-bit seconds |
| `HlcText.TooFewFields` | datacake-crdt/src/timestamp.rs:245-274 | a text with fewer than three dashes is invalid |
| `HlcText.SignIsAllowed` | datacake-crdt/src/timestamp.rs:245-274 | a plus sign may stand before a field, and an empty field is no number |
| `HlcText.EitherCase` | datacake-crdt/src/timestamp.rs:245-274 | hexadecimal is read in either case |
| `Clocks.TicksAreQuarters` | datacake-crdt/src/timestamp.rs:287-295 | seconds and fraction together count whole units of 4 ms |
| `Clocks.HlcClock.Send` | datacake-crdt/src/timestamp.rs:150-174 | the new clock and result, and that a failing send leaves the clock unchanged |
| `Clocks.HlcClock.Recv` | datacake-crdt/src/timestamp.rs:179-229 | the new clock, the result under the sender's id, and that a failing receive leaves the clock unchanged |
| `Clocks.SendIsLeast` | datacake-crdt/src/timestamp.rs:150-174 | send gives the least later stamp of its node not before the wall clock and at most 4100 s ahead of it, and exactly when it fails |
| `Clocks.RecvIsLeast` | datacake-crdt/src/timestamp.rs:179-229 | receive moves the clock to the least time and counter ahead of itself and the message and not before the wall clock, within the drift, and exactly when it fails |
| `Clocks.SendMeans` | datacake-crdt/src/timestamp.rs:150-174 | in milliseconds: which error send gives when, and the stamp otherwise, between the reading rounded down to 4 ms and 4100 s after it |
| `Clocks.RecvMeans` | datacake-crdt/src/timestamp.rs:179-229 | in milliseconds: which error receive gives when, and the clock otherwise |
| `Clocks.RunKeepsCausal` | datacake-crdt/src/timestamp.rs:150-229 | every reachable cluster state: clocks dominate all they know of, happens-before implies earlier |
| `Clocks.ClusterIsCausal` | datacake-crdt/src/timestamp.rs:150-229 | over every cluster run, with any wall clocks: stamps increase per node, are globally unique and respect happens-before |
| `Clocks.HeardBeforeSent` | datacake-crdt/src/timestamp.rs:179-229 | whatever a node sends after it has accepted a stamp is later than that stamp and has all that was before it in its past |
| `Clocks.RunClock` | datacake-node/src/clock.rs:54-75 | the event loop gives the replies of the specified run and panics exactly when that does |
| `Clocks.RepliesIncrease` | datacake-node/src/clock.rs:54-75 | one reply for every request for a stamp, each later than the one before |
| `Clocks.HandleStaysPaced` | datacake-node/src/clock.rs:54-75 | a request on a paced clock succeeds and leaves it paced: near the limit every count has cost a millisecond |
| `Clocks.BackpressureWorks` | datacake-node/src/clock.rs:54-75 | with a monotone wall clock, sleeps of a millisecond and registrations in the past, the counter stays at or below 65528 and the clock loop never panics |
| `Clocks.PanicsIff` | datacake-node/src/clock.rs:54-75 | the loop panics if and only if it comes to a request with the clock too far ahead of the wall clock, or not behind it with its counter used up |
| `Clocks.BurstPanicsIff` | datacake-node/src/clock.rs:54-75 | while the wall clock does not pass the clock, a burst makes the loop panic exactly when it is longer than the counter has room for |
| `Clocks.AheadRegistrationPanicsIff` | datacake-node/src/clock.rs:54-75 | a registered stamp ahead of the wall clock and not behind the clock makes the loop panic exactly when enough requests come before the wall clock has passed it |
| `Clocks.OneRequestPanics` | datacake-node/src/clock.rs:54-75 | one second ahead with counter 0xFFFE, then one request |
| `Replicas.MinSeen` | datacake-crdt/src/orswot.rs:107-117 | the minimum is below every source's stamp and is one of them, absent counting as zero |
| `Replicas.SafeBelowEverySource` | datacake-crdt/src/orswot.rs:107-126 | the safe stamp never exceeds any source's stamp |
| `Replicas.BeforeIff` | datacake-crdt/src/orswot.rs:107-134 | a stamp is behind exactly when every source has seen its node past it by the forgiveness period; with a source still within the period, exactly when it is at the epoch with a counter below the smallest stamp's |
| `Replicas.PurgedIff` | datacake-crdt/src/orswot.rs:372-383 | a purge drops exactly the tombstones that every source has passed and that are not put back |
| `Replicas.WillApplyIff` | datacake-crdt/src/orswot.rs:399-413 | `will_apply` refuses exactly what every source has passed and what is not newer than the record |
| `Replicas.MergedStamp` | datacake-crdt/src/orswot.rs:55-81 | for every source and node the merged stamp is one of the two observed and at or past each |
| `Replicas.UnseenSourceBlocks` | datacake-crdt/src/orswot.rs:107-134 | a node unseen on one source has nothing behind its safe stamp |
| `Replicas.AcceptanceOracle` | datacake-crdt/src/orswot.rs:399-526 | insert and delete return true exactly when `will_apply` holds and the source admits the stamp, an insert also at a tombstone's stamp; false leaves the records alone |
| `Replicas.FalseCallChangesNothingIff` | datacake-crdt/src/orswot.rs:430-469 | a call that returns false leaves the whole set unchanged exactly when its source refused the stamp or had already observed it |
| `Witnesses.FalseCallMovesStamp` | datacake-crdt/src/orswot.rs:430-469 | an insert that returns false and is recorded as seen |
| `OrSwot.RecomputedIsSafe` | datacake-crdt/src/orswot.rs:78-80 | recomputing the touched nodes keeps all cached safe stamps right |
| `OrSwot.NodeVersions.ComputeSafeLastStamp` | datacake-crdt/src/orswot.rs:107-126 | caches the shifted minimum over all sources |
| `OrSwot.NodeVersions.TryUpdateMaxStamp` | datacake-crdt/src/orswot.rs:84-104 | refuses exactly the stamps behind the source's, else observes; the safe stamps stay right |
| `OrSwot.NodeVersions.IsTsBeforeLastObservedEvent` | datacake-crdt/src/orswot.rs:129-134 | the cached test is the test on the observed stamps |
| `OrSwot.NodeVersions.Merge` | datacake-crdt/src/orswot.rs:55-81 | pointwise maximum for every source and node; the safe stamps stay right |
| `OrSwot.MinStamp` | datacake-crdt/src/orswot.rs:108-116 | the loop over the sources finds the minimum |
| `OrSwot.MergeSource` | datacake-crdt/src/orswot.rs:59-75 | the loop over one source's nodes takes the larger stamp of each |
| `OrSwot.BuildLog` | datacake-crdt/src/orswot.rs:283-290 | the log holds every record of the other set once, in time order |
| `OrSwot.PlaceEntry` | datacake-crdt/src/orswot.rs:325-333 | a newer tombstone keeps its key, an older one gives way to the entry |
| `OrSwot.MergedKey` | datacake-crdt/src/orswot.rs:282-359 | the log pass and the leftover pass together give the specified record at every key |
| `OrSwot.OrSWotSet.InsertWithSource` | datacake-crdt/src/orswot.rs:433-469 | the tables after an insert stand for the specified replica; the result is acceptance |
| `OrSwot.OrSWotSet.DeleteWithSource` | datacake-crdt/src/orswot.rs:489-526 | the tables after a delete stand for the specified replica; the result is acceptance |
| `OrSwot.OrSWotSet.WillApplyOp` | datacake-crdt/src/orswot.rs:399-413 | the query on the tables is the query on the replica |
| `OrSwot.OrSWotSet.PurgeOldDeletes` | datacake-crdt/src/orswot.rs:372-383 | drops and returns exactly the tombstones behind their node's safe stamp |
| `OrSwot.SplitMeans` | datacake-crdt/src/orswot.rs:372-383 | what is kept and what is returned: the tombstones not passed and those passed by every source, with their stamps |
| `OrSwot.OrSWotSet.AddRawTombstones` | datacake-crdt/src/orswot.rs:392-396 | puts tombstones back; the set stays valid if none is an entry |
| `OrSwot.OrSWotSet.MergeWith` | datacake-crdt/src/orswot.rs:282-359 | the sorted log and leftover loops compute the specified merge of records and stamps |
| `OrSwot.OrSWotSet.ComputeDiff` | datacake-crdt/src/orswot.rs:243-275 | changes and removals are exactly the records of the other set that are news here |
| `Convergence.RunHoldsGreatest` | datacake-crdt/src/orswot.rs:433-526 | over every run each key holds exactly the greatest admitted operation, insert above delete at one stamp |
| `Convergence.AdmittedIffInTurn` | datacake-crdt/src/orswot.rs:84-104 | an operation is admitted exactly when its source has delivered nothing newer of its node before |
| `Convergence.ObservedIsNewest` | datacake-crdt/src/orswot.rs:84-104 | after a run a source has observed of a node the newest stamp it delivered |
| `Convergence.RunMeans` | datacake-crdt/src/orswot.rs:433-526 | from the operations alone: a key holds the one delivered in turn that wins over all of them by stamp, an insert at one stamp, and nothing if there is none |
| `Convergence.ReturnedMeans` | datacake-crdt/src/orswot.rs:433-526 | a call returns true exactly when it is in turn and no earlier one in turn on its key wins over it |
| `Convergence.ReplicasConverge` | datacake-crdt/src/orswot.rs:433-526 | replicas that admitted the same operations, in any orders and on any sources, hold the same entries and tombstones |
| `Convergence.AllAdmittedIffInOrder` | datacake-crdt/src/orswot.rs:154-166 | every operation of a run is admitted exactly when each source delivers each node's operations in order |
| `Convergence.InOrderReplicasConverge` | datacake-crdt/src/orswot.rs:154-166 | replicas that were delivered the same operations with every source in order agree |
| `Merging.MergeIsJoinIff` | datacake-crdt/src/orswot.rs:282-359 | merge is the join at a key exactly when neither side's record there is lost to an observed stamp |
| `Merging.MergeOutcome` | datacake-crdt/src/orswot.rs:282-359 | what a merge leaves at every key, lost records included: the larger of what each side still brings |
| `Merging.FreshMergeIsJoin` | datacake-crdt/src/orswot.rs:282-359 | for mutually fresh sets it always is |
| `Merging.MergeCommutes` | datacake-crdt/src/orswot.rs:282-359 | merging mutually fresh sets gives the same set both ways |
| `Merging.MergeAssociates` | datacake-crdt/src/orswot.rs:282-359 | merging three sets does not depend on the grouping |
| `Merging.MergeIsIdempotent` | datacake-crdt/src/orswot.rs:282-359 | merging a set with itself changes nothing, fresh or not |
| `Merging.MergeHoldsGreatest` | datacake-crdt/src/orswot.rs:282-359 | exchanging states agrees with exchanging operations |
| `Merging.DiffAgreesWithMergeIff` | datacake-crdt/src/orswot.rs:235-275 | diff reports a record exactly when merge would take it, but for four named cases |
| `Merging.FreshDiffAgreesIff` | datacake-crdt/src/orswot.rs:235-275 | for mutually fresh sets only an insert at a tombstone's stamp is an exception |
| `Merging.DiffMeans` | datacake-crdt/src/orswot.rs:258-275 | diff reports exactly what this set knows older, or does not know and has not passed |
| `Witnesses.MergeDropsEntry` | datacake-crdt/src/orswot.rs:336-356 | a merge drops an entry the other set has seen past |
| `Witnesses.MergeSkipsDelete` | datacake-crdt/src/orswot.rs:294-298 | a merge skips a delete this set has seen past |
| `Witnesses.DiffMissesOldInsert` | datacake-crdt/src/orswot.rs:258-275 | merge takes an insert behind the safe stamp, diff does not report it |
| `Witnesses.DiffMissesTie` | datacake-crdt/src/orswot.rs:258-275 | merge takes an insert at a tombstone's stamp, diff does not report it |
| `Witnesses.MergeSkipsReported` | datacake-crdt/src/orswot.rs:294-298 | diff reports a delete behind the safe stamp, merge skips it |
| `Witnesses.MergeTakesOlderDelete` | datacake-crdt/src/orswot.rs:336-356 | merge puts an older tombstone in place of an entry |
| `Purging.ReachableIsWellFiled` | datacake-crdt/src/orswot.rs:55-104 | in every reachable set, stamps are filed under their own nodes |
| `Purging.SeenNeverGoesBack` | datacake-crdt/src/orswot.rs:55-104 | over writes, purges and merges no observed stamp goes back |
| `Purging.NoResurrection` | datacake-crdt/src/orswot.rs:372-383 | once a tombstone may be purged, no later call of its node at or below its stamp is admitted on any source, in any continuation |
| `Purging.PurgeShowsIff` | datacake-crdt/src/orswot.rs:433-526 | one call's result differs from the unpurged run's exactly when it is admitted, older than the lost tombstone and news to the purged set |
| `Purging.MergeTwinAt` | datacake-crdt/src/orswot.rs:282-359 | a merge leaves the same entry at a key exactly when it brings no older entry for a lost tombstone |
| `Purging.PurgeIsInvisible` | datacake-crdt/src/orswot.rs:372-383 | a run of calls, purges and merges and the same run without its purges give the same entries and results if after a purge nothing older comes for the keys it dropped |
| `Purging.PurgeIsInvisibleIff` | datacake-crdt/src/orswot.rs:372-383 | over runs of calls, purges and merges, all results and all entries agree if and only if no call and no merge brings back something older than a lost tombstone |
| `Mixing.MixedHoldsGreatest` | datacake-crdt/src/orswot.rs:282-526 | over every run of calls and merges with fresh replicas each key holds the greatest of all the writes behind it, however they arrived |
| `Mixing.MixedReplicasConverge` | datacake-crdt/src/orswot.rs:282-526 | replicas with the same writes behind them, received as calls or in merges, have the same entries, also if each purges on the way without showing it |
| `Witnesses.LateWriteShowsPurge` | datacake-crdt/src/orswot.rs:372-383 | a late write of another node that is accepted after the purge and refused without it |
| `Witnesses.MergeBringsBackPurged` | datacake-crdt/src/orswot.rs:282-359 | a merge that brings a purged key back for the tombstone's own node |
| `Repairing.RepairCompleteIff` | datacake-eventual-consistency/src/keyspace/actor.rs:107-125 | applying what diff reports brings in all of it exactly when it is delivered in order |
| `Repairing.RepairFixpointIff` | datacake-crdt/src/orswot.rs:243-275 | after a repair in order the next diff is empty exactly when every held-back epoch record has a minimum, computed from the stamps before and the operations, past the forgiveness period or with a larger counter |
| `Repairing.RepairReachesFixpoint` | datacake-crdt/src/orswot.rs:243-275 | after a repair in order the next diff reports nothing but records of the epoch itself that were held back before |
| `Witnesses.EpochRecordReturns` | datacake-crdt/src/orswot.rs:118-124 | an epoch record that comes back |
| `Repairing.TwoWayRepairIff` | datacake-crdt/src/orswot.rs:243-275 | one repair each way makes two mutually fresh replicas equal exactly when they hold no insert and delete of one key at one stamp |
| `Witnesses.TieStaysApart` | datacake-crdt/src/orswot.rs:258-275 | an insert and a delete at one stamp that neither side reports |
| `Repairing.BatchedRepairIff` | datacake-eventual-consistency/src/replication/poller.rs:409-414 | whatever the order in which the removals and the fetched batches arrive, everything diff reported gets in exactly when the source admits it and no batch brings something newer than a later batch does for its node |
| `Repairing.FilterChangesNothing` | datacake-eventual-consistency/src/keyspace/actor.rs:90-100 | for operations that are news the actor's filter keeps back only what the source refuses anyway |
| `Repairing.RepairIsNotFiltered` | datacake-eventual-consistency/src/keyspace/actor.rs:90-100 | the batches of a repair are news when they arrive, so the filter changes nothing about them |
| `Witnesses.NewerBatchFirstLoses` | datacake-eventual-consistency/src/replication/poller.rs:409-414 | a removal before an older document of its node, or a document before an older removal: the older one is lost |
| `Keyspaces.SingleMeans` | datacake-eventual-consistency/src/keyspace/actor.rs:63-80 | a set or delete does nothing if it is passed, not newer or fails in storage; otherwise storage has it, memory has it if the source admits it, and nothing else changes |
| `Keyspaces.BatchStoresMeans` | datacake-eventual-consistency/src/keyspace/actor.rs:86-127 | from the documents and the ids done: storage ends with the last applicable document of each key, and is unchanged where there is none |
| `Keyspaces.BatchTakesMeans` | datacake-eventual-consistency/src/keyspace/actor.rs:86-127 | memory ends as it was or with an applicable document the source admits, and with one that wins over all of those |
| `Keyspaces.BatchObserves` | datacake-eventual-consistency/src/keyspace/actor.rs:86-127 | the batch's source has then observed the newest stamp of each node among them, the other sources nothing new |
| `Keyspaces.SweepMeans` | datacake-eventual-consistency/src/keyspace/actor.rs:195-220 | the passed tombstones that storage reports as done leave memory and storage, everything else stays |
| `Keyspaces.BatchKeepsStorageAhead` | datacake-eventual-consistency/src/keyspace/actor.rs:86-127 | a batch with any partial failure keeps storage from falling behind memory |
| `Keyspaces.BatchAheadIff` | datacake-eventual-consistency/src/keyspace/actor.rs:86-127 | a batch keeps storage from falling behind exactly when no document is last named with a record older than one that memory admits |
| `Witnesses.BatchPutsStorageBehind` | datacake-eventual-consistency/src/keyspace/actor.rs:86-127 | a batch that names a document twice, the newer record first |
| `Keyspaces.StorageNeverBehind` | datacake-eventual-consistency/src/keyspace/actor.rs:63-220 | over every run of messages and partial failures, every record in memory has a storage row as new |
| `Keyspaces.StepAgreesIff` | datacake-eventual-consistency/src/keyspace/actor.rs:63-220 | from the same contents, storage and memory hold the same after a message exactly when memory takes what storage is told to write |
| `Keyspaces.StorageAgrees` | datacake-eventual-consistency/src/keyspace/actor.rs:63-220 | with ordered delivery and no restart they hold the same |
| `Keyspaces.LateDocumentSplitsState` | datacake-eventual-consistency/src/keyspace/actor.rs:63-80 | without it they need not |
| `Keyspaces.LoadRebuilds` | datacake-eventual-consistency/src/keyspace/group.rs:127-164 | loading any listing of distinct keys rebuilds exactly the live rows and the tombstones |
| `Keyspaces.CrashRecovery` | datacake-eventual-consistency/src/keyspace/group.rs:127-164 | after a crash in the middle of any message the loaded state is as new as the lost one |
| `Keyspaces.LoadedPurgesNothing` | datacake-eventual-consistency/src/keyspace/group.rs:127-164 | a loaded set purges nothing until another source has observed something |
| `Restarts.NeverBehindIff` | datacake-eventual-consistency/src/keyspace/actor.rs:63-220 | over every run of messages, partial failures, crashes and reloads, storage is never behind memory if and only if no batch last names a document with an older record than memory admits |
| `Restarts.StorageAgreesIff` | datacake-eventual-consistency/src/keyspace/actor.rs:63-220 | over every such run storage and memory agree all along if and only if memory takes, in its turn, every document storage is told to write |
| `Restarts.RestartAgrees` | datacake-eventual-consistency/src/keyspace/group.rs:127-164 | a reload, also after a crash in the middle of a message, leaves memory holding exactly what storage holds |
| `Restarts.LoadedAdmitsIff` | datacake-eventual-consistency/src/keyspace/group.rs:141-150 | a loaded set refuses on the first source exactly what is behind a row of its node, and nothing on the others |
| `Restarts.RestartSplitsState` | datacake-eventual-consistency/src/keyspace/group.rs:141-150 | with every source in order, a document that is stored and ignored after a restart |
| `KeyspaceActors.KeyspaceActor.OnSet` | datacake-eventual-consistency/src/keyspace/actor.rs:63-80 | memory, storage and change stamp after a set, with or without a storage error |
| `KeyspaceActors.KeyspaceActor.OnDel` | datacake-eventual-consistency/src/keyspace/actor.rs:133-148 | the same for a delete |
| `KeyspaceActors.KeyspaceActor.OnMulti` | datacake-eventual-consistency/src/keyspace/actor.rs:86-127 | the same for a batch of which storage carried out some ids |
| `KeyspaceActors.KeyspaceActor.SelectApplicable` | datacake-eventual-consistency/src/keyspace/actor.rs:90-100 | selects exactly the documents the set will apply, in order |
| `KeyspaceActors.KeyspaceActor.OnPurgeTombstones` | datacake-eventual-consistency/src/keyspace/actor.rs:195-220 | purged tombstones leave memory and storage, those storage failed to remove come back |
| `KeyspaceActors.LoadState` | datacake-eventual-consistency/src/keyspace/group.rs:133-150 | the sorted replay gives the specified set |
| `Polling.MessageMoves` | datacake-eventual-consistency/src/keyspace/actor.rs:54-220 | a message without a new change stamp adds no record |
| `Polling.RemoteMoves` | datacake-eventual-consistency/src/keyspace/actor.rs:54-57 | as long as the remote runs, whatever the wall clock shows, a keyspace's change stamp only moves forward, and stays only while records are only dropped |
| `Polling.RestartKeepsSound` | datacake-eventual-consistency/src/keyspace/group.rs:166-186 | a restart keeps the meaning of what the poller holds if no stamp tracked or fetched is after the new clock, but for the next one with its state unread |
| `Polling.StepKeepsSound` | datacake-eventual-consistency/src/replication/poller.rs:169-239 | every step of either node, safe restarts included, keeps the meaning of every tracked and fetched stamp |
| `Polling.NoLostUpdate` | datacake-eventual-consistency/src/replication/poller.rs:169-239 | over all interleavings with safe restarts, when a change stamp equals the tracked one, every record the keyspace holds was in a snapshot whose sync succeeded |
| `Rebooting.UnsafeRestartLoses` | datacake-eventual-consistency/src/keyspace/group.rs:166-186 | after any other restart there is a continuation in which an update is lost |
| `Rebooting.RestartSurvivedIff` | datacake-eventual-consistency/src/keyspace/group.rs:166-186 | every continuation of a restart is free of lost updates if and only if the restart is safe, however far the remote's own clock had run ahead |
| `Rebooting.Approach` | datacake-crdt/src/timestamp.rs:150-174 | the remote can be brought to give any later stamp of its node next |
| `Polling.EarlierClockLoses` | datacake-eventual-consistency/src/keyspace/group.rs:166-186 | without that a restarted remote can give a tracked stamp again and a document is never synced |
| `Polling.PollReportsUnsynced` | datacake-eventual-consistency/src/replication/poller.rs:250-285 | so a poll reports every keyspace that holds something never synced |
| `Polling.QuietCycleCatchesUp` | datacake-eventual-consistency/src/replication/poller.rs:195-239 | a cycle during which the keyspace is quiet can be run and leaves it tracked |
| `Polling.PollAsksFor` | datacake-eventual-consistency/src/replication/poller.rs:269-272 | after a poll exactly the keyspaces on one side only or with another stamp are asked for |
| `Polling.TrackedChangesOnlyBySync` | datacake-eventual-consistency/src/replication/poller.rs:211-237 | a tracked stamp changes only by a successful sync, to the stamp read with the snapshot, or by the node leaving |
| `Polling.ReadsMean` | datacake-eventual-consistency/src/rpc/services/replication_impl.rs:61-79 | the poll reads the cell; the stamp and the state are read from an idle actor |
| `Polling.NewClockMeans` | datacake-crdt/src/timestamp.rs:77-80 | a restarted remote's clock is the wall reading rounded down to 4 ms with counter zero |
| `EndToEnd.SyncArrivesIff` | datacake-eventual-consistency/src/replication/poller.rs:378-440 | a sync leaves the local set with something as new for every record of the snapshot that is not held back exactly when its batches come in time |
| `EndToEnd.TrackedRecordsArrive` | datacake-eventual-consistency/src/replication/poller.rs:195-239 | when the tracked stamp is the remote's, every record the remote holds was in a synced snapshot and arrived or was held back, if the batches of that sync came in time |
| `Polling.StateFirstLoses` | datacake-eventual-consistency/src/rpc/services/replication_impl.rs:61-79 | a run in which reading the state before the stamp would leave the stamp tracked, the keyspace unreported and an accepted write out of the snapshot |
| `Polling.DiffStamps` | datacake-eventual-consistency/src/keyspace/group.rs:285-322 | the counting loops report exactly the keyspaces on one side only or with different stamps |
| `Polling.KeyspaceTracker.RemoveNode` | datacake-eventual-consistency/src/replication/poller.rs:165-167 | forgets one node's stamps and no other's |
| `Polling.KeyspaceTracker.GetDiff` | datacake-eventual-consistency/src/replication/poller.rs:169-175 | compares with the node's stamps, none if it is new |
| `Polling.KeyspaceTracker.SetKeyspace` | datacake-eventual-consistency/src/replication/poller.rs:177-182 | records one stamp of one node |
| `Polling.KeyspaceTracker.RecordChanges` | datacake-eventual-consistency/src/replication/poller.rs:211-237 | the loop over a member's changes tracks the successful ones and touches no other member |
| `Polling.TrackingIsLastSuccess` | datacake-eventual-consistency/src/replication/poller.rs:211-237 | a tracked stamp is that of the last successful sync, or unchanged |
| `Selector.NodeCycler.Next` | datacake-node/src/nodes_selector.rs:510-524 | gives the node at the cursor, wrapping, and moves on |
| `Cycling.AdvanceMeans` | datacake-node/src/nodes_selector.rs:510-524 | calls of `next` go round the list one by one |
| `Cycling.FirstMeans` | datacake-node/src/nodes_selector.rs:416-436 | the first node is the one at the cursor, or the one after it if that is the local node |
| `Cycling.VisitMeans` | datacake-node/src/nodes_selector.rs:415-457 | one turn in full: what is selected, what is left to find, the count of data centers and how far the cycler moves |
| `Cycling.SelectionsGoRound` | datacake-node/src/nodes_selector.rs:510-524 | successive selections of one replica give the nodes of a data center one after the other |
| `Selector.Share` | datacake-node/src/nodes_selector.rs:444-444 | the extra nodes are shared evenly among the data centers to come |
| `Selector.First` | datacake-node/src/nodes_selector.rs:416-436 | a data center gives a first node exactly when it has a remote one |
| `Selector.Visits` | datacake-node/src/nodes_selector.rs:413-457 | selected nodes, extra nodes and data centers to come add up to the same number throughout |
| `Selector.ExtrasComeUp` | datacake-node/src/nodes_selector.rs:445-454 | within one turn the extra nodes are those that come up, the local one left out |
| `Selector.SelectedAreRemote` | datacake-node/src/nodes_selector.rs:413-457 | the nodes are distinct, never the local one, and every data center with a remote node gives one |
| `Selector.RoomyCentersSuffice` | datacake-node/src/nodes_selector.rs:413-457 | data centers with room and without the local node always give `n` |
| `Selector.SingleCenterIff` | datacake-node/src/nodes_selector.rs:386-473 | in one data center with enough nodes it finds `n` exactly when the local node is not among those about to come up |
| `Selector.EnoughNodesFallShort` | datacake-node/src/nodes_selector.rs:386-473 | three nodes, two replicas wanted, one found |
| `Selector.TwoCentersFallShort` | datacake-node/src/nodes_selector.rs:386-473 | two data centers, three remote nodes, three replicas wanted, two found |
| `Selector.SeveralCentersSuffice` | datacake-node/src/nodes_selector.rs:413-457 | for any `n`, two or more data centers with room always give `n`, wherever the local node is |
| `Shortfalls.TwoCenters` | datacake-node/src/nodes_selector.rs:413-457 | of two data centers three nodes are found exactly when a second one comes up in either |
| `Shortfalls.EnoughNodesFoundIff` | datacake-node/src/nodes_selector.rs:228-473 | with enough remote nodes and no empty data center, one, two or three replicas are found if and only if the local node is not in the way: among those about to come up in the only data center, or second in it when three are wanted and one node is outside |
| `Selector.PlanBudgetIff` | datacake-node/src/nodes_selector.rs:386-413 | the plan adds up to `n` exactly when the local data center is listed, not skipped, or not needed |
| `Selector.SelectionIsExact` | datacake-node/src/nodes_selector.rs:376-473 | for any cursors and random choice: success means exactly `n` distinct remote members, none in the local data center when enough are outside |
| `Selector.VisitCenter` | datacake-node/src/nodes_selector.rs:415-457 | one turn of the loop, with its inner loop, is the specified visit |
| `Selector.SelectN` | datacake-node/src/nodes_selector.rs:376-473 | the code computes the specified selection, leaves the visited cyclers where the visits leave them and the others alone, and reports how many it found when it fails |
| `Quorums.RoundRobin` | datacake-node/src/nodes_selector.rs:275-289 | the loop ends with the fewest whole rounds that make a majority, or with everything |
| `Quorums.SelectQuorum` | datacake-node/src/nodes_selector.rs:260-290 | the same over the data centers without the local node; it never fails in a consistent cluster |
| `Quorums.InRounds` | datacake-node/src/nodes_selector.rs:276-278 | after `k` rounds exactly the first `k` nodes of every list are selected |
| `Quorums.QuorumNeverFails` | datacake-node/src/nodes_selector.rs:260-290 | when nothing is left, every other member was selected, and that is always enough |
| `Quorums.QuorumIsMajority` | datacake-node/src/nodes_selector.rs:260-290 | the selected nodes are distinct other members and with the caller a majority |
| `Quorums.QuorumsMeet` | datacake-node/src/nodes_selector.rs:260-290 | any two callers' quorums share a node, however each lists the members |
| `Quorums.SelectEachQuorum` | datacake-node/src/nodes_selector.rs:312-331 | the loop takes each data center's part |
| `Quorums.EachQuorumPicks` | datacake-node/src/nodes_selector.rs:312-331 | node by node: from each data center its first nodes other than the caller, half of it at home and one more than half elsewhere, and no others |
| `Quorums.EachQuorumCounts` | datacake-node/src/nodes_selector.rs:312-331 | they are distinct and exactly that many |
| `Quorums.PartPicks` | datacake-node/src/nodes_selector.rs:291-305 | a part is the first nodes of the list other than the caller |
| `Quorums.SelectLocalQuorum` | datacake-node/src/nodes_selector.rs:291-305 | half of the local data center without the caller, which with the caller is a majority of it; nothing if it is not listed |
| `Quorums.LocalQuorumsMeet` | datacake-node/src/nodes_selector.rs:291-305 | two callers of one data center share a node |
| `Quorums.PartIsMajority` | datacake-node/src/nodes_selector.rs:312-331 | a part, with the caller where it is at home, is a majority of its data center |
| `Quorums.EachQuorumsMeet` | datacake-node/src/nodes_selector.rs:312-331 | any two callers share a node inside every data center that is not empty |
| `Quorums.Distribute` | datacake-eventual-consistency/src/lib.rs:729-785 | success exactly when every selected node acknowledged, whatever the order; else how many did |
| `Quorums.SuccessesCount` | datacake-eventual-consistency/src/lib.rs:729-785 | the responses reported are the number of replies that succeeded |
| `Quorums.Put` | datacake-eventual-consistency/src/lib.rs:380-438 | nothing is written without enough nodes, no replica is asked before the local write went well, and success means that every replica agreed |
| `Quorums.QuorumPut` | datacake-eventual-consistency/src/lib.rs:380-438 | a quorum write that succeeds was stored by the caller first and acknowledged by a majority of the members; it never fails for want of nodes in a consistent cluster |

## Left out

- datacake-rpc: transport, views, checksums and the handler registry.
- Chitchat membership and `watch_membership_changes`: membership is an input.
- SQLite, LMDB and in-memory stores: storage is one table of rows. `remove_tombstones` removes the row whatever it is, and `mark_as_tombstone` writes the row even if the document is missing, as the SQLite store does.
- Document bodies: only ids, timestamps and tombstones are modelled.
- Task distribution and the batch RPC handler: mostly list grouping.
- Concurrent creation of one keyspace: a keyspace is created in one step.
- Progress watchers, statistics, semaphores, timeouts and logging; a sync that times out is a failed sync.
- rkyv serialisation: a transferred set is an exact copy.
- Caching of a selection for a consistency level, and the `All` and `None` levels: `All` is every listed address but the caller's, `None` is no address.
- The set over words with a fraction of 250 or more, and the panic of `new` beyond 32-bit seconds: only the codec and the parser model them.
- Wall clocks before the Datacake epoch, where the subtraction panics.
- Clocks.HlcClock.Send: the seconds of the clock are not bounded by 32 bits, so the wrap of `pack` beyond them is not modelled.
- Clocks.HlcClock.Recv: likewise, nor the panic of `new` beyond them.
- Polling.NoLostUpdate: one remote node, since the tracker keeps nodes apart.
- Polling.MessageMoves: a single message stores its stamp after its state and a batch before; the model stores the stamp first in both, which no observer between messages can tell.
- Selector.SelectN: the data centers are a list in map order, and usize underflow with inconsistent totals is excluded by its preconditions.
- Purging.NoResurrection: is about calls; merges can bring a purged key back, see PurgeIsInvisibleIff.
- Shortfalls.EnoughNodesFoundIff: up to three replicas, which is all the code asks for, and no empty data center, since one is listed only with a member.
- EndToEnd.SyncArrivesIff: local writes between a diff and the end of its sync are not modelled.
