# Ashiato: verified model

Ashiato is an entity component system built on sparse sets. This project models its four
cooperating machines in Dafny and proves what they promise. `dafny verify dfyconfig.toml` checks
everything.

**Pools, groups, views.** `PoolModel` says what a sparse-set pool means: rows in dense order and a
tombstone per removed index. `SparsePool` is the pool as the code keeps it (dense arrays, sparse
lookup, three counters, a tombstone list with its own positions), each method proved against that
meaning. `PoolClone` adds compact copies and their rebuilding. `OwnedGroups` is the index that keeps
entities with all owned components in one shared dense prefix of several pools, stated over plain
values; `Registry` refines it with real pool objects, entity slots (`EntitySlots`) and the view token.
`Views` proves iteration exact through cached query states, and `StructuralJobs` the reverse pass whose
callbacks edit the pool being walked; `StructuralEffects` says what such a job leaves of every component.

**Jobs.** `Scheduler` is the one-pass stager with its optimality; `SerialEquivalence` shows that every
interleaving of the built stages equals the serial run. `TaskGuard` is the guard around a stage's tasks
as a state machine over atomic accesses, `ClosingCheck` what its final check decides, `ThreadPool` an executor
composed with it. `Chunks` cuts a job
into ranges in 64-bit arithmetic; `SplitJobs` and `SplitJobRun` prove for one job that deferred marks and
logged writes equal immediate marks. `MarkedTicks` is the theorem about whole ticks with marks: stages of
several split and unsplit jobs in any interleaving, each followed by its merge, end as the serial run;
`JobVisits` shows that the passes of `SplitJobs` over real pools are made of such visits, and that collecting
entities when a stage begins selects exactly those that act.

**Snapshots.** `DeltaReplay` says what marks remember and what replay computes, `SnapshotChain` is the
theorem about whole streams of frames, `Exclusion` the view without excluded entities, `Snapshots` and
`DeltaRestore` are the operations on real registries, `DirtyFrames` the tracker, `RewindTimeline` the ring
buffer of the rewind example, and `StorageStream` the serialized pool.

**Bits.** `MachineWords` models bytes and words as bit sequences with the C++ operators, `BitBuffer` the
buffer with its fast paths, `BitStreams` the round trip over arbitrary value streams, and `Frames` the
persistent frame and nested payloads.

A registry is `Valid` when every pool is consistent, every group is complete up to pending entries
(`Sound`), the free list holds exactly the dead slots, and rows belong to live entities. Methods state
their whole effect by a function on the value-level `World` (`AddRow`, `RemoveRow`, `Enter`, ...), and
lemmas about those functions carry the theorems. Unordered containers are walked in arbitrary order.
Component values are an opaque type `V`.

Some promises do not hold on all inputs; the exact conditions are proved. Restoring a delta fails on
a plain removal whose row the target does not have, so a component added and removed since the baseline,
or removed before its entity is destroyed, breaks the chain (`SnapshotChain.RestorableUnlessStuck`). A bit
buffer that is handed spare bytes is not canonical afterwards (`BitBufferModule.BitBuffer.AssignBytes`).
A payload of 2^32 bits or more loses its length (`Frames.PayloadRoundTrip`), a slot's versions repeat after
2^32 - 1 reuses (`EntitySlots.WrapIsReached` gives the run, `EntitySlots.RepeatsExactlyAfterAWrap` and
`EntitySlots.HandlesNeverRepeat` the exact condition), chunks may stay below the minimum asked for
(`Chunks.ChunksReachMinimum`), and over frames captured in a row a rewind buffer can be emptied, by a delta
that overwrites its last checkpoint, exactly when it is shorter than the checkpoint interval (`RewindTimelineModule.NeverEmptiedIffLongEnough`).

## Model

| member | source | states |
|---|---|---|
| `Scheduler.BuildSchedule` | src/jobs.cpp:114-154 | Every requested job has a place in exactly one stage, that of its longest chain of conflicting predecessors; of two conflicting jobs of the list the canonically earlier one is in an earlier stage; each stage is in canonical order, and none is empty |
| `Scheduler.StageOfOrdinaryJob` | src/jobs.cpp:156-183 | From the last-reader, last-writer and barrier stages alone, the greedy pass finds the length of the longest conflict chain that ends in the job |
| `Scheduler.RecordOrdinaryJob` | src/jobs.cpp:185-203 | After recording, the reader and writer maps again hold, for each component, the highest stage of any earlier job that lists it, and the barrier is remembered |
| `Scheduler.RecordReads` | src/jobs.cpp:185-195 | A component keeps the larger of its old reader stage and the new one, and untouched components keep theirs |
| `Scheduler.RecordWrites` | src/jobs.cpp:197-203 | Written components take the new stage, all others keep theirs |
| `Scheduler.ApplyDependencies` | src/jobs.cpp:156-183 | The stage rises to just above the highest recorded stage of a listed component, and no further |
| `Scheduler.ConflictsAreOrdered` | src/jobs.cpp:114-154 | Of two conflicting jobs the canonically earlier one is in a strictly earlier stage, so no stage holds a conflicting pair |
| `Scheduler.StructuralJobsAreAlone` | src/jobs.cpp:127-149 | No other job shares the stage of a structural job |
| `Scheduler.LevelIsLeast` | src/jobs.cpp:114-154 | No assignment that keeps conflicting jobs in canonical order puts any job in an earlier stage |
| `Scheduler.LevelsAreDense` | src/jobs.cpp:135-138 | Below an occupied stage every stage is occupied |
| `Scheduler.NoStageIsEmpty` | src/jobs.cpp:135-138 | Growing the stage list to reach a job never leaves a stage empty |
| `Scheduler.CanonicalizationKeepsConflicts` | src/ashiato.cpp:1129-1155 | Exactly the reads that are also writes are dropped, which neither loses nor invents a conflict between two jobs |
| `Scheduler.CanonicalOrderIsUnique` | src/jobs.cpp:92-112 | Sorting by order and sequence and dropping repeats gives one result per set of requested jobs, however the caller listed them |
| `Scheduler.CanonicalOrderExists` | src/jobs.cpp:92-112 | Every list of requested jobs, repeats included, has a canonical listing of the same jobs, smaller order and then smaller sequence number first |
| `SerialEquivalence.IndependentStepsCommute` | src/jobs.cpp:231-337 | Two steps of non-conflicting jobs, or of a split job on two entities, may be swapped on every store |
| `SerialEquivalence.ReorderedRunMatches` | src/jobs.cpp:231-337 | Any permutation of a program whose swapped pairs commute has the effect of the program |
| `SerialEquivalence.TickMatchesSerialRun` | src/jobs.cpp:231-337 | Every interleaving a tick allows, inside stages and across the chunks of split jobs, of steps that act at once, ends in the store of the serial run in canonical order |
| `SerialEquivalence.StagedJobsMatchSerialRun` | src/jobs.cpp:231-245 | Running stage after stage, in any order inside a stage, ends in the store of the serial run; the forced-serial tick is one such order |
| `SerialEquivalence.BuiltStagesAreAPlan` | src/jobs.cpp:114-154 | Any listing of the built stages by canonical positions, in any order inside a stage, meets the premise of that theorem |
| `SerialEquivalence.BuiltStagesHaveAPlan` | src/jobs.cpp:114-154 | The stages the scheduler builds have such a listing, which names the jobs of each stage in stage order |
| `MarkedTicks.MarkingStaysDeclared` | src/jobs.cpp:302-309 | A visit that changes and marks only declared writes still does so when values and marks are seen as one store |
| `MarkedTicks.PerformMerges` | src/jobs.cpp:299-331 | One visit followed by the merge of what it deferred equals the visit that marks at once |
| `MarkedTicks.SplitVisitDefers` | src/jobs.cpp:299-331 | While its stage lasts a visit of a split job makes no mark and notes exactly what it will mark; any other visit marks at once and notes nothing |
| `MarkedTicks.DeferralIsInvisible` | src/jobs.cpp:247-331 | A whole stage of split and unsplit jobs in any interleaving, split ones unmarked until the merge, equals the same interleaving with every mark made at once |
| `MarkedTicks.TickMatchesMarkedSerialRun` | src/jobs.cpp:231-337 | The whole tick, stage after stage with a merge at the end of each, ends in the values and marks of the serial run in canonical order |
| `JobVisits.VisitIsProper` | include/ashiato/ashiato.hpp:3533-3563 | A view callback that stores to declared writes, with its filter, reads, marks and changes no more than its job declared and keeps all rows |
| `JobVisits.VisitShows` | include/ashiato/ashiato.hpp:216-226 | One marked visit on the pools is the same visit on the tick's table of values and marks |
| `JobVisits.ReversePassIsSerialRun` | include/ashiato/ashiato.hpp:3533-3563 | The unsplit reverse pass over a job's entities is the serial run of its visits, in values and marks |
| `JobVisits.SeenIsStable` | src/jobs.cpp:247-292 | No other visit of a stage changes what a split job's filter sees of an entity, so at its visit it sees what it saw when the stage began |
| `JobVisits.CollectedAre` | src/jobs.cpp:272-292 | The entities collected as a stage begins leave out exactly the visits of split jobs whose filter rejects their entity then |
| `JobVisits.CollectingAtTheStart` | src/jobs.cpp:272-292 | Collecting the entities of split jobs when their stage begins leaves out exactly visits that would change and mark nothing |
| `JobVisits.CollectedTickMatchesSerialRun` | src/jobs.cpp:231-337 | The tick that collects entities as each stage begins ends in the values and marks of the serial run, where every job matches its entities at its turn |
| `TaskGuard.StepKeepsInv` | src/jobs.cpp:31-75 | Every atomic access of any interleaving, the store of the violation flag included, keeps the claims unique and the counters and body logs exact |
| `TaskGuard.EveryTaskRunsOnce` | src/jobs.cpp:39-75 | In every interleaving no body is entered twice, and if the closing check returns normally each body was entered once and has finished |
| `TaskGuard.NothingRunsAfterThePass` | src/jobs.cpp:46-48 | Once the check has passed, no call made later or still under way enters a body |
| `ClosingCheck.CheckPassesExactly` | src/jobs.cpp:65-75 | Over any run the check passes exactly when no call was rejected as it read the flag, every task had started as it read the one counter and every task had finished as it read the other; it has failed exactly when a read it came to found otherwise; the batch is closed from its first access on |
| `ClosingCheck.RejectionFailsTheCheck` | src/jobs.cpp:31-36 | A call rejected at any moment before the flag is read keeps the check from ever passing |
| `ClosingCheck.LateCallsRunNothing` | src/jobs.cpp:46-48 | Once the batch is closed, whether the check passes or fails, no call made later and none that has not got past the closed flag enters a body |
| `ThreadPool.ActKeepsPoolInv` | benchmarks/basic_operations_benchmark.cpp:115-173 | Every step of the caller, of a worker, or of a guarded call in between keeps queue, holders and the remaining count consistent |
| `ThreadPool.PoolMeetsTheContract` | benchmarks/basic_operations_benchmark.cpp:115-173 | With this pool as the executor the closing check never fails, no call is refused, and tasks are called once each in the order handed over, whatever the interleaving |
| `ThreadPool.PoolNeverStalls` | benchmarks/basic_operations_benchmark.cpp:115-173 | With at least one thread no reachable state is stuck before the check has passed |
| `ThreadPool.ActUsesFuel` | benchmarks/basic_operations_benchmark.cpp:115-173 | Every step of the pool, of a guarded call or of the check lowers the number of steps still ahead |
| `ThreadPool.EveryRunPasses` | benchmarks/basic_operations_benchmark.cpp:115-173 | No run takes more than eight steps a task and six more, and a run can go no further exactly when the check has passed |
| `ThreadPool.PassedIsRested` | benchmarks/basic_operations_benchmark.cpp:115-173 | After a passed check nothing is queued, nothing remains and every worker is idle |
| `ThreadPool.EverySessionPasses` | benchmarks/basic_operations_benchmark.cpp:115-173 | Batch after batch on one pool, every batch takes a bounded number of steps, no check fails, and the last one can go no further exactly when its check has passed |
| `Chunks.DesiredIsTheCeiling` | src/jobs.cpp:293-294 | The wanted thread count is the rounded-up quotient of entities and minimum, even where the 64-bit sum wraps |
| `Chunks.ThreadsAreLeast` | src/jobs.cpp:293-295 | As many threads as the maximum, or, where that does not bind, the least number of chunks of at most the minimum that hold all entities |
| `Chunks.ProductsFit` | src/jobs.cpp:297-298 | With fewer than 2^32 entities the products behind the chunk bounds stay below 2^64 |
| `Chunks.ChunkSize` | src/jobs.cpp:296-298 | Each chunk is non-empty and as long as the average, rounded down or up |
| `Chunks.ChunksWithinMinimum` | src/jobs.cpp:293-298 | When the thread maximum does not bind, no chunk is longer than the minimum asked for |
| `Chunks.ChunksReachMinimum` | src/jobs.cpp:293-298 | Every chunk reaches the minimum exactly when the thread maximum binds or the minimum divides the entity count |
| `Chunks.AverageDecides` | src/jobs.cpp:296-298 | No chunk is shorter than a bound exactly when as many chunks of that bound fit the count |
| `Chunks.ChunkBelowMinimum` | src/jobs.cpp:293-298 | One instance of the failing half: five rows, minimum two and three threads give a chunk of one |
| `Chunks.SplitChunks` | src/jobs.cpp:293-298 | No more chunks than the maximum, as many where it binds, otherwise the least number that keeps each within the minimum; they partition the positions in order, each begins at its exact share, none is empty, sizes differ by at most one, and all reach the minimum exactly when the maximum binds or the minimum divides the count |
| `Chunks.EveryPositionHasAChunk` | src/jobs.cpp:296-298 | Every position lies in a chunk |
| `Chunks.ChunksAscend` | src/jobs.cpp:296-298 | Of two chunks the earlier one ends before the later one begins, so no position lies in two |
| `SplitJobs.SplitMatchesUnsplit` | src/jobs.cpp:296-331 | Any interleaving of the visits at the grain of single stores, without marks, followed by the range marks and logged writes, leaves exactly the pools of the unsplit reverse pass |
| `SplitJobs.FoldMarks` | src/storage.cpp:792-798 | Folding a trace marks a row exactly when marking is on and some event names it, and changes neither its index nor its added mark |
| `SplitJobs.ReverseRows` | include/ashiato/ashiato.hpp:3533-3563 | After the unsplit reverse pass each row is what its own entity's visit makes of it, as seen from the start |
| `SplitJobs.ReverseRowMeans` | include/ashiato/ashiato.hpp:3533-3563 | After the unsplit reverse pass each visited entity has the last value its visit wrote, or its old one, and a mark exactly where the visit refers to the component or wrote it; other rows stay as they are |
| `SplitJobRun.MarkComponentDirtyRange` | src/jobs.cpp:206-221 | Marks every listed component of the entities at the given positions; absent pools and rows are skipped |
| `SplitJobRun.MergeDeferredDirtyWrites` | src/jobs.cpp:223-229 | Marks every logged component and entity |
| `SplitJobRun.StoreAll` | include/ashiato/ashiato.hpp:216-226 | While marks are deferred a visit stores its values, marks nothing, and logs exactly the explicit writes to rows that are there |
| `SplitJobRun.RunRange` | src/jobs.cpp:302-309 | A chunk's task finds its entities as they were when the stage began, leaves their stores unmarked, and logs exactly the explicit writes to rows that are there |
| `SplitJobRun.MergeMarks` | src/jobs.cpp:326-331 | The merge marks exactly the referenced components of all collected entities and everything logged |
| `SplitJobRun.RunThreadedJob` | src/jobs.cpp:284-331 | A threaded job cut into chunks ends in the same values and marks as the unsplit reverse pass |
| `PoolModel.EmplaceLookup` | src/storage.cpp:122-163 | As a map: the index gets the value marked dirty, added only if it is new, and every other index keeps its row |
| `PoolModel.RemoveLookup` | src/storage.cpp:177-200 | As a map: the index disappears and every other index keeps its row, although the last row moved |
| `PoolModel.SwapLookup` | src/storage.cpp:384-436 | Swapping two dense rows changes no index's row |
| `PoolModel.WriteLookup` | src/storage.cpp:224-235 | As a map: the index takes the value and is marked, all others keep their rows |
| `PoolModel.MarkDirtyLookup` | src/storage.cpp:300-305 | As a map: an existing row is marked, everything else is unchanged |
| `PoolModel.ClearDirtyLookup` | src/storage.cpp:257-269 | As a map: a present row loses both marks and keeps its value, an index without a row loses its tombstone, and every other row and tombstone stays |
| `PoolModel.ClearAddedLookup` | src/storage.cpp:271-278 | As a map: a present row loses the added mark only, everything else is unchanged |
| `PoolModel.PokeLookup` | src/storage.cpp:251-255 | As a map: a store without a mark changes one value |
| `PoolModel.EmplaceAppends` | src/storage.cpp:624-643 | A new row goes to the end, and takes back only the tombstone of the very same handle |
| `PoolModel.RemoveFills` | src/storage.cpp:645-681 | The last row fills the hole, and one tombstone of the handle is left |
| `PoolModel.MoveToPlaces` | src/storage.cpp:438-444 | The index ends at the position, the row that was there takes its place, and no other row moves |
| `PoolModel.ClearAllLookup` | src/storage.cpp:288-298 | Every row keeps its place and value and loses both marks, and no tombstone is left |
| `SparsePool.Pool.ContainsIsFind` | src/storage.cpp:563-570 | The sparse lookup finds an index exactly when it has a row, and then gives its dense position |
| `SparsePool.Pool.EmplaceOrReplace` | src/storage.cpp:122-163 | Replaces and marks an existing row, or appends a row marked dirty and added and forgets only the tombstone of the same handle; lookups, counters and tombstones stay exact |
| `SparsePool.Pool.CommitInsert` | src/storage.cpp:624-643 | The row is appended with both marks, and only the same handle's tombstone goes |
| `SparsePool.Pool.EraseAt` | src/storage.cpp:645-681 | The last row with its marks fills the hole, and both lookups and both counters follow |
| `SparsePool.Pool.Remove` | src/storage.cpp:177-186 | Removes the row and leaves a dirty tombstone of the handle; reports whether there was a row |
| `SparsePool.Pool.RemoveForDestroy` | src/storage.cpp:192-200 | Removes the row and leaves a tombstone that also says the entity was destroyed |
| `SparsePool.Pool.Ensure` | src/storage.cpp:165-175 | Marks an existing row or appends a zero row |
| `SparsePool.Pool.WriteValue` | src/storage.cpp:224-235 | Stores through the returned pointer and marks the row |
| `SparsePool.Pool.StoreValue` | src/storage.cpp:251-255 | Stores without marking |
| `SparsePool.Pool.ReadValue` | src/storage.cpp:202-222 | The value of the index, or nothing |
| `SparsePool.Pool.MarkDirty` | src/storage.cpp:300-305 | Marks an existing row and only counts it once |
| `SparsePool.Pool.ClearDirty` | src/storage.cpp:257-269 | Takes both marks from a row, or drops the tombstone of an index without a row |
| `SparsePool.Pool.ClearAdded` | src/storage.cpp:271-278 | Takes only the added mark |
| `SparsePool.Pool.IsDirty` | src/storage.cpp:280-286 | A row answers with its mark, an absent index with whether it has a tombstone |
| `SparsePool.Pool.HasDirtyEntries` | src/storage.cpp:323-325 | The three counters are non-zero exactly when some row is marked or some tombstone is left |
| `SparsePool.Pool.ClearAllDirty` | src/storage.cpp:288-298 | All marks and all tombstones go, values and order stay |
| `SparsePool.Pool.SwapDense` | src/storage.cpp:384-436 | Exchanges two dense rows with values and marks and repairs the sparse lookup; out-of-range positions are refused |
| `SparsePool.Pool.MoveIndexToDense` | src/storage.cpp:438-444 | Exchanges the index's row with the row at the position; an absent index is left alone |
| `SparsePool.Pool.MarkTombstone` | src/storage.cpp:704-722 | The index gets one tombstone with the new handle and flags, listed once; without flags its tombstone goes |
| `SparsePool.Pool.ClearTombstone` | src/storage.cpp:726-735 | Exactly that tombstone goes |
| `SparsePool.Pool.ClearTombstoneForEntity` | src/storage.cpp:737-747 | The tombstone goes only if it belongs to the very same handle |
| `SparsePool.Pool.EraseTombstoneIndex` | src/storage.cpp:800-814 | The index leaves the tombstone list if it was there, nothing else does, and list and positions stay inverse |
| `PoolClone.FilteredLookup` | src/storage.cpp:816-886 | A filtered copy holds exactly the rows that pass, unchanged |
| `PoolClone.FilteredKeepsOrder` | src/storage.cpp:816-932 | Kept rows stay in their dense order, and exactly the tombstones of indices the mask does not set are kept |
| `PoolClone.CloneCompactFiltered` | src/storage.cpp:816-932 | Both copy paths give the dense order, values, marks and tombstones minus the excluded indices, and for the dirty-only copy exactly the dirty rows |
| `PoolClone.HasExcludedEntries` | src/storage.cpp:888-903 | Whether any row or tombstone belongs to an excluded index |
| `PoolClone.CopyTombstones` | src/storage.cpp:905-932 | The tombstones of all indices that are not excluded |
| `PoolClone.InvertIndices` | src/storage.cpp:934-976 | The rebuilt lookup is the inverse of the index list |
| `PoolClone.CloneForRestore` | src/storage.cpp:450-454 | A compact copy becomes a full pool with the same meaning |
| `PoolClone.CopyAndRestore` | src/storage.cpp:446-476 | Copying and rebuilding gives the same rows in the same order, marks and tombstones, minus what was filtered |
| `EntitySlots.PackRoundTrip` | include/ashiato/ashiato.hpp:2789-2799 | Index and version pack into 64 bits and back without loss, in both directions; the index is the low half |
| `EntitySlots.FreeListIsTheDead` | include/ashiato/ashiato.hpp:1116-1173 | The free list holds exactly the dead slots |
| `EntitySlots.CreatedIsWellLinked` | include/ashiato/ashiato.hpp:1116-1136 | Creating keeps the list acyclic, makes exactly the returned handle alive, and that handle was not alive before |
| `EntitySlots.DestroyedIsWellLinked` | include/ashiato/ashiato.hpp:1163-1171 | Destroying puts the slot at the head of an acyclic list and kills exactly that handle |
| `EntitySlots.EntityStore.IsAlive` | include/ashiato/ashiato.hpp:1175-1185 | A handle is alive exactly when its slot holds it |
| `EntitySlots.EntityStore.Create` | include/ashiato/ashiato.hpp:1116-1136 | Reuses the head of the free list with its stored version or appends version one; fails exactly when all of the 2^32 - 1 slots are alive |
| `EntitySlots.EntityStore.Release` | include/ashiato/ashiato.hpp:1163-1171 | The slot half of destroy |
| `EntitySlots.RebuildFreeList` | include/ashiato/ashiato.hpp:3003-3020 | The loop over the slots, highest first, computes the relinked slots and head |
| `EntitySlots.RebuildKeepsHandles` | include/ashiato/ashiato.hpp:3003-3020 | Rebuilding links exactly the dead slots in ascending order and keeps every live handle and every non-zero version; a zeroed slot starts at version one |
| `EntitySlots.HandlesNeverRepeat` | include/ashiato/ashiato.hpp:1116-1173 | Over every run of creates and destroys: no effective destroy wraps a version if and only if, had one more entity been created at any point of the run, no handle would be issued twice and no destroyed handle alive again |
| `EntitySlots.RepeatsExactlyAfterAWrap` | include/ashiato/ashiato.hpp:1163-1171 | Destroying a live entity makes its slot the next one used, with the next version, or with one after the last; after any run without a wrap that handle was issued before exactly when the entity has the last version |
| `EntitySlots.WrapIsReached` | include/ashiato/ashiato.hpp:1116-1173 | The failing input exists: a run of creates and destroys without a wrap ends with an entity at the last version, and destroying it and creating once more issues a handle for the second time |
| `OwnedGroups.PrefixIsIntersection` | src/groups.cpp:79-103 | Outside a deferral the group's prefix holds exactly the entities present in all its pools |
| `OwnedGroups.OnlyPendingAreAbsent` | src/groups.cpp:127-140 | Inside one, an entity in all pools but not in the prefix is a pending entry |
| `OwnedGroups.GroupsAreDisjoint` | src/groups.cpp:27-34 | Distinct groups own disjoint components |
| `OwnedGroups.PrefixPosition` | src/groups.cpp:93-103 | A member of the prefix sits at the same dense position in every owned pool |
| `OwnedGroups.EnterGrowsPrefix` | src/groups.cpp:105-114 | Entering aligns one more position and adds exactly the new member |
| `OwnedGroups.LeaveShrinksPrefix` | src/groups.cpp:116-125 | Leaving drops exactly that member and keeps the rest aligned |
| `OwnedGroups.EnterKeepsBase` | src/groups.cpp:105-114 | Entering one group completes it for one entity and leaves every other group as it was |
| `OwnedGroups.LeaveKeepsBase` | src/groups.cpp:116-125 | Leaving one group can make only that entity missing, and only there |
| `OwnedGroups.AddRowIsSound` | src/ashiato.cpp:306-328 | Adding or replacing a component keeps every group index, deferred or not |
| `OwnedGroups.EnsureRowIsSound` | src/ashiato.cpp:331-355 | So does ensuring one |
| `OwnedGroups.RemoveRowIsSound` | src/ashiato.cpp:357-380 | Removing a component, or destroying its entity, keeps every group index |
| `OwnedGroups.SameOrderIsSound` | src/storage.cpp:224-235 | Writes and marks keep every group index |
| `OwnedGroups.DrainIsSound` | src/groups.cpp:163-170 | Draining the pending entries, stale ones included, leaves no entity missing |
| `OwnedGroups.EndIsSound` | src/groups.cpp:156-174 | Ending the outermost scope restores every group in full |
| `OwnedGroups.EndDeferralLookup` | src/groups.cpp:156-174 | It only reorders: every row and tombstone is kept |
| `OwnedGroups.AddRowLookup` | src/ashiato.cpp:306-328 | Whatever rows were swapped for the groups, an add changes one row |
| `OwnedGroups.RemoveRowLookup` | src/ashiato.cpp:357-380 | A removal takes one row and leaves one tombstone |
| `OwnedGroups.ScanEnters` | src/groups.cpp:56-61 | The scan that fills a new group may reorder the pool it walks without missing a row |
| `OwnedGroups.ScanIsComplete` | src/groups.cpp:49-63 | After the smallest pool was walked the new group is complete |
| `OwnedGroups.NewGroupIsScanned` | src/groups.cpp:17-24 | A group of unowned components may start empty beside the complete ones |
| `RegistryModule.Registry.AddComponent` | src/ashiato.cpp:306-328 | Adds or replaces one row on a live handle and nothing on a stale one; groups, lookups and live-row invariants hold afterwards |
| `RegistryModule.Registry.EnsureComponent` | src/ashiato.cpp:331-355 | Marks the row or inserts a zero row on a live handle |
| `RegistryModule.Registry.RemoveComponent` | src/ashiato.cpp:357-380 | Leaves the group first, then swaps the row out; reports whether there was one |
| `RegistryModule.Registry.WriteComponent` | src/ashiato.cpp:382-398 | Changes the value and mark of one row, if the handle is live and the row exists |
| `RegistryModule.Registry.CreateEntity` | include/ashiato/ashiato.hpp:1116-1136 | Issues the next handle and changes no pool |
| `RegistryModule.Registry.DestroyEntity` | include/ashiato/ashiato.hpp:1138-1173 | Exactly the pools that held the entity lose its row and gain a destroy tombstone, in any pool order; then the slot is recycled |
| `RegistryModule.Registry.EnterGroup` | src/groups.cpp:105-114 | The swaps in the owned pools, one after the other, are the simultaneous move of the model |
| `RegistryModule.Registry.LeaveGroup` | src/groups.cpp:116-125 | The same for leaving, with the size already reduced |
| `RegistryModule.Registry.RefreshGroupAfterAdd` | src/groups.cpp:127-140 | Enters now, or notes the entity while enters are deferred |
| `RegistryModule.Registry.BeginDeferredGroupEnters` | src/groups.cpp:150-154 | Raises the depth by one and changes no row, group or pending entry; the view token moves when that matters to a group |
| `RegistryModule.Registry.EndDeferredGroupEnters` | src/groups.cpp:156-174 | An inner scope only lowers the depth; the outermost one drains all pending entries, re-checking each |
| `RegistryModule.Registry.SmallestStorage` | src/groups.cpp:65-77 | The driver of a new group is the smallest owned pool; there is none exactly when the key is empty or some owned component has no pool |
| `RegistryModule.Registry.BuildGroup` | src/groups.cpp:49-63 | One pass over the driver completes the new group, leaves every other group as it is, and only reorders rows |
| `RegistryModule.Registry.DeclareOwnedGroup` | include/ashiato/ashiato.hpp:6036-6049 | Succeeds exactly when the group exists already or none of its components is owned; a new group stands behind the others, which stay as they are, and owns its components; all group indexes are complete |
| `Views.CacheSurvives` | include/ashiato/ashiato.hpp:2722-2751 | A query state whose token still matches names the registry's present pools and group, whatever was done in between |
| `Views.CacheSurvivesRun` | include/ashiato/ashiato.hpp:2722-2751 | The same over any run of registry operations |
| `Views.BestGroup` | include/ashiato/ashiato.hpp:2672-2701 | The chosen group has the most components among those inside the query's list, then the shortest prefix, then comes first; none is chosen inside a deferral |
| `Views.RefreshState` | include/ashiato/ashiato.hpp:2722-2751 | The refreshed state is current for the present topology: the old one while the token stands, otherwise with the best group for the query |
| `Views.SelectDriver` | include/ashiato/ashiato.hpp:258-329 | The smallest required pool drives, the first of equals; there is no driver exactly when a required pool is missing |
| `Views.MatchesMeans` | include/ashiato/ashiato.hpp:331-377 | A match has every iterated component and every required tag and none of the excluded ones |
| `Views.ContainsAll` | include/ashiato/ashiato.hpp:331-377 | The filter on cached storages decides the query's meaning |
| `Views.GroupCovers` | include/ashiato/ashiato.hpp:3837-3862 | Every match lies in the prefix of the group that drives the view |
| `Views.DriverOf` | include/ashiato/ashiato.hpp:3837-3862 | A group's first pool drives, or else the smallest required pool, the first of equals; every match lies among its walked rows, and without a driver nothing matches |
| `Views.MatchingIndices` | include/ashiato/ashiato.hpp:3494-3513 | The view yields exactly the entities with every required and no excluded component, each once, in the dense order of its driver, through a cached or a fresh state |
| `StructuralJobs.AddKeepsFrozen` | include/ashiato/ashiato.hpp:3533-3563 | Adding any component to the entity in hand leaves the unwalked rows of the driver in place |
| `StructuralJobs.RemoveKeepsFrozen` | src/storage.cpp:645-681 | So does removing any component, with the group leave and the swap on the walked pool itself |
| `StructuralJobs.PassVisitsMatches` | include/ashiato/ashiato.hpp:3533-3563 | A completed reverse pass visited exactly the matches, each once, from the back of the driver |
| `StructuralJobs.EachReverse` | include/ashiato/ashiato.hpp:3533-3563 | While the callbacks edit the entity in hand, the pass visits what matched at its start, and changes nothing but what the callbacks do |
| `StructuralJobs.EachStructuralJob` | include/ashiato/ashiato.hpp:2356-2370 | A structural job visits exactly what matched at its start, once each, from the back of the smallest required pool; its effect is that of its callbacks, and ending the scope restores the groups |
| `StructuralEffects.JobEffectCells` | include/ashiato/ashiato.hpp:2356-2370 | Over the whole job each visited entity's rows and tombstones are what its own callback made of them, as if it were alone, and every other entity keeps all it had |
| `DeltaReplay.DeltaLookup` | src/snapshot.cpp:1187-1204 | A delta keeps exactly the dirty rows and all tombstones |
| `DeltaReplay.DeltaKeys` | src/snapshot.cpp:1187-1204 | A component has an entry in a delta exactly when some row of its pool is dirty or some tombstone is left |
| `DeltaReplay.EditKeepsTracks` | src/storage.cpp:624-747 | Whatever one registry step does, marks and tombstones remember every difference to the baseline |
| `DeltaReplay.RunTracks` | src/storage.cpp:624-747 | The same over any run of steps |
| `DeltaReplay.ClearedTracks` | src/ashiato.cpp:446-450 | Right after all marks were cleared there is no difference to remember |
| `DeltaReplay.ReplayIsCurrent` | src/snapshot.cpp:1310-1373 | Replaying the delta of such a run over the baseline gives the current value of every component |
| `DeltaReplay.AddIsPut` | src/ashiato.cpp:306-328 | An add, with all its group swaps, is a step that sets one row |
| `DeltaReplay.EnsureIsEdit` | src/ashiato.cpp:331-355 | An ensure is a step that rewrites the present value or puts a zero value |
| `DeltaReplay.RemoveIsDrop` | src/ashiato.cpp:357-380 | A removal is a step that drops one row |
| `DeltaReplay.DestroyIsKill` | include/ashiato/ashiato.hpp:1138-1173 | Destroying is a step that drops an entity's rows everywhere |
| `DeltaReplay.WriteIsSet` | src/ashiato.cpp:382-398 | A write is a step that changes one value |
| `DeltaReplay.ReorderIsShuffle` | src/groups.cpp:156-174 | Ending a deferral and declaring a group are steps that change nothing |
| `SnapshotChain.ReplicaFollowsTheSource` | src/snapshot.cpp:1106-1140 | Whoever restores the emitted frames one after another, each returning normally, holds at every frame exactly the source's live handles and component values |
| `SnapshotChain.FrameMirrors` | src/snapshot.cpp:1287-1377 | A replica that mirrors one frame and restores the next mirrors that one |
| `SnapshotChain.RestorableUnlessStuck` | src/snapshot.cpp:1347-1358 | A mirroring replica can restore a delta exactly when no plain removal in it lacks a row in the frame before or shares its index with a destroyed entity |
| `SnapshotChain.StepRestorable` | src/snapshot.cpp:1341-1373 | For one step from any mirrored frame to the next: a delta can be restored exactly when none of its removals is stuck |
| `SnapshotChain.StepMirrors` | src/snapshot.cpp:1287-1377 | For one step: a target that mirrors the frame before and restores the next one shows its handles and values |
| `SnapshotChain.AddThenRemoveIsStuck` | src/snapshot.cpp:1357-1359 | A component added and removed since the baseline makes the restore fail |
| `SnapshotChain.RemoveThenDestroyIsStuck` | src/snapshot.cpp:1357-1359 | So does removing one component of an entity that is destroyed while it has another |
| `SnapshotChain.SlotsFollow` | src/snapshot.cpp:1176-1183 | The slot array a delta leaves out is one the target already has |
| `SnapshotChain.MirrorRowsAlive` | src/snapshot.cpp:1364-1369 | Every row of a replica belongs to a live entity |
| `Exclusion.VisibleIsSound` | src/snapshot.cpp:1161-1166 | Without its excluded entities, none of them a group member, a registry with complete groups still has the same complete groups |
| `Exclusion.MirrorShowsTheRest` | src/snapshot.cpp:1142-1170 | Mirroring what is shown means holding exactly the values and live handles of the entities that are not excluded |
| `Exclusion.WorkIsVisible` | src/snapshot.cpp:1172-1207 | A run of registry steps is, between what is shown before and after it, a run of steps on shown entities |
| `Snapshots.MakeSnapshotEntities` | src/ashiato.cpp:1243-1254 | The captured slot array is the current one with excluded slots zeroed |
| `Snapshots.CreateSnapshot` | src/snapshot.cpp:1142-1170 | Captures pools and slots without the excluded entities, the slots relinked, and groups and token, in any pool order |
| `Snapshots.CreateDelta` | src/snapshot.cpp:1172-1207 | Captures exactly the dirty rows and tombstones of entities that are not excluded, and the slots only if what is shown of them differs from the snapshot's |
| `Snapshots.CreateNextDelta` | src/snapshot.cpp:1209-1245 | The same against another delta, writing the slots again when that one left them out |
| `Snapshots.CopyIfDirty` | src/snapshot.cpp:1191-1202 | A pool is kept exactly when its dirty-only copy without excluded entities has something in it, although counters of the whole pool are asked first |
| `Snapshots.OwnersAreRebuilt` | src/groups.cpp:42-47 | Ownership recomputed from the groups is the ownership they had |
| `Snapshots.RestoreSnapshot` | src/snapshot.cpp:1247-1285 | The registry holds exactly the captured pools, groups and token and the relinked slots, with every group complete |
| `DeltaRestore.CollectDestroyed` | src/snapshot.cpp:1319-1329 | The list names exactly the entities some pool recorded as destroyed |
| `DeltaRestore.DropDestroyed` | src/snapshot.cpp:1331-1339 | Exactly the named entities lose their rows everywhere, group by group |
| `DeltaRestore.ReplayRemovals` | src/snapshot.cpp:1350-1362 | Goes through exactly when every plain removal finds its row; removes exactly those up to the first that does not |
| `DeltaRestore.ReplayRows` | src/snapshot.cpp:1364-1372 | Goes through exactly when every row's slot is live; sets and marks exactly the rows up to the first that has none |
| `DeltaRestore.ReplayPools` | src/snapshot.cpp:1341-1373 | The outcome does not depend on the pool order |
| `DeltaRestore.RestoreDelta` | src/snapshot.cpp:1287-1377 | Returns normally exactly when token, removals and rows fit the state before the call, and then leaves exactly the replayed rows with their marks; a delta for another state changes nothing at all; one that stops at a misfit leaves the token, complete groups, and every value as it was, as in the delta, or dropped on its word; either way what it did is a run of registry steps |
| `DeltaRestore.CanRestoreMeans` | src/snapshot.cpp:1287-1373 | In the delta's own terms: token equal, every plain removal finds its row and shares its index with no destroyed entity, every row's slot is live |
| `DeltaRestore.LedTracks` | src/snapshot.cpp:1310-1373 | Marks and tombstones of a registry that restores deltas go on remembering every difference to its own baseline |
| `DirtyFrames.DirtySnapshotTracker.OnDirtyFrame` | src/snapshot.cpp:1106-1140 | Writes a full snapshot when none was written or the interval is due, otherwise a delta against the frame written last |
| `DirtyFrames.ClearAllDirtyEntries` | src/ashiato.cpp:446-450 | Every pool loses all marks and tombstones; groups stay complete |
| `DirtyFrames.Broadcast` | src/snapshot.cpp:1044-1065 | A frame is captured before the marks are cleared |
| `DirtyFrames.Follow` | src/snapshot.cpp:1247-1377 | Restoring a published frame goes through exactly when it fits, and then does what the frame says |
| `DirtyFrames.PublishAndFollow` | src/snapshot.cpp:1044-1140 | From frame to frame a replica that restores what the tracker writes keeps showing what the source, excluded entities aside, was when it published, and it loses step exactly at a delta that holds a stuck removal |
| `RewindTimelineModule.RewindTimeline.Push` | examples/balls_3d.cpp:289-298 | The new record is appended, the oldest overwritten when the ring is full, and everything before the first checkpoint dropped |
| `RewindTimelineModule.RewindTimeline.DiscardUnrestorablePrefix` | examples/balls_3d.cpp:300-305 | Afterwards the ring starts at the first checkpoint or is empty |
| `RewindTimelineModule.RewindTimeline.Capture` | examples/balls_3d.cpp:228-235 | The ring always holds a stream: a checkpoint first, then checkpoints and deltas against their predecessors; it is emptied exactly when a delta overwrites the last checkpoint of a full ring |
| `RewindTimelineModule.RewindTimeline.Restore` | examples/balls_3d.cpp:237-257 | Any stored index finds its checkpoint; the restore completes exactly when no delta on the way is stuck, and then shows the state captured there |
| `RewindTimelineModule.NeverEmptiedIffLongEnough` | examples/balls_3d.cpp:228-305 | Capturing frame after frame never empties the buffer, whatever frame it starts from, if and only if the buffer is at least as long as the checkpoint interval |
| `RewindTimelineModule.LongRingIsNeverEmptied` | examples/balls_3d.cpp:289-305 | A buffer as long as the interval always holds consecutive frames up to the newest, the oldest a checkpoint |
| `RewindTimelineModule.ShortRingIsEmptied` | examples/balls_3d.cpp:289-305 | A shorter one, started at frame zero, is emptied by the delta that follows once it is full |
| `RewindTimelineModule.StreamStartsFull` | examples/balls_3d.cpp:300-305 | A non-empty stream starts at a checkpoint |
| `RewindTimelineModule.StreamSuffix` | examples/balls_3d.cpp:300-305 | Dropping a prefix up to a checkpoint leaves a stream |
| `RewindTimelineModule.RingWrites` | examples/balls_3d.cpp:289-294 | Writing behind the newest slot, with the index wrapped, appends to the ring |
| `RewindTimelineModule.RingOverwrites` | examples/balls_3d.cpp:293-296 | Overwriting the start and moving it replaces the oldest by the newest |
| `MachineWords.ShlIsMultiplication` | include/ashiato/bit_buffer.hpp:161-208 | The left shift on bit sequences is multiplication by a power of two modulo the word |
| `MachineWords.ShrIsDivision` | include/ashiato/bit_buffer.hpp:161-208 | The right shift is division by a power of two |
| `MachineWords.LowMaskIsPowerMinusOne` | include/ashiato/bit_buffer.hpp:231-233 | The mask of n low bits is the n-th power of two minus one |
| `BitBufferModule.BitBuffer.WriteBool` | include/ashiato/bit_buffer.hpp:145-155 | Appends one bit to a canonical buffer |
| `BitBufferModule.BitBuffer.WriteUnsignedBits` | include/ashiato/bit_buffer.hpp:161-208 | Appends exactly the low n bits at any alignment, for n up to 64; more is refused and changes nothing |
| `BitBufferModule.BitBuffer.WriteAcrossBytes` | include/ashiato/bit_buffer.hpp:179-207 | The masked byte loop appends the same bits as the plain sequence |
| `BitBufferModule.BitBuffer.OverwriteUnsignedBits` | include/ashiato/bit_buffer.hpp:210-256 | Replaces exactly the addressed bits on all three paths; ranges past the end are refused |
| `BitBufferModule.BitBuffer.OverwriteWindow` | include/ashiato/bit_buffer.hpp:227-245 | The 64-bit window path replaces exactly the addressed bits |
| `BitBufferModule.BitBuffer.OverwriteBitByBit` | include/ashiato/bit_buffer.hpp:247-255 | So does the bit loop used when nine bytes are touched |
| `BitBufferModule.BitBuffer.WriteBytes` | include/ashiato/bit_buffer.hpp:258-276 | Appends the bits of the bytes at any alignment |
| `BitBufferModule.BitBuffer.WriteBufferBits` | include/ashiato/bit_buffer.hpp:324-340 | Appends the content of another buffer at any alignment |
| `BitBufferModule.BitBuffer.ReadBool` | include/ashiato/bit_buffer.hpp:365-370 | The next bit, or a refusal at the end |
| `BitBufferModule.BitBuffer.ReadUnsignedBits` | include/ashiato/bit_buffer.hpp:376-415 | The next n bits as the low bits of a word, through a 64-bit window and a ninth byte; refused past 64 bits or past the end |
| `BitBufferModule.BitBuffer.ReadBytes` | include/ashiato/bit_buffer.hpp:417-435 | The next n bytes at any alignment |
| `BitBufferModule.BitBuffer.ReadBufferBits` | include/ashiato/bit_buffer.hpp:342-358 | Moves the next n bits to the end of another buffer on all its paths |
| `BitBufferModule.BitBuffer.SkipBits` | include/ashiato/bit_buffer.hpp:360-363 | Moves the read position, or refuses |
| `BitBufferModule.BitBuffer.TruncateBits` | include/ashiato/bit_buffer.hpp:121-131 | Keeps a prefix, clears the tail and pulls the read position back |
| `BitBufferModule.BitBuffer.AssignBytes` | include/ashiato/bit_buffer.hpp:107-115 | The content is the first n bits of the bytes; the buffer is canonical exactly when no spare byte was handed over, because the mask goes to the last byte of the vector |
| `BitBufferModule.BitBuffer.Equals` | include/ashiato/bit_buffer.hpp:485-487 | Comparing sizes and bytes decides equality of the contents |
| `BitBufferModule.UnpackPacked` | include/ashiato/bit_buffer.hpp:534-542 | Bit k is bit k % 8 of byte k / 8, and the canonical layout determines the content |
| `BitBufferModule.WindowIsSlice` | include/ashiato/bit_buffer.hpp:394-414 | Window, ninth byte and mask together are the addressed bits |
| `BitBufferModule.NinthByte` | include/ashiato/bit_buffer.hpp:396-409 | The bytes the windowed reader touches exist |
| `BitBufferModule.ShareIsPacked` | include/ashiato/bit_buffer.hpp:186-205 | The masked share of a touched byte merges into the canonical byte |
| `BitStreams.RoundTrip` | include/ashiato/bit_buffer.hpp:145-435 | Any sequence of bits, numbers, bytes and buffers written at any alignment is read back by the matching reads, a number as its low bits |
| `BitStreams.ReadAll` | include/ashiato/bit_buffer.hpp:365-435 | The reads consume exactly the bits the items occupy |
| `Frames.WriteLittleEndian` | src/snapshot.cpp:61-77 | The bytes are the number's digits to the base 256, the lowest first |
| `Frames.WriteFrame` | src/snapshot.cpp:124-132 | Magic number, version one, kind and bit size, little-endian in 4, 4, 4 and 8 bytes, then the body's bytes |
| `Frames.ReadLittleEndian` | src/snapshot.cpp:79-97 | The number those bytes stand for, or an error when the stream is too short |
| `Frames.ReadFrame` | src/snapshot.cpp:134-152 | Succeeds exactly on a complete frame of the expected kind, and gives a canonical body |
| `Frames.FrameRoundTrip` | src/snapshot.cpp:124-152 | A framed body is read back equal whatever follows in the stream, and only as its own kind |
| `Frames.PayloadRoundTrip` | src/snapshot.cpp:696-711 | A payload nested at any bit offset is read back unchanged exactly when it is shorter than 2^32 bits |
| `StorageStream.WriteStorage` | src/snapshot.cpp:216-231 | Field by field: row count, then index, marks and value of each row in dense order, tombstone count, then handle and flags of each tombstone in list order |
| `StorageStream.RowReadAppends` | src/snapshot.cpp:238-257 | Inserting a row and taking marks away again restores exactly its marks |
| `StorageStream.ReadStorage` | src/snapshot.cpp:233-266 | Reads to the end exactly when counts, rows and tombstones are all there and well-typed; any stream that starts with a written pool gives that pool back |
| `StorageStream.StorageRoundTrip` | src/snapshot.cpp:216-266 | Same dense order, values, marks and tombstones after writing and reading |

## Left out

- DeltaRestore.RestoreDelta: the tombstones that replay leaves on the target are those of the run of steps it returns, and are not listed one by one. Component metadata checks and the merge of current system entities are left out.
- DirtyFrames.DirtySnapshotTracker.OnDirtyFrame: the writer callback is the returned frame; an absent writer and component options are not modelled.
- DirtyFrames.Broadcast: one listener instead of a list of subscribers.
- RewindTimelineModule.RewindTimeline.Capture: requires that all marks were cleared at the previous capture and that the registry changed only through its operations since, as the dirty-frame scope provides.
- StorageStream.ReadStorage: a component value is one unit of the stream, an index of 2^32 - 1 or a tombstone flag byte above three counts as ill-formed, and the byte order of the fields is not modelled.
- StorageStream.WriteStorage: writes the compact copy a snapshot holds, which is the only pool the source serializes from.
- Scheduler.CanonicalOrderIsUnique: the standard library sort is modelled by its result.
- SerialEquivalence.TickMatchesSerialRun: its steps act at once; marks that are merged after a stage, and entities collected as it begins, are the subject of `JobVisits.CollectedTickMatchesSerialRun`.
- MarkedTicks.TickMatchesMarkedSerialRun: takes the visits as given; which entities are collected is the subject of `JobVisits.CollectedTickMatchesSerialRun`.
- SplitJobRun.RunThreadedJob: runs the tasks one after the other, as without an executor; arbitrary interleavings are the subject of `SplitJobs.SplitMatchesUnsplit` and `MarkedTicks.DeferralIsInvisible`.
- SplitJobRun.RunRange: does not look at the filter again for each position; by `JobVisits.SeenIsStable` it would see the same.
- SparsePool.Pool.WriteValue: the branch that logs instead of marking is `SplitJobRun.StoreAll`.
- SparsePool.Pool.MarkTombstone: requires an index below 2^32 - 1, which entity slots never exceed.
- ThreadPool.EveryRunPasses: bounds every run, but assumes that some enabled step is taken; shutting the pool down is not modelled.
- RegistryModule.Registry.BuildGroup: requires the pools of all owned components, which declaring a group creates first.
- RegistryModule.Registry.DestroyEntity: destroying an entity that is itself a component is not modelled.
- Views.RefreshState: access and optional components are not resolved; they do not change what is iterated.
- StructuralJobs.EachStructuralJob: the branch that iterates over a copied entity list, for jobs that may touch any entity, is not modelled.
- Snapshots.CreateSnapshot: the exclusion mask is a parameter, which the source derives from the tags of system and job entities; the pool of the system tag itself is not special.
- DirtyFrames.PublishAndFollow: the mask excludes the same entities from one frame to the next.
- Snapshots.RestoreSnapshot: the merge of current system entities is left out.
- BitBufferModule.BitBuffer.WriteBufferBits: a buffer is not appended to itself.
- BitBufferModule.BitBuffer.ReadBufferBits: a buffer is not read into itself.
- Component registration and unregistration during a run, schema checks of restored components, and singletons: component ids are numbers.
- Lifecycle hooks and exceptions thrown by callbacks: hooks are absent, and a body that throws counts as finished for the guard.
- Ticks for a given list of entities; mutable tag filters inside threaded jobs.
- Views over singletons only and runtime tag filters.
- Raw memory, alignment, construction and destruction of values, allocation failure, capacities.
- Memory orderings: atomics are sequentially consistent steps.
- Wrap-around of the 64-bit state and view tokens, which are natural numbers here; a new state token is a parameter.
- Clearing the marks of a single entity or component between two frames, which the delta stream does not support.
- Persistent component encoding against a baseline, component name tables and metadata records.
- Signed and floating-point accessors of the bit buffer, which only reinterpret the unsigned ones.
- The debug server, JSON handling, sockets and all drawing code.
