# Verified model of vyre's caches, scope analyses, codecs and bundle checks

This project models the parts of vyre whose correctness is hardest to see from
reading one function, and proves what they promise. Everything is stated for all
inputs, all call sequences or all interleavings.

**Megakernel plan cache** (`Topology`, `TopologyMeaning`, `RecencyModel`, `RecencyHistory`,
`PlanCacheIndex`, `PlanCache`).
The CUDA plan cache keeps an entry map stamped by a 64-bit serial, a min-queue that
is cleaned lazily and so holds stale records, an index from plan identity to its
latest topology, and pinned counters. `PlanCache.Cache` is that object. Every method
is proved to act on its abstract value exactly as a plain recency list acts
(`RecencyModel`), through hits, misses, evictions, clears and renumbering of the
serials, and `PlanCache.Serve` carries this over whole runs. The invariant every method
keeps, `PlanCacheIndex.Agree`, says that each cached key has its live queue record, that
all serials are distinct, and that the index holds, for exactly the cached identities,
the newest entry's stamp and topology. `RecencyHistory` ties every run to the calls made:
which keys are cached, which plan each call is given and against which previous topology
it was decided, and what the counters count. The project also proves that no device
without grid sync is ever planned as a fused wave, and when an execution plan comes out.

**Scope analyses** (`SourceWalker`, `Bindings`, `ScopeTracking`, `AssignScopes`, `WalkReports`,
`KernelIr`, `Dangling`, `DanglingScope`, `DanglingMeaning`, `DanglingOrigins`). Two recursive walks
with mutable scope stacks. The loop-carried assignment walk reports exactly the in-loop
assignments whose nearest binding is the innermost loop's own scope or further out;
`Bindings` says what is bound where from the statements alone. The dangling check
reports each result reference that is out of scope exactly once, in preorder, with
the last producer of its id; `DanglingScope` says what is in scope from the ops along a
body's path alone.

**Optimizer memo cache** (`ProgramShard`, `OptimizeCache`, `OptimizeCalls`,
`DeviceKey`, `WorkgroupPolicy`, `WorkgroupMeaning`). Two first-in-first-out shards behind one lock. A call
is a sequence of separate critical sections, so the model is a step system with any
number of threads, evictions, and panics that poison the lock.

**E-graph scratch slab and readback codec** (`AlignUp`, `ScratchSlab`, `Bytes`,
`EquivalenceCodec`). Span placement by bit masks, in-place word writes, sorting and
deduplication, and the round trips through bytes.

**AOT bundler against launcher** (`Names`, `AotBundle`, `AotLauncher`). Two
independent validators of the same manifest, compared.

**Descriptor diff and rewrite bisection** (`PathSums`, `DescriptorDiff`,
`RewriteBisect`). Op counts keyed by tree path, with their conservation laws.

`Machine`, `Sequences` and `Ordering` hold fixed-width integers, sequence vocabulary
and sorting. `dafny verify dfyconfig.toml` checks the whole project.

## What the code does not promise

Five expected properties fail of the code. For each the project gives a witness and
the exact condition under which the property holds.

1. *A plan that fits sparse is always served.* A topology whose footprint does not fit
   64 bits is an error even when the sparse plan fits; only an over-budget topology is
   downgraded. The documentation of `get_or_plan_execution` speaks of a topology that
   "no longer fits" without this distinction. Witness
   `RecencyModel.OverflowIsNotDowngraded`, the first request to an empty cache. Exact
   condition on the caller's arguments `RecencyModel.AlwaysServedIff`; in a given state
   of the cache `RecencyModel.ExecuteIsExact`.
2. *The device cache returns the program tuned for the caller's device.* The key does
   not hash the preferred workgroup tile, but the tuner reads it, so two devices that
   differ only in it share a cache line. Witness `OptimizeCache.TileIsForgotten`. Exact
   condition `OptimizeCache.RightIffHashedFieldsFixWidth`: profiles in use that agree on
   the hashed fields must get the same width for every program that is tuned. The tile
   is the only such field: `OptimizeCache.RightWhenTileFollowsHashedFields`.
3. *A bundled artifact is accepted by its launcher.* The bundler writes the target as its
   identifier, while the loader reads the name of one of its own two variants, so no
   built-in target is read back, and no bundle that the repository's one launcher
   emitter lets the bundler write is accepted (`AotLauncher.WrittenBundleIsRefused`,
   `AotLauncher.RefusedAtParsing`). The loader also refuses an empty version or name and
   a fingerprint that is neither absent nor eight lanes (`AotLauncher.BundledButRefused`).
   Exact condition `AotLauncher.BundleIsAcceptedIff`.
4. *A let inside a loop body is local to the loop.* The walk counts the loop's own scope
   as crossed before searching it. Witness `AssignScopes.LoopLocalLetIsReported`, exact
   condition `AssignScopes.ReportsAreCarriedAssigns`.
5. *The bounded cache needs bounded memory.* Every served lookup queues a record, and
   records leave only when the cache is full, rebased or cleared. Witness
   `PlanCache.QueueOutgrowsCache`: one entry and as many records as lookups, up to the
   end of the clock, for every capacity but zero. The bound that does hold is one record
   per serial (`PlanCache.Cache.QueueWithinClock`), and `PlanCache.Cache.GetOrInsertWith`
   says when the queue grows.

A recorded op-count change of zero is possible: a new empty body is recorded, a removed
empty body is not (`DescriptorDiff.Recorded`).

## Assumptions and parameters

- `usize` is 64 bits wide. Integers are unbounded with every width, overflow check and
  saturation written out.
- Floating-point telemetry is a real number or a non-finite value; rounding inside the
  float unit is not modelled. The pressure bucketing of cache keys is an arbitrary
  function.
- Allocator answers, hash functions, the IR optimizer, the rewrites, the verifier and
  operand classification are arbitrary functions. Where hashes must not collide, the
  lemma says so.
- Unordered iteration (hash maps, the binary heap's layout) is an arbitrary choice.
  `sort_unstable` is an insertion sort; only order and contents are used.

## Model

| member | source | states |
|---|---|---|
| Topology.HysteresisSettles | vyre-driver/src/megakernel_execution.rs:193-343 | under constant telemetry, feeding the chosen topology back settles after at most one correction, and says exactly when there is one |
| Topology.NoPressureNeverFuses | vyre-driver/src/megakernel_execution.rs:193-343 | with zero fusion pressure neither selector returns a fused wave, whatever the previous topology |
| Topology.PlanMemoryIsExact | vyre-driver/src/megakernel_execution.rs:346-386 | the chain of checked additions and multiplications succeeds exactly when the unbounded footprint is within budget, reports overflow exactly when that footprint exceeds 64 bits, and otherwise over-budget with the true total |
| Topology.SparseIsTheLowerBound | vyre-driver/src/megakernel_execution.rs:501-523 | sparse has the least footprint of all topologies, so it fits whenever any topology fits |
| TopologyMeaning.SelectMeans | vyre-driver/src/megakernel_execution.rs:193-241 | which topology a request gets, in shares of its own quantities: the memory red zone, when fusion pays, and the density and degree intervals of the others |
| TopologyMeaning.PressuresMean | vyre-driver/src/megakernel_execution.rs:457-489 | the recorded memory, degree and launch pressures reach a number of basis points exactly when the request's own ratios do |
| TopologyMeaning.SelectAfterMeans | vyre-driver/src/megakernel_execution.rs:245-343 | the previous topology is kept exactly within its own wider interval, except that sparse ones stay or become sparse near the red zone |
| TopologyMeaning.PlanPartsAddUp | vyre-driver/src/megakernel_execution.rs:346-386 | a plan's graph, frontier, scratch and output bytes are those of the request and add up to the required bytes, with the pressure of the whole |
| TopologyMeaning.ScratchSteps | vyre-driver/src/megakernel_execution.rs:501-523 | scratch grows from sparse through dense, hybrid and fused by one base each, with the floors of the warp-sparse and block-dense topologies |
| TopologyMeaning.UnitIsNearest | vyre-driver/src/megakernel_execution.rs:449-455 | a telemetry value is read as the nearest number between zero and one, and as zero when it is not finite |
| RecencyModel.RunKeepsWellFormed | vyre-driver-cuda/src/megakernel_plan_cache.rs:218-256 | over every run the ideal list stays within the bound, lists each key once and caches the topology its decision names |
| RecencyHistory.HoldsMostRecentlyUsed | vyre-driver-cuda/src/megakernel_plan_cache.rs:218-415 | after any run the cached keys are exactly the most recently used distinct keys since the last clear, up to the capacity, in order of last use, skipping refused calls |
| RecencyHistory.RunFollowsHistory | vyre-driver-cuda/src/megakernel_plan_cache.rs:218-397 | after any run each cached key holds the plan it was last given, and a call is given the cached plan or else a decision against the topology last given to its identity, when the key that was given it is still cached, and against none otherwise |
| RecencyHistory.AnswersFollowHistory | vyre-driver-cuda/src/megakernel_plan_cache.rs:218-415 | every answer of a run is the one its history names |
| RecencyHistory.CountersAreExact | vyre-driver-cuda/src/megakernel_plan_cache.rs:218-256 | over every run the hits, misses and evictions are counted once each up to the largest counter, and every missed key is still cached, was evicted or was cleared |
| RecencyModel.RunIsGridSafe | vyre-driver-cuda/src/megakernel_plan_cache.rs:264-397 | over every run of topology and execution requests, nothing cached or returned for a device without grid sync is a fused wave, provided selectors without fusion pressure return one only when the previous topology was one |
| RecencyModel.StandardRunIsGridSafe | vyre-driver-cuda/src/megakernel_plan_cache.rs:264-397 | the same for this repository's selectors, without further assumption |
| RecencyModel.InsertCanFuseWithoutGridSync | vyre-driver-cuda/src/megakernel_plan_cache.rs:218-256 | the raw insertion call is not covered by that guarantee: it caches any decision given to it |
| RecencyModel.FinishIsExact | vyre-driver-cuda/src/megakernel_plan_cache.rs:353-396 | an execution plan comes out exactly when the chosen footprint fits 64 bits and the sparse one fits the budget; it carries the memory plan of its own topology; it is downgraded exactly when the chosen one is over budget; an over-budget error carries the sparse footprint and means every topology is over budget |
| RecencyModel.ExecuteIsExact | vyre-driver-cuda/src/megakernel_plan_cache.rs:322-397 | in any state, an execution request moves the cache as a topology request does and answers with a plan exactly when the topology it is given fits 64 bits and sparse fits the budget; it fails for overflow exactly when that topology, or sparse itself, overflows, and otherwise over budget with the sparse footprint |
| RecencyModel.AlwaysServedIff | vyre-driver-cuda/src/megakernel_plan_cache.rs:322-397 | a request is answered with a plan after every run of calls exactly when sparse fits its budget and the fused and block-dense footprints fit 64 bits |
| RecencyModel.OverflowIsNotDowngraded | vyre-driver-cuda/src/megakernel_plan_cache.rs:322-397 | the first request of a fusing device to an empty cache fails for overflow although its sparse plan fits the budget |
| PlanCacheIndex.OrderIsUnique | vyre-driver-cuda/src/megakernel_plan_cache.rs:504-521 | the serial stamps determine the recency order |
| PlanCacheIndex.OneLiveRecordPerKey | vyre-driver-cuda/src/megakernel_plan_cache.rs:460-471 | a key is cached exactly when the queue holds a live record of it, and the live records of a key are one; that the heap never holds that record twice is carried by `Enqueue` |
| PlanCacheIndex.LookupMatchesScan | vyre-driver-cuda/src/megakernel_plan_cache.rs:417-430 | one lookup in the identity index answers what scanning the whole recency list would |
| PlanCacheIndex.EvictLatest | vyre-driver-cuda/src/megakernel_plan_cache.rs:446-487 | when eviction recomputes an identity's line, no entry of that identity is left, so the line is removed; otherwise the index needs no change |
| PlanCacheIndex.HitAgrees | vyre-driver-cuda/src/megakernel_plan_cache.rs:224-232 | restamping a key, queueing its record and updating the index keeps all structures in agreement and moves the key to the end of the order |
| PlanCacheIndex.InsertAgrees | vyre-driver-cuda/src/megakernel_plan_cache.rs:241-255 | inserting a key with a fresh serial keeps them in agreement and appends it |
| PlanCacheIndex.EvictAgrees | vyre-driver-cuda/src/megakernel_plan_cache.rs:460-487 | the smallest live record is the least recently used key, and removing it keeps them in agreement |
| PlanCacheIndex.RebaseIsOrderIsomorphism | vyre-driver-cuda/src/megakernel_plan_cache.rs:504-540 | stamping 1..n in the old order preserves which of any two entries is more recent, and the recency list itself |
| PlanCacheIndex.RebaseAgrees | vyre-driver-cuda/src/megakernel_plan_cache.rs:504-540 | after renumbering all structures agree again and the queue holds no stale record |
| PlanCacheIndex.SortedRecordsFollowOrder | vyre-driver-cuda/src/megakernel_plan_cache.rs:505-517 | collecting one record per entry and sorting by serial lists the keys in recency order |
| PlanCache.Cache.constructor | vyre-driver-cuda/src/megakernel_plan_cache.rs:204-215 | a new cache agrees with the empty recency list |
| PlanCache.Cache.LatestTopologyForIdentity | vyre-driver-cuda/src/megakernel_plan_cache.rs:417-430 | returns the topology of the most recently used plan of the identity |
| PlanCache.Cache.Enqueue | vyre-driver-cuda/src/megakernel_plan_cache.rs:228-254 | every record pushed is newer than all queued ones, so as a multiset the queue gains exactly that record |
| PlanCache.Cache.UpdateLatestIdentity | vyre-driver-cuda/src/megakernel_plan_cache.rs:432-444 | a line is replaced unless it carries a newer serial |
| PlanCache.Cache.RecomputeLatestIdentity | vyre-driver-cuda/src/megakernel_plan_cache.rs:446-458 | the line becomes that of the newest entry of the identity, or disappears when there is none; no other line changes |
| PlanCache.Cache.EvictUntilBelowLimit | vyre-driver-cuda/src/megakernel_plan_cache.rs:460-487 | terminates below the limit having evicted exactly the least recently used entry when full, and having popped nothing otherwise; the empty-queue exit is never taken |
| PlanCache.Cache.RebaseLruSerials | vyre-driver-cuda/src/megakernel_plan_cache.rs:504-540 | entries are renumbered 1..n in recency order, stale records vanish, the recency list is unchanged, and a refused reservation changes nothing |
| PlanCache.Cache.AdvanceSerial | vyre-driver-cuda/src/megakernel_plan_cache.rs:489-502 | the new serial is newer than every queued record; fails exactly when the clock is exhausted and the rebase cannot reserve or leaves no serial |
| PlanCache.Cache.GetOrInsertWith | vyre-driver-cuda/src/megakernel_plan_cache.rs:218-256 | list, counters and returned plan change exactly as one lookup in the recency list; an error leaves them as they were; without a rebase the queue gains exactly one record when the key is cached or there is room, and gains none at capacity zero |
| PlanCache.Cache.GetOrSelectTopology | vyre-driver-cuda/src/megakernel_plan_cache.rs:264-312 | the same with the key and the decision made from the request and the identity's latest topology |
| PlanCache.Cache.GetOrPlanExecution | vyre-driver-cuda/src/megakernel_plan_cache.rs:322-397 | the same with sparse memory pressure, and the answer validated against the caller's budget; refused exactly when it gets to the cache and no serial can be had |
| PlanCache.Cache.ClearAll | vyre-driver-cuda/src/megakernel_plan_cache.rs:411-415 | empties the list and keeps the counters |
| PlanCache.Cache.Stats | vyre-driver-cuda/src/megakernel_plan_cache.rs:401-408 | reports the counters and the length of the list |
| PlanCache.Cache.QueueWithinClock | vyre-driver-cuda/src/megakernel_plan_cache.rs:228-254 | in every valid state the queue holds at most one record per serial |
| PlanCache.QueueOutgrowsCache | vyre-driver-cuda/src/megakernel_plan_cache.rs:218-256 | for every capacity above zero and every n up to the end of the clock, n lookups of one key leave one entry and n records |
| PlanCache.Serve | vyre-driver-cuda/src/megakernel_plan_cache.rs:195-541 | for every sequence of calls the answers and final state are those of the recency list; a call is refused only after the serials left at the start are used up, and then only when a rebase cannot reserve or the bound leaves no serial |
| Ordering.SortIfNeeded | vyre-driver/src/ordering.rs:43-58 | the result is ascending with the same elements, and is the input itself when that was ascending |
| SourceWalker.Walker.DefinedOutsideLoop | vyre-debug/src/source_walker.rs:43-57 | the inner-to-outer scan counting loop boundaries decides whether the nearest definition is in a loop's own scope or outside a loop |
| SourceWalker.Walker.Walk | vyre-debug/src/source_walker.rs:19-119 | the in-place walk produces the reports and scopes of the recursive definition and restores the loop path |
| ScopeTracking.CrossesMeans | vyre-debug/src/source_walker.rs:43-57 | the scan succeeds exactly when the nearest binding is at or outside some loop's own scope |
| AssignScopes.ScopesAreBindings | vyre-debug/src/source_walker.rs:19-119 | the scopes around any statement hold, level by level, exactly the names its program binds there, and the loop path is that of the loops around it |
| AssignScopes.ReportsAreCarriedAssigns | vyre-debug/src/source_walker.rs:27-119 | a (name, loop path) pair is reported exactly when some in-loop assignment has its nearest binding, read from the statements alone, in the innermost loop's own scope or further out, although each assignment also inserts its name and masks later ones |
| AssignScopes.WellScopedReports | vyre-debug/src/source_walker.rs:27-119 | in a program where every assigned name has an earlier visible let or loop variable, the same with bindings made by lets and loop variables alone |
| AssignScopes.LoopVariableIsReported | vyre-debug/src/source_walker.rs:27-119 | in every program an assignment to the innermost loop's own variable is reported with the loops around it, unless a let of that name stands in between |
| Bindings.WellScopedCarries | vyre-debug/src/source_walker.rs:27-119 | in a well-scoped program an earlier assignment never counts as a binding of its own |
| WalkReports.EnvIsMentions | vyre-debug/src/source_walker.rs:19-119 | at any statement the walk's own scopes hold, level by level, exactly the names declared or assigned there before it |
| WalkReports.ReportsListAssignments | vyre-debug/src/source_walker.rs:27-119 | the reports stand one by one, in program order, for the assignments that cross a loop, each with its name and the loops around it |
| WalkReports.WalkSourceAssigns | vyre-debug/src/source_walker.rs:9-128 | the entry point lists those assignments in that order, and the pairs it reports are exactly those of the carried assignments |
| AssignScopes.LoopLocalLetIsReported | vyre-debug/src/source_walker.rs:44-57 | a let directly in a loop body counts as outside the loop, one block deeper it does not |
| KernelIr.ResultIdsMeans | vyre-lower/src/descriptor.rs:236-252 | an op defines its result id, a matrix op that id and the next three, as far as they fit 32 bits |
| Dangling.CompletedBeforeMeans | vyre-debug/src/dangling.rs:115-121 | an id is completed before an op exactly when an earlier op names a child whose subtree defines it |
| Dangling.ChildScopeMeans | vyre-debug/src/dangling.rs:99-106 | a child inherits the union, over all ops that name it, of what was visible before them |
| Dangling.SubtreeResultsMeans | vyre-debug/src/dangling.rs:131-142 | the collected ids of a subtree are exactly those that some op in it defines |
| Dangling.CollectBodyResults | vyre-debug/src/dangling.rs:131-142 | collects exactly the ids that some op of the subtree defines |
| Dangling.Checker.CheckBody | vyre-debug/src/dangling.rs:50-129 | appends the reports of the body tree in order and restores the path |
| DanglingScope.ScopeIs | vyre-debug/src/dangling.rs:50-129 | the scope of a body in closed form: an id is in it exactly when some body on its path supplies it, by an earlier op that defines it or names a child producing it before an op that names the next step, and ops name every step after that |
| DanglingScope.DanglesIsLoose | vyre-debug/src/dangling.rs:50-129 | the checker's condition is that of a reference whose id no op of its body defines, no child finished before it produces and no body on its path supplies |
| DanglingMeaning.ReportIsLoose | vyre-debug/src/dangling.rs:50-129 | every report stands for a result reference that is not in its own body's results, not completed and not inherited |
| DanglingMeaning.LooseIsReported | vyre-debug/src/dangling.rs:50-129 | every such reference is reported |
| DanglingMeaning.ReportsInPreorder | vyre-debug/src/dangling.rs:50-129 | reports come in strict preorder of their sites |
| DanglingOrigins.OriginBuilder.BuildIdOrigins | vyre-debug/src/dangling.rs:21-36 | the table is that of entering all producers in preorder, later ones replacing earlier ones |
| DanglingOrigins.OriginIsLastProducer | vyre-debug/src/dangling.rs:21-37 | an id's origin is its last producer in preorder, and unknown exactly when no op of the tree produces it |
| DanglingOrigins.ScopeFromParent | vyre-debug/src/dangling.rs:99-129 | at any depth, a body inherits an id exactly when some op of its parent names it and the id was visible before that op |
| DanglingOrigins.FindDanglingRefs | vyre-debug/src/dangling.rs:18-48 | every dangling site is reported, nothing else is, each once and in preorder, with its id, op kind and origin; dangling is stated by the closed form of the scope |
| DanglingOrigins.NothingDanglesMeansProduced | vyre-debug/src/dangling.rs:18-142 | if nothing dangles, every result reference in the tree names an id that some op of the tree produces |
| DescriptorDiff.Counter.WalkCounts | vyre-debug/src/descriptor_diff.rs:35-46 | the map gains exactly the paths of the tree, each with its body's op count, and keeps everything else |
| DescriptorDiff.SortedSlots | vyre-debug/src/descriptor_diff.rs:21-30 | lists a slot set strictly ascending |
| DescriptorDiff.OpCountDelta | vyre-debug/src/descriptor_diff.rs:48-63 | records the exact change at the paths whose count changed and at every new body, and nowhere else |
| DescriptorDiff.DiffDescriptors | vyre-debug/src/descriptor_diff.rs:17-82 | dropped and added slots, the change at every path, and whether the root ops' variants differ |
| DescriptorDiff.SlotsAreConserved | vyre-debug/src/descriptor_diff.rs:17-30 | before slots minus dropped plus added are the after slots |
| DescriptorDiff.EmptyDiffMeans | vyre-debug/src/descriptor_diff.rs:17-82 | a diff is empty exactly when slots, counts and root variants agree and no body is new |
| DescriptorDiff.SelfDiffIsEmpty | vyre-debug/src/descriptor_diff.rs:17-82 | diffing a descriptor with itself is empty |
| DescriptorDiff.DeltasSumToTotal | vyre-debug/src/descriptor_diff.rs:48-63 | the recorded changes add up to total ops after minus total ops before |
| RewriteBisect.BisectRewrites | vyre-debug/src/descriptor_diff.rs:91-169 | names the first rewrite whose result does not verify, with its errors, after a history of one diff per rewrite applied; names none exactly when every result verifies |
| RewriteBisect.HistoryTelescopes | vyre-debug/src/descriptor_diff.rs:150-163 | per body the recorded changes of a history add up to the overall change, and replaying the slot changes gives the final slots |
| WorkgroupMeaning.SelectWorkgroupX | vyre-foundation/src/execution_plan/policy.rs:211-254 | the search loop returns the chosen width: legal on the device, the declared one when that is kept, and otherwise a width tried that no width tried beats |
| WorkgroupMeaning.SelectIsChosen | vyre-foundation/src/execution_plan/policy.rs:211-254 | the same of the specified width for every declared width, problem size and device, with the legal widths, the widths tried and the declared width's condition in device fields |
| WorkgroupMeaning.ChoiceIsUnique | vyre-foundation/src/execution_plan/policy.rs:211-254 | no other width meets that |
| WorkgroupMeaning.TriedMeans | vyre-foundation/src/execution_plan/policy.rs:219-253 | the doubling loop tries every legal power of two that holds a subgroup, or the widest width where there is none, and nothing else |
| WorkgroupMeaning.ScoreMeans | vyre-foundation/src/execution_plan/policy.rs:350-376 | a score is 100 for each of up to eight subgroups, 1000 for the width the device's tile prefers, 250 for whole subgroups, 30 for specialization and the tail's points |
| WorkgroupMeaning.PreferenceMeans | vyre-foundation/src/execution_plan/policy.rs:379-404 | the preferred width is the widest power of two within the tile's volume and the device's limits, for tiles that fit the device |
| WorkgroupPolicy.SelectIsLegal | vyre-foundation/src/execution_plan/policy.rs:325-348 | the width is at most 256, the device's limit on the axis and its limit on invocations |
| WorkgroupPolicy.SelectsBest | vyre-foundation/src/execution_plan/policy.rs:236-253 | a width that is not the declared one is a candidate that no candidate beats, wider ones winning ties |
| WorkgroupPolicy.SelectIgnoresSpecialization | vyre-foundation/src/execution_plan/policy.rs:350-376 | support for specialization constants cannot change the width |
| WorkgroupPolicy.TileChangesWidth | vyre-foundation/src/optimizer/passes/specialization/autotune.rs:411-436 | two devices differing only in the preferred tile get widths 64 and 256 |
| DeviceKey.DeviceOptimizeKey | vyre-core/src/lib.rs:289-309 | feeding the hasher field by field hashes the specified stream |
| DeviceKey.EncodeInjective | vyre-core/src/lib.rs:289-309 | two streams are equal exactly when fingerprints, backend names and all hashed fields are, although the name has no length prefix |
| DeviceKey.KeyLayout | vyre-core/src/lib.rs:289-309 | where each hashed field stands in the stream |
| ProgramShard.ProgramCacheShard.constructor | vyre-core/src/lib.rs:330-335 | a new shard is empty |
| ProgramShard.ProgramCacheShard.Get | vyre-core/src/lib.rs:337-339 | returns the stored program, if any |
| ProgramShard.ProgramCacheShard.Put | vyre-core/src/lib.rs:341-352 | the shard becomes the specified insertion of the old one |
| ProgramShard.InsertKeepsShape | vyre-core/src/lib.rs:341-352 | an insertion keeps the queue duplicate-free, bounded and equal to the live keys, and evicts nothing but the oldest key of a full shard |
| ProgramShard.QueueIsLatestInsertions | vyre-core/src/lib.rs:341-352 | after any puts the queue is the longest suffix of the effective insertions that fits 256 |
| OptimizeCache.RunsAreRightIff | vyre-core/src/lib.rs:243-277 | over every interleaving of any number of threads, with evictions and poisoned locks, all calls return the right program exactly when equal keys mean equal results in both caches |
| OptimizeCache.ReachSound | vyre-core/src/lib.rs:386-408 | in every reachable state every stored entry is right for every program that would find it, and every thread is in a sound phase |
| OptimizeCache.HostCollisionIsServed | vyre-core/src/lib.rs:243-251 | colliding fingerprints make a concrete run return the other program's result |
| OptimizeCache.DeviceCollisionIsServed | vyre-core/src/lib.rs:261-277 | the same for colliding device keys |
| OptimizeCache.QueuesInEveryRun | vyre-core/src/lib.rs:324-352 | in every run, whatever the keys, both queues list exactly the live keys in insertion order, without duplicates and within 256 |
| OptimizeCache.FinishedIsCached | vyre-core/src/lib.rs:243-277 | a call that finishes under a sound lock leaves its key cached |
| OptimizeCache.TuneMeans | vyre-foundation/src/optimizer/passes/specialization/autotune.rs:40-103 | tuning leaves a program alone when it is not one-dimensional or has no guarding buffer, and otherwise gives it the width chosen for this very device |
| OptimizeCache.RightIffHashedFieldsDecide | vyre-core/src/lib.rs:261-309 | with collision-free hashes every run is right exactly when profiles in use that agree on the hashed fields lead to the same optimized program |
| OptimizeCache.RightIffHashedFieldsFixWidth | vyre-core/src/lib.rs:261-309 | with collision-free hashes and an optimizer that keeps widths apart, every run is right exactly when profiles in use that agree on the hashed fields get the same width for every tuned program |
| OptimizeCache.RightWhenTileFollowsHashedFields | vyre-core/src/lib.rs:289-309 | every run is right when profiles in use that agree on the hashed fields agree on the preferred tile |
| OptimizeCache.TileIsForgotten | vyre-core/src/lib.rs:289-309 | with two devices that differ only in the tile in use, some run returns the program tuned for the other one |
| OptimizeCalls.Cache.Optimize | vyre-core/src/lib.rs:243-251 | run alone, the sequential code ends in the state and with the result of the step system |
| OptimizeCalls.Cache.OptimizeForDevice | vyre-core/src/lib.rs:261-277 | the same for the device entry point and its nested host call |
| OptimizeCalls.CompleteIsRun | vyre-core/src/lib.rs:243-277 | completing a call is a run of the step system |
| Bytes.WordRoundTrip | vyre-driver-cuda/src/egraph_readback.rs:437-452 | decoding an encoded little-endian word gives it back |
| Bytes.BytesRoundTrip | vyre-driver-cuda/src/egraph_readback.rs:437-452 | encoding a decoded word gives the four bytes back |
| Bytes.ByteIsDigit | vyre-driver-cuda/src/egraph_readback.rs:437-452 | byte k is digit k of the word in base 256, in both directions |
| AlignUp.MaskRoundsDown | vyre-driver-cuda/src/egraph_readback.rs:180-192 | clearing the low k bits, bit by bit, rounds down to a multiple of two to the k |
| AlignUp.AlignIsLeastMultiple | vyre-driver-cuda/src/egraph_readback.rs:180-192 | for a power of two the result is the least multiple at or above the value, and the only failure is that this multiple does not fit |
| ScratchSlab.PlanIsTight | vyre-driver-cuda/src/egraph_readback.rs:105-132 | the four spans are ascending, disjoint, aligned to 4, 4, 8 and 8, large enough, and each starts at the least aligned place after the one before |
| ScratchSlab.PlanIsLeast | vyre-driver-cuda/src/egraph_readback.rs:105-132 | among all layouts of four ascending, disjoint, aligned spans of at least these sizes, none starts or ends any span earlier |
| ScratchSlab.Cursor.ReserveAlignedSpan | vyre-driver-cuda/src/egraph_readback.rs:162-178 | places the span there and advances past it exactly when it ends within the address range, and says which step overflowed otherwise |
| ScratchSlab.WriteU32WordsAt | vyre-driver-cuda/src/egraph_readback.rs:416-441 | writes the little-endian words at the offset and nothing else, exactly when they fit |
| ScratchSlab.ReadResidentU32Range | vyre-driver-cuda/src/egraph_readback.rs:288-322 | decodes every word, exactly when the byte length is four times the count and the host can allocate |
| ScratchSlab.BuildScratchBytes | vyre-driver-cuda/src/egraph_readback.rs:105-160 | succeeds exactly when the planned slab fits and can be allocated; then it holds the words and rows in their spans and is zero elsewhere |
| ScratchSlab.ReadBackSlab | vyre-driver-cuda/src/egraph_readback.rs:105-160 | reading the first two spans back yields exactly the bucket words and rows |
| EquivalenceCodec.DecodeEquivalencePairs | vyre-driver-cuda/src/egraph_readback.rs:324-351 | succeeds exactly when the buffer holds eight bytes per pair and the host can allocate; then returns every pair in order, and otherwise names the first word missing |
| EquivalenceCodec.DecodeUniqueEquivalencePairs | vyre-driver-cuda/src/egraph_readback.rs:353-362 | under the same condition returns the reported count and a strictly ascending list of exactly the encoded pairs |
| EquivalenceCodec.PairIsEightBytes | vyre-driver-cuda/src/egraph_readback.rs:324-351 | a pair is eight bytes, two little-endian words, the left one first |
| EquivalenceCodec.AscendingMeans | vyre-driver-cuda/src/egraph_readback.rs:353-362 | ascending means by the left word and, where that repeats, by the right |
| EquivalenceCodec.MembersDetermine | vyre-driver-cuda/src/egraph_readback.rs:353-362 | a strictly ascending list is determined by its members, so decoding does not depend on order or repeats |
| EquivalenceCodec.RoundTrip | vyre-driver-cuda/src/egraph_readback.rs:324-362 | encoding then decoding gives exactly the pairs, ascending and without repeats, and gives an ascending list back unchanged |
| EquivalenceCodec.DecodedEncodesBack | vyre-driver-cuda/src/egraph_readback.rs:324-351 | decoding then encoding gives the bytes read |
| Names.HasRepeatedKey | vyre-aot/src/bundle.rs:256-273 | sorting by key and comparing neighbours finds a repeat exactly when two positions share a key |
| AotBundle.CheckedAxisProduct | vyre-aot/src/bundle.rs:208-217 | succeeds exactly when the unbounded product of the axes fits 64 bits |
| AotBundle.ValidateDispatchGeometry | vyre-aot/src/bundle.rs:190-206 | accepts exactly non-zero axes whose products fit 64 bits |
| AotBundle.CheckedBufferBytes | vyre-aot/src/bundle.rs:282-294 | the overflow branch is never taken |
| AotBundle.ValidateBufferTable | vyre-aot/src/bundle.rs:219-280 | accepts exactly the tables with named, sized buffers, a valid metrics buffer if present, and pairwise distinct bindings and names |
| AotBundle.OneMetricsBuffer | vyre-aot/src/bundle.rs:274-279 | with distinct names the count of metrics buffers is at most one, so its check never decides |
| AotBundle.ValidateArtifactForBundle | vyre-aot/src/bundle.rs:165-188 | accepts exactly artifacts with a kernel, an entry point, valid geometry and table, and weights that fit a finite first buffer |
| AotBundle.ManifestRecovers | vyre-aot/src/bundle.rs:106-126 | a manifest gives the artifact back, workgroup and grid in their places; with a digest that keeps byte strings apart, equal manifests mean the same artifact up to the target's namesake, the same name and the same weights |
| AotLauncher.ValidateBundleRelativePath | vyre-aot/templates/artifact.rs.tmpl:124-146 | the component walk accepts exactly relative paths without a parent step that name something, and keeps exactly the naming components in order |
| AotLauncher.JoinThenSplit | vyre-aot/templates/artifact.rs.tmpl:124-146 | the components of a path are the only list without slashes that joins to it |
| AotLauncher.ValidateDigest | vyre-aot/templates/artifact.rs.tmpl:344-352 | accepts exactly 64 hexadecimal digits |
| AotLauncher.ValidateManifestContract | vyre-aot/templates/artifact.rs.tmpl:148-185 | once parsed, the loader accepts exactly the manifests meeting its contract |
| AotLauncher.ValidateManifestDispatchStatic | vyre-driver-cuda/src/aot_launcher.rs:322-364 | decides the bundler's geometry condition; its zero-product branches are never taken |
| AotLauncher.ValidateManifestForLaunch | vyre-driver-cuda/src/aot_launcher.rs:273-320 | accepts exactly when entry point, buffers, geometry and metrics are valid and the allocations fit 64 bits together; the zero-total branch is never taken |
| AotLauncher.CheckLoadedBundle | vyre-driver-cuda/src/aot_launcher.rs:147-201 | the whole chain: reading the target, the contract, the digests, the launch checks and the upload bound |
| AotLauncher.BundleLaunchesIff | vyre-driver-cuda/src/aot_launcher.rs:191-364 | once parsed, a valid artifact's manifest passes the launch and upload checks exactly when total allocation fits 64 bits and the first buffer is finite or the weights are at most 2^24 bytes |
| AotLauncher.BundleLoadsIff | vyre-aot/templates/artifact.rs.tmpl:148-185 | once parsed, it meets the loader's contract exactly when version and name are non-empty, the fingerprint has zero or eight lanes, and the kernel file name stays in the bundle |
| AotLauncher.OnlyNamesakesAreRead | vyre-driver/src/registry/registry.rs:58-87 | the loader reads the written identifier of a target exactly when it is an extension named after one of the loader's variants |
| AotLauncher.BundleIsAcceptedIff | vyre-aot/src/bundle.rs:81-126 | a valid artifact's bundle whose files arrive intact is accepted exactly when its target is such an extension, total allocation fits 64 bits, the first buffer is finite or the weights are at most 2^24 bytes, version and name are non-empty, and the fingerprint has zero or eight lanes |
| AotLauncher.WrittenBundleIsRefused | vyre-driver-cuda/src/lib.rs:1140-1145 | no bundle that the registered launcher emitter lets the bundler write is accepted by its launcher |
| AotLauncher.RefusedAtParsing | vyre-aot/templates/artifact.rs.tmpl:15-19 | a built-in target is refused even when every other condition holds |
| AotLauncher.PlainExtensionIsRelative | vyre-aot/templates/artifact.rs.tmpl:124-146 | a target extension without a slash gives a file name that stays in the bundle |
| AotLauncher.BundledButRefused | vyre-aot/templates/artifact.rs.tmpl:159-161 | a PTX artifact that is written under an empty name and does not meet the loader's contract |

## Left out

- Float rounding: telemetry is exact reals, so a value within one rounding step of a threshold may fall on the other side in the program.
- PlanCache.Cache.RebaseLruSerials: the scratch reservation is a yes-or-no parameter; the error text and field names are not modelled.
- Pressure bucketing of plan-cache keys: an arbitrary function of the request, because no property depends on the bucket widths.
- OptimizeCache.TileIsForgotten: takes as given that the optimizer keeps programs of width 64 and 256 apart, and OptimizeCache.RightIffHashedFieldsFixWidth that it keeps any two widths apart; the optimizer passes are not modelled.
- Program rebuilding after tuning (bounds guards, shape facts): one arbitrary function of the program and the selected width.
- DeviceKey.DeviceOptimizeKey: profile fields that are neither hashed nor read by the tuner are left out of the profile.
- The hash functions BLAKE3 and SHA-256, and the compressors: arbitrary functions; loading assumes the files arrive intact.
- The JSON text of the manifest: beyond the spelling of the target, every field is taken to be read as it was written; memory kinds, access modes and notes, which neither side checks, are left out.
- AotLauncher.ValidateManifestForLaunch: the emitted source compares a 32-bit count with a `usize` constant, which Rust does not type; it is modelled as the comparison of integers it stands for.
- AotBundle.Writes: compression, launcher emission and the file system are taken to succeed once an emitter is registered.
- Error messages and the order in which several errors of one input are reported, except where an error value is returned to the caller.
- CUDA driver calls, resident buffers, device probing, PTX emission, environment variables and file writing.
- The IR rewrites, `classify_operand` and the descriptor verifier: parameters of the analyses.
- The fixed list of 18 rewrites in the bisection: proved for any list.
- Benchmarks, dashboards, dumps and serialization helpers: reporting code.
