# Verified model of the KV offload core

This project models the parts of the repository in which most can go wrong, in Dafny, and
proves what they promise.

- **The resident LRU step of the sparse KV cache.** A row holds a table from slots to tokens
  and an LRU order of the slots. A call with a Top-K list forgets tokens past the stable
  prefix, serves hits, gives the oldest evictable slots to misses and rebuilds the order.
  The repository has three kernels for it. `LruSpec` gives one abstract step, `LruMeaning`
  determines it by its inputs alone, `LruFacts` and `LruRuns` prove what it guarantees in one
  call and in whole runs, and `LruPhased`,
  `LruFused` (with `WarpScan`) and `LruLegacy`, `LruLegacyKernel`, `LruLegacyExact` prove that
  each kernel, written as loops over arrays, refines it. `LruLaunch` covers the host's choice
  of kernel for all rows of a call, runs of launches, and the workspace slices shared between
  rows and threads.
- **The host pool allocator** (`Allocator`): a class with an address index, a size index and
  a map of live blocks, its canonical form and confluence.
- **The TCP message link**: the linked send queue (`MessageQueue`), the frame format
  (`MessageFraming`), sender and receiver as a step system (`MessageLink`) and as code
  (`MessageEndpoints`), and the code under any schedule (`MessagePlay`).
- **Two protocols** as step systems over all interleavings: the flag-synchronised all-reduce
  (`AllReduce`) and the socket barrier (`Barrier`).

How the original's form is kept:

- A phase between two block barriers is, for each array it writes, a loop that picks any
  remaining lane until none is left, so what is proved of it holds for every lane order.
  Where a lane writes several arrays in one phase the model does so array by array; the
  arrays are different and no lane reads then what another lane writes. Work on registers
  only (the shuffles, the local miss flags) is written as sequences. Atomic minimum and
  maximum are one read and one write of such a step.
- The topk, capacity, max_token, warp width and number of tiles are parameters.
- An LRU row may hold invalid entries, as the kernels allow. The phased and fused kernels need
  its valid entries distinct, the legacy kernel is modelled on any row. Statements that need a
  permutation say so.
- Memory between barriers, and between kernels of one stream, is sequentially consistent.
- Sizes of partial reads and writes, and the order of steps, are inputs of the step systems.

Where the code does not have a property for all inputs, the exact condition is proved:
single residency of the phased step (`LruFacts.ResidencyStaysInjective`), hits of a phased
call on a used workspace slice (`LruPhased.CallIsRightIff`), agreement of the abstract legacy
step (`LruLegacy.LegacyAgrees`), the legacy kernel's two branches
(`LruLegacyExact.ScratchStepIff`, `LruLegacyExact.SearchPlanIff`), size rounding
(`Allocator.AlignUpExact`, `Allocator.MemManager.Allocate`), push-back to an empty queue
(`MessageQueue.Queue.EnqueueFront`), failed writes (`MessageLink.NothingLostIff`), empty
bodies (`MessageLink.EndToEnd`), barrier errors (`Barrier.FailsIff`), barrier calls after an
error (`Barrier.InTimeIff`) and the copy in groups of 128 of the all-reduce
(`AllReduce.ExactIff`).

Two statements go one way only. Whole runs of phased calls are right from slices without
marks older than their epoch (`LruLaunch.Launches`, `LruLaunch.PhasedRun`); which marks
survive a call depends on the call. Without scratch, the legacy kernel takes the abstract
step if its plan is the same one; a different plan can by chance have the same outcome.

Check everything with `dafny verify dfyconfig.toml`.

## Model

| member | source | states |
|---|---|---|
| LruMeaning.StepIff | src/acc_offload/csrc/operators/acc_offload_lru_compact_simt.cpp:30-214 | an outcome is the step's if and only if it is what the inputs call for, told without plan or preparation: which slots keep their token (same request, valid, below the prefix), who is hit, which free slot the j-th miss takes, every cell of the table, of the LRU row, of the answers and of the miss lists |
| LruMeaning.HitIff | src/acc_offload/csrc/operators/acc_offload_lru_compact_simt.cpp:67-136 | on every usable row a position is answered by a slot that is not loaded anew if and only if it is the first to ask for a token that some slot keeps |
| LruMeaning.StableTokenIsHit | src/acc_offload/csrc/operators/acc_offload_lru_compact_simt.cpp:67-136 | a resident valid token below the prefix, for the same request, answers the first position asking for it from a slot that held it, and that slot is not loaded anew |
| LruMeaning.LoadedIff | src/acc_offload/csrc/operators/acc_offload_lru_compact_simt.cpp:67-186 | on a sound row a duplicate-free call that fits answers every valid token, and loads exactly those that are not resident below the prefix for the same request |
| LruMeaning.StepMeans | src/acc_offload/csrc/operators/acc_offload_lru_compact_simt.cpp:30-214 | the step has this meaning on every usable row |
| LruRuns.ResidencyWindow | src/acc_offload/csrc/operators/acc_offload_lru_compact_simt.cpp:119-214 | in every run of duplicate-free calls from a reset or a sound row, without a request change, a slot used in call t is not reassigned in calls t+1..t+k, whenever (k+1)*topk <= capacity |
| LruRuns.ProductionWindow | src/acc_offload/csrc/launch/acc_offload_operators_launch.cpp:26-31 | with 2048 positions and 4096 slots, what a call used survives the next call |
| LruRuns.StaysYoung | src/acc_offload/csrc/operators/acc_offload_lru_compact_simt.cpp:188-214 | how close to the young end of the LRU row a used slot still is j calls later |
| LruRuns.StepMovesSlot | src/acc_offload/csrc/operators/acc_offload_lru_compact_simt.cpp:138-214 | one call takes its victims from the first topk places and moves an unused slot down by at most topk places |
| LruRuns.UsedIsYoung | src/acc_offload/csrc/operators/acc_offload_lru_compact_simt.cpp:188-214 | a slot hit or assigned in a call ends in the last topk places of the LRU row |
| LruRuns.AlwaysSortedByUse | src/acc_offload/csrc/operators/acc_offload_lru_compact_simt.cpp:188-214 | in every run from a permutation, or from any row that the first call resets, the LRU row is ordered by the last call in which each slot was hit or assigned |
| LruRuns.EvictsLeastRecentlyUsed | src/acc_offload/csrc/operators/acc_offload_lru_compact_simt.cpp:138-186 | in every such run an assigned slot was last used no later than any slot the call neither hit nor assigned |
| LruRuns.SurvivorsOrdered | src/acc_offload/csrc/operators/acc_offload_lru_compact_simt.cpp:138-150 | evictable slots come in the order of their last use, and those past the assigned ones are unused |
| LruRuns.RebuiltLayout | src/acc_offload/csrc/operators/acc_offload_lru_compact_simt.cpp:188-214 | on a permutation the new LRU row is survivors, then assigned slots, then hit slots, with no padding |
| LruRuns.AlwaysPermutation | src/acc_offload/csrc/operators/acc_offload_lru_compact_simt.cpp:188-214 | in every such run the LRU row stays a permutation of the slots, and every call works on one |
| LruRuns.BasisIsEnough | src/acc_offload/csrc/operators/acc_offload_lru_compact_simt.cpp:30-47 | plan and outcome of a call depend only on the row it works on: the one found, or a reset one |
| LruRuns.PermutationSinceReset | src/acc_offload/csrc/operators/acc_offload_lru_compact_simt.cpp:30-47 | from the first call that resets the row on, the LRU row is a permutation, whatever it held before |
| LruRuns.ResetErasesHistory | src/acc_offload/csrc/operators/acc_offload_lru_compact_simt.cpp:30-47 | a call for another request does what it would do on a freshly reset row |
| LruRuns.AlwaysSound | src/acc_offload/csrc/operators/acc_offload_lru_compact_simt.cpp:85-214 | in every run of duplicate-free calls from a reset or a sound row, the row is a permutation with no token resident twice |
| LruRuns.AlwaysAnswered | src/acc_offload/csrc/operators/acc_offload_lru_compact_simt.cpp:119-186 | in every call of such a run a slot is the answer to a valid requested token if and only if it holds that token afterwards |
| LruFacts.AnswersAreRight | src/acc_offload/csrc/operators/acc_offload_lru_compact_simt.cpp:119-186 | a non-negative answer names a slot that holds the requested token after the step, for any Top-K |
| LruFacts.MissListsAreRight | src/acc_offload/csrc/operators/acc_offload_lru_compact_simt.cpp:152-186 | entry j < miss_count names a slot that now holds the listed token and answers a position asking for it; every slot not listed keeps the token it was prepared with |
| LruFacts.AnswersAreDistinct | src/acc_offload/csrc/operators/acc_offload_lru_compact_simt.cpp:152-186 | two positions never get the same slot, not even two positions with the same token |
| LruFacts.HitsAreStable | src/acc_offload/csrc/operators/acc_offload_lru_compact_simt.cpp:67-78 | a hit is served only for a valid token below the stable prefix, on an unreset row that already held the token, and its slot is not reassigned |
| LruFacts.EverythingResolved | src/acc_offload/csrc/operators/acc_offload_lru_compact_simt.cpp:152-186 | on a sound row with topk <= capacity every miss gets a slot, and a position is answered if and only if its token is valid |
| LruFacts.ResidencyStaysInjective | src/acc_offload/csrc/operators/acc_offload_lru_compact_simt.cpp:109-117 | after the step no token is resident twice if and only if no valid token was requested twice |
| LruFacts.UsedFitsTopk | src/acc_offload/csrc/operators/acc_offload_lru_compact_simt.cpp:138-160 | hit slots and misses together are at most topk |
| LruFacts.StaysPermutation | src/acc_offload/csrc/operators/acc_offload_lru_compact_simt.cpp:188-214 | the rebuilt LRU row is a permutation if the old one was |
| LruFacts.StaysSound | src/acc_offload/csrc/operators/acc_offload_lru_compact_simt.cpp:168-214 | a duplicate-free call keeps permutation and single residency |
| LruFacts.TableAfter | src/acc_offload/csrc/operators/acc_offload_lru_compact_simt.cpp:168-186 | assigned slots take the token of their miss, all other slots keep theirs |
| LruFacts.AnswerOf | src/acc_offload/csrc/operators/acc_offload_lru_compact_simt.cpp:168-186 | which slot each position ends with: its hit, the slot of its rank among the misses, or none |
| LruFacts.PlanDistinct | src/acc_offload/csrc/operators/acc_offload_lru_compact_simt.cpp:138-160 | evictable, hit and miss lists have no repeats and no slot is both evictable and hit |
| LruFacts.PermutationSplits | src/acc_offload/csrc/operators/acc_offload_lru_compact_simt.cpp:138-150 | on a permutation every slot is evictable or hit |
| LruSpec.PlanIsOk | src/acc_offload/csrc/operators/acc_offload_lru_compact_simt.cpp:138-165 | evictable and hit slots never need more than capacity cells and all planned indices are in range |
| Compaction.SelectUnique | src/acc_offload/csrc/operators/acc_offload_lru_compact_simt.cpp:138-160 | a list with every flagged item at its rank is the stable filter: the reference all compactions are measured by |
| LruPhased.Reset | src/acc_offload/csrc/operators/acc_offload_lru_compact_simt.cpp:30-47 | the row becomes the reset row exactly if the request id changed |
| LruPhased.Prepare | src/acc_offload/csrc/operators/acc_offload_lru_compact_simt.cpp:49-79 | for any thread order: outputs blank, exactly the valid tokens at or past the prefix become -1, and every other cell of the table is kept |
| LruPhased.BeginEpoch | src/acc_offload/csrc/operators/acc_offload_lru_compact_simt.cpp:97-107 | the next epoch, on cleared cells exactly if the old one was exhausted and on the old cells otherwise |
| LruPhased.CallIsRightIff | src/acc_offload/csrc/operators/acc_offload_lru_compact_simt.cpp:97-136 | one call finds the right hits and gives the right hit answers for every row and every Top-K if and only if no mark equals the coming epoch or the call clears the slice |
| LruPhased.NoStaleMarkIsRight | src/acc_offload/csrc/operators/acc_offload_lru_compact_simt.cpp:109-136 | without a mark of the coming epoch, marking and hit scan give exactly the hits of the abstract step |
| LruPhased.EpochStaysInRange | src/acc_offload/csrc/operators/acc_offload_lru_compact_simt.cpp:97-107 | after any number of calls the epoch is in [-1073741823, -2] |
| LruPhased.EpochRule | src/acc_offload/csrc/operators/acc_offload_lru_compact_simt.cpp:97-107 | the epoch goes down by one from -2 and starts over at -2 after 1 - 2^30, or from any non-negative value or -1 |
| LruPhased.PhasedShapeIff | src/acc_offload/csrc/operators/acc_offload_lru_compact_simt.cpp:504-513 | which shapes get the phased kernels, with every bound written out |
| LruPhased.StaleMarkAfterFusedCall | src/acc_offload/csrc/operators/acc_offload_lru_compact_fused_v3.cpp:358-364 | after a fused call stored epoch -2 over a mark -3, a phased call answers a request for token 0 with a slot that holds token 3 and does not count it as a miss |
| LruPhased.MarkTopk | src/acc_offload/csrc/operators/acc_offload_lru_compact_simt.cpp:109-117 | on any slice: which cells carry the epoch afterwards and with which position, stale cells included |
| LruPhased.EncodeHits | src/acc_offload/csrc/operators/acc_offload_lru_compact_simt.cpp:119-136 | on any marks: the in-place encoding and the answers that the marks and positions call for |
| LruPhased.MarkedHits | src/acc_offload/csrc/operators/acc_offload_lru_compact_simt.cpp:119-136 | on right marks these are the hit slots, and the youngest holder of each hit token answers its first position |
| LruPhased.PartitionSlots | src/acc_offload/csrc/operators/acc_offload_lru_compact_simt.cpp:138-150 | evictable slots from the front of token_mark and hit slots from its back, both stable and never overlapping |
| LruPhased.CollectMisses | src/acc_offload/csrc/operators/acc_offload_lru_compact_simt.cpp:152-160 | the unresolved valid positions and their tokens in Top-K order |
| LruPhased.MakePlanKernel | src/acc_offload/csrc/operators/acc_offload_lru_compact_simt.cpp:85-166 | the scratch cells hold exactly the abstract plan, the counts do not collide with positions, and a slice fit for runs stays so |
| LruDevice.AssignMisses | src/acc_offload/csrc/operators/acc_offload_lru_compact_simt.cpp:168-186 | for any thread order, exactly miss_count slots are assigned: the guards on slot and position always hold |
| LruDevice.RebuildLru | src/acc_offload/csrc/operators/acc_offload_lru_compact_simt.cpp:188-214 | for any thread order, every output place gets the slot of the rebuilt order |
| LruPhased.CompactPhased | src/acc_offload/csrc/operators/acc_offload_lru_compact_simt.cpp:30-214 | the five kernels of a row refine the abstract step if no mark equals the coming epoch, and keep a slice without marks older than its epoch that way |
| LruLaunch.PhasedRun | src/acc_offload/csrc/operators/acc_offload_lru_compact_simt.cpp:515-562 | any number of phased calls on one slice take the row through exactly the abstract run and the epoch through its sequence |
| LruLaunch.LaunchPhased | src/acc_offload/csrc/operators/acc_offload_lru_compact_simt.cpp:515-562 | all rows take the abstract step although rows eight apart reuse a workspace slice, and the epoch of slice w moves on once for every row i with i % 8 == w |
| WarpScan.ShuffleDoubles | src/acc_offload/csrc/operators/acc_offload_lru_compact_fused_v3.cpp:112-164 | one shuffle stage doubles the window each lane sums over |
| WarpScan.ShuffleScan | src/acc_offload/csrc/operators/acc_offload_lru_compact_fused_v3.cpp:112-164 | every lane below the limit ends with the inclusive sum of its warp |
| WarpScan.TotalsTelescope | src/acc_offload/csrc/operators/acc_offload_lru_compact_fused_v3.cpp:112-164 | scanning warp totals gives the sum of all lanes before a warp |
| WarpScan.BlockScan | src/acc_offload/csrc/operators/acc_offload_lru_compact_fused_v3.cpp:112-164 | every lane of the block ends with the inclusive prefix sum over the block, for any warp width |
| WarpScan.BlockAny | src/acc_offload/csrc/operators/acc_offload_lru_compact_fused_v3.cpp:376-413 | the result is non-zero if and only if some lane raised its flag |
| LruFused.ResetPrepare | src/acc_offload/csrc/operators/acc_offload_lru_compact_fused_v3.cpp:178-229 | the strided loops leave the prepared row: on a reset every token -1 and the slots in order, otherwise exactly the valid tokens at or past the prefix -1 |
| LruFused.ElectFirst | src/acc_offload/csrc/operators/acc_offload_lru_compact_fused_v3.cpp:435-450 | atomic minima in any order elect the first position of every token |
| LruFused.ElectYoungest | src/acc_offload/csrc/operators/acc_offload_lru_compact_fused_v3.cpp:453-474 | atomic maxima in any order elect, for every requested token, the last LRU place that holds it |
| LruFused.WinnerIsHolder | src/acc_offload/csrc/operators/acc_offload_lru_compact_fused_v3.cpp:476-487 | the elected place is the holder the ordered scan of the phased kernel ends with |
| LruFused.ServeHits | src/acc_offload/csrc/operators/acc_offload_lru_compact_fused_v3.cpp:476-487 | in any lane order the hit answers equal those of the phased kernel |
| LruFused.StableScan | src/acc_offload/csrc/operators/acc_offload_lru_compact_fused_v3.cpp:166-176 | the block scan of a tile gives each lane its rank relative to the tile start |
| LruFused.ScatterTile | src/acc_offload/csrc/operators/acc_offload_lru_compact_fused_v3.cpp:490-513 | in any lane order a tile places its slots; no two lanes write the same cell |
| LruFused.PartitionTiles | src/acc_offload/csrc/operators/acc_offload_lru_compact_fused_v3.cpp:490-513 | the tiled scan-and-scatter with carried bases equals the stable sequential filter at both ends of token_mark |
| LruFused.HasMiss | src/acc_offload/csrc/operators/acc_offload_lru_compact_fused_v3.cpp:516-526 | the block vote is non-zero if and only if some position is a miss |
| LruFused.CollectTiles | src/acc_offload/csrc/operators/acc_offload_lru_compact_fused_v3.cpp:528-547 | the tiled miss collection equals the sequential one |
| LruFused.NormalPlan | src/acc_offload/csrc/operators/acc_offload_lru_compact_fused_v3.cpp:415-559 | atomics and scans compute exactly the plan of the ordered kernel |
| LruFused.FastPathOutcome | src/acc_offload/csrc/operators/acc_offload_lru_compact_fused_v3.cpp:231-281 | consecutive slots for the valid positions and a rotated LRU row are the abstract step on a reset row |
| LruFused.ResetFastPath | src/acc_offload/csrc/operators/acc_offload_lru_compact_fused_v3.cpp:231-281 | the reset fast path leaves what planning and rebuilding on the reset row would |
| LruFused.NormalPath | src/acc_offload/csrc/operators/acc_offload_lru_compact_fused_v3.cpp:283-330 | plan, assign and rebuild in the workspace give the abstract step |
| LruFused.CompactFused | src/acc_offload/csrc/operators/acc_offload_lru_compact_fused_v3.cpp:561-590 | on both paths, for every order in which the lanes access an array within a phase, the kernel refines the abstract step, duplicates in Top-K included |
| LruFused.FusedAgreesWithPhased | src/acc_offload/csrc/operators/acc_offload_lru_compact_fused_v3.cpp:561-590 | from equal rows the fused and the phased kernels take the same step and leave equal tables, LRU rows, answers, miss lists, counts and request ids |
| LruLegacy.LegacyAgrees | src/acc_offload/csrc/operators/acc_offload_lru_compact_simt.cpp:309-329 | on a sound row with room, the legacy step equals the phased step if and only if no valid token is requested twice |
| LruLegacy.LegacyIsStepOnce | src/acc_offload/csrc/operators/acc_offload_lru_compact_simt.cpp:283-472 | for every row and Top-K the abstract legacy step is the phased step on the Top-K without repetitions, with the answers repeated and the miss tokens listed as far as they got a slot |
| LruLegacy.LegacyStaysSound | src/acc_offload/csrc/operators/acc_offload_lru_compact_simt.cpp:466-468 | for any Top-K at all the legacy step keeps the permutation and never makes a token resident twice |
| LruLegacy.LegacyAnswersAreRight | src/acc_offload/csrc/operators/acc_offload_lru_compact_simt.cpp:283-382 | for any Top-K a legacy answer names a slot that holds the requested token after the step |
| LruLegacy.LegacyEverythingResolved | src/acc_offload/csrc/operators/acc_offload_lru_compact_simt.cpp:309-382 | on a sound row with topk <= capacity a position is answered if and only if its token is valid, duplicates included |
| LruLegacy.LegacyEqualTokens | src/acc_offload/csrc/operators/acc_offload_lru_compact_simt.cpp:370-382 | equal tokens get equal slots |
| LruLegacy.LegacyMissSource | src/acc_offload/csrc/operators/acc_offload_lru_compact_simt.cpp:309-329 | a unique miss is the first position of a valid token that no slot holds |
| LruLegacyKernel.ScanHits | src/acc_offload/csrc/operators/acc_offload_lru_compact_simt.cpp:283-307 | all positions of a resident token get its youngest holder, and the thread's part of the scratch holds the evictable slots in order; nothing outside that part changes |
| LruLegacyKernel.CollectUnique | src/acc_offload/csrc/operators/acc_offload_lru_compact_simt.cpp:309-329 | first positions of missing tokens in Top-K order |
| LruLegacyKernel.AssignFromScratch | src/acc_offload/csrc/operators/acc_offload_lru_compact_simt.cpp:331-368 | miss j takes the j-th evictable slot of the scratch |
| LruLegacyKernel.ProtectedIff | src/acc_offload/csrc/operators/acc_offload_lru_compact_simt.cpp:341-357 | after k assignments the answers name exactly the slots named before and the k oldest free slots, also if the LRU row repeats slots or holds invalid ones |
| LruLegacyKernel.FindOldest | src/acc_offload/csrc/operators/acc_offload_lru_compact_simt.cpp:341-357 | the search finds the first valid unprotected slot of the LRU row, or that there is none |
| LruLegacyKernel.AssignBySearch | src/acc_offload/csrc/operators/acc_offload_lru_compact_simt.cpp:331-368 | searching the LRU row for slots not named by the answers assigns them oldest first |
| LruLegacyKernel.PropagateDuplicates | src/acc_offload/csrc/operators/acc_offload_lru_compact_simt.cpp:370-382 | a duplicate takes the slot its first position ended with |
| LruLegacyKernel.ClearTail | src/acc_offload/csrc/operators/acc_offload_lru_compact_simt.cpp:384-387 | miss lists are blank past the assigned count |
| LruLegacyKernel.MoveHitsToTail | src/acc_offload/csrc/operators/acc_offload_lru_compact_simt.cpp:389-410 | the reverse in-place tail write copies the slots with a requested token to the end in order, leaves the places before them, and never clobbers an unread place |
| LruLegacyKernel.RebuildFromScratch | src/acc_offload/csrc/operators/acc_offload_lru_compact_simt.cpp:411-417 | survivors and assigned slots fill the front and leave the rest of the tail |
| LruLegacyKernel.InsertExtends | src/acc_offload/csrc/operators/acc_offload_lru_compact_simt.cpp:418-464 | inserting the next slot after equal categories extends each category at its end: the sort is stable |
| LruLegacyKernel.InsertKey | src/acc_offload/csrc/operators/acc_offload_lru_compact_simt.cpp:418-464 | the key lands behind the last slot of its own or a smaller category and only larger categories move up |
| LruLegacyKernel.SortByCategory | src/acc_offload/csrc/operators/acc_offload_lru_compact_simt.cpp:418-464 | the in-place insertion sort groups the row by category in old order |
| LruLegacyExact.CategoryMeaning | src/acc_offload/csrc/operators/acc_offload_lru_compact_simt.cpp:418-464 | the category tests single out exactly the assigned slots, the other slots named by the answers, and the rest |
| LruLegacyExact.SortedIsRebuilt | src/acc_offload/csrc/operators/acc_offload_lru_compact_simt.cpp:418-464 | the sorted row is survivors, assigned and named slots, each in old order |
| LruLegacyExact.RowOfPermutation | src/acc_offload/csrc/operators/acc_offload_lru_compact_simt.cpp:389-464 | on a permutation both branches leave survivors, assigned slots and then the last asked or the named slots |
| LruLegacyKernel.WriteTable | src/acc_offload/csrc/operators/acc_offload_lru_compact_simt.cpp:466-468 | the table takes the assigned tokens and nothing else changes |
| LruLegacyKernel.CompactLegacy | src/acc_offload/csrc/operators/acc_offload_lru_compact_simt.cpp:224-472 | both branches and the early exit, for every row, whatever its LRU row holds: table, LRU row, answers, lists and count; of the scratch only the thread's own part is written, and only with slot ids |
| LruLegacyExact.ScratchStepIff | src/acc_offload/csrc/operators/acc_offload_lru_compact_simt.cpp:389-417 | with scratch the kernel takes the abstract legacy step if and only if no slot with a requested token at or past max_token is younger than a hit slot |
| LruLegacyExact.ScratchRowIsPermutationIff | src/acc_offload/csrc/operators/acc_offload_lru_compact_simt.cpp:389-417 | under exactly that condition the rebuilt row is a permutation; otherwise a hit slot is lost |
| LruLegacyExact.SearchRowIsPermutation | src/acc_offload/csrc/operators/acc_offload_lru_compact_simt.cpp:418-464 | without scratch the rebuilt row is a permutation for every table and Top-K |
| LruLegacyExact.StrayExample | src/acc_offload/csrc/operators/acc_offload_lru_compact_simt.cpp:389-417 | a row of two slots on which a slot is lost |
| LruLegacyExact.SearchPlanIff | src/acc_offload/csrc/operators/acc_offload_lru_compact_simt.cpp:331-368 | without scratch the kernel follows the same plan if and only if no requested token is resident in two slots |
| LruLegacyExact.KernelIsLegacy | src/acc_offload/csrc/operators/acc_offload_lru_compact_simt.cpp:224-472 | on a sound row without such tokens both branches take the abstract legacy step |
| LruLegacyExact.LegacyAlwaysUsable | src/acc_offload/csrc/operators/acc_offload_lru_compact_simt.cpp:253-266 | if the first call of a run resets the row, every call of the run, with any Top-K, finds a row on which the kernel takes the abstract legacy step |
| LruLaunch.LaunchFused | src/acc_offload/csrc/launch/acc_offload_operators_launch.cpp:131-142 | every row takes the abstract step; the slices keep their marks and the epoch of every slice used becomes -2 |
| LruLaunch.LaunchLegacy | src/acc_offload/csrc/operators/acc_offload_lru_compact_simt.cpp:224-251 | the threads do the step of their row, in any order; the slices only receive slot ids |
| LruLaunch.LaunchLegacyRow | src/acc_offload/csrc/operators/acc_offload_lru_compact_simt.cpp:242-251 | a row is done right and nothing changes but its own arrays and the part of the slice that belongs to its thread |
| LruLaunch.ThreadRows | src/acc_offload/csrc/operators/acc_offload_lru_compact_simt.cpp:233-243 | striding over the grid, a thread visits exactly the rows of its block and thread number, so every row has exactly one thread |
| LruLaunch.RegionsApart | src/acc_offload/csrc/operators/acc_offload_lru_compact_simt.cpp:481-493 | with as many threads as the launch allows, their parts of a slice do not overlap and stay in the slice |
| LruLaunch.LaunchDims | src/acc_offload/csrc/operators/acc_offload_lru_compact_simt.cpp:481-493 | one block per row up to eight, and the greatest number of threads up to 128 whose parts fit in a slice |
| LruLaunch.Compact | src/acc_offload/csrc/launch/acc_offload_operators_launch.cpp:116-153 | for all rows of a call: exactly for the shapes whose bounds are written out the rows take the abstract step and no slot answers two positions; for all others the legacy kernel's step on any row, and equal tokens get equal slots; phased and legacy launches keep slices fit for phased calls, a fused launch keeps the marks and sets the epochs to -2 |
| LruLaunch.TakesStepIff | src/acc_offload/csrc/launch/acc_offload_operators_launch.cpp:116-153 | which shapes take the abstract step: those of the phased kernels, with every bound written out, and the production shape |
| LruLaunch.Launches | src/acc_offload/csrc/launch/acc_offload_operators_launch.cpp:116-153 | any number of launches on the same rows and slices takes every row through exactly its own run of abstract or legacy steps, and shows the answers of the last one |
| LruLaunch.SameWhicheverKernel | src/acc_offload/csrc/launch/acc_offload_operators_launch.cpp:116-153 | a duplicate-free call that fits, on a row the legacy kernel can use, has the same outcome whichever kernel the shape selects |
| LruLaunch.SameRunWhicheverKernel | src/acc_offload/csrc/launch/acc_offload_operators_launch.cpp:116-153 | from a reset on, a run of duplicate-free calls that fit takes the row through the same states in the legacy kernel as in the others |
| LruLaunch.ProductionTiles | src/acc_offload/csrc/launch/acc_offload_operators_launch.cpp:26-31 | the fused shape is two tiles of positions and four tiles of slots of 1024 lanes |
| Allocator.AlignUpExact | src/acc_offload/csrc/allocator/acc_offload_mem_manager.h:137-142 | the rounded size is a multiple of 16 and less than 16 above the request if and only if the 64-bit addition does not wrap; otherwise it is 0 |
| Allocator.MemManager.constructor | src/acc_offload/csrc/allocator/acc_offload_mem_manager.h:42-46 | the pool starts canonical with no live block |
| Allocator.MemManager.Allocate | src/acc_offload/csrc/allocator/acc_offload_mem_manager.h:53-87 | smallest sufficient idle range, lowest offset on ties; null exactly for size 0, size above the pool, a null base, or when no idle range fits; the block takes the next multiple of 16 bytes; the state stays canonical if and only if nothing was allocated or the rounding did not wrap |
| Allocator.SmallBlocks | src/acc_offload/csrc/allocator/acc_offload_mem_manager.h:53-87 | in an empty pool two requests of 1 to 16 bytes get blocks 16 bytes apart |
| Allocator.MemManager.Choose | src/acc_offload/csrc/allocator/acc_offload_mem_manager.h:60-75 | the lookup in the size index is the best fit |
| Allocator.MemManager.Carve | src/acc_offload/csrc/allocator/acc_offload_mem_manager.h:77-86 | splitting keeps both indexes and the used map canonical unless the block is empty |
| Allocator.MemManager.Release | src/acc_offload/csrc/allocator/acc_offload_mem_manager.h:89-134 | success exactly for the address of a live block, also an empty one; canonical form restored; a failure changes nothing |
| Allocator.MemManager.Coalesce | src/acc_offload/csrc/allocator/acc_offload_mem_manager.h:109-132 | both touching neighbours are merged in both indexes |
| Allocator.LowerBound | src/acc_offload/csrc/allocator/acc_offload_mem_manager.h:29-38 | the least range of the index not below the anchor in size-then-offset order |
| Allocator.IdleDetermined | src/acc_offload/csrc/allocator/acc_offload_mem_manager.h:42-134 | canonical form: the idle map is a function of the used map |
| Allocator.StateDetermined | src/acc_offload/csrc/allocator/acc_offload_mem_manager.h:42-134 | the whole allocator state is a function of the live blocks |
| Allocator.IdleIsMaximal | src/acc_offload/csrc/allocator/acc_offload_mem_manager.h:89-134 | every idle range is a maximal run of free bytes |
| Allocator.MaximalIsIdle | src/acc_offload/csrc/allocator/acc_offload_mem_manager.h:89-134 | every maximal run of free bytes is an idle range |
| Allocator.CarveCanonical | src/acc_offload/csrc/allocator/acc_offload_mem_manager.h:77-86 | carving a block from the front of an idle range keeps the canonical form |
| Allocator.MergeCanonical | src/acc_offload/csrc/allocator/acc_offload_mem_manager.h:109-132 | two-sided coalescing keeps the canonical form |
| Allocator.PrevIsOnlyNeighbour | src/acc_offload/csrc/allocator/acc_offload_mem_manager.h:109-121 | the predecessor found by the lookup is the only range that can touch the block from below |
| Allocator.AllocateThenRelease | src/acc_offload/csrc/allocator/acc_offload_mem_manager.h:53-134 | for every 64-bit request: the block is live in between exactly when something fitted, and releasing it restores the previous state exactly, even if the rounding wrapped |
| Allocator.WrappedBlocksOverlap | src/acc_offload/csrc/allocator/acc_offload_mem_manager.h:53-87 | in every pool that admits a wrapped request, the next block is handed out at the address of the first, still live one |
| Allocator.ReleaseInAnyOrder | src/acc_offload/csrc/allocator/acc_offload_mem_manager.h:89-134 | releasing the same blocks in any two orders reaches the same state, in which exactly these blocks are gone |
| Allocator.ReleaseEverything | src/acc_offload/csrc/allocator/acc_offload_mem_manager.h:89-134 | releasing every live block leaves one idle range |
| Allocator.LiveBlockInPool | src/acc_offload/csrc/acc_offload_local_dram_entry.cpp:30-42 | a block allocated for a request passes the range test for that request and overlaps no other live block |
| Allocator.RangeInPoolIff | src/acc_offload/csrc/acc_offload_local_dram_entry.cpp:30-42 | the range test holds exactly if nothing is null or empty and every byte of the range is a byte of the pool |
| Allocator.PoolRun | src/acc_offload/csrc/allocator/acc_offload_mem_manager.h:53-134 | in every run from an empty pool, null pools and pools of size zero included, each answer is the best fit among the maximal free runs of that moment, or null if none holds it, and every block still live passes the range test for the size asked for and overlaps no other |
| MessageQueue.Queue.EnqueueBack | src/acc_links/csrc/acc_tcp_link_complex_default.h:133-166 | appends unless the capacity is reached; the list stays acyclic with size and tail right |
| MessageQueue.Queue.DequeueFront | src/acc_links/csrc/acc_tcp_link_complex_default.h:173-194 | takes the first node; the node keeps its next pointer and the list stays well linked |
| MessageQueue.Queue.EnqueueFront | src/acc_links/csrc/acc_tcp_link_complex_default.h:202-222 | puts the node first; the list stays null-terminated if and only if it was not empty or the stale next pointer is null |
| MessageQueue.Queue.TakeAwayMessages | src/acc_links/csrc/acc_tcp_link_complex_default.h:229-237 | hands over the whole list and leaves an empty queue |
| MessageQueue.WalkList | src/acc_links/csrc/acc_tcp_server_default.h:176-183 | walking the taken list visits every node once, in order |
| MessageQueue.AnyInterleaving | src/acc_links/csrc/acc_tcp_link_complex_default.h:133-237 | under any interleaving of producers and one consumer that takes, puts back, finishes or takes all away, the linked queue holds what the list of the events holds, and every enqueue gets the status the capacity demands |
| MessageQueue.FirstInFirstOut | src/acc_links/csrc/acc_tcp_link_complex_default.h:133-237 | in every run what is gone, held and queued is what was accepted, in order and once; at most cap + 1 are held or queued |
| MessageQueue.AcceptedAre | src/acc_links/csrc/acc_tcp_link_complex_default.h:133-166 | accepted are exactly the messages that found fewer than cap queued |
| MessageFraming.HeaderRoundTrip | src/acc_links/include/acc_def.h:74-94 | decoding the memory image of a header gives the header |
| MessageFraming.HeaderLayout | src/acc_links/include/acc_def.h:74-79 | where the five fields lie in the 16 bytes, lowest byte first |
| MessageFraming.FrameUnique | src/acc_links/csrc/acc_tcp_link_complex_default.h:337-402 | equal leading bytes mean equal leading messages |
| MessageFraming.ParsedIsPrefix | src/acc_links/csrc/acc_tcp_link_complex_default.h:337-402 | what is parsed off a prefix of a stream is a prefix of its messages |
| MessageLink.PollOutConserves | src/acc_links/csrc/acc_tcp_link_complex_default.h:404-461 | a poll-out neither drops nor repeats a byte, unless a write fails, which loses bytes for good |
| MessageLink.PollOutExact | src/acc_links/csrc/acc_tcp_link_complex_default.h:404-461 | which bytes a poll-out writes and how many, in terms of what the two writes took: header first, the body in the same call once the header is complete; sent, failed or pushed back exactly when |
| MessageLink.PollInConserves | src/acc_links/csrc/acc_tcp_link_complex_default.h:337-402 | a poll-in keeps or delivers exactly the bytes it read |
| MessageLink.PollInExact | src/acc_links/csrc/acc_tcp_link_complex_default.h:337-402 | what a poll-in makes of the bytes it read: the header complete with its last byte, a body above 67108864 refused there, a message ready exactly with its last body byte |
| MessageLink.MessageArrives | src/acc_links/csrc/acc_tcp_link_complex_default.h:337-402 | every message with a body of 1 to 67108864 bytes that arrives whole is handed up at once |
| MessageLink.OversizedIsRefused | src/acc_links/csrc/acc_tcp_link_complex_default.h:347-352 | a header that announces 67108865 bytes or more is refused and the next byte is read as a new header; no peer that uses this link sends one |
| MessageLink.EmptyBodySticks | src/acc_links/csrc/acc_tcp_link_complex_default.h:376-401 | after the header of an empty body no later event makes the receiver read a byte or hand up a message |
| MessageLink.NothingLostIff | src/acc_links/csrc/acc_tcp_link_complex_default.h:404-461 | in every run the bytes written and pending are the frames of the accepted messages if and only if no write failed |
| MessageLink.WriteBalance | src/acc_links/csrc/acc_tcp_link_complex_default.h:404-461 | a write keeps the byte balance unless it fails, and then strictly loses bytes |
| MessageLink.AlwaysInStep | src/acc_links/csrc/acc_tcp_link_complex_default.h:337-461 | in every run without a failed write the receiver is in step with the stream of accepted messages |
| MessageLink.EndToEnd | src/acc_links/csrc/acc_tcp_link_complex_default.h:337-461 | for every fragmentation, delivered is a prefix of the messages before the first empty body, and all of them once no write or read makes progress; these are all messages if and only if no body is empty |
| MessageEndpoints.EnqueueMessage | src/acc_links/csrc/acc_tcp_link_complex_default.cpp:49-66 | a message is accepted if and only if its body has at most 67108864 bytes and the queue has room, and then it is the last to be sent; otherwise the queue is unchanged |
| MessageEndpoints.NonBlockSend | src/acc_links/csrc/acc_tcp_link_complex_default.h:478-517 | types outside 0 to 47 and missing bodies are refused first, then a broken link, then as for every submission; what is queued is the header of these arguments and the body |
| MessageEndpoints.Advance | src/acc_links/csrc/acc_tcp_link_complex_default.h:416-460 | header first, then body, each from where the last write stopped: the sender refines the step function |
| MessageEndpoints.HandlePollOut | src/acc_links/csrc/acc_tcp_link_complex_default.h:404-461 | on the linked queue, with push-back of partly sent nodes, the poll-out refines the step function and keeps the queue well linked |
| MessageEndpoints.Receiver.AllocIfNeed | src/acc_links/csrc/acc_tcp_shared_buf.cpp:36-58 | fails exactly above 67108864 bytes, otherwise the buffer is large enough |
| MessageEndpoints.Receiver.ReadHeader | src/acc_links/csrc/acc_tcp_link_complex_default.h:343-373 | a completed header prepares buffer and counters as the step function says |
| MessageEndpoints.Receiver.ReadBody | src/acc_links/csrc/acc_tcp_link_complex_default.h:375-401 | body bytes land behind those already received |
| MessageEndpoints.Receiver.HandlePollIn | src/acc_links/csrc/acc_tcp_link_complex_default.h:337-402 | the receiver refines the step function, the too long body included |
| MessageEndpoints.Receiver.ResetHeader | src/acc_links/csrc/acc_tcp_link_default.h:35-67 | the receive counters start over |
| MessagePlay.PlayRun | src/acc_links/csrc/acc_tcp_link_complex_default.h:337-461 | from the initial state, under any schedule of submissions, partial writes and reads, the linked queue and the receive buffers hold what the step system holds; everything accepted was submitted and has at most 67108864 bytes, and without a failed write everything handed up was accepted, in order, up to the first empty body |
| MessagePlay.PlayIsRun | src/acc_links/csrc/acc_tcp_link_complex_default.h:337-461 | whatever the code does under a schedule is a run of the step system |
| MessagePlay.RunIsPlayed | src/acc_links/csrc/acc_tcp_link_complex_default.h:337-461 | every run of the step system is played by the code, given a queue with room |
| MessagePlay.AcceptedWereSubmitted | src/acc_links/csrc/acc_tcp_link_complex_default.cpp:49-66 | only submitted messages of at most 67108864 bytes are ever accepted |
| MessagePlay.PlaySubmit | src/acc_links/csrc/acc_tcp_link_complex_default.cpp:49-66 | a submission is queued behind the others exactly if its body has at most 67108864 bytes and the queue has room |
| AllReduce.NoEarlyAccess | examples/hbm_share_memory/AllReduce/shm_all_reduce.cpp:70-97 | in every interleaving no block is accessed before every rank has loaded its input, and every block added up still holds the input |
| AllReduce.AllRanksAgree | examples/hbm_share_memory/AllReduce/shm_all_reduce.cpp:99-114 | in every interleaving, once all cores of one rank have ended, every rank holds the same result in every block |
| AllReduce.AllReduced | examples/hbm_share_memory/AllReduce/shm_all_reduce.cpp:85-114 | with an exact shape that result is, in every element, the fold of the inputs in rank order, for any addition |
| AllReduce.ResultIs | examples/hbm_share_memory/AllReduce/shm_all_reduce.cpp:87-97 | what each element holds in general: whole groups of 128 the fold, the rest only the last and first rank |
| AllReduce.ExactIff | examples/hbm_share_memory/AllReduce/shm_all_reduce.cpp:87-97 | summing ones, the result is the fold if and only if there are two ranks or 128 divides the block length |
| AllReduce.NoDeadlock | examples/hbm_share_memory/AllReduce/shm_all_reduce.cpp:70-114 | in every reachable state with an unfinished process some step is possible |
| AllReduce.StepsTaken | examples/hbm_share_memory/AllReduce/shm_all_reduce.cpp:70-114 | no run is endless: each process takes exactly as many steps as its place tells, at most 4 * ranks + 2 |
| AllReduce.LoadKeepsInv | examples/hbm_share_memory/AllReduce/main.cpp:74-83 | a rank loads its input before anyone stores into it |
| AllReduce.RunKeepsInv | examples/hbm_share_memory/AllReduce/shm_all_reduce.cpp:70-114 | every process step keeps flags, accumulators and blocks consistent |
| AllReduce.OneOwner | examples/hbm_share_memory/AllReduce/shm_all_reduce.cpp:51-64 | every block index belongs to exactly one core of one rank |
| AllReduce.BlocksCover | examples/hbm_share_memory/AllReduce/shm_all_reduce.cpp:53 | the blocks cover all data if and only if 8 * ranks divides the length |
| AllReduce.ProductionShape | examples/hbm_share_memory/AllReduce/shm_all_reduce.cpp:16-17 | for 2, 4, 8, 16 and 32 ranks the blocks cover all 32768 elements and the shape is exact |
| Barrier.ErrorsAreTimeouts | example/bm/BmBenchmark/barrier_util.h:41-79 | in every interleaving, repeated calls included, only 'S' travels to the server and only 'R' back, and the errors a rank has returned are exactly its receive timeouts |
| Barrier.EnteredAreCalls | example/bm/BmBenchmark/barrier_util.h:41-79 | what counts as entered is the number of calls each rank has made in the run |
| Barrier.EveryCallReadsAll | example/bm/BmBenchmark/barrier_util.h:47-63 | each call of the server, also one after an error, reads every client from the first on before it sends to any |
| Barrier.ReadableIs | example/bm/BmBenchmark/barrier_util.h:71-73 | a waiting client can read exactly one to ten of the bytes that have arrived |
| Barrier.FailsIff | example/bm/BmBenchmark/barrier_util.h:157-167 | some rank has returned an error if and only if some read timed out |
| Barrier.NoneLeavesEarly | example/bm/BmBenchmark/barrier_util.h:41-79 | in every run, timeouts and repeated calls included, no rank has returned success from more calls than any other rank, server or client, has entered |
| Barrier.BytesInFlight | example/bm/BmBenchmark/barrier_util.h:41-79 | in every run at most one byte for the call the client is in, and one for each of its errors, is in flight on a connection |
| Barrier.AheadByErrors | example/bm/BmBenchmark/barrier_util.h:64-76 | in every run a client that is back from its n-th call is ahead of every other rank by at most the number of its own errors, whatever errors the others had |
| Barrier.ServerAheadByErrors | example/bm/BmBenchmark/barrier_util.h:47-63 | the same of the server |
| Barrier.CallsAgain | example/bm/BmBenchmark/barrier_util.h:64-76 | for every k a run in which a client calls again after each of k timeouts and k + 1 bytes are in flight: the bound on bytes is reached |
| Barrier.LeavesEarly | example/bm/BmBenchmark/barrier_util.h:41-79 | for every k a run in which that client leaves its call number k + 1 with success although the others have entered one: the bound on calls is reached |
| Barrier.InTimeIff | example/bm/BmBenchmark/barrier_util.h:41-79 | all ranks have entered as many calls as a client that is back, whatever the others do, exactly for clients without an error of their own |
| Barrier.WaitsOnlyForAbsent | example/bm/BmBenchmark/barrier_util.h:47-77 | without a timeout, a client whose wait makes no progress waits for a rank that has not entered the call |
| Barrier.StepKeepsOrder | example/bm/BmBenchmark/barrier_util.h:47-77 | every step keeps left <= released and received <= entered, with the bytes under way in between, on each connection |

## Left out

- LruFused.CompactFused: the rows of the workspace in local memory are separate arrays, the copies between global and local memory, profiling stamps and cache visibility are not modelled, because they are hardware.
- LruLaunch.LaunchLegacy: a row is one step of its thread; the threads share no cell they write, so finer interleavings have the same outcome, which is not proved.
- Allocator.PoolRun: leaves out requests above 2^64 - 16 that the pool admits, which needs a pool that begins below address 16 or wraps around; for these see `Allocator.MemManager.Allocate` and `Allocator.WrappedBlocksOverlap`.
- MessageLink.EndToEnd: is about runs in which no write failed; a failed write drops its message (`MessageLink.NothingLostIff`).
- MessageEndpoints.NonBlockSend: the automatic sequence number and the wake-up of the worker after a submission are not modelled.
- MessageEndpoints.HandlePollOut: the callback after a sent message and the distinction of error numbers are not modelled.
- MessageEndpoints.Receiver.HandlePollIn: a read that returns nothing or an error is one case; the distinction of error numbers is not modelled, and memory allocation does not fail.
- MessagePlay.PlayRun: a link error does not close the link; submissions enter at the queue, so the checks of `MessageEndpoints.NonBlockSend` come before its schedule.
- AllReduce.AllReduced: at least two ranks, because with one rank the output buffer is never filled; copying a block is one step; the addition is any function, so rounding of half precision is covered but not described.
- Barrier.ErrorsAreTimeouts: connections do not break and sends do not fail, so the codes -72 and -73 are not modelled; a timeout can happen whenever nothing has arrived, so 300 seconds is not measured.
- ComputeLruResidentAddrs and the sparse copy kernels: only headers and launchers are in the repository.
- The offload entry, manager and C interface layers: parameter checks and forwarding.
- Sockets, epoll, SSL, certificates, the listener, worker selection, delayed clean-up and reference counts: input and output plumbing.
- Blocking send and receive loops, fault injection, validators, loggers and file utilities: they would only add easy members.
- Benchmarks, Python examples and build scripts.
