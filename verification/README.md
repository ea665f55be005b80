# Verified models of the GPU kernels and host code

This project models the index arithmetic, software pipelines, synchronisation protocols and number conversions of a
collection of GPU kernels with host drivers, and proves what they are for. `dafny verify dfyconfig.toml` checks all
of it; nothing here is executed.

| files | subject |
|---|---|
| LoadOrder, PipelineOneSide, OneSideLoads, OneSideTile, OneSideSums, OneSideSafety, OneSideProgress, OneSideLayout | one-sided LDS GEMM pipeline: any interleaving of any number of waves, loads retiring at any time |
| PipelineFlat, FlatRun, MfmaOrder | dual-LDS GEMM pipeline with masked loads, any K: its methods, waves in step |
| FlatWaves, FlatWavesLoads, FlatWavesTiles, FlatWavesSums, FlatWavesSafety, FlatLayout | the same pipeline in any interleaving of its waves and LDS accesses; its kernels' layouts |
| GemmReads | the LDS reads and fences of its unprioritised `gemm` body |
| LdsLayout, LdsFragments, SlotMask, WaitCount, TileScheduler | LDS store and load maps, issue slots and wait counts, tile order |
| WorkgroupKernel, ReduceSpec, SerializedReduce, LockReduce, LockScope | cross-workgroup reduction by ticket counter and by lock |
| CasReduce, CasCost, DeviceGrouping | compare-and-swap reduction: linearisation, retry cost, device against host |
| Hadamard, HadamardRotation, RealSums | fast Walsh-Hadamard transform and rotated GEMM |
| HalfConvert | double to half and back |
| Transpose, BlockShuffle, Preshuffle, Launch, ReferenceGemm | LDS transpose, host preshuffles, kernel choice and split-K, the threaded host product |
| Arith, Folds, MatrixProduct | shared lemmas, the product of two integer matrices |

Concurrent code is a transition system: a state, a list of steps, `Enabled` and `Apply`. A run is any list of enabled
steps, so a lemma about a reachable state holds for every scheduling. Code that updates variables in loops is a method
with invariants, the load iterator and the dual-LDS pipeline are classes.

## What the code turned out to do

- `release` swaps the lock word before its barrier (cross-wg-sync/cross-wg-sync.hip.cpp:129-132), so the "critical area"
  of lines 183-188 is exclusive only for the wave of thread 0. `LockScope.LockProtectsExactly` gives the exact
  condition: a lane is protected in all runs if and only if it belongs to that wave or there is at most one workgroup.
- `gemm_pipeline_oneside_lds::operator()` with k_iters = 0 still makes one or two calls; `PipelineOneSide.CallSequence`
  is exact about when its loops are right.
- With an issue distance of 0 and more than one group, the slot mask keeps only the last group's loads
  (`SlotMask.IssuedExactlyOnce`, with `SlotMask.SharedSlotExample`). The wait count, computed for the loop's last slot,
  is too large for an earlier fence when second-side loads come after it (`WaitCount.CountAtFence`, with
  `WaitCount.LateLoadExample`).
- With `other_slots` above 2, or above 1 with a single accumulator, the `gemm` body reads a B fragment after its last
  fence and multiplies before the read is known to have returned (`GemmReads.OperandsReturned`).
- `make_launch` divides by zero for K = 0 when the kernel splits K (`Launch.MakeLaunch`), and `reference_gemm` exactly
  for M = 0, where it has no threads (`ReferenceGemm.ReferenceGemm`).
- `float2half_impl(double)` turns every NaN into the all-ones one (`HalfConvert.RoundTrip`).

## Model

| member | source | states |
|---|---|---|
| PipelineOneSide.CallSequence | hgemm_mfma/hgemm_mfma.hpp:1193-1208 | the two specialised loops make one call per tile, with alternating X buffers and a cold last call, if and only if `is_applicable` holds and there is a tile |
| LoadOrder.RetireNext | hgemm_mfma/hgemm_mfma.hpp:477-499 | when the oldest load completes, every X and Y register still holds the latest slice whose load has completed, for both issue orders |
| OneSideLoads.AdvanceLoads | hgemm_mfma/hgemm_mfma.hpp:1227-1283 | every instruction keeps the queue, the windows and what the fences have waited for; each `gld_fence` count leaves only later loads outstanding |
| OneSideLoads.XOperand | hgemm_mfma/hgemm_mfma.hpp:1261-1270 | a wave that multiplies tile t finds tile t in X buffer t % 2 |
| OneSideLoads.YOperand | hgemm_mfma/hgemm_mfma.hpp:1278-1280 | what `sst_y` stores is the tile it should, all of it drained |
| OneSideTile.TileComplete | hgemm_mfma/hgemm_mfma.hpp:1250-1259 | while any wave reads LDS, every cell holds that wave's current tile, whichever wave stored it |
| OneSideTile.LandTile | hgemm_mfma/hgemm_mfma.hpp:202-262 | a store landing late changes only cells of its own wave and keeps every wave's tile invariant |
| OneSideTile.AdvanceTile | hgemm_mfma/hgemm_mfma.hpp:1227-1283 | every instruction keeps the tile in LDS, the stores under way and the fragments read so far on the wave's current tile |
| OneSideSums.MfmaExtends | hgemm_mfma/hgemm_mfma.hpp:1270-1271 | an mfma extends the accumulator's sum by exactly its slice of k, because the X register and the LDS words its fragment was read from hold those very elements of one tile |
| OneSideSums.AdvanceSums | hgemm_mfma/hgemm_mfma.hpp:1234-1274 | after j products of a call each accumulator has taken in each earlier slice of k exactly once |
| OneSideSafety.StepInv | hgemm_mfma/hgemm_mfma.hpp:1157-1283 | all five kinds of step keep the whole invariant, barriers included |
| OneSideSafety.FinalProduct | hgemm_mfma/hgemm_mfma.hpp:1157-1283 | in every run, a finished wave's accumulators are the full dot products over K; operands are whatever loads put in registers and stores in LDS words |
| OneSideSafety.OperandsMatch | hgemm_mfma/hgemm_mfma.hpp:1227-1272 | at each mfma the X register and every Y fragment hold the same tile t, calls consume tiles in order, and no load in flight targets that register |
| OneSideSafety.NoStoreWhileReading | hgemm_mfma/hgemm_mfma.hpp:1250-1280 | no wave has an LDS store under way while another reads the tile |
| OneSideSafety.Progress | hgemm_mfma/hgemm_mfma.hpp:1157-1283 | no deadlock: until all waves are done some step is enabled |
| OneSideProgress.BoundedRun | hgemm_mfma/hgemm_mfma.hpp:1157-1283 | every run is finite, of at most the work left in its start state |
| OneSideLayout.WordElement | hgemm_mfma/hgemm_mfma.hpp:331-382 | the LDS word an element is read from holds exactly that column and k, by the thread offsets of its load and store |
| OneSideLayout.RegisterElement | hgemm_mfma/hgemm_mfma.hpp:459-499 | the direct iterator's register holds the row and k that its lane feeds to the mfma |
| OneSideLayout.KernelConfigValid | hgemm_mfma/hgemm_mfma.hpp:1476-1490 | every kernel that compiles gives the machine a configuration its proof covers, with every register and LDS word holding the element its reader multiplies |
| OneSideLayout.ReadsElement | hgemm_mfma/hgemm_mfma.hpp:683-699 | the `sld` address of every operand is a word that some wave stores, with exactly that column and k |
| OneSideLayout.OutputHolds | hgemm_mfma/hgemm_mfma.hpp:1234-1270 | every output of the block tile has a wave, accumulator and element, whose row and column it is |
| OneSideLayout.EveryOutputIsProduct | hgemm_mfma/hgemm_mfma.hpp:1157-1283 | after every run each output of the block tile is its row of A times its row of B over the whole of K |
| MatrixProduct.SingleEntry | hgemm_mfma/hgemm_mfma.hpp:1270-1271 | that product picks out the other row's column for a row with a single entry |
| MatrixProduct.SumOfRows | hgemm_mfma/hgemm_mfma.hpp:1270-1271 | and is additive in its row, which with the former determines it |
| PipelineFlat.GldIterator.MoveSliceWindow | hgemm_mfma/hgemm_mfma.hpp:396-403 | cumulatively narrowed flags stay exactly "row below the remaining rows, first column before K" |
| PipelineFlat.GldIterator.ClearBuf | hgemm_mfma/hgemm_mfma.hpp:363-367 | all registers zero, flags and window unchanged |
| PipelineFlat.VectorInside | hgemm_mfma/hgemm_mfma.hpp:1527-1532 | with K % ALIGNMENT = 0 a loaded vector is wholly inside or wholly past K |
| PipelineFlat.LoadInside | hgemm_mfma/hgemm_mfma.hpp:343-382 | a masked load reads exactly the vectors of its window that lie wholly inside the matrix, last element included |
| PipelineFlat.TileExact | hgemm_mfma/hgemm_mfma.hpp:701-712 | a tile's products add exactly the terms with k < K although only one side was cleared and the other may hold stale values |
| FlatRun.RetireHolds | hgemm_mfma/hgemm_mfma.hpp:376-382 | a completing masked load fills exactly its enabled registers and keeps the invariant of all others |
| FlatRun.GemmPipelineFlat.Issue | hgemm_mfma/hgemm_mfma.hpp:376-382 | after every issue each load in flight reads exactly the vectors inside the matrix |
| FlatRun.AllArrived | hgemm_mfma/hgemm_mfma.hpp:960-972 | the two fence counts are enough for the side stored next, in both orders |
| FlatRun.GemmPipelineFlat.Fence | async_copy/main.hip.cc:60-63 | waits until at most n loads of each wave are outstanding |
| FlatRun.GemmPipelineFlat.StoreTile | hgemm_mfma/hgemm_mfma.hpp:960-972 | both LDS tiles hold the loaded window, in the order of `gld_x_first` |
| FlatRun.GemmPipelineFlat.Clear | hgemm_mfma/hgemm_mfma.hpp:701-712 | after clearing one side the registers are ready for the next window |
| FlatRun.GemmPipelineFlat.MultiplyTile | hgemm_mfma/hgemm_mfma.hpp:924-954 | the unrolled loop adds each product of the tile once to each output, while loads go on completing |
| FlatRun.GemmPipelineFlat.GemmPrioFma | hgemm_mfma/hgemm_mfma.hpp:917-975 | one call adds the tile read at its start and, when hot, leaves the next tile in LDS |
| FlatRun.GemmPipelineFlat.Prologue | hgemm_mfma/hgemm_mfma.hpp:875-908 | the first tile is in LDS, both windows have moved, accumulators are zero |
| FlatRun.GemmPipelineFlat.Run | hgemm_mfma/hgemm_mfma.hpp:874-915 | for every K each in-range output ends as the dot product over k < K |
| FlatLayout.CellStores | hgemm_mfma/hgemm_mfma.hpp:343-361 | the thread that stores an element to LDS is the one whose global load fetched it |
| FlatLayout.KernelConfigValid | hgemm_mfma/hgemm_mfma.hpp:1412-1490 | every kernel shape with BLOCK_K_WAVES = 1 gives the flat pipeline a configuration its proof covers, with one output per element of the block tile |
| FlatLayout.InvokerShapeFits | hgemm_mfma/hgemm_mfma_invoker.hpp:20-27 | this tile shape, with the modelled loads and body, meets those layout conditions if and only if K is a multiple of eight |
| FlatLayout.KernelMachineValid | hgemm_mfma/hgemm_mfma.hpp:1412-1490 | each such kernel is also a configuration of the interleaved machine, every output belonging to one of its waves |
| FlatLayout.CallsLeast | hgemm_mfma/hgemm_mfma.hpp:874-915 | the calls are the fewest that reach K, and at least the tail |
| FlatLayout.ClearsSmaller | hgemm_mfma/hgemm_mfma.hpp:701-712 | the registers cleared are those of the side with fewer rows, of A when they are equal |
| FlatLayout.EveryOutputIsProduct | hgemm_mfma/hgemm_mfma.hpp:874-975 | after every run of it, each in-range output of the block tile is its row of A times its row of B over k < K |
| FlatWavesTiles.TilesComplete | hgemm_mfma/hgemm_mfma.hpp:945-950 | while any wave reads LDS, no store is under way and both tiles are complete, whichever wave stored them |
| FlatWavesSafety.StepInv | hgemm_mfma/hgemm_mfma.hpp:874-975 | wave instructions, retiring loads, landing stores, arriving reads and barriers all keep the whole invariant |
| FlatWavesSafety.FinalProduct | hgemm_mfma/hgemm_mfma.hpp:874-975 | in every run, whatever K, a finished wave's in-range elements are the products over k < K |
| FlatWavesSafety.LoadsStayInside | hgemm_mfma/hgemm_mfma.hpp:343-403 | in every run each load in flight reads exactly the vectors of its window inside the matrix |
| FlatWavesSafety.NoStoreWhileReading | hgemm_mfma/hgemm_mfma.hpp:917-975 | no wave has an LDS store under way while another reads, and what is read is the complete tile |
| FlatWavesSafety.Progress | hgemm_mfma/hgemm_mfma.hpp:874-975 | no deadlock: until all waves are done some step is enabled |
| GemmReads.OperandsReturned | hgemm_mfma/hgemm_mfma.hpp:977-1076 | every product's operands have returned in all timings if and only if `other_slots` is 1, or 2 with more than one accumulator |
| GemmReads.MeantOnce | hgemm_mfma/hgemm_mfma.hpp:997-1003 | over the loop each A fragment meets each B fragment of its slice exactly once |
| GemmReads.GemmBody.Run | hgemm_mfma/hgemm_mfma.hpp:977-1100 | then every mfma multiplies the A and B fragments it is meant to, whenever the reads return: no buffer is overwritten before its product |
| LdsLayout.StoreAddress | hgemm_mfma/hgemm_mfma.hpp:209-230 | thread offset plus issue offset is the padded plane address of one vector of the tile |
| LdsLayout.StoreToVec | hgemm_mfma/hgemm_mfma.hpp:202-262 | every (thread, issue) stores a vector of the tile and no two the same one |
| LdsLayout.VecToStore | hgemm_mfma/hgemm_mfma.hpp:202-262 | every vector of the tile is stored |
| LdsLayout.CellInside | hgemm_mfma/hgemm_mfma.hpp:1534-1544 | every element lies inside `smem_size_a` or `smem_size_b` |
| LdsLayout.SizeTight | hgemm_mfma/hgemm_mfma.hpp:1534-1544 | and that size ends one padding vector after the last element |
| LdsLayout.CellsDistinct | hgemm_mfma/hgemm_mfma.hpp:202-230 | no two elements share an LDS cell, padding included |
| LdsLayout.StoredElements | hgemm_mfma/hgemm_mfma.hpp:331-382 | the register elements a store issue takes are those the global load put there for that vector |
| LdsLayout.StoreTile | hgemm_mfma/hgemm_mfma.hpp:238-262 | all threads' stores leave element (row, k) in its cell and touch nothing outside the allocation |
| LdsFragments.FragmentsCorrect | hgemm_mfma/hgemm_mfma.hpp:667-681 | every `sld` fragment at the mapped offset returns exactly the (row, k) elements its lane feeds to the mfma |
| LdsFragments.ElementFed | hgemm_mfma/hgemm_mfma.hpp:129-160 | every element of the tile is fed by some wave row, lane and fragment |
| LdsFragments.FedOnce | hgemm_mfma/hgemm_mfma.hpp:129-160 | and by no second one |
| LdsFragments.DirectRegister | hgemm_mfma/hgemm_mfma.hpp:459-499 | register i_x * issues_r + i_k of the direct iterator holds the operand of that fragment, for the wave row its own division gives |
| LdsFragments.DirectNeedsOneSide | hgemm_mfma/hgemm_mfma.hpp:429-468 | the iterator's static assertion on its issue count holds if and only if BLOCK_N_WAVES = BLOCK_K_WAVES = 1, so where it compiles its wave row is the mfma mapping's |
| SlotMask.BuildMask | hgemm_mfma/hgemm_mfma.hpp:768-796 | each slot holds the mask of the last group written to it |
| SlotMask.MaskBits | hgemm_mfma/hgemm_mfma.hpp:768-796 | bit b of a slot is set if and only if load b exists, its group starts in that slot and no later group does |
| SlotMask.DecodedBlock | hgemm_mfma/hgemm_mfma.hpp:803-812 | ffs and clz recover the first issue and the count of a group's mask |
| SlotMask.IssuedExactlyOnce | hgemm_mfma/hgemm_mfma.hpp:768-812 | a loop of `total` slots issues loads 0 .. issues-1 once each and in order if and only if groups have slots of their own and the last lies in the loop |
| SlotMask.SharedSlotExample | hgemm_mfma/hgemm_mfma.hpp:768-796 | accepted traits with two groups in one slot lose a load |
| SlotMask.ShortLoopExample | hgemm_mfma/hgemm_mfma.hpp:803-812 | accepted traits whose last group lies past the loop lose a load |
| WaitCount.GetWaitcntBefore | hgemm_mfma/hgemm_mfma.hpp:819-838 | returns the number of loads issued after the last first-side load, over the slots up to and including the current one, or all of them |
| WaitCount.DrainedLoads | hgemm_mfma/hgemm_mfma.hpp:819-838 | with that many loads outstanding every first-side load of those slots is complete, the last of them only just |
| WaitCount.LargestCount | hgemm_mfma/hgemm_mfma.hpp:819-838 | that count drains the first side and, unless it has no loads at all, is the largest that does |
| WaitCount.CountAtFence | hgemm_mfma/hgemm_mfma.hpp:989-996 | used at an earlier fence, the count of the whole loop is safe if and only if no first-side load comes after the fence and, unless the first side has no loads, no second-side load does |
| WaitCount.LateLoadExample | hgemm_mfma/hgemm_mfma.hpp:989-996 | masks for which it is not safe |
| TileScheduler.AdaptPositive | hgemm_mfma/hgemm_mfma.hpp:40-57 | the divisor `m01_adapt` is never zero |
| TileScheduler.BlockToTile | hgemm_mfma/hgemm_mfma.hpp:32-61 | every workgroup gets a tile of the grid that names it back, ragged last group included |
| TileScheduler.TileToBlock | hgemm_mfma/hgemm_mfma.hpp:32-61 | every tile is some workgroup's |
| TileScheduler.WalksDown | hgemm_mfma/hgemm_mfma.hpp:32-61 | consecutive workgroups walk down the columns of groups of m01 tile rows, group after group |
| TileScheduler.EveryElementOnce | hgemm_mfma/hgemm_mfma.hpp:1564-1568 | each output element is computed by exactly one workgroup of the launched grid |
| ReduceSpec.HostWorkgroupReduce | cross-wg-sync/cross-wg-sync.hip.cpp:197-206 | each output is the left fold of its column |
| ReduceSpec.AppendRow | cross-wg-sync/cross-wg-sync.hip.cpp:197-206 | a further row of `length` elements adds exactly its own element to each output |
| WorkgroupKernel.SummedSlice | cross-wg-sync/cross-wg-sync.hip.cpp:184-187 | a workgroup adds its own slice of the input, thread by thread, to what was loaded from p_out |
| ReduceSpec.PermutationIsHost | cross-wg-sync/cross-wg-sync.hip.cpp:156-158 | with a commutative and associative add, a fold of the rows in any order is the host's |
| SerializedReduce.MutualExclusion | cross-wg-sync/cross-wg-sync.hip.cpp:98-104 | at most one workgroup has a wave between `wait_eq` and `inc`'s barrier |
| SerializedReduce.QuiescentSum | cross-wg-sync/cross-wg-sync.hip.cpp:134-140 | with the counter at v and nobody inside, each lane is the fold of rows 0 .. v-1 |
| SerializedReduce.FinalResult | cross-wg-sync/cross-wg-sync.hip.cpp:166-194 | p_out ends equal to the host sum, needing only commutativity, and p_out_aux equal to p_out |
| SerializedReduce.NoMissedTicket | cross-wg-sync/cross-wg-sync.hip.cpp:98-104 | the counter never passes a value some workgroup still waits for |
| SerializedReduce.Progress | cross-wg-sync/cross-wg-sync.hip.cpp:166-194 | until the end some step other than spinning is enabled |
| SerializedReduce.StepConsumes | cross-wg-sync/cross-wg-sync.hip.cpp:166-194 | every step that is not spinning lowers the work left |
| SerializedReduce.BoundedWork | cross-wg-sync/cross-wg-sync.hip.cpp:166-194 | so no run has more than that many such steps |
| LockReduce.LockWordMeaning | cross-wg-sync/cross-wg-sync.hip.cpp:114-126 | the word is 1 exactly while one thread 0 is between its swaps |
| LockReduce.ReleaseNeverSpins | cross-wg-sync/cross-wg-sync.hip.cpp:129-132 | `release`'s swap succeeds at once |
| LockReduce.NoLostUpdate | cross-wg-sync/cross-wg-sync.hip.cpp:183-188 | in every reachable state a lane of thread 0's wave is the sum of the committed rows, each once |
| LockReduce.FinalResult | cross-wg-sync/cross-wg-sync.hip.cpp:178-194 | at the end it is the sum over a permutation of all rows, the host's when add is associative and commutative |
| LockReduce.Progress | cross-wg-sync/cross-wg-sync.hip.cpp:114-132 | no deadlock: until the end a step other than a failed swap is enabled |
| LockReduce.StepConsumes | cross-wg-sync/cross-wg-sync.hip.cpp:114-132 | every step that is not a failed swap lowers the work left |
| LockReduce.BoundedWork | cross-wg-sync/cross-wg-sync.hip.cpp:178-194 | so no run has more than that many such steps |
| LockScope.LostUpdate | cross-wg-sync/cross-wg-sync.hip.cpp:114-132 | a run in which a lane of another wave loses a workgroup's row |
| LockScope.LockProtectsExactly | cross-wg-sync/cross-wg-sync.hip.cpp:114-132 | a lane keeps every update in all runs if and only if it is in thread 0's wave or there is at most one workgroup |
| CasReduce.StepInv | cmpswap_atomic/main.hip.cc:27-39 | every read and every exchange, stale first reads and repeated values included, keeps cells, logs and retry counts consistent |
| CasReduce.Linearised | cmpswap_atomic/main.hip.cc:27-39 | the cell is the fold of the finished threads' values in success order, each thread contributing exactly once |
| CasReduce.RetryBound | cmpswap_atomic/main.hip.cc:33-38 | the k-th thread to succeed has failed at most k - 1 times |
| CasCost.FailuresCounted | cmpswap_atomic/main.hip.cc:33-38 | the failed exchanges of a run are the threads' failure counts added up |
| CasCost.QuadraticRetries | cmpswap_atomic/main.hip.cc:27-39 | when N threads have finished on a cell, at most N(N-1)/2 exchanges on it failed |
| DeviceGrouping.DeviceIsHost | cmpswap_atomic_bench/main.hip.cc:40-53 | with an add whose contributions may be swapped, every interleaving gives the host's fold |
| DeviceGrouping.ReductionGroups | cmpswap_atomic/main.hip.cc:46-62 | the inputs the kernel sends to output i are exactly those the host loop reads, each once |
| DeviceGrouping.BenchGroups | cmpswap_atomic_bench/main.hip.cc:57-70 | the same for both block mapping modes against `get_input_idx` |
| DeviceGrouping.BenchWalk | cmpswap_atomic_bench/main.hip.cc:57-70 | which output each next thread adds to, in both modes |
| DeviceGrouping.HostToDevice | cmpswap_atomic_bench/main.hip.cc:111-119 | the input of output i's j-th term is a thread whose target is i |
| DeviceGrouping.DeviceToHost | cmpswap_atomic_bench/main.hip.cc:61-70 | every thread's input is a term of its target, so none is dropped |
| DeviceGrouping.AddLanesSwap | cmpswap_atomic/common.h:75-86 | two contributions to a lane-wise 16-bit sum may be exchanged |
| DeviceGrouping.SimpleReduction | cmpswap_atomic/main.hip.cc:53-66 | each host output is the fold of its inputs |
| DeviceGrouping.HostSumLanes | cmpswap_atomic/common.h:75-86 | each 16-bit lane of an output is that lane's sum over the inputs, modulo 2^16 |
| DeviceGrouping.KernelMatchesHost | cmpswap_atomic/main.hip.cc:41-66 | for every interleaving the kernel's output equals `simple_reduction` bit for bit |
| DeviceGrouping.KernelLaneSums | cmpswap_atomic/main.hip.cc:41-66 | so each lane of a kernel output is the sum of that lane over inputs i, i + REDUCE_SIZE, ..., modulo 2^16 |
| Hadamard.IsPow2Exact | hadmard_rotate/had.py:28-29 | the bit test holds exactly for powers of two |
| Hadamard.SignDoubles | hadmard_rotate/had.py:42-56 | the signs are those of Sylvester's doubling construction, which determines them |
| Hadamard.PassesTransform | hadmard_rotate/had.py:47-53 | after q passes every block of 2^q is transformed by the matrix of signs |
| Hadamard.OnePass | hadmard_rotate/had.py:48-53 | one butterfly between the two buffers |
| Hadamard.MatmulHadU | hadmard_rotate/had.py:42-66 | for n a power of two y[i] is the sum of (-1)^popcount(i & j) x[j] in every row, and other n fail the assertion |
| HadamardRotation.TwiceIsScaling | hadmard_rotate/had.py:42-66 | transforming twice multiplies by n |
| HadamardRotation.RandomHadamardMatrix | hadmard_rotate/had.py:69-74 | the result is the sign matrix with its input diagonal of ±1 folded in |
| HadamardRotation.DrawnRows | hadmard_rotate/had.py:69-74 | a drawn 1 keeps its row of the sign matrix, a drawn 0 negates it |
| HadamardRotation.ColumnsOrthogonal | hadmard_rotate/had.py:94-97 | Had^T Had = K I for every diagonal |
| HadamardRotation.RowsOrthogonal | hadmard_rotate/had.py:94-97 | Had Had^T = K I |
| HadamardRotation.RotationPreservesProduct | hadmard_rotate/had.py:100-111 | rotating both operands by 'rk' or by 'kr' and dividing by K gives A B back |
| HalfConvert.Float2Half | cmpswap_atomic_bench/half.hpp:574-625 | every finite double becomes the correctly rounded half in each rounding mode, through subnormals, carries and overflow |
| HalfConvert.RoundsUp | cmpswap_atomic_bench/half.hpp:620-621 | toward infinity: the least half not below the double, infinity when it is above every half |
| HalfConvert.RoundsDown | cmpswap_atomic_bench/half.hpp:622-623 | toward minus infinity: the greatest half not above it |
| HalfConvert.RoundsNearest | cmpswap_atomic_bench/half.hpp:614-619 | to nearest: no finite half is nearer |
| HalfConvert.Truncates | cmpswap_atomic_bench/half.hpp:574-625 | toward zero and by default: same sign, between zero and the double, and no half closer from there |
| HalfConvert.OverflowsFrom | cmpswap_atomic_bench/half.hpp:587-594 | toward zero never gives infinity; by default it comes exactly from 2^16 on |
| HalfConvert.AwayUnique | cmpswap_atomic_bench/half.hpp:614-619 | nearest with ties away determines the result |
| HalfConvert.EvenUnique | cmpswap_atomic_bench/half.hpp:614-617 | nearest with ties to even determines the result |
| HalfConvert.ConversionMonotone | cmpswap_atomic_bench/half.hpp:574-625 | the conversion is monotone over all pairs of finite doubles in each mode |
| HalfConvert.Half2Float | cmpswap_atomic_bench/half.hpp:904-921 | widening keeps sign and value exactly, infinities and NaN payloads |
| HalfConvert.RoundTrip | cmpswap_atomic_bench/half.hpp:574-625 | widening and rounding back, in any mode, is the identity on all halves but NaN |
| Transpose.LoadPlace | async_copy/main.hip.cc:96-114 | each asynchronous load puts its element where the store phase reads it |
| Transpose.LoadedOnce | async_copy/main.hip.cc:96-114 | every element is loaded |
| Transpose.WordsDistinct | async_copy/main.hip.cc:79-94 | no two elements share an LDS word |
| Transpose.StoredOnce | async_copy/main.hip.cc:118-134 | every element is stored by exactly one thread and issue |
| Transpose.ReadsWritten | async_copy/main.hip.cc:125-132 | every LDS word read was written, with the element expected |
| Transpose.LastWord | async_copy/main.hip.cc:79-94 | the last element lies in the last LDS word but one |
| Transpose.AddressesDistinct | async_copy/main.hip.cc:124-133 | destination addresses are all different if and only if dst_stride >= ROWS |
| Transpose.TransposeLds | async_copy/main.hip.cc:70-136 | for dst_stride >= ROWS, dst[c * dst_stride + r] = src[r * src_stride + c] for all elements; all other words of dst kept |
| BlockShuffle.DestThenSource | asm_f4gemm/f4gemm_ref.hpp:85-95 | the inverse map recovers every source position: no destination is written twice |
| BlockShuffle.SourceThenDest | asm_f4gemm/f4gemm_ref.hpp:85-95 | every destination is written |
| Preshuffle.ShuffleWeight16x16 | asm_f4gemm/f4gemm_ref.hpp:81-97 | for every N and Kp the five loops move every byte of the rows and columns that fill whole blocks to its place, and the rest of the result stays zero |
| Preshuffle.WeightLayout | asm_f4gemm/f4gemm_ref.hpp:75-80 | that place is the documented permuted view, and the inverse map leads back |
| Preshuffle.WeightBytes | asm_f4gemm/f4gemm_ref.hpp:75-97 | in numbers: byte (n1, k1, k2) of a 16 by 32 block goes to offset 256 k1 + 16 n1 + k2 of its 512 bytes |
| Preshuffle.Pad | asm_f4gemm/f4gemm_ref.hpp:111-113 | the source sits in a buffer of pads |
| Preshuffle.ShuffleScale | asm_f4gemm/f4gemm_ref.hpp:108-131 | every place of the result holds a pad exactly when the element it comes from is outside the source, otherwise that element |
| Preshuffle.ScaleLayout | asm_f4gemm/f4gemm_ref.hpp:99-107 | moving every element of the padded buffer to its destination gives that layout |
| Preshuffle.ScaleBytes | asm_f4gemm/f4gemm_ref.hpp:99-131 | in numbers: each scale's place in the 256 bytes of its 32 by 8 block, 0x7F where the source has none |
| Preshuffle.RoundUpLeast | asm_f4gemm/f4gemm_ref.hpp:51-52 | `round_up` is the least multiple not below its argument |
| Launch.SelectKernel | asm_f4gemm/f4gemm.hpp:210-267 | an eligible pair with the fewest rounds over all eligible pairs, 2^log2 equal to the split; the selected kernel fits the request's flags and sizes, and -1 only if none does |
| Launch.RoundsLeast | asm_f4gemm/f4gemm.hpp:244-247 | the rounds are the fewest with which the compute units cover the workgroups |
| Launch.MakeLaunch | asm_f4gemm/f4gemm.hpp:329-349 | rejects exactly the uneven splits, divides by zero exactly for K = 0; otherwise the gdz chunks partition [0, K) with none empty, and the grid has as many workgroups as `select_kernel` counts or fewer |
| Launch.ShareLeast | asm_f4gemm/f4gemm.hpp:341-343 | a chunk is the least multiple of 256 with which 2^log2 workgroups reach K |
| Launch.ChunksPartition | asm_f4gemm/f4gemm.hpp:341-347 | rounded-up division cuts a range into non-empty disjoint chunks that cover it |
| ReferenceGemm.ReferenceGemm | asm_f4gemm/f4gemm_ref.hpp:181-222 | divides by zero if and only if M = 0; otherwise every entry is alpha A B^T + beta C, in whatever order the threads finish |
| ReferenceGemm.EntryPicks | asm_f4gemm/f4gemm_ref.hpp:197-206 | an entry for a row of A with a single element is alpha times that element times B's, plus beta C |
| ReferenceGemm.EntryAdds | asm_f4gemm/f4gemm_ref.hpp:197-206 | and entries are additive in A |
| ReferenceGemm.Deal | asm_f4gemm/f4gemm_ref.hpp:209-218 | the threads' ranges follow one another from row 0 to M, none empty, each of ceil(M / nthreads) rows but for the last |
| ReferenceGemm.OneThreadPerRow | asm_f4gemm/f4gemm_ref.hpp:209-218 | so every row is computed by exactly one thread |

## Left out

- FlatRun.GemmPipelineFlat.Run: the waves advance together between barriers here; FlatWaves has the same pipeline in every interleaving, with LDS latency.
- FlatLayout.KernelConfigValid: BLOCK_K_WAVES = 1 and masked loads on both sides; with unmasked loads, as the invoker configures them, a tile past K reads what follows in memory.
- OneSideLayout.EveryOutputIsProduct: BLOCK_N_WAVES = BLOCK_K_WAVES = 1 is the only case that compiles, by `LdsFragments.DirectNeedsOneSide`.
- PipelineOneSide.CallSequence: K a multiple of K_PER_BLOCK and loads without masks, as the pipeline with USE_GLD_IF clears prefetch buffer 0 only.
- Launch.SelectKernel: assumes no 32-bit overflow in the counts, models the efficiency as a real number and says nothing about which of several pairs with equal rounds wins.
- Transpose.TransposeLds: contents are stated for dst_stride >= ROWS, the exact condition under which destinations differ.
- LdsLayout.StoreTile: ALIGNMENT a multiple of KPACK; the branch for a smaller ALIGNMENT is not modelled.
- DeviceGrouping.KernelMatchesHost: lanes add as 16-bit integers (the BF16ASU16 branch); floating-point bf16 and half addition are not associative and have no bit-exact order-free result.
- Hadamard.MatmulHadU: over exact reals and without the normalising square root.
- GemmReads.GemmBody.Run: the body's LDS reads only; how its global loads are spread over the slots is SlotMask's, and the two are not put together in one run.
- ReferenceGemm.ReferenceGemm: over the reals; sizes are not negative.
- The one-sided pipeline with X_IS_M = false, and its masked variant.
- Weak memory: memory is sequentially consistent and a store completes at its own wait; device intrinsics have only that meaning.
- The epilogue of the GEMM kernel, `hgemm/hgemm128x128.hip.cc` and the `vector_add_asm` kernel.
- Rounding error, NaN and infinity in GEMM; fp8, fp4 and int4 conversions; the rest of `half.hpp`.
- HIP runtime calls, module loading, timing, argument parsing, random data, CSV parsing and code generators.
