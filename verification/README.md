# Verified model of alpaka's parallel algorithms and index arithmetic

This Dafny project models the parts of the alpaka repository whose correctness rests on more than one function
body, and proves what their documentation and callers rely on:

* **The two prefix scans** of the scan example. A chunk is loaded with zero padding, summed up a tree, cleared at the
  root, swept down and written back; the host recurses over the chunk totals and adds the increments. The improved
  kernel first scans register mini-blocks and runs the tree over their sums. Both are proved to compute exactly the
  inclusive or exclusive prefix sums, for every length, in place or not, for every interleaving of the single memory
  accesses that the workers of a tree level make between two barriers, every order in which chunks, threads and
  elements are handled, and every interleaving of the workers' SIMD loops. What a longer output view gets is stated
  as well.
* **`CallbackThread`**, the asynchronous task queue: a labelled transition system with an inductive invariant, safety
  and draining theorems over all runs, theorems that tie outcomes and the end of the destructor to the events of the
  run, and a class whose methods are the atomic steps.
* **N-dimensional index arithmetic** (`linearize`, `mapToND`), the pitched memory layout built on it, and **the two
  index traversals** (flat and tiled, each with the strided and the contiguous layout) that decide which worker
  handles which index, over all dimensions or over a selection of them. The traversals are what justifies "each index
  once, in some order" everywhere else.
* **Grid-stride kernels**, **tree reductions** (`reduce_range`, the warp shuffle sum), the halving loop
  **`adjustToLimit`**, integer **powers and roots**, and the **double-buffered tiled stencil** of the heat equation
  with the numerics left uninterpreted.

Where code falls short of what it is for, the exact condition is proved instead:

* `BankConflicts.NoConflictExactlyWhen`: the padding of the shared memory avoids all bank conflicts of a tree level
  exactly while the level's stride is at most the number of banks.
* `HeatEquation.BoundaryExactlyWhen`: the boundary kernel takes its last column from the number of rows
  (`BoundaryKernel.hpp`, line 53); it stays in bounds, or covers exactly the border, only on the stated shapes. The
  program calls it on square grids only.
* `HeatEquation.TilesInsideExactlyWhen`: tiles stay inside exactly when the chunk divides the grid, the condition the
  program asserts in debug builds.
* `Reduction.WarpSumRightExactlyWhen`: the shuffle sum is right for all inputs exactly for power-of-two warps.
* `Increments.OwnIncrementsExactlyWhen`: one increment per SIMD pack is right exactly when the pack width divides the
  chunk.
* `HostScan.NothingPastInputExactlyWhen`, `HostScan.LookupsExactlyWhen`: the increments kernel takes its length from
  the output view (`scan.hpp`, line 166). It leaves everything behind the input alone exactly when both views have one
  extent or one chunk is enough, and its lookups exist exactly when the output view ends inside the last chunk. The
  program calls it with views of one extent.
* `IndexMap.OneEachExactlyWhen`: what a thread keeps in registers from one loop over an index map to the next belongs
  to the same index exactly when there are at least as many threads as indices, as in the two-level kernel.
* `ThreadFold.MapToOneToOneExactlyWhen`, `SelectedDims.TiledPartitionExactlyWhen`: when only some dimensions are
  traversed, `mapTo` (`ThreadSpace.hpp`, lines 78-84) multiplies every folded coordinate with the same count. Threads
  stay apart, and the tiled and the strided flat traversal are partitions, exactly when at most one of the other
  dimensions has more than one thread.
* `SelectedDims.FlatPartitionExactlyWhen`: the contiguous flat traversal counts the slots of its start with the thread
  count before folding and those of its end with the one after it (`FlatIdxContainer.hpp`, lines 226-228 and 268). It
  is a partition exactly when none of the other dimensions has more than one thread.
* `IntegerPowers.HighestPowerEndsExactlyWhen`: the 32-bit loop of `highestPowerOfTwo` ends exactly below 2^31.
* `AdjustToLimit.EndsExactlyWhen`: the halving loop ends exactly for a limit of at least 1 or a zero component.
* `IntegerPowers.RootExists`: the inequalities that define the integer root can be met exactly for n >= 1.

## How it is organised

| file | contents |
|---|---|
| `Arithmetic.dfy`, `Sums.dfy` | division, powers of two, `Times`/`Start`/`BlockOf` (products and quotients as recursion), range sums |
| `SharedMemory.dfy`, `BankConflicts.dfy`, `Sweeps.dfy`, `TreeScan.dfy`, `ScanChunk.dfy` | padded shared memory and what the padding avoids, the tree levels as functions, the sweeps as interleaved accesses, one chunk |
| `MiniBlock.dfy`, `TwoLevelChunk.dfy` | register mini-blocks and the two-level chunk |
| `Increments.dfy`, `HostScan.dfy` | the increments by SIMD packs; all chunks and the host recursion |
| `CallbackProtocol.dfy`, `CallbackRuns.dfy`, `CallbackThread.dfy` | the transition system, its runs seen from their events, and the object |
| `VecIndex.dfy`, `MemoryLayout.dfy` | index arithmetic and layout |
| `IndexMap.dfy`, `TiledMap.dfy`, `GridStride.dfy` | who handles which index |
| `ThreadFold.dfy`, `SelectedDims.dfy` | the same over a selection of the dimensions |
| `Reduction.dfy`, `AdjustToLimit.dfy`, `IntegerPowers.dfy` | the numeric routines |
| `HeatEquation.dfy` | the stencil |

Loops over an index map are written as `while todo != {}` with `var i :| i in todo`: any order. The two-level kernel
and the SIMD loops go through the index map itself: each thread or worker visits its own positions. Tree levels go further:
`todo` is a multiset that holds one copy of a pair per memory access its worker still has to make, so the loads and
stores of different workers mix freely. Floating point, clocks and the network do not occur; the element types are
`int` for the scans and the sums, and a type parameter for the reductions and the stencil. What an out-of-range
shuffle delivers is a parameter.

## Model

| member | source | states |
|---|---|---|
| `SharedMemory.ConflictFreeIncreasing` | example/scan/src/scan.hpp:25-36 | the padded index map is strictly increasing, hence injective, for every number of banks |
| `SharedMemory.InBounds` | example/scan/src/scan.hpp:69-71 | every logical cell maps into an allocation that holds the last one |
| `SharedMemory.AllocationsFit` | example/scan/src/scan_improved.hpp:159-161 | both allocation sizes in use (map of n; map of n-1, plus 1) hold n padded cells |
| `BankConflicts.HitsApart` | example/scan/src/scan.hpp:21-36 | with a stride that divides the number of banks, any two threads of a group of that many neighbours hit different banks |
| `BankConflicts.NoConflictExactlyWhen` | example/scan/src/scan.hpp:21-36 | what the padding is for: a level of the tree is free of bank conflicts exactly while its stride is at most the number of banks |
| `SharedMemory.Load` | example/scan/src/scan.hpp:97-97 | a padded read sees the logical cell |
| `SharedMemory.Store` | example/scan/src/scan.hpp:97-97 | a padded write changes one logical cell and no other |
| `Sweeps.PairCells` | example/scan/src/scan.hpp:93-94 | the j-th pair of a level lies in bounds, offset apart, and closes the j-th half block and block |
| `Sweeps.LevelPairsCover` | example/scan/src/scan.hpp:88-98 | the pairs of a level are pairwise disjoint and are exactly the level's left and right cells |
| `Sweeps.AddedPairsIsUpLevel` | example/scan/src/scan.hpp:97-97 | adding left to right for every pair is one level function of the whole block |
| `Sweeps.SwappedPairsIsDownLevel` | example/scan/src/scan.hpp:130-132 | moving right to left and the sum to right for every pair is one level function of the whole block |
| `Sweeps.UpLevelSums` | example/scan/src/scan.hpp:85-99 | up-sweep invariant: after each level every cell holds the sum of the subtree it closes, one level higher |
| `Sweeps.DownLevelPrefixes` | example/scan/src/scan.hpp:117-134 | down-sweep invariant: prefixes of blocks become prefixes of half blocks, the rest stay subtree sums |
| `Sweeps.ClearedRoot` | example/scan/src/scan.hpp:106-113 | after the up-sweep the last cell is the total, and clearing it starts the down-sweep invariant |
| `Sweeps.LeafPrefixes` | example/scan/src/scan.hpp:117-135 | the invariants at the leaves: input values before, exclusive prefix sums after |
| `TreeScan.AddAccess` | example/scan/src/scan.hpp:97-97 | any one access (load, load, store) of any worker keeps the invariant of the level in progress |
| `TreeScan.AddPairs` | example/scan/src/scan.hpp:88-98 | all interleavings of the workers' accesses between two barriers end in the same added level |
| `TreeScan.SwapAccess` | example/scan/src/scan.hpp:130-132 | any one of the five accesses of any worker keeps the invariant of the level in progress |
| `TreeScan.SwapPairs` | example/scan/src/scan.hpp:121-133 | all interleavings of the workers' accesses between two barriers end in the same swapped level |
| `TreeScan.UpSweepLevel` | example/scan/src/scan.hpp:87-98 | one level between two barriers is the up-level function |
| `TreeScan.DownSweepLevel` | example/scan/src/scan.hpp:120-133 | one level between two barriers is the down-level function |
| `TreeScan.UpSweep` | example/scan/src/scan.hpp:85-99 | the loop over d and offset keeps d * 2 * offset at the block size and leaves all subtree sums |
| `TreeScan.DownSweep` | example/scan/src/scan.hpp:117-134 | the loop over d and offset turns a cleared tree of sums into exclusive prefix sums |
| `TreeScan.ScanTree` | example/scan/src/scan.hpp:84-135 | up-sweep, save and clear the root, down-sweep: exclusive prefix sums in place and the total, for every power of two |
| `TreeScan.HalvedPairs` | example/scan/src/scan.hpp:85-85 | halving d and doubling offset keeps their product, down to offset = half the block |
| `TreeScan.HalvedBlocks` | example/scan/src/scan.hpp:117-118 | doubling d and halving offset keeps d blocks covering the chunk |
| `ScanChunk.WindowSum` | example/scan/src/scan.hpp:78-81 | zero padding does not change any prefix sum, and the padded total is the sum of what is there |
| `ScanChunk.CopyToShared` | example/scan/src/scan.hpp:75-82 | the load leaves the window of the input in shared memory, zeros behind the end, in any order |
| `ScanChunk.WriteBack` | example/scan/src/scan.hpp:138-149 | every valid element is written once with its scanned cell, plus the input element when the scan is inclusive, even when input and output are one; nothing behind the end |
| `ScanChunk.WrittenBackIsScan` | example/scan/src/scan.hpp:137-149 | what is written back is the chunk-local scan of the input |
| `ScanChunk.ChunkScanIsUnique` | example/scan/src/scan.hpp:66-151 | the chunk specification determines the output, so the basic and the two-level kernel agree on every chunk |
| `ScanChunk.ScanOneChunk` | example/scan/src/scan.hpp:69-150 | a chunk of the basic kernel: element i is the sum of the inputs from the chunk's start up to i, with i itself exactly when inclusive; untouched elsewhere; the chunk total is returned |
| `MiniBlock.MiniAddPairs` | example/scan/src/scan_improved.hpp:61-66 | the sequential inner loop performs the whole up-level inside its slice of the registers |
| `MiniBlock.MiniSwapPairs` | example/scan/src/scan_improved.hpp:78-85 | the sequential inner loop performs the whole down-level inside its slice |
| `MiniBlock.MiniUpSweep` | example/scan/src/scan_improved.hpp:59-67 | all up-levels: subtree sums in the slice, the other registers unchanged |
| `MiniBlock.MiniDownSweep` | example/scan/src/scan_improved.hpp:76-86 | all down-levels: exclusive prefix sums in the slice |
| `MiniBlock.ScanMiniBlock` | example/scan/src/scan_improved.hpp:52-91 | returns the sum of the block and leaves in element i the sum of the block before i, for every power-of-two block |
| `MiniBlock.AddToMiniBlock` | example/scan/src/scan_improved.hpp:95-102 | the sum is added to every element of the block and to nothing else |
| `TwoLevelChunk.LoadElements` | example/scan/src/scan_improved.hpp:170-196 | guarded scalar loads and unguarded packs of four both load the zero-padded window |
| `TwoLevelChunk.ScanMiniBlocks` | example/scan/src/scan_improved.hpp:199-207 | all mini-blocks of a thread are scanned and their sums published in their cells |
| `TwoLevelChunk.ScanThread` | example/scan/src/scan_improved.hpp:164-208 | load and mini-block scans of one thread in its own registers |
| `TwoLevelChunk.OwnFrameElems` | example/scan/src/scan_improved.hpp:164-168 | a thread's index map over the frame elements of a chunk yields exactly one, its own, so one register array per thread is enough |
| `TwoLevelChunk.OneFrameElem` | example/scan/src/scan_improved.hpp:164-168 | frame element t times elsPerThread is handled by thread t and no other index of the range is, for both layouts |
| `TwoLevelChunk.ScanThreads` | example/scan/src/scan_improved.hpp:164-208 | phase one, threads in any order, each with the one frame element that its index map yields: mini-block prefixes in its registers, mini-block sums in shared memory |
| `TwoLevelChunk.MiniTotalsAdd` | example/scan/src/scan_improved.hpp:205-206 | prefix sums of the mini-block sums are prefix sums of the chunk at mini-block starts |
| `TwoLevelChunk.FinishedIsPrefix` | example/scan/src/scan_improved.hpp:272-280 | a mini-block prefix plus the prefix before its block is the chunk prefix |
| `TwoLevelChunk.FinishMiniBlocks` | example/scan/src/scan_improved.hpp:269-281 | adding the scanned sums completes all mini-blocks of a thread: mini-block prefix plus the sum before the block, or plus zero behind the end |
| `TwoLevelChunk.WriteElements` | example/scan/src/scan_improved.hpp:283-322 | guarded and unguarded write-back: the register, plus the input element when the scan is inclusive, also in place |
| `TwoLevelChunk.FinishThreads` | example/scan/src/scan_improved.hpp:263-323 | phase three, threads in any order: the index map yields the same frame element again, so the registers of phase one belong to it |
| `TwoLevelChunk.Split` | example/scan/src/scan_improved.hpp:123-132 | every power-of-two thread count and mini-block limit splits the chunk into whole power-of-two mini-blocks |
| `TwoLevelChunk.FullChunk` | example/scan/src/scan_improved.hpp:143-170 | unguarded accesses happen only in chunks that lie completely inside the data |
| `TwoLevelChunk.ScanSplitChunk` | example/scan/src/scan_improved.hpp:157-324 | the three phases of one chunk, for both index layouts, compute the same chunk-local scan and total as the basic kernel, a single mini-block included |
| `TwoLevelChunk.ScanChunkInTwoLevels` | example/scan/src/scan_improved.hpp:122-325 | for every admissible split, with the kernel's own choice of guarded or unguarded access: element i is the sum from the chunk's start up to i, with i itself exactly when inclusive |
| `HostScan.RunChunk` | example/scan/src/scan.hpp:66-73 | both kernels meet one specification of a chunk |
| `HostScan.ScanBlocks` | example/scan/src/scan.hpp:66-151 | all chunks in any order, in place or not: element i is the sum from its chunk's start up to i, with i itself exactly when inclusive; chunk totals stored, nothing behind n written |
| `Increments.PackRuleExact` | example/scan/src/scan.hpp:172-173 | every pack lies in the chunk of its first element exactly when the width divides the chunk |
| `Increments.OwnIncrementsExactlyWhen` | example/scan/src/scan.hpp:157-176 | the kernel adds to every element its own chunk's increment, for all lengths and sums, exactly when the width divides the chunk |
| `Increments.PacksInside` | include/alpaka/onAcc/internal/SimdConcurrent.hpp:132-146 | the SIMD packs of all workers end inside the data and leave less than one more round of calls |
| `Increments.PacksEnd` | include/alpaka/onAcc/internal/SimdConcurrent.hpp:132-146 | the modelled packs end at the source's remainderBegin |
| `Increments.IncrementLookup` | example/scan/src/scan.hpp:172-173 | the increment of an element in a pack is looked up at the pack's first element, elsewhere at the element itself |
| `Increments.OwnPacks` | include/alpaka/onAcc/internal/SimdConcurrent.hpp:195-207 | a worker's packs are exactly its first loops * perCall iterator positions, for both layouts |
| `Increments.PackPosition` | include/alpaka/onAcc/internal/SimdConcurrent.hpp:195-207 | the c-th position of a worker: slot plus c strides of all workers, or the c-th of its own contiguous part |
| `Increments.OneCall` | include/alpaka/onAcc/internal/SimdConcurrent.hpp:91-117 | advancing the iterator perCall times without looking at its end never steps over it: each pack visited lies before the end |
| `Increments.WorkerPacks` | include/alpaka/onAcc/internal/SimdConcurrent.hpp:207-217 | a worker handles exactly loops * perCall packs, its own, although the end is tested between calls only |
| `Increments.AddPacks` | include/alpaka/onAcc/internal/SimdConcurrent.hpp:195-217 | the SIMD loops of all workers interleaved pack by pack: every element before the remainder got one increment, once |
| `Increments.AddRest` | include/alpaka/onAcc/internal/SimdConcurrent.hpp:220-233 | the remainder, one by one in any order |
| `Increments.AddIncrements` | example/scan/src/scan.hpp:157-176 | over an output of its own extent m, element i gets the increment of its pack's first element (of itself in the remainder) exactly once, and nothing from m on changes, for every width and number of workers |
| `HostScan.TotalsAdd` | example/scan/src/scan.hpp:210-214 | prefix sums of the chunk totals are prefix sums of the input at chunk starts |
| `HostScan.GlobalElement` | example/scan/src/scan.hpp:210-217 | chunk-local prefix plus increment is the global prefix |
| `HostScan.AllChunksScanned` | example/scan/src/scan.hpp:205-219 | the three kernels together: local scan, scanned totals and increments make the global scan, plus the excess behind the input |
| `HostScan.NothingPastInputExactlyWhen` | example/scan/src/scan.hpp:166-166 | the kernel takes its length from the output: nothing behind the input changes, for all data, exactly when both views have one extent or one chunk holds the input |
| `HostScan.Excess` | example/scan/src/scan.hpp:166-173 | what outputs behind the input get: the sum of all chunks but the last when there is more than one, nothing otherwise |
| `HostScan.LookupsExactlyWhen` | example/scan/src/scan.hpp:173-173 | every increment looked up exists exactly when the output view ends inside the last chunk of the input |
| `HostScan.Scan` | example/scan/src/scan.hpp:178-228 | the recursion terminates and leaves in each of the first n outputs the sum of all inputs before it, with its own exactly when inclusive, also in place, for both kernels; an output view of extent m = n changes nowhere else, a longer one by the stated excess |
| `Arithmetic.DivCeilCovers` | include/alpaka/utility.hpp:34-37 | divCeil is just enough, and smaller than its argument whenever more than one chunk is needed |
| `CallbackProtocol.StepInv` | include/alpaka/core/CallbackThread.hpp:79-190 | every step of every thread keeps the invariant: queue shape, histories, promises, life cycle |
| `CallbackProtocol.RunInv` | include/alpaka/core/CallbackThread.hpp:79-190 | the invariant holds in every state of every run |
| `CallbackProtocol.TasksRunOnceInOrder` | include/alpaka/core/CallbackThread.hpp:117-182 | at most one worker is ever started; tasks run once each in submission order, one finished before the next begins |
| `CallbackProtocol.PopRemovesTheShell` | include/alpaka/core/CallbackThread.hpp:165-182 | the late pop removes the emptied package of the task that ran, however submits interleave |
| `CallbackProtocol.FrontIsNextTask` | include/alpaka/core/CallbackThread.hpp:165-167 | at the loop head a non-empty queue starts with the full package of the next task in submission order |
| `CallbackProtocol.ReadyMeansDestroyed` | include/alpaka/core/CallbackThread.hpp:103-103 | a ready future means run, popped and destroyed; an exception exactly when the task threw |
| `CallbackProtocol.OutcomesAreFinal` | include/alpaka/core/CallbackThread.hpp:187-190 | a promise is set at most once |
| `CallbackProtocol.EmptyMeansAllFinished` | include/alpaka/core/CallbackThread.hpp:129-133 | the queue is empty exactly when every submitted task has returned or thrown and was popped |
| `CallbackProtocol.NoLostWakeUp` | include/alpaka/core/CallbackThread.hpp:156-163 | a worker asleep without notification has an empty queue, no stop request and no pending future |
| `CallbackProtocol.ShutdownDrains` | include/alpaka/core/CallbackThread.hpp:79-101 | the worker exits, and a joining destructor returns, only with every submitted task run and settled |
| `CallbackProtocol.StepTowardsExit` | include/alpaka/core/CallbackThread.hpp:152-190 | after a stop request every worker step lowers the remaining work by one and only submits raise it |
| `CallbackProtocol.DrainIsBounded` | include/alpaka/core/CallbackThread.hpp:152-190 | worker steps made plus steps remaining is constant along a run, up to five per later submit |
| `CallbackProtocol.NeverStuck` | include/alpaka/core/CallbackThread.hpp:79-101 | after a stop request some step is always possible until the worker has exited |
| `CallbackProtocol.QuietMeansDrained` | include/alpaka/core/CallbackThread.hpp:79-166 | a run that can go no further after a stop request has settled every future, on the join and the detach path |
| `CallbackRuns.OutcomeIsWhatTheTaskDid` | include/alpaka/core/CallbackThread.hpp:169-190 | in every run a settled future holds an exception exactly when its task's own run ended by throwing, a value when it ended by returning |
| `CallbackRuns.ElsewhereJoins` | include/alpaka/core/CallbackThread.hpp:88-100 | in every run, after a stop request from another thread the destructor stops, joins or is gone without detaching, and when it is gone every future is settled |
| `CallbackRuns.OnWorkerDetaches` | include/alpaka/core/CallbackThread.hpp:88-97 | in every run, after a stop request from a running task the destructor detaches and never joins, which would be waiting for itself |
| `CallbackRuns.HistoriesAreEvents` | include/alpaka/core/CallbackThread.hpp:105-190 | the modelled histories have one entry per event of the run: futures per submit, finished per return, popped per pop, destroyed per destruction |
| `CallbackRuns.CheckDecides` | include/alpaka/core/CallbackThread.hpp:156-167 | at the loop head the worker takes the next task if there is one, leaves if stop was requested, and sleeps otherwise |
| `CallbackRuns.SpuriousWakeUp` | include/alpaka/core/CallbackThread.hpp:159-161 | a spurious wake-up is possible whenever the worker sleeps, and leads back to the same state |
| `CallbackRuns.SubmitDuringJoin` | include/alpaka/core/CallbackThread.hpp:105-127 | while another thread waits in the destructor the running task may still submit, and its task is queued |
| `CallbackRuns.DetachFromTask` | include/alpaka/core/CallbackThread.hpp:79-98 | a running task may destroy the object: stop is requested, the thread is detached, and the task goes on |
| `CallbackRuns.EveryOutcomeIsPossible` | include/alpaka/core/CallbackThread.hpp:75-190 | for any number of tasks and any choice of which throw there is a run that ends in a join with exactly these outcomes |
| `CallbackThread.CallbackThread.constructor` | include/alpaka/core/CallbackThread.hpp:75-77 | a new object is in the initial state |
| `CallbackThread.CallbackThread.Submit` | include/alpaka/core/CallbackThread.hpp:105-127 | enqueue behind the others, start the worker exactly when there is none, wake it when it sleeps; returns a pending future |
| `CallbackThread.CallbackThread.IsEmpty` | include/alpaka/core/CallbackThread.hpp:129-133 | true exactly for an empty queue, and then every submitted task has finished |
| `CallbackThread.CallbackThread.WaitForTask` | include/alpaka/core/CallbackThread.hpp:156-167 | the locked loop head is the protocol step; the unguarded front() never fails: if the queue is not empty its front is the full package of the next task in submission order |
| `CallbackThread.CallbackThread.WakeUp` | include/alpaka/core/CallbackThread.hpp:159-161 | waking, notified or spuriously, takes the worker back to the loop head and changes nothing else |
| `CallbackThread.CallbackThread.RunReturns` | include/alpaka/core/CallbackThread.hpp:169-176 | the task returning or throwing: the worker remembers which of the two, and nothing else but the history changes |
| `CallbackThread.CallbackThread.PopShell` | include/alpaka/core/CallbackThread.hpp:177-182 | the second locked section is the protocol step; the unguarded pop() never fails and removes exactly one emptied package |
| `CallbackThread.CallbackThread.DestroyTask` | include/alpaka/core/CallbackThread.hpp:183-184 | the task object is destroyed after the pop and while its future is still pending |
| `CallbackThread.CallbackThread.SettlePromise` | include/alpaka/core/CallbackThread.hpp:187-190 | the promise was pending and becomes an exception exactly when the task's run had thrown; no other future changes |
| `CallbackThread.CallbackThread.RequestStopAndNotify` | include/alpaka/core/CallbackThread.hpp:81-86 | the destructor's locked section: stop is requested of a started worker, a sleeping worker is notified, and who destroys is kept |
| `CallbackThread.CallbackThread.DecideJoinOrDetach` | include/alpaka/core/CallbackThread.hpp:88-100 | on the worker it detaches; elsewhere it joins a started worker and returns at once without one |
| `CallbackThread.CallbackThread.FinishJoin` | include/alpaka/core/CallbackThread.hpp:99-99 | a join that returns: the worker has exited, the queue is empty and every future is settled |
| `VecIndex.ProductOf` | include/alpaka/Vec.hpp:522-528 | the loop computes the product of all components |
| `VecIndex.RShrink` | include/alpaka/Vec.hpp:412-421 | the loop keeps the last n components |
| `VecIndex.Linearize` | include/alpaka/Vec.hpp:847-873 | the Horner loop over the reduced extents is the row-major position |
| `VecIndex.PitchExtents` | include/alpaka/Vec.hpp:893-897 | the backward loop fills the products of the faster extents |
| `VecIndex.MapToND` | include/alpaka/Vec.hpp:888-916 | the division loop is the row-major index of a position, a first extent of 0 included |
| `VecIndex.LinearInRange` | include/alpaka/Vec.hpp:847-865 | indices in the box have positions below the product |
| `VecIndex.UnlinearInBox` | include/alpaka/Vec.hpp:888-907 | positions below the product have indices in the box |
| `VecIndex.UnlinearLinear` | include/alpaka/Vec.hpp:888-907 | mapToND undoes linearize on the box, in every dimension |
| `VecIndex.LinearUnlinear` | include/alpaka/Vec.hpp:847-865 | linearize undoes mapToND, in every dimension |
| `VecIndex.LinearOrderIsLexicographic` | include/alpaka/Vec.hpp:847-865 | linear order is lexicographic order, and equal positions are equal indices |
| `VecIndex.FirstExtentIrrelevant` | include/alpaka/Vec.hpp:864-864 | the first extent never influences linearize |
| `MemoryLayout.CalculatePitchesFromExtents` | include/alpaka/mem/DataPitches.hpp:18-29 | every pitch is the element size times the product of the faster extents |
| `MemoryLayout.CalculatePitches` | include/alpaka/mem/DataPitches.hpp:34-46 | the backward loop yields element size, row pitch, and products on top of the row pitch |
| `MemoryLayout.EmulatedAlignedMemDescription` | include/alpaka/api/util.hpp:100-122 | size and pitches of the description, one-dimensional or more |
| `MemoryLayout.OffsetForm` | docs/snippets/dataStorage/datastorage_pitch.cpp:20-25 | a byte offset is row pitch times the row's linear number plus element size times the column |
| `MemoryLayout.RowPitchFits` | include/alpaka/api/util.hpp:115-116 | the row pitch is the least multiple of the alignment that holds a row |
| `MemoryLayout.ElementInside` | include/alpaka/api/util.hpp:117-120 | every element ends inside the reported size |
| `MemoryLayout.ElementsDisjoint` | include/alpaka/api/util.hpp:117-120 | distinct indices own disjoint byte ranges, in lexicographic order |
| `MemoryLayout.RowsAligned` | include/alpaka/api/util.hpp:113-117 | every row starts at a multiple of the alignment |
| `MemoryLayout.TightIsLinear` | docs/snippets/dataStorage/datastorage_pitch.cpp:20-25 | without padding the byte offset is element size times linearize |
| `MemoryLayout.DescribeAllocation` | include/alpaka/api/util.hpp:93-122 | all three guarantees for the computed description, for every dimension, element size and alignment |
| `IndexMap.BelowCeil` | include/alpaka/mem/FlatIdxContainer.hpp:212-212 | the number of strides in a distance, rounded up, is exactly how many steps stay below it |
| `IndexMap.NumbersReachRange` | include/alpaka/mem/FlatIdxContainer.hpp:144-149 | every number below the product of the extents dereferences to an index of the range with that number |
| `IndexMap.NumberingIsBijective` | include/alpaka/mem/FlatIdxContainer.hpp:144-149 | numbering is a bijection between the range and the numbers, for every begin, end and stride |
| `IndexMap.SlotsPartition` | include/alpaka/mem/FlatIdxContainer.hpp:233-241 | contiguous slots start at 0, end at n, leave no gap and differ in size by at most one |
| `IndexMap.OneSlotEach` | include/alpaka/mem/FlatIdxContainer.hpp:233-241 | every number lies in exactly one slot |
| `IndexMap.HandlerIs` | include/alpaka/mem/FlatIdxContainer.hpp:202-251 | who handles a number, in the source's arithmetic: remainders (strided), or slots of n / workers numbers of which the first n % workers have one more (contiguous) |
| `IndexMap.OneThreadEach` | include/alpaka/mem/FlatIdxContainer.hpp:197-283 | each index of a range goes to exactly one thread of the group, for both layouts and every shape |
| `IndexMap.OneEachExactlyWhen` | example/scan/src/scan_improved.hpp:157-168 | no worker gets two of n indices exactly when there are at least n workers: the condition under which per-thread storage survives from one loop to the next |
| `IndexMap.OneNumberEach` | example/scan/src/scan_improved.hpp:157-168 | with enough workers, worker k gets number k, in both layouts |
| `IndexMap.StridedBounds` | include/alpaka/mem/FlatIdxContainer.hpp:202-215 | start, end and increment of the strided layout are the source's, and stand on the worker's numbers only |
| `IndexMap.ContiguousBounds` | include/alpaka/mem/FlatIdxContainer.hpp:216-251 | start and clipped end of the contiguous layout are the source's, and enclose exactly the worker's numbers |
| `IndexMap.Traverse` | include/alpaka/mem/FlatIdxContainer.hpp:144-163 | one worker's iteration over all dimensions yields exactly its indices, each once |
| `IndexMap.TraverseSpan` | include/alpaka/mem/FlatIdxContainer.hpp:144-163 | a loop over any span of the numbers yields exactly the indices with these numbers, each once |
| `TiledMap.SuccCounts` | include/alpaka/mem/TiledIdxContainer.hpp:196-213 | advancing the odometer with carry is counting up the linear number |
| `TiledMap.FirstComponent` | include/alpaka/mem/TiledIdxContainer.hpp:233-236 | testing the slowest coordinate alone detects the end |
| `TiledMap.TiledIterator.constructor` | include/alpaka/mem/TiledIdxContainer.hpp:160-182 | offset, extent and start of an iterator, invalidated when a faster dimension is empty |
| `TiledMap.TiledIterator.Turn` | include/alpaka/mem/TiledIdxContainer.hpp:200-210 | one wheel: add the stride, wrap and carry, or stop |
| `TiledMap.TiledIterator.Advance` | include/alpaka/mem/TiledIdxContainer.hpp:196-213 | the in-place increment is the odometer's successor |
| `TiledMap.StridedRemainder` | include/alpaka/mem/TiledIdxContainer.hpp:259-263 | strides of all threads interleave: the wide stride from a thread's start hits exactly its steps |
| `TiledMap.ContiguousDim` | include/alpaka/mem/TiledIdxContainer.hpp:275-283 | a cropped slot holds exactly the steps of its thread |
| `TiledMap.Begin` | include/alpaka/mem/TiledIdxContainer.hpp:252-285 | begin() gives a thread its share of every dimension, for both layouts |
| `TiledMap.HandlesTiledIs` | include/alpaka/mem/TiledIdxContainer.hpp:252-313 | a thread's indices: those of the range whose step number in every dimension is handled by the thread's coordinate |
| `TiledMap.OneThreadEachTiled` | include/alpaka/mem/TiledIdxContainer.hpp:252-313 | each index of a range goes to exactly one thread of the group |
| `TiledMap.TraverseTiled` | include/alpaka/mem/TiledIdxContainer.hpp:190-241 | one worker's iteration yields exactly its indices, each once, empty shares included |
| `ThreadFold.MapIdx` | include/alpaka/mem/ThreadSpace.hpp:77-84 | the first loop: the slowest selected coordinate becomes itself plus the sum of the others times its own count, the others 0 |
| `ThreadFold.MapCount` | include/alpaka/mem/ThreadSpace.hpp:86-91 | the second loop: the slowest selected count becomes the product with the folded counts, the others 1 |
| `ThreadFold.FoldedIdxIs` | include/alpaka/mem/ThreadSpace.hpp:77-84 | component by component: the slowest selected coordinate plus its count times the sum of the others, the other selected ones unchanged, the rest 0 |
| `ThreadFold.FoldedCountIs` | include/alpaka/mem/ThreadSpace.hpp:86-91 | component by component: the slowest selected count times the product of the others, the other selected ones unchanged, the rest 1 |
| `ThreadFold.FoldInBox` | include/alpaka/mem/ThreadSpace.hpp:63-94 | a folded thread index lies inside the folded thread count |
| `ThreadFold.FoldedTogether` | include/alpaka/mem/ThreadSpace.hpp:78-84 | two threads that differ by one step in different folded dimensions get the same folded index, because the first loop does not enlarge the count it multiplies with |
| `ThreadFold.MapToOneToOneExactlyWhen` | include/alpaka/mem/ThreadSpace.hpp:63-94 | mapTo keeps threads apart exactly when at most one folded dimension has more than one thread |
| `ThreadFold.FoldOnto` | include/alpaka/mem/ThreadSpace.hpp:63-94 | under that condition every index inside the folded count is some thread's |
| `ThreadFold.SelectedOrFolded` | include/alpaka/CVec.hpp:164-176 | every dimension is selected or folded, whatever the order of the selection |
| `SelectedDims.StartOfSlot` | include/alpaka/mem/FlatIdxContainer.hpp:233-241 | slot times base plus the smaller of slot and remainder is where the slot starts |
| `SelectedDims.TraverseSelected` | include/alpaka/mem/FlatIdxContainer.hpp:197-283 | flat iteration over any selection of the dimensions: exactly the thread's indices, each once, the others staying at their begin; the contiguous start counts slots before folding, its end after it |
| `SelectedDims.TraverseTiledSelected` | include/alpaka/mem/TiledIdxContainer.hpp:252-313 | tiled iteration over any selection of the dimensions: exactly the thread's indices, each once |
| `SelectedDims.TakesIs` | include/alpaka/mem/FlatIdxContainer.hpp:226-275 | the numbers of a contiguous slot, in the source's arithmetic: its start counts with the thread count before folding, its end with the one after it |
| `SelectedDims.HandlesSelectedIs` | include/alpaka/mem/FlatIdxContainer.hpp:197-283 | a thread's indices in the flat traversal: unselected coordinates at their begin, selected ones with the numbers of the folded thread's slot |
| `SelectedDims.HandlesTiledSelectedIs` | include/alpaka/mem/TiledIdxContainer.hpp:252-313 | and in the tiled one: selected coordinates that the folded thread handles in the selected part |
| `SelectedDims.OneThreadEachSelected` | include/alpaka/mem/FlatIdxContainer.hpp:197-283 | when folding keeps the traversal's threads apart, each selected index goes to exactly one thread |
| `SelectedDims.OneThreadEachTiledSelected` | include/alpaka/mem/TiledIdxContainer.hpp:252-313 | the same for the tiled traversal |
| `SelectedDims.SharedIndex` | include/alpaka/mem/ThreadSpace.hpp:78-84 | otherwise two threads get one index: the range and the index |
| `SelectedDims.LostIndex` | include/alpaka/mem/FlatIdxContainer.hpp:226-275 | with threads in a folded dimension the contiguous flat traversal has an index that no thread gets, because its start and end count slots differently |
| `SelectedDims.FlatPartitionExactlyWhen` | include/alpaka/mem/FlatIdxContainer.hpp:197-283 | every selected index of every range goes to exactly one thread exactly when at most one folded dimension has several threads (strided), or none has (contiguous) |
| `SelectedDims.TiledPartitionExactlyWhen` | include/alpaka/mem/TiledIdxContainer.hpp:252-313 | the tiled traversal is a partition exactly when at most one folded dimension has several threads |
| `GridStride.UniqueVisitor` | example/tutorial/src/06_cudaLikeKernel.cpp:33-37 | every data index has exactly one visiting thread, for every grid shape and dimension |
| `GridStride.VectorAdd1D` | example/tutorial/src/06_cudaLikeKernel.cpp:30-40 | with all threads interleaved, every output is the sum and every index is written exactly once |
| `GridStride.GridThread` | example/tutorial/src/06_cudaLikeKernel.cpp:54-60 | block and thread indices correspond one to one to grid threads |
| `GridStride.UniqueVisitor3D` | example/tutorial/src/06_cudaLikeKernel.cpp:59-64 | a cell is visited by the thread with its coordinates' remainders and by no other |
| `GridStride.AddThread` | example/tutorial/src/06_cudaLikeKernel.cpp:62-68 | the three nested loops of a thread write exactly the cells it visits, each once |
| `GridStride.GridThreadIndex` | example/tutorial/src/06_cudaLikeKernel.cpp:54-60 | recomputing the grid index from block and thread index gives the thread itself |
| `GridStride.VectorAdd3D` | example/tutorial/src/06_cudaLikeKernel.cpp:54-68 | all threads in any order: every cell is the sum and is written exactly once |
| `Reduction.ReduceLoop` | include/alpaka/Vec.hpp:676-683 | the loop variant is the left fold |
| `Reduction.TreeIsFold` | include/alpaka/Vec.hpp:684-692 | the midpoint recursion equals the left fold for every associative operation and every width |
| `Reduction.AddingIsSum` | include/alpaka/Vec.hpp:676-692 | with addition both variants are the sum of the range |
| `Reduction.AgreementNeedsAssociativity` | include/alpaka/Vec.hpp:665-693 | agreement of the variants on three components already forces associativity |
| `Reduction.LaneZeroSums` | docs/snippets/example/190_warp.cpp:40-42 | lane 0 ends with the sum of all lanes whatever out-of-range shuffles deliver |
| `Reduction.WarpSumRightExactlyWhen` | docs/snippets/example/190_warp.cpp:41-42 | right for all inputs exactly when the warp size is a power of two |
| `Reduction.WarpSum` | docs/snippets/example/190_warp.cpp:40-42 | the halving loop is the specified sequence of shuffle rounds |
| `Reduction.WarpSumKernel` | docs/snippets/example/190_warp.cpp:37-48 | out[b] is the sum of inputs b * warpSize up to (b + 1) * warpSize, warps in any order, and nothing else changes |
| `AdjustToLimit.MaxIndex` | include/alpaka/api/util.hpp:79-86 | the scan finds the first of the largest components |
| `AdjustToLimit.DivExZero` | include/alpaka/utility.hpp:39-45 | the quotient by its inequalities, and 1 instead of 0 |
| `AdjustToLimit.HalvingSequence` | include/alpaka/api/util.hpp:77-89 | each step halves the first of the largest components, rounding down but not below 1, and leaves the others alone |
| `AdjustToLimit.ProductAfterHalving` | include/alpaka/api/util.hpp:88-88 | halving a component of at least two keeps at least a third of the product |
| `AdjustToLimit.NextHalving` | include/alpaka/api/util.hpp:77-89 | one iteration keeps positivity, bounds, balance and the factor of three, and lowers the total |
| `AdjustToLimit.Adjust` | include/alpaka/api/util.hpp:71-91 | the loop returns the first vector of the halving sequence that is within the limit |
| `AdjustToLimit.DividedByIs` | include/alpaka/api/util.hpp:88-88 | a component is divided by a power of two exactly by the inequalities of rounding down |
| `AdjustToLimit.AdjustToLimit` | include/alpaka/api/util.hpp:69-91 | every component is the original divided by a power of two; the first vector of the sequence within the limit; components in [1, original], at most a factor of three below the limit if anything was halved, and balanced |
| `AdjustToLimit.EndsExactlyWhen` | include/alpaka/api/util.hpp:77-89 | the loop ends exactly for a limit of at least 1 or a zero component |
| `IntegerPowers.IntPow` | include/alpaka/utility.hpp:48-56 | the loop computes the power, 1 for exponent 0 |
| `IntegerPowers.PowAdd` | include/alpaka/utility.hpp:48-56 | the power by its laws: 1 for exponent 0, the base for exponent 1, sums of exponents are products |
| `IntegerPowers.IPow` | include/alpaka/utility.hpp:124-139 | exponentiation by squaring computes the same power |
| `IntegerPowers.NthRootFloor` | include/alpaka/utility.hpp:60-74 | r^n <= value < (r+1)^n for n >= 1; the value itself for n = 0 |
| `IntegerPowers.RootIsUnique` | include/alpaka/utility.hpp:58-74 | the inequalities determine the root |
| `IntegerPowers.RootExists` | include/alpaka/utility.hpp:58-74 | they can be met exactly for n >= 1 |
| `IntegerPowers.RoundDownRoundsDown` | include/alpaka/utility.hpp:76-91 | shifting by the first set bit gives the p with p <= v < 2p |
| `IntegerPowers.RoundsDownUnique` | include/alpaka/utility.hpp:83-91 | that power of two is unique |
| `IntegerPowers.HighestPowerOfTwo` | include/alpaka/api/util.hpp:124-132 | the 32-bit loop agrees with roundDownToPowerOfTwo below 2^31 |
| `IntegerPowers.HighestPowerEndsExactlyWhen` | include/alpaka/api/util.hpp:127-130 | the loop ends exactly below 2^31 |
| `HeatEquation.LoadTile` | example/heatEquation2D/src/StencilKernel.hpp:56-63 | in any order, the tile with halo equals the buffer at its position |
| `HeatEquation.UpdateTile` | example/heatEquation2D/src/StencilKernel.hpp:69-82 | in any order, exactly the core cells get the five-point update of the current buffer, each written once |
| `HeatEquation.TilesInsideExactlyWhen` | example/heatEquation2D/src/heatEquation2D.cpp:146-148 | all tiles stay inside the buffer exactly when the chunk divides the nodes |
| `HeatEquation.OneTileEach` | example/heatEquation2D/src/StencilKernel.hpp:47-48 | every interior cell lies in the core of exactly one tile |
| `HeatEquation.OneTile` | example/heatEquation2D/src/StencilKernel.hpp:47-83 | one block's work through the shared tile equals the untiled update of its cells |
| `HeatEquation.StencilKernel` | example/heatEquation2D/src/StencilKernel.hpp:42-84 | tiles in any order: each interior cell gets the scheme's update of the current cell and its west, east, north and south neighbours, written once; the border is untouched |
| `HeatEquation.BoundaryExactlyWhen` | example/heatEquation2D/src/BoundaryKernel.hpp:39-56 | in bounds exactly when not taller than wide, and exactly the border exactly when square (or without inner rows) |
| `HeatEquation.BoundaryKernel` | example/heatEquation2D/src/BoundaryKernel.hpp:39-56 | all interleavings of both loops: the written cells hold the known solution, each written once, the rest untouched |
| `HeatEquation.InteriorAndBorder` | example/heatEquation2D/src/heatEquation2D.cpp:164-184 | interior and border together are the whole grid, without overlap |
| `HeatEquation.InitializeBuffer` | example/heatEquation2D/src/analyticalSolution.hpp:64-78 | every cell of the initial buffer holds the known solution of its column and row at time 0 |
| `HeatEquation.NextCellValue` | example/heatEquation2D/src/StencilKernel.hpp:80-81 | the update of a buffer at step k - 1 is the untiled value at step k |
| `HeatEquation.TimeStep` | example/heatEquation2D/src/heatEquation2D.cpp:166-184 | every cell of the next buffer is written exactly once: the known solution of this step on the border, the update of the current neighbourhood inside |
| `HeatEquation.Simulate` | example/heatEquation2D/src/heatEquation2D.cpp:164-196 | what the buffer holds after k steps: the known solution at time 0 at first, then on the border the known solution of the step and inside the update of the step before, for every tile shape that divides the grid |

## Left out

- Vector additions whose output is also an input: the inputs are separate from the output, as in the program.
- Machine integers: sizes, indices and scan elements are unbounded, except in `HighestPowerOfTwo` and `RoundDownToPowerOfTwo`, which work on a given number of bits; the results carry over wherever no intermediate value (such as `a + b - 1` in `divCeil`, or a sum of int elements) wraps around.
- Weak memory: a barrier ends a phase, and within a phase accesses are atomic and interleave; a critical section of the callback thread is one step because all of them hold the same mutex.
- Interleaving of the phases that only copy (loading a chunk or a tile, writing back and the stencil cells): they are handled in any order, one item at a time; the items touch disjoint cells, and only the tree levels, whose workers read and write shared cells, are modelled access by access.
- Per-thread registers of the two-level kernel are slices of one array, the slice of the thread's one frame element (`OwnFrameElems`), so that the memory of all threads can be described together.
- SIMD packs are their lanes one after the other, and a pack is one step of the interleaving; alignment of the pack addresses is not modelled.
- Scan: an output view that ends behind the last chunk of the input is outside the contract, because the program then reads past the increments (`LookupsExactlyWhen`); a width that does not divide the chunk is too, because the result is then wrong for some data (`OwnIncrementsExactlyWhen`).
- Queues, devices, buffers and streams: kernels run one after the other, as the program enqueues them on one queue.
- Floating-point values of the stencil: the update and the known solution are uninterpreted; stability and accuracy are not modelled.
- The image output of the stencil program, which only reads the current buffer, and its final comparison with the known solution.
- The choice of worker groups, frame sizes and SIMD widths: they are parameters; the widths the library computes are powers of two and therefore divide the chunk.
- A submit that races with the destructor from a third thread: that is a use of an object being destroyed; submits of the running task during a join are in the model.
- The thread affinity of the callback thread and tasks that never return: `DrainIsBounded` counts worker steps, so it speaks of tasks that return.
- The compile-time overload of `adjustToLimit`, whose result depends on template instantiation; the runtime overload is modelled.
- Named lane accessors, tags, tuples and dictionaries, vendor calls, command lines, benchmarks and documentation scripts: plumbing without a property of this kind.
