# Verified model of sched_test_app

A Dafny model of the parts of the ChronOS scheduler test application (`sched_test_app`) and of
`libchronos` that carry the most state: the shared-memory allocator, the lock-free integer, the
workloads and the driver that cuts them into chunks, and the periodic-task arithmetic and accounting.
`dafny verify dfyconfig.toml` checks everything.

## What is modelled

**Allocator** (`SallocHeap`, `SallocMemory`, `SallocArena`, `SallocRuns`, `SallocChoice`). `SallocArena.Arena` is
`salloc.c`: one array per header word, indexed by the address of the header, with address 0 for
`head`; the packed size-and-free word; the stored `prev`; the two links of the free ring; and the
static `free_list`. Every pointer write of the C code is there, in its order. The class is proved
against a value-level specification in which the arena is a sequence of blocks. The main results are
about that value and all runs: the layout of a heap is determined by its live allocations alone, from
which the round trip, the return to one free block, and the independence from the order of frees
follow; and no call writes into the payload of a live block. `SallocChoice` says, by addresses alone, which
free block a call takes and where `free_list` points after every call.

The C code has two edge cases that its comments do not mention, and the model keeps both.
`_usable_size(split_size) < SALLOC_SMALLEST_REGION` (`salloc.c:275`) is computed in `size_t`, so a
remainder below 16 bytes wraps and *takes* the split. `SplitRule` selects this compiled test or the rule
the comment states. Under the compiled test a request whose first fit leaves less than 16 bytes breaks
the heap; `ExactFitBreaks` gives a request, and `Arena.SallocSized` proves that afterwards no reading of
the size words tiles the arena (or the new header would lie over the block's own header or outside the
arena). Second, rounding (`salloc.c:306-309`) adds `size % 16`, so results need not be multiples of 16, and
requests within 8 bytes of the `size_t` maximum wrap to a value below 16. Splitting a block for such a
request breaks the heap too, and the rule of the comment does not prevent it (`WrappedRequestBreaks`).
`BrokenIff` says that these two families are all the requests that break the heap.

Callers may write anything into the memory they were given. `Arena.CallerWrites` shows that this leaves the
allocator's structures alone, and `Execute` lets a run mix such writes with the calls: memory that stays
allocated holds what its owner last wrote there.

**Lock-free integer** (`AtomicInt`). Any number of threads run the read / compute / compare-and-swap loop
as separate steps, interleaved freely. Every reachable state is linearizable. The loop itself is a method
over a cell that records every value stored into it. `atomic_int_sub`, `_mul` and
`_div` pass the code of addition (`atomic_int.h:86-96`); the model keeps that and says exactly when
subtraction is still right.

**Workloads** (`Iteration`, `ArrayWalk`, `Bst`, `Workload`). The array walks and the binary
search tree update their cells, nodes and cursors in place, each call being so many applications of one
step. The one-lap theorem of the array walk is proved through Bezout's identity; the sliced tree search
is shown to be a recursive lookup. The chunked driver is proved on the real cells, nodes and cursors of the
workloads it calls: it does a prefix of one undivided call. Its loop does not end for every call; `LoopEndsIff`
says for which it does, and `HalfSlopeNeverEnds` gives a call for which it does not.

**Random numbers** (`Random`, `LinearRegisters`, `Primes`, `Register32`, `Register64`). The comment in
`random.h` claims maximal periods, checked by a few runs for 32 bits and by nobody for 64. Both are proved.
The step is linear over the two-element field, so every state is a sum of the first states of one stream and
the powers of the step are known from that stream alone. The modules `Register32` and `Register64` compute
the powers 2^32 - 1 and 2^64 - 1, which are the identity, and the powers for their quotients by each prime
factor, each of which differs from the identity by an invertible element.

**Tasks** (`NumberTheory`, `Periods`, `Tasks`, `TaskGroups`, `TaskRun`, `Slope`). Hyper-period, releases,
deadlines, thread-group leaders, statistics and totals of a run, and the slope lookup. `gcd` of `tester.h`
swaps and keeps its remainder through an `int`; `GcdOfTester` keeps that, for all unsigned longs, beside
Euclid's algorithm: `LosslessIff` says when no `int` of the recursion changes a value, and `TesterGcdTrapsIff`
when it divides by zero.

Inputs from outside become parameters: the start time, the end time and abort flag of each job, the
sequence of reads of the abort pointer, the random seeds, and the lines of a slope file. Unsigned `long`
is 64 bits wide and `int` 32, wrap-around being written out where it decides a branch; `double` is a real
number.

## Model

| member | source | states |
|---|---|---|
| `SallocArena.Arena.constructor` | sched_test_app/src/salloc.c:206-228 | the fresh arena is a valid heap of one free block of 1 GB, linked to itself |
| `SallocArena.Arena.InsertFree` | sched_test_app/src/salloc.c:116-123 | the free ring with the node spliced in after the given one, links still mutually inverse, free bit set, nothing else changed |
| `SallocArena.Arena.ListRemoveFree` | sched_test_app/src/salloc.c:134-149 | the free ring without the node, free bit cleared, and `free_list` moved back, forward or to null |
| `SallocArena.Arena.FindFit` | sched_test_app/src/salloc.c:250-258 | the ring search ends, at the first fit from `free_list` or with none in the whole ring |
| `SallocArena.Arena.GrantWhole` | sched_test_app/src/salloc.c:275-276 | handing out a whole block keeps the heap valid and every live payload untouched |
| `SallocArena.Arena.GrantSplit` | sched_test_app/src/salloc.c:277-288 | a split with room for a header keeps the heap valid and live payloads untouched; one without corrupts it |
| `SallocArena.Arena.SallocSized` | sched_test_app/src/salloc.c:230-297 | the resulting heap and pointer are those of the specification; null changes nothing; a broken call leaves size words that tile nothing |
| `SallocArena.Arena.Salloc` | sched_test_app/src/salloc.c:303-312 | the same for the rounded request |
| `SallocArena.Arena.Absorb` | sched_test_app/src/salloc.c:155-161 | one merge: both pointer structures describe the merged blocks |
| `SallocArena.Arena.Coalesce` | sched_test_app/src/salloc.c:153-170 | merges exactly with the free neighbours that do not cross the end of the arena |
| `SallocArena.Arena.WalkBack` | sched_test_app/src/salloc.c:334-344 | the backward walk ends at the nearest free block before, or all the way round when none is free |
| `SallocArena.Arena.Sfree` | sched_test_app/src/salloc.c:319-361 | the heap after a free is the specified one, valid, with every other live payload untouched |
| `SallocArena.Arena.CallerWrites` | sched_test_app/src/salloc.c:299-302 | a caller's write into its own payload changes neither the heap nor its validity |
| `SallocMemory.WritableMisses` | sched_test_app/src/salloc.c:41-53 | a cell that shares a byte with a live payload is no header word of a block and no link of a free one |
| `SallocMemory.InsertLinks` | sched_test_app/src/salloc.c:118-121 | the four writes keep the ring linked both ways in order |
| `SallocMemory.RemoveLinks` | sched_test_app/src/salloc.c:136-147 | the writes keep the remaining ring linked both ways in order |
| `SallocMemory.SplitPrevs` | sched_test_app/src/salloc.c:102-106 | `prev` is again the circular inverse of `next` after a split |
| `SallocMemory.MergePrevs` | sched_test_app/src/salloc.c:109-113 | `prev` is again the circular inverse of `next` after a merge |
| `SallocMemory.SplinterCorrupts` | sched_test_app/src/salloc.c:274-285 | a remainder smaller than a header leaves size words no tiling agrees with |
| `SallocMemory.WalkedBack` | sched_test_app/src/salloc.c:339-344 | the block the walk stops at is the ring predecessor, so the ring stays in address order |
| `SallocMemory.InsertedRing` | sched_test_app/src/salloc.c:352-355 | linking in after that block yields the free ring of the heap in circular address order |
| `SallocMemory.ConfinedKeepsPayloads` | sched_test_app/src/salloc.c:41-53 | header writes share no byte with a live payload |
| `SallocMemory.SharesAByte` | sched_test_app/src/salloc.c:43-60 | a header word touches a payload exactly when one address belongs to both |
| `SallocMemory.ReleaseShape` | sched_test_app/src/salloc.c:153-170 | a free replaces the block and its free neighbours by one free block |
| `SallocMemory.ReleaseCoalesces` | sched_test_app/src/salloc.c:153-170 | a free leaves no two adjacent free blocks |
| `SallocHeap.FreeBlocksExact` | sched_test_app/src/salloc.c:41-53 | the free ring holds exactly the blocks whose free bit is set |
| `SallocHeap.FreeBlocksAscending` | sched_test_app/src/salloc.c:41-53 | the free ring is in address order |
| `SallocHeap.BlocksApart` | sched_test_app/src/salloc.c:61-64 | blocks are pairwise disjoint and inside the arena |
| `SallocRuns.LayoutIsCanonical` | sched_test_app/src/salloc.c:151-170 | two valid heaps with the same live allocations are the same sequence of blocks |
| `SallocRuns.AllocateGrants` | sched_test_app/src/salloc.c:272-296 | a successful allocation adds exactly one live block, apart from all others, and keeps the heap valid |
| `SallocRuns.NullIffNoFit` | sched_test_app/src/salloc.c:238-270 | null exactly when no free block has the rounded size |
| `SallocRuns.SallocPromise` | sched_test_app/src/salloc.c:299-312 | for every request: null exactly when nothing fits, and else a region inside the arena, disjoint from every live one; it covers the rounded request, and the request exactly when the rounding does not wrap |
| `SallocRuns.ReleaseKeeps` | sched_test_app/src/salloc.c:319-361 | a free keeps the heap valid |
| `SallocRuns.ReleaseRemoves` | sched_test_app/src/salloc.c:314-318 | a free removes exactly the freed block from the live set |
| `SallocRuns.SplitTestsAgree` | sched_test_app/src/salloc.c:272-275 | the compiled and the documented split test agree exactly when the remainder is at least 16 |
| `SallocRuns.RoundingCovers` | sched_test_app/src/salloc.c:305-309 | the rounded size is even, and covers the request exactly when the addition does not wrap |
| `SallocRuns.RoundingExact` | sched_test_app/src/salloc.c:306-309 | from 16 on, and below the wrap, the result is less than 16 above the request and twice it modulo 16, a multiple of 16 exactly for requests that are multiples of 8 |
| `SallocRuns.BrokenIff` | sched_test_app/src/salloc.c:274-288 | for every request, a call breaks the heap exactly when the compiled test meets a first fit with less than 16 bytes to spare, or the rounding wraps and the first fit has a header's size to spare |
| `SallocRuns.ExactFitBreaks` | sched_test_app/src/salloc.c:274-288 | a concrete breaking request on a fresh arena |
| `SallocRuns.WrappedRequestBreaks` | sched_test_app/src/salloc.c:306-309 | the largest request breaks a fresh arena under either split test |
| `SallocRuns.GrowthLosesPrevs` | sched_test_app/src/salloc.c:182-189 | growing a full arena ends the inverse relation of `prev` and `next` |
| `SallocRuns.RoundTrip` | sched_test_app/src/salloc.c:272-288 | allocating and freeing the result restores the sequence of blocks, split or not |
| `SallocRuns.RunKeeps` | sched_test_app/src/salloc.c:230-361 | every heap reachable by legal calls is valid |
| `SallocRuns.FreeingAllRestores` | sched_test_app/src/salloc.c:314-361 | freeing all live blocks in any order gives one free block of the whole arena |
| `SallocRuns.RunsConverge` | sched_test_app/src/salloc.c:230-361 | two runs end in the same layout exactly when they leave the same allocations live |
| `SallocRuns.Execute` | sched_test_app/src/salloc.c:230-361 | any legal sequence of calls and of callers' writes on the pointer structure ends in the heap the run predicts, and blocks live throughout keep every byte their owner did not write |
| `SallocChoice.RingByWay` | sched_test_app/src/salloc.c:249-258 | the free ring lists the free blocks by their way from `free_list` around the arena |
| `SallocChoice.ChoosesFirst` | sched_test_app/src/salloc.c:249-258 | a call takes, of all free blocks with room for the request, the first on the way from `free_list` |
| `SallocChoice.GrantsExactly` | sched_test_app/src/salloc.c:272-288 | with room for a header left the block keeps exactly the request and the rest behind it is free; else all of it is handed out |
| `SallocChoice.RoverAfterGrant` | sched_test_app/src/salloc.c:138-145 | `free_list` stays unless its block was taken; then it is at the rest after a split, else at the next free block, or null when there is none |
| `SallocChoice.RoverAfterFree` | sched_test_app/src/salloc.c:345-356 | after a free, `free_list` is the start of the block that holds the address it had, or the freed block when it was null |
| `AtomicInt.AtomicIntOp` | libchronos/atomic_int.h:38-68 | the result is stored right after the value it was computed from, whatever others stored meanwhile; no store is lost, and the loop repeats only when a store changed the value read |
| `AtomicInt.StepKeepsInv` | libchronos/atomic_int.h:42-65 | every step of every thread keeps the linearization invariant |
| `AtomicInt.RunsAreLinearizable` | libchronos/atomic_int.h:38-68 | for any interleaving the value is the fold of the completed operations in swap order, each once, between its call and return, returning its own answer |
| `AtomicInt.FromTheStart` | libchronos/atomic_int.h:38-68 | the same from any initial value |
| `AtomicInt.NoCallLost` | libchronos/atomic_int.h:38-68 | on any run no call is lost or invented: each one issued is in progress or has returned, and each one in progress, logged or returned was issued so |
| `AtomicInt.EveryCallKept` | libchronos/atomic_int.h:38-68 | the same from any initial int |
| `AtomicInt.SoloCompletes` | libchronos/atomic_int.h:38-68 | a thread that runs alone stores, logs and returns the result of its operation in four steps, and nothing else changes |
| `AtomicInt.SoloRetries` | libchronos/atomic_int.h:65 | when its swap is to fail, it does the same in five, on the value the cell now holds |
| `AtomicInt.SoloTraps` | libchronos/atomic_int.h:55-60 | a division or remainder by 0, or of the smallest int by -1, stops its thread and leaves the cell and the log alone |
| `AtomicInt.LogRespectsRealTime` | libchronos/atomic_int.h:38-68 | a call that returned before another began takes effect before it |
| `AtomicInt.FailedSwapMeansProgress` | libchronos/atomic_int.h:31-35 | a swap fails only when another call took effect since the read |
| `AtomicInt.CountersConserve` | libchronos/atomic_int.h:31-35 | no update is lost: the value is the start plus the net sum in 32-bit arithmetic |
| `AtomicInt.ModTruncates` | libchronos/atomic_int.h:58-60 | the remainder is below the divisor and has the sign of the value |
| `AtomicInt.DivisionExact` | libchronos/atomic_int.h:55-60 | divisor times quotient plus remainder is the value, with no wrap-around |
| `AtomicInt.SubWrapperSubtractsIff` | libchronos/atomic_int.h:86-88 | whatever the integer holds, the sub wrapper subtracts exactly for 0 and the smallest int |
| `AtomicInt.WrappersAdd` | libchronos/atomic_int.h:82-108 | alone, inc and dec count by one, the wrappers of add, sub, mul and div add, and mod takes the truncated remainder |
| `AtomicInt.IncDecUndo` | libchronos/atomic_int.h:98-104 | dec undoes inc, also across the wrap |
| `NumberTheory.Bezout` | sched_test_app/src/tester.h:44-58 | Euclid's recursion returns a positive common divisor that is an integer combination of its arguments |
| `NumberTheory.GcdIsGreatest` | sched_test_app/src/tester.h:44-58 | it is the greatest common divisor |
| `NumberTheory.TesterGcdExact` | sched_test_app/src/tester.h:44-58 | a call in whose recursion no int temporary changes a value returns that gcd |
| `NumberTheory.ThroughIntExact` | sched_test_app/src/tester.h:46-47 | an int temporary keeps the low 32 bits and, read back, repeats their sign in the upper half |
| `NumberTheory.LosslessIff` | sched_test_app/src/tester.h:46-57 | no int temporary of the whole recursion changes a value exactly when an argument fits an int, or there is no swap and the remainder fits, or the swapped argument reads as a negative int |
| `NumberTheory.TesterGcdTrapsIff` | sched_test_app/src/tester.h:46-52 | for all unsigned longs, it divides by zero exactly when the smaller argument is 0 or its 32 low bits are, and it is swapped: at once, or after a remainder that reads as a negative int |
| `NumberTheory.TesterGcdDividesByZero` | sched_test_app/src/tester.h:46-52 | it does for 2^32 and 2^33 |
| `NumberTheory.TesterGcdWrong` | sched_test_app/src/tester.h:52-55 | for 3 * 2^32 and 2^33 its result is no common divisor |
| `NumberTheory.LcmOfTwo` | sched_test_app/src/tester.h:69-73 | dividing by the gcd and multiplying gives the least common multiple of two |
| `Periods.TasksetLcm` | sched_test_app/src/tester.h:64-76 | when at each round the period or the multiple so far fits an int, the result is the least common multiple exactly when that fits a long; for all positive periods, the loop traps exactly when it reaches a round that meets the condition of `StepTrapsIff` |
| `Periods.StepTrapsIff` | sched_test_app/src/tester.h:70-71 | for every long and period, a round traps exactly when the smaller of the two has 32 low zero bits and, if that is the period, the low half of the multiple is zero or reads as a negative int |
| `Periods.NarrowPeriodsOverflow` | sched_test_app/src/tester.h:67-73 | three periods that fit an int and whose hyper-period does not fit a long |
| `Periods.WidePeriodsTrap` | sched_test_app/src/tester.h:69-73 | for 2^33 and 2^32 the gcd stored in an int is zero and the division traps |
| `Periods.TruncatesTowardZero` | sched_test_app/src/tester.h:71 | divisor times quotient plus a remainder that is smaller and has the sign of the dividend is the dividend |
| `Periods.LcmUnique` | sched_test_app/src/tester.h:60-63 | the least common multiple is determined by the periods |
| `Periods.RuntimeExact` | sched_test_app/src/task.c:54-55 | the run time in an unsigned int is exact up to 4294 seconds and off by a multiple of 2^32 beyond |
| `Periods.NoExtraIffHyperperiod` | sched_test_app/src/task.c:65-71 | no task needs an extra release exactly when the run time is a multiple of the hyper-period |
| `Periods.CountedJobsFit` | sched_test_app/src/task.c:57-71 | a job is counted exactly when its deadline is not after the end of the run |
| `Periods.DeadlineExact` | sched_test_app/src/task.c:90-101 | deadlines are normalised and exact to the nanosecond |
| `Periods.PeriodExact` | sched_test_app/src/task_init.c:161-166 | the period as a timespec is normalised and exact |
| `Periods.SubtractUsIsFloor` | sched_test_app/src/utils.h:93-105 | the microsecond difference is the floor of the nanosecond difference over 1000 |
| `Periods.SubtractNsExact` | sched_test_app/src/utils.h:73-87 | the nanosecond difference is exact modulo 2^64, so exact when first is not after last |
| `Periods.TardinessAgrees` | libchronos/chronos_utils.c:27-31 | non-negative tardiness is the same as a deadline met lexicographically |
| `ArrayWalk.ArrayWalkData.DoWork` | sched_test_app/src/workloads/array_walk.h:84-93 | a call performs exactly so many steps on the cells and the cursor |
| `ArrayWalk.WalkCounts` | sched_test_app/src/workloads/array_walk.h:84-93 | each cell grows by the number of visits of the cursor |
| `ArrayWalk.ForwardCursor` | sched_test_app/src/workloads/array_walk.h:91 | the cursor after k steps is (s + 16k) mod n |
| `ArrayWalk.SameCellIff` | sched_test_app/src/workloads/array_walk.h:89-92 | two steps land on the same cell exactly when they are whole laps apart |
| `ArrayWalk.Reached` | sched_test_app/src/workloads/array_walk.h:89-92 | every cell of the start's residue class is reached within a lap |
| `ArrayWalk.OneLap` | sched_test_app/src/workloads/array_walk.h:84-93 | after n / gcd(n, 16) steps the cursor is back, each cell of its class incremented once and no other |
| `ArrayWalk.BackwardStride` | sched_test_app/src/workloads/array_backwards.h:36 | a backward step goes back 16 cells around the array, with 2^64 added where the unsigned difference would be negative |
| `ArrayWalk.BackwardUndoesIff` | sched_test_app/src/workloads/array_backwards.h:34-37 | a backward step undoes a forward step from every cell exactly for 16 cells or more, or a length dividing 2^64 |
| `ArrayWalk.BackwardUndoesWalk` | sched_test_app/src/workloads/array_backwards.h:34-37 | k backward steps undo k forward steps, for every k and start, under exactly that condition |
| `Random.PrevOfNext32` | sched_test_app/src/random.h:19-20 | the 32-bit step is injective, with an explicit inverse |
| `Random.StepsAreBijections` | sched_test_app/src/random.h:18-32 | both registers step through a bijection |
| `Random.PurelyPeriodic` | sched_test_app/src/random.h:14-17 | streams have no tail before their period |
| `Random.ZeroIffSeedZero` | sched_test_app/src/random.h:28-32 | a stream of either register contains zero exactly when its seed is zero |
| `LinearRegisters.ExactPeriod` | sched_test_app/src/random.h:14-17 | a stream that is back after a product of primes, but after none of its quotients by one of them, is back exactly at the multiples |
| `LinearRegisters.OnlyZeroReturns` | sched_test_app/src/random.h:14-17 | when the k-th power of a linear step plus one is invertible, only zero is back after k steps |
| `LinearRegisters.PowerProduct` | sched_test_app/src/random.h:20 | the powers of a linear step multiply as the states of one stream |
| `LinearRegisters.CommonPeriod` | sched_test_app/src/random.h:14-17 | when a power is the identity and, for each prime factor, the power for the quotient plus one is invertible, every stream but that of zero has exactly that period |
| `Register32.MaximalPeriod` | sched_test_app/src/random.h:14-20 | two draws of lfsrandom32 from a non-zero seed are equal exactly when a multiple of 2^32 - 1 draws lies between them |
| `Register64.MaximalPeriod` | sched_test_app/src/random.h:14-20 | two draws of lfsrandom64 from a non-zero seed are equal exactly when a multiple of 2^64 - 1 draws lies between them |
| `Bst.InsertBelow` | sched_test_app/src/workloads/bst.h:48-61 | the heap tree below head becomes the specified one |
| `Bst.InsertNode` | sched_test_app/src/workloads/bst.h:63-71 | the same, also for the empty tree |
| `Bst.InsertKeepsOrder` | sched_test_app/src/workloads/bst.h:50-60 | insertion keeps left < node <= right everywhere |
| `Bst.InsertAddsValue` | sched_test_app/src/workloads/bst.h:48-61 | insertion adds exactly the inserted value |
| `Bst.InsertHangsLeaf` | sched_test_app/src/workloads/bst.h:48-61 | insertion hangs the node in as a leaf and moves no other |
| `Bst.BuildTree` | sched_test_app/src/workloads/bst.h:88-97 | the built heap tree is ordered and holds exactly the drawn values |
| `Bst.InitGroup` | sched_test_app/src/workloads/bst.h:84-104 | the built tree, and the draw after those of its nodes as the value to find |
| `Bst.BstData.constructor` | sched_test_app/src/workloads/bst.h:110-116 | a task starts at the head with the group's value to find and a register seeded anew |
| `Bst.BuiltIsSorted` | sched_test_app/src/workloads/bst.h:73-76 | its in-order listing is sorted and has one entry for each element |
| `Bst.CastExact` | sched_test_app/src/workloads/bst.h:93 | the drawn value is the int congruent to the draw modulo 2^32 |
| `Bst.BstData.WorkOnce` | sched_test_app/src/workloads/bst.h:163-187 | one iteration is one step of the search, with its increment on the node itself |
| `Bst.BstData.DoWork` | sched_test_app/src/workloads/bst.h:157-188 | a call is so many steps, and each node's `false_value` grows by its occurrences in the step log |
| `Bst.LastFinds` | sched_test_app/src/workloads/bst.h:171-181 | the lookup stops on the target's value exactly when the tree has it |
| `Bst.LastIsTopmost` | sched_test_app/src/workloads/bst.h:171-181 | of several nodes with the value it stops on the one above the others |
| `Bst.LastIsParent` | sched_test_app/src/workloads/bst.h:171-181 | for a value in no node it stops where insertion would hang one |
| `Bst.NewDraw` | sched_test_app/src/workloads/bst.h:164-167 | with nothing to find an iteration draws the value, keeps the draw as the register and is at the head |
| `Bst.NewSearch` | sched_test_app/src/workloads/bst.h:163-187 | the search for a drawn value other than 0 then goes through the whole tree: it ends after one iteration more than the steps of the lookup, by one increment where the lookup in the whole tree stops |
| `Bst.SearchEnds` | sched_test_app/src/workloads/bst.h:165-186 | a search ends after exactly the steps of the lookup, at most the height, by one increment where the lookup stops |
| `Bst.CompletionsAreIncrements` | sched_test_app/src/workloads/bst.h:177-181 | completed searches equal increments |
| `Bst.LogsAppend` | sched_test_app/src/workloads/bst.h:157-188 | consecutive calls increment what one longer call does |
| `Iteration.IterateAdd` | sched_test_app/src/workload_type.h:97-110 | work may be cut into chunks anywhere |
| `Workload.LoopEndsIff` | sched_test_app/src/workload.c:160-169 | the driver's loop ends exactly when the slope is at least 1, or usage times slope is below 1, or an abort is seen |
| `Workload.HalfSlopeNeverEnds` | sched_test_app/src/workload.c:160-169 | a call with usage 10 and slope 0.5 and no abort never ends |
| `Workload.Workload.AfterAdd` | sched_test_app/src/workload_type.h:97-110 | two calls of do_work leave cells, nodes, counters and cursor as one call of both lengths |
| `Workload.DoWorkSlope` | sched_test_app/src/workload.c:154-176 | cells, nodes, counters and cursor end as after one call of k chunks when read k + 1 sees an abort, and of all iterations otherwise, where reads 0 to k - 1 are clear with a full chunk left each and read k is an abort or none is left; an abort at both of the first reads changes nothing; the result is the last abort read |
| `Workload.WorkBounded` | sched_test_app/src/workload.c:154-176 | that number is at most the iterations, and equal to them without an abort |
| `Workload.LastCheckDecides` | sched_test_app/src/workload.c:165-173 | the same about the numbers alone |
| `Workload.NeverOverestimates` | sched_test_app/src/workload.c:156-161 | iterations and chunk are truncated: at most usage times slope, and less than one below |
| `Workload.DoWorkUninterrupted` | sched_test_app/src/workload.c:154-176 | chunks of at least one iteration and no abort: the same as one call |
| `TaskGroups.TaskSet.AddTask` | sched_test_app/src/task_init.c:257-263 | the task is put in front, and leads exactly when its group is new |
| `TaskGroups.TaskSet.InitGroupLeader` | sched_test_app/src/task_init.c:174-190 | it takes the leader of another member, else itself |
| `TaskGroups.OneLeaderPerGroup` | sched_test_app/src/task_init.c:168-190 | each group has exactly one leader, itself a member, and all members point to it |
| `TaskGroups.TaskSet.ToArray` | sched_test_app/src/tester.c:159-166 | the array holds the list in order |
| `TaskGroups.TaskSet.SetGroupWss` | sched_test_app/src/task_init.c:290-302 | exactly the leader of the group is changed; found exactly when the group has a task |
| `TaskGroups.StartTaskGroup` | sched_test_app/src/task.c:259-270 | starts exactly the members of the leader's group, once each, in the order of the list with the leader last |
| `TaskGroups.StartAll` | sched_test_app/src/tester.c:388-396 | every task is started exactly once, group after group in the order of the leaders, so the barrier gets as many arrivals as there are tasks |
| `TaskRun.TaskInstance` | sched_test_app/src/task.c:165-188 | the new statistics after a counted job; none change after an uncounted one |
| `TaskRun.CountJobAccounts` | sched_test_app/src/task.c:175-188 | the statistics after n + 1 jobs count exactly the met and the aborted ones and the worst tardiness |
| `TaskRun.MetAndAborted` | sched_test_app/src/task.c:176-188 | met and aborted jobs together are at most the releases |
| `TaskRun.TardinessExact` | sched_test_app/src/task.c:90-101 | a job is due (job + 1) periods after the start; its tardiness is the floor in microseconds of the time from its end to then, and it is met exactly when not aborted and ended by then |
| `TaskRun.Prepare` | sched_test_app/src/task.c:52-72 | cleared statistics, and release counts from the 32-bit run time |
| `TaskRun.StartTask` | sched_test_app/src/task.c:226-240 | the statistics account for exactly the counted releases, the extra one changing nothing |
| `TaskRun.Totals.Accumulate` | sched_test_app/src/tester.c:415-430 | each total is the sum of its counter over all tasks, the possible utility the sum of releases times utility, and the tardiness the minimum of 0 and all tasks' |
| `TaskRun.TotalsBounded` | sched_test_app/src/tester.c:415-430 | met plus aborted at most released, and accrued utility at most possible utility |
| `TaskRun.Run` | sched_test_app/src/tester.c:328-436 | after any run of any task set: the totals are the sums of the counted releases, of the met and of the aborted jobs of each task, and of releases and met jobs times the task's utility; the tardiness is the worst of all counted jobs, or 0; met plus aborted is at most released, accrued utility at most possible utility |
| `Slope.GetWorkloadSlope` | sched_test_app/src/slope.c:112-153 | for non-negative slopes: the first exact line, else interpolation between the nearest sizes on both sides, else -1 |
| `Slope.ScanStep` | sched_test_app/src/slope.c:130-143 | each line keeps the candidates the nearest on either side |
| `Slope.AnswerUnique` | sched_test_app/src/slope.c:99-102 | the answer is determined by the lines and the target |
| `Slope.Between` | sched_test_app/src/slope.c:149-153 | the interpolated slope lies strictly between different neighbours |
| `Slope.OnTheLine` | sched_test_app/src/slope.c:149-153 | the interpolated point lies on the line through the neighbours |
| `Slope.FailureIff` | sched_test_app/src/slope.c:145-148 | -1 exactly without an exact match and with a side missing |
| `Slope.OrderIrrelevant` | sched_test_app/src/slope.c:129-143 | with distinct sizes the order of the lines does not matter |

## Left out

- SallocArena.Arena.Salloc: the arena does not grow; `increase_heap_size` depends on `mmap` and does not keep `prev` (`SallocRuns.GrowthLosesPrevs`), so a failed search returns null as when growth fails.
- SallocArena.Arena.constructor: the lazy first call and a failing `mmap` are not modelled; construction is the successful `init_salloc`.
- SallocArena.Arena.SallocSized: header words are separate cells, so once a split would write a header over its own block's header or outside the arena the model stops with `fault` instead of following the overlapping bytes.
- SallocArena.Arena.SallocSized: for a split with less than 16 bytes to spare the contract states that no tiling agrees with the size words, not the other garbage left behind.
- AtomicInt.RunsAreLinearizable: signed overflow, undefined in C, is two's complement here; a division that traps leaves its thread stopped forever.
- AtomicInt.SubWrapperSubtractsIff: nothing is claimed about multiplication and division through their wrappers, which add.
- NumberTheory.TesterGcdExact: when an int of the recursion changes a value, the result may still happen to be the gcd; when it does is not characterised (`NumberTheory.TesterGcdWrong` gives a call for which it does not).
- Periods.TasksetLcm: when a round's gcd has no argument that fits an int, nothing but the traps is stated of the result; periods are positive, as the C division needs.
- Periods.CountedJobsFit: deadlines are not bounded to 64 bits.
- ArrayWalk.WalkCounts: cells are unbounded integers, and one task works on the array at a time.
- Bst.BstData.DoWork: one task works on the tree at a time, and the tree is not empty, as the minimum working-set size ensures.
- Bst.BuildTree: the values come from a given seed; `false_value`, which the C code leaves uninitialised, starts at 0.
- Workload.DoWorkSlope: the loop counter is not bounded to 64 bits; the method covers exactly the calls whose loop ends (`Workload.LoopEndsIff`). Workloads other than the array walks and the tree are a step on some data.
- TaskGroups.StartAll: threads are started one after another; forking, joining and the barrier itself are not modelled.
- TaskRun.TaskInstance: locks, real-time segments and sleeping are not modelled; a job is its outcome.
- Slope.GetWorkloadSlope: opening and parsing the file are not modelled; files with negative slopes get no promise.
- Nested locking (`task.c:134-147`): the release loop depends on kernel locks and on an uninitialised variable when no lock is taken.
- `set_lock_usage`, `MASK_SET`, the CPU and lock list parsing of `task_init.c`, option parsing and printing: easy members.
- `linked_list.h`, `array_random.h`, `burn_loop.h`: smaller versions of the modelled workloads.
- `do_work_timer`, `calc_lock_time` and the slope generator: their results depend on clocks.
- Agreement on the start time between processes, the scheduling algorithms, and all kernel calls.
