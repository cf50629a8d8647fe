# Proofs about the programs and kernel modules of the repository

The repository holds small C programs and kernel modules: a quicksort and a paging module that serves its
memory, serial and parallel matrix products, kernel threads that share a loop counter, a tree of forked
processes, a shared-memory handshake, a block of kernel pages, a file of length-prefixed lines, and a pair of
programs that talk by queued signals. This project models the algorithm or protocol in each of them and proves
what it keeps, for every size, every input and every interleaving. Fixed sizes of the sources (4 threads,
2000000 integers, 10 generations, 1000000 iterations) are parameters. `dafny verify dfyconfig.toml` checks it.

| file | what it models |
|---|---|
| `TruncatingSort.dfy` | `sort.c`: a quicksort of doubles whose `swap` keeps its temporary in an `unsigned` |
| `StrictPartition.dfy` | when `partition` splits into smaller and greater values |
| `SortExactness.dfy` | when that sort is a permutation, whatever `rand` returns |
| `SortMain.dfy` | `main` of `sort.c`: generation, one slot too many, the check of the result |
| `SharedCounter.dfy` | `core_thread.c`, `core_thread_atomic.c`: threads that all loop on one static `i` |
| `CounterAccesses.dfy` | what the accesses of one `i++` or `shared_data++` amount to, however far apart |
| `CounterBound.dfy` | how many loop bodies those threads can run, and when no int overflows |
| `CounterExactness.dfy` | when the plain counter of `core_thread.c` counts every loop body |
| `MatrixMultiply.dfy` | `dense_mm.c`: index arithmetic, the product, the serial loop nests |
| `ParallelMultiply.dfy` | `parallel_dense_mm.c`: columns handed out to threads that load, add and store |
| `TimedRuns.dfy` | `timed_parallel_dense_mm.c`: repeated passes over one C, and the statistics of their times |
| `PagingModel.dfy`, `PagingInvariant.dfy` | `paging.c` on values: one kernel event is one step; what every sequence of events keeps |
| `PagingModule.dfy` | `paging.c` in place: the circular list of pages, the counters, the handlers |
| `ForkTree.dfy` | `tree_fork.c`: processes that print, fork twice and wait |
| `Handshake.dfy` | `leader.c`, `follower.c`: three flags around a shared array |
| `KernelMemory.dfy` | `kernel_memory.c`: order of an allocation, fill loops, check at exit |
| `RecordFile.dfy` | `appendfile_count.c`, `readfile.c`: length-prefixed lines |
| `QueuedSignals.dfy` | `sender.c`, `receiver.c`: queued real-time signals and their count |
| `Arithmetic.dfy` | powers of two and products, used by several of them |

A concurrent program has a `State`, a step function `Next` (one memory access, one system call or one kernel
event) and an `Enabled` predicate; lemmas about `Next` give the invariants, the measure of the work left and the
results over whole runs. Beside them stands a class whose fields are the program's own variables: its methods
update them in place, are proved to make exactly the steps of `Next`, and run the program under an arbitrary
scheduler to its end. Sequential programs are methods on arrays, with the loops of the source.

## Where the sources do less than they say

- `partition` in `sort.c` promises smaller values before the pivot and greater ones after it. It keeps that promise
  if no other value of the slice is truncated to the pivot, on whole numbers exactly then
  (`UniquePivotSplitsStrictly`, `StrictExactlyForUnique`); `EqualPairIsLoose` and `TruncationIsLoose` give slices
  on which it fails. Fractions that pass through the temporary are lost; the result is sorted nevertheless, and what
  is preserved is the multiset of truncated values (`Quicksort`, `SwapPermutes`). The sort is a permutation for
  everything that `rand` can return if and only if the slice holds whole numbers only (`SortIsExact`).
- `main` of `sort.c` sorts one slot more than it has generated. Its values survive exactly when none of them
  exceeded that slot, truncated (`ExtraSlotKeepsData`); the sortedness check passes in any case, but for size 0, when
  it runs through the mapping and out of it (`GenerateSortVerify`).
- The size check of the matrix programs admits 65536, where the number of cells wraps to 0 (`SizeCheckExact`).
- The timed program's own check succeeds after several passes exactly when every column of A meets a zero row of B
  or is zero itself (`CheckAfterPasses`); its mean leaves the range of the times when they add up to a negative
  number (`MeanIsBetween`).
- The paging module keeps all pages on one list, so closing one mapping frees the pages of every other one. A run
  keeps the pages in use exactly when each close spares them (`PagesInUseStayExactly`, `TwoMappingsCanDangle`). At
  module exit the counters agree exactly when every pre-paging mmap that failed after its first page was followed
  by the last close of some record (`ExitBalance`). Every pre-paging mmap that failed leaves its record allocated
  (`RecordsLeft`).
- The plain counter of `core_thread.c` equals the number of bodies in every run exactly when there is one thread or
  nothing to do, and in one run exactly when no store wrote back an outdated value (`PlainIsExactFor`,
  `ExactUnlessStale`).
- The sender's limit check admits as many counted signals as may be pending and then sends one more
  (`ReceiverStopsExactly`).
- The record reader gets its lines back exactly when no argument contained a newline and every line's length is an
  int (`ReadBackExact`); it then makes one pass too many, which prints whatever its buffer holds.

## Model

| member | source | states |
|---|---|---|
| TruncatingSort.ToUnsigned | labs/lab2/user/sort.c:56-58 | converting a double between -1 and 2^32 to `unsigned` discards the fraction and fits in 32 bits |
| TruncatingSort.TruncIsTowardsZero | labs/lab2/user/sort.c:56-58 | what the temporary keeps of a value is the whole number next to it on the side of zero |
| TruncatingSort.Swap | labs/lab2/user/sort.c:55-61 | on the array, one value moves exactly and the other without its fraction |
| TruncatingSort.SwappedAt | labs/lab2/user/sort.c:55-61 | the first slot takes the second value as it is, the second slot the first value truncated, a slot swapped with itself is truncated, and no other slot changes |
| TruncatingSort.SwapPermutes | labs/lab2/user/sort.c:55-61 | a swap keeps the multiset of truncated values and gains no value with a fraction |
| TruncatingSort.SwapLosesFraction | labs/lab2/user/sort.c:56-60 | a fraction in the first slot of a swap occurs once less afterwards |
| TruncatingSort.PivotFor | labs/lab2/user/sort.c:69-70 | whatever `rand` returns, the pivot lies in the slice, not in its last slot, and its distance from the first slot is the remainder of that number by the length less one |
| TruncatingSort.RemainderUnique | labs/lab2/user/sort.c:70 | no other position in the slice differs from that number by the first slot and a multiple of the length less one |
| TruncatingSort.LoopStart | labs/lab2/user/sort.c:72-77 | the swap before the loop makes the pivot a whole number in the last slot and starts the loop invariant |
| TruncatingSort.LoopStep | labs/lab2/user/sort.c:78-83 | a turn of the loop keeps slots up to `target` at most, and slots up to `index` at least, the pivot, although the swapped values are truncated |
| TruncatingSort.LoopEnd | labs/lab2/user/sort.c:84 | the last swap puts the pivot between the two parts, and a fraction the first pivot had picked is gone |
| TruncatingSort.PartitionFacts | labs/lab2/user/sort.c:67-87 | whatever `rand` returns, the slice is split around the truncated pivot, everything outside is unchanged, the slice is a truncated permutation, and a fraction that this pivot meets is lost |
| TruncatingSort.Partition | labs/lab2/user/sort.c:67-87 | in place, for the number that `rand` returned: the target ends with the truncated value of the slot at the remainder, smaller or equal values before it and greater or equal ones after it, the slice is a truncated permutation and a fraction that this pivot meets is lost |
| StrictPartition.UniquePivotSplitsStrictly | labs/lab2/user/sort.c:63-67 | whatever `rand` returns, if the truncated pivot occurs once among the truncated values of the slice, all values before it are smaller and all after it greater |
| StrictPartition.StrictExactlyForUnique | labs/lab2/user/sort.c:63-67 | on whole numbers that strict split happens if and only if the pivot occurs once in the slice |
| StrictPartition.EqualPairIsLoose | labs/lab2/user/sort.c:63-87 | two equal whole numbers are not split strictly, whatever `rand` returns |
| StrictPartition.TruncationIsLoose | labs/lab2/user/sort.c:63-87 | a pivot that occurs once does not split strictly when a 5.5 passes the temporary and becomes equal to the pivot 5 |
| TruncatingSort.ValueOrigin | labs/lab2/user/sort.c:55-61 | every final value is an initial value or one without its fraction |
| TruncatingSort.BoundSurvives | labs/lab2/user/sort.c:89-100 | rearranging one side of the partition with truncation carries no value across the pivot |
| TruncatingSort.SliceOfRearranged | labs/lab2/user/sort.c:89-100 | if nothing outside the slice changed, the slice itself is a truncated permutation of what it was |
| TruncatingSort.QuicksortSorts | labs/lab2/user/sort.c:89-100 | whatever `rand` returns in each call, the slice ends sorted, as a truncated permutation, with nothing outside changed, and a fraction that the first pivot meets is lost |
| TruncatingSort.Quicksort | labs/lab2/user/sort.c:89-100 | in place: terminates with the array that the recursion as a function yields for the same random numbers, sorted and rearranged as just stated, and not a permutation if the first pivot meets a fraction |
| SortExactness.SomePivotPicksFraction | labs/lab2/user/sort.c:69-73 | some value of `rand` makes the first pivot meet a fraction if and only if one stands within RAND_MAX of the first slot or in the last slot |
| SortExactness.LoopTarget | labs/lab2/user/sort.c:77-86 | the pivot ends as many slots from the first as the slice holds values up to it |
| SortExactness.AloneAboveIsLost | labs/lab2/user/sort.c:78-84 | a fraction that alone exceeds the pivot is lost in the loop or in the exchange after it |
| SortExactness.NoSliceTwice | labs/lab2/user/sort.c:89-100 | no run partitions a slice twice, so one random number for each slice covers every sequence of calls of `rand` |
| SortExactness.SomeRandomLoses | labs/lab2/user/sort.c:89-100 | wherever in a slice of any length a fraction stands, some random numbers make the sort lose a fraction |
| SortExactness.SortIsExact | labs/lab2/user/sort.c:89-100 | the sort is an exact permutation for everything that `rand` can return if and only if the slice has one slot or holds whole numbers only |
| TruncatingSort.IntegralIsExact | labs/lab2/user/sort.c:89-100 | on whole numbers the result is an exact permutation |
| SortMain.LoopOnMaximum | labs/lab2/user/sort.c:78-84 | a pivot that nothing exceeds truncates every value of the slice where it stands |
| SortMain.ExtraSlotKeepsData | labs/lab2/user/sort.c:147 | after `quicksort(A, 0, array_size)` the first `array_size` slots hold the generated values if and only if none of them exceeded slot `array_size`, truncated |
| SortMain.VerifyLoopStaysInside | labs/lab2/user/sort.c:153 | the unsigned bound `array_size - 1` keeps the check inside the array if and only if the size is at least 1 |
| SortMain.VerifySorted | labs/lab2/user/sort.c:153-157 | for every size, 0 included, the check finds no error if and only if all slots up to its unsigned bound exist and are sorted; otherwise it reports the first descent, or leaves the mapping if there is none |
| SortMain.Generate | labs/lab2/user/sort.c:140-142 | fills the slots with the numbers that `rand` returned, in order, and leaves the rest alone |
| SortMain.GenerateSortVerify | labs/lab2/user/sort.c:140-158 | from size 1 on `main` never reaches `error_quit`, and the numbers that `rand` returned survive the sort if and only if none exceeded the extra slot, truncated; with size 0 nothing changes, and the check ends in an error or outside the mapping |
| SharedCounter.LowStoreBurnsPotential | studios/studio8/core_thread_atomic.c:20 | storing value + 1 below the bound lowers the potential, even if it moves `i` backwards under all other threads |
| SharedCounter.HighStoreKeepsPotential | studios/studio8/core_thread_atomic.c:20 | storing a value past the bound never raises the potential and lowers it if `i` was below the bound |
| SharedCounter.EveryStepDescends | studios/studio8/core_thread_atomic.c:20-23 | every memory access of every thread descends in (not overflowed, unstarted threads, potential, ranks), from any state |
| SharedCounter.EveryScheduleHalts | studios/studio8/core_thread_atomic.c:20-23 | every scheduler, fair or not, that picks some thread still in its loop brings all loops to an end, unless an int overflows |
| SharedCounter.NextInv | studios/studio8/core_thread.c:17-19 | every access keeps: values of `i`, stored or held, are paid for by finished bodies, and no counter exceeds them |
| SharedCounter.CountersAtExit | studios/studio8/core_thread_atomic.c:20-24 | when all threads have left, `i` and the number of bodies are at least the bound, the atomic counter is that number in 32 bits, the plain one at most that number |
| SharedCounter.OverflowNeedsManyBodies | studios/studio8/core_thread.c:17-19 | no int overflows in a run of fewer than 2^31 - 1 bodies, which therefore ends with every thread out of its loop |
| CounterAccesses.IncrementIsBlind | studios/studio8/core_thread.c:17 | `i++` leaves one more than was in `i` when the thread read it, whatever others have stored since |
| CounterAccesses.PlainBodyIsBlind | studios/studio8/core_thread.c:18 | `shared_data++` does the same with the plain counter, and is one body |
| CounterAccesses.OtherAccesses | studios/studio8/core_thread_atomic.c:20-23 | a reset stores 0, a test lets a thread in exactly below the bound, an atomic body adds 1 at once, and nothing else changes `i` or a counter |
| CounterBound.EveryStepPays | studios/studio8/core_thread_atomic.c:20-23 | no access of any thread raises the bodies run plus the fuel left, where a unit of potential pays for one body of every thread |
| CounterBound.BodiesAreBounded | studios/studio8/core_thread_atomic.c:20-23 | in every run k threads finish at most (k + 1) * k * ((k + 1) * (k + 2)^iters + 1) bodies |
| CounterBound.SmallLoopsFinish | studios/studio8/core_thread.c:17-19 | if that bound is below 2^31 - 1 no int ever overflows, and every schedule that picks threads still in their loop brings all of them to its end |
| SharedCounter.AloneIsExact | studios/studio8/core_thread.c:17-19 | a thread that runs alone ends with `i` and the counter exactly at the bound |
| CounterExactness.ExactUnlessStale | studios/studio8/core_thread.c:17-19 | in every run the plain counter equals the bodies run if and only if no store wrote back an outdated value; a lost update is never made up for |
| CounterExactness.PlainCounterCanLose | studios/studio8/core_thread.c:17-19 | for any number of threads from 2 and any bound from 1, a schedule to the end of all loops with one body more than the counter shows |
| CounterExactness.PlainIsExactFor | studios/studio8/core_thread.c:17-19 | every schedule to the end of all loops leaves the number of bodies in the plain counter if and only if there is one thread or the bound is 0 |
| SharedCounter.CoreThread.constructor | studios/studio8/core_thread_atomic.c:48-50 | the state that `mod_init` leaves: counter reset, any value in `i`, no thread started |
| SharedCounter.CoreThread.Step | studios/studio8/core_thread_atomic.c:20-23 | on the module's own variables, one access of one thread is one step of the protocol |
| SharedCounter.CoreThread.RunThreads | studios/studio8/core_thread_atomic.c:20-24 | under any scheduler the threads halt; without overflow `i` and the bodies have reached the bound and the counters are as at exit |
| MatrixMultiply.CellInside | user_space/test_programs/dense_mm.c:40-59 | below 65536 no 32-bit product or sum wraps and every index lies inside the matrix |
| MatrixMultiply.CellInjective | user_space/test_programs/dense_mm.c:59 | two different cells never share an index |
| MatrixMultiply.CellSurjective | user_space/test_programs/dense_mm.c:59 | every index is the index of a cell |
| MatrixMultiply.SizeCheckExact | user_space/test_programs/dense_mm.c:35-40 | among the sizes that pass the check, all indices are inside the allocation if and only if the size is not 65536, where the allocation wraps to 0 cells |
| MatrixMultiply.ProductUnique | user_space/test_programs/dense_mm.c:56-62 | two matrices that are both the product, summed in the program's order, are identical |
| MatrixMultiply.SerialMultiply | user_space/test_programs/dense_mm.c:35-62 | for every size that passes the check: the first access is outside the allocation if and only if the size is 65536; otherwise the row-outermost loop nest adds the product, in its order of terms, to what C holds, and from zero leaves the product, for any addition and multiplication whatever |
| MatrixMultiply.SerialMultiplyByColumns | user_space/test_programs/parallel_dense_mm.c:45-90 | for every size that passes the check: outside the allocation if and only if the size is 65536; otherwise the column-outermost loop nest adds the same product to what D holds, and from zero leaves the product |
| ParallelMultiply.NextInv | user_space/test_programs/parallel_dense_mm.c:72-79 | every claim, load, addition and store keeps each column at a partial sum of the serial product and each register consistent with it |
| ParallelMultiply.StoreInv | user_space/test_programs/parallel_dense_mm.c:76 | a store advances its own column by one term and touches no column of another thread |
| ParallelMultiply.MoveDoesOneUnit | user_space/test_programs/parallel_dense_mm.c:73-79 | every move of every thread lowers the work left by exactly one |
| ParallelMultiply.RunInv | user_space/test_programs/parallel_dense_mm.c:72-79 | after any interleaving the invariant holds, and moves made plus work left are n(3n^2 + 1) |
| ParallelMultiply.Progress | user_space/test_programs/parallel_dense_mm.c:72-79 | while the product is unfinished some thread can move |
| ParallelMultiply.EveryInterleavingIsSerial | user_space/test_programs/parallel_dense_mm.c:72-79 | every interleaving under every assignment of columns to threads ends after exactly n(3n^2 + 1) moves with C identical to the serial product |
| ParallelMultiply.Team.Make | user_space/test_programs/parallel_dense_mm.c:72-79 | on the shared array C, one access of a thread or one claim of a column is one step of the protocol |
| ParallelMultiply.Team.Multiply | user_space/test_programs/parallel_dense_mm.c:72-79 | a team under an arbitrary scheduler ends with the product in C |
| ParallelMultiply.MultiplyAndVerify | user_space/test_programs/parallel_dense_mm.c:45-94 | for every size that passes the check except 65536, whose first access is outside the allocation, no assertion fails with VERIFY_PARALLEL: the parallel C and the serial D agree in every cell |
| TimedRuns.OnePassIsProduct | user_space/test_programs/timed_parallel_dense_mm.c:122-123 | with one pass the program's check succeeds, for any addition and multiplication |
| TimedRuns.PassesAreMultiples | user_space/test_programs/timed_parallel_dense_mm.c:84-92 | over the reals a cell holds k times its product after k passes |
| TimedRuns.ZeroProduct | user_space/test_programs/timed_parallel_dense_mm.c:86-92 | over the reals nonnegative matrices have a zero product if and only if for each index the column of A or the row of B is zero |
| TimedRuns.CheckAfterPasses | user_space/test_programs/timed_parallel_dense_mm.c:122-123 | over the reals, after k passes over nonnegative matrices the program's check succeeds if and only if k is 1 or for each index the column of A or the row of B is zero |
| TimedRuns.RecordRun | user_space/test_programs/timed_parallel_dense_mm.c:94-107 | one more time keeps maximum and minimum attained and bounding, and the sum right modulo 2^64 |
| TimedRuns.MeanIsBetween | user_space/test_programs/timed_parallel_dense_mm.c:110 | the printed mean lies between minimum and maximum if and only if the times add up to no negative number or there was one run |
| TimedRuns.TimedMultiply | user_space/test_programs/timed_parallel_dense_mm.c:79-110 | for any arithmetic and any count of iterations: the outcome is undefined if and only if the count is below 1 or the size is 65536; otherwise every cell of C has been through as many passes as times were taken, each going on from the one before, maximum and minimum are attained and bound all times, and the mean is that of all times |
| PagingInvariant.AlignedUp | labs/lab2/mod/paging.c:56 | a page is mapped at the first page boundary not below the faulting address |
| PagingInvariant.FaultEffect | labs/lab2/mod/paging.c:38-72 | a fault that gets a page puts it first on the list, counts it and maps it there and nowhere else; one that gets none, or no mapping for it, changes nothing, and its result says which |
| PagingInvariant.FaultInv | labs/lab2/mod/paging.c:38-72 | a fault, successful or not, keeps list, counters and reference counts consistent and changes only its own VMA's entries |
| PagingInvariant.PrepageInv | labs/lab2/mod/paging.c:160-170 | so does the pre-paging loop, however far it gets |
| PagingInvariant.MmapInv | labs/lab2/mod/paging.c:122-174 | so does an mmap, demand-paged, pre-paged or failed half-way |
| PagingInvariant.MmapFollowsParameter | labs/lab2/mod/paging.c:140-173 | after a change of `demand_paging` an mmap asks for all pages of its range, up to the first refused, if the parameter is off, for none if it is on, and changes nothing without its record |
| PagingInvariant.OpenInv | labs/lab2/mod/paging.c:83-89 | opening another VMA of a record raises the reference count with the number of VMAs sharing it |
| PagingInvariant.SplitInv | labs/lab2/mod/paging.c:83-89 | so a split keeps list, counters and reference counts consistent |
| PagingInvariant.SplitKeepsEntries | labs/lab2/mod/paging.c:83-89 | a split divides the page-table entries at the address and loses none |
| PagingInvariant.RemapKeepsPages | labs/lab2/mod/paging.c:83-111 | moving a VMA, an open of the copy and a close of the original, frees no page, keeps the reference counts and maps every page of the range at its new address |
| PagingInvariant.CloseFreesWithLastUser | labs/lab2/mod/paging.c:91-108 | the close of the last VMA of a record frees the record and every listed page, whatever else is live, and counts each; any other close only lowers the reference count by one |
| PagingInvariant.CloseInv | labs/lab2/mod/paging.c:91-111 | a close keeps list, counters and reference counts consistent |
| PagingInvariant.EveryRunKeepsCounts | labs/lab2/mod/paging.c:34-111 | after any sequence of events the pages allocated and not freed are exactly the listed ones, each listed once, and every reference count is the number of live VMAs sharing the record |
| PagingInvariant.NextStranded | labs/lab2/mod/paging.c:91-174 | pages are stranded by a pre-paging mmap that fails after its first page, until the last close of some record, and by nothing else |
| PagingInvariant.ExitBalance | labs/lab2/mod/paging.c:213-221 | with no mapping left, allocations equal frees if and only if every pre-paging mmap of the run that failed after its first page was followed by the close of the last VMA of a record |
| PagingInvariant.RecordsLeft | labs/lab2/mod/paging.c:140-170 | with no mapping left, one record is still allocated for every pre-paging mmap of the run that failed, so all are freed if and only if none did |
| PagingInvariant.CloseKeepsPages | labs/lab2/mod/paging.c:97-108 | a close leaves every page in use allocated if and only if the record has another VMA or no other VMA has a page |
| PagingInvariant.TwoMappingsCanDangle | labs/lab2/mod/paging.c:25-108 | two mappings and one fault are enough for a close to free a page that is still mapped |
| PagingInvariant.PagesInUseStayExactly | labs/lab2/mod/paging.c:38-111 | at all times of a run every mapped page is still allocated if and only if each close of the run finds another VMA of its record or no other VMA with a page; then no page is mapped twice |
| PagingInvariant.OneMappingKeepsPages | labs/lab2/mod/paging.c:38-111 | while one mapping is live at a time, every mapped page is at all times still allocated and mapped at one address only |
| PagingInvariant.PrepageIsFaults | labs/lab2/mod/paging.c:160-170 | the successful loop reaches the state of one fault per page in ascending order |
| PagingInvariant.PrepageMaps | labs/lab2/mod/paging.c:160-170 | the successful loop maps exactly the page addresses of the range, in addition to what was mapped |
| PagingInvariant.PrepagingIsEagerDemand | labs/lab2/mod/paging.c:155-173 | a successful pre-paging mmap equals a demand-paging mmap followed by one fault per page; it maps every page of the range and counts (end - start) / PAGE_SIZE pages |
| PagingInvariant.PrepageFailsAt | labs/lab2/mod/paging.c:160-169 | the loop stops at the first page that cannot be had, with that page's error and exactly the earlier pages listed |
| PagingInvariant.FailedPrepagingStrands | labs/lab2/mod/paging.c:155-170 | such an mmap leaves no VMA, but the earlier pages on the list and its record allocated |
| PagingModule.PageList.Add | labs/lab2/mod/paging.c:61-67 | kmalloc, INIT_LIST_HEAD and list_add put the page in front of a well-formed ring |
| PagingModule.PageList.DeleteFirst | labs/lab2/mod/paging.c:102 | list_del of the first node leaves a well-formed ring of the others |
| PagingModule.Module.constructor | labs/lab2/mod/paging.c:192-211 | the loaded module has an empty list, zero counters and no mappings |
| PagingModule.Module.HandleFault | labs/lab2/mod/paging.c:38-72 | in place: a fault updates page table, list and counter as the model says and returns its error |
| PagingModule.Module.HandleSplit | labs/lab2/mod/paging.c:83-89 | in place: a split, with the open of its upper part |
| PagingModule.Module.HandleRemap | labs/lab2/mod/paging.c:83-111 | in place: a move, with the open of the copy before the close of the original |
| PagingModule.Module.FreeAllPages | labs/lab2/mod/paging.c:99-105 | walking the list while deleting from it frees every listed page, none of them twice, and counts each |
| PagingModule.Module.HandleClose | labs/lab2/mod/paging.c:91-111 | in place: the close of the model |
| PagingModule.Module.PrepageLoop | labs/lab2/mod/paging.c:160-170 | in place: the loop ends in the state and with the result of the model's pre-paging |
| PagingModule.Module.HandleMmap | labs/lab2/mod/paging.c:122-174 | in place: the mmap of the model, with its result |
| PagingModule.Module.Deliver | labs/lab2/mod/paging.c:113-180 | any event the kernel can deliver is one step of the model and keeps its invariant |
| ForkTree.MoveConserves | user_space/tree_fork.c:21-51 | every step, a failing fork included, keeps lines printed plus lines owed plus lines lost to failed forks, and does one unit of the steps |
| ForkTree.Progress | user_space/tree_fork.c:50 | although parents block in `wait`, some process can run on while any is live |
| ForkTree.WaitsForOneChild | user_space/tree_fork.c:29-50 | in every run a process that has forked both children goes on from `wait` exactly when one of them has died, and is never dead before; one of the last generation has no children and waits for nobody |
| ForkTree.LinesAreConserved | user_space/tree_fork.c:21-49 | in every interleaving generation j has printed, owes or has lost to failed forks exactly 2^(j-1) lines, and all generations 2^n - 1 |
| ForkTree.EveryRunPrintsTheTree | user_space/tree_fork.c:18-51 | every run is finite and can go on until all processes are dead; then it has made 6 * 2^(n-1) - 4 steps and printed 2^(j-1) lines of each generation j, less exactly the subtrees that failed forks have lost |
| ForkTree.Machine.Continue | user_space/tree_fork.c:21-51 | on the machine's process table, running one process on is one step of the protocol |
| ForkTree.Machine.Run | user_space/tree_fork.c:18-51 | under any scheduler all processes exit, with the lines of the tree less exactly those that failed forks have lost |
| Handshake.NextInv | studios/studio13/leader.c:31-47 | every step keeps what each flag says about where the other process stands and which elements agree |
| Handshake.FlagsOrderTheCopies | studios/studio13/follower.c:29-35 | the flags rise in the order write, read, delete, and while the follower copies the leader has finished writing and cannot move |
| Handshake.Progress | studios/studio13/leader.c:31-47 | until both have finished one of them can move: neither spins for ever |
| Handshake.EveryRunCopies | studios/studio13/follower.c:28-47 | every interleaving ends after exactly 3n + 9 steps with equal arrays, and can go on until then |
| Handshake.EveryRunCopiesTheNumbers | studios/studio13/leader.c:35-47 | in every interleaving each element the leader has passed holds the number that `rand` returned for it, and the follower ends with all n of these numbers in order |
| Handshake.SharedObject.LeaderStep | studios/studio13/leader.c:31-47 | on real arrays and flags, a leader step is one step of the protocol |
| Handshake.SharedObject.FollowerStep | studios/studio13/follower.c:28-47 | the same for the follower, whose memcpy takes its elements in any order |
| Handshake.SharedObject.Exchange | studios/studio13/leader.c:28-47 | under any scheduler both finish, and the shared array and both private ones hold the numbers that `rand` returned, in order |
| KernelMemory.AndPredecessor | studios/studio12/kernel_memory.c:45 | `value & (value - 1)` is 0 if and only if the value is a power of two |
| KernelMemory.ShiftsAreOrder | studios/studio12/kernel_memory.c:44-51 | the number of right shifts is the least order whose power of two covers the value |
| KernelMemory.MyGetOrder | studios/studio12/kernel_memory.c:37-54 | the shift loop returns that least order for every 32-bit value, and 0 for 0 |
| KernelMemory.BlockHasRoom | studios/studio12/kernel_memory.c:64-70 | the allocation has room for all structs, no page or order more than needed, and no loop counter overflows |
| KernelMemory.PagesAreLeast | studios/studio12/kernel_memory.c:64-68 | with whole structs in each page, the number of pages is the least that holds all structs |
| KernelMemory.OrderIsLeast | studios/studio12/kernel_memory.c:68-70 | a block of a smaller order has no room for all structs, and every larger one has |
| KernelMemory.WordLayout | studios/studio12/kernel_memory.c:89-99 | structs lie one after the other in a page, and pages one after the other |
| KernelMemory.WordInside | studios/studio12/kernel_memory.c:89-99 | every written word lies on its own page, within the pages allocated |
| KernelMemory.WordInjective | studios/studio12/kernel_memory.c:89-99 | no two cells share a word |
| KernelMemory.FillValuesCount | studios/studio12/kernel_memory.c:99 | the numbers written count the words in the order of the loops, from struct to struct and page to page, modulo 2^32 |
| KernelMemory.FillValuesTellCellsApart | studios/studio12/kernel_memory.c:99 | the numbers written tell all cells apart if and only if there are at most 2^32 cells; with more they repeat |
| KernelMemory.Fill | studios/studio12/kernel_memory.c:89-106 | the loops leave every cell with its number, which may wrap, and write nothing beyond the last page needed |
| KernelMemory.Check | studios/studio12/kernel_memory.c:144-158 | the pages are reported clean if and only if every cell still holds the number it was filled with |
| KernelMemory.ThreadFn | studios/studio12/kernel_memory.c:56-106 | a block is delivered if and only if the allocation succeeds; its order is the least whose pages, of whole structs each, hold all structs, and all of its cells are filled |
| RecordFile.NumeralUnique | studios/studio16/appendfile_count.c:23 | a number is printed as the one string of digits without a leading zero that has its value |
| RecordFile.DecimalRoundTrip | studios/studio16/readfile.c:42-57 | the reader's digit loop gives back every number that "%lu" has printed, and a printed number is digits only |
| RecordFile.DecimalFits | studios/studio16/readfile.c:52-53 | the reader's int overflows at no digit of a printed length if and only if the length is an int |
| RecordFile.OneDigit | studios/studio16/readfile.c:52-53 | one more character, a digit or not, makes ten times the value plus its distance from 0, and overflows if and only if the product or the sum is no int |
| RecordFile.RecordShape | studios/studio16/appendfile_count.c:16-27 | a record is the numeral of its line's length, a space, and a line that, cut at its spaces, gives the arguments in order, each with one space after it, and a newline |
| RecordFile.AppendRun | studios/studio16/appendfile_count.c:16-27 | a run appends the byte length of its line and the line, and nothing without arguments |
| RecordFile.AppendAll | studios/studio16/appendfile_count.c:14-29 | successive runs leave the records of all runs with arguments, in order |
| RecordFile.GetLineLen | studios/studio16/readfile.c:42-57 | consumes up to and including the next space, or to the end of the file, and returns the value of what stood before, if and only if no multiplication or addition on the way overflows an int |
| RecordFile.GetLine | studios/studio16/readfile.c:32 | getline takes the rest of the line with its newline and fails only at the end of the file |
| RecordFile.PassSplits | studios/studio16/readfile.c:22-34 | a pass takes a field without a space, the space and one line, and reads the field's value |
| RecordFile.PassesCoverFile | studios/studio16/readfile.c:22-57 | whatever the file holds, its front is made up of the fields and lines of the passes in order, each field with its value, nothing skipped or read twice; what is left starts with a field that overflows if and only if that ended the reader, or holds no line after its field, or is nothing after a line without a newline |
| RecordFile.ReadFile | studios/studio16/readfile.c:22-34 | the loop delivers the (length, line) pairs of the whole file until its end or an overflow, with a last pass without a line exactly when no line ended at the end of the file |
| RecordFile.ReadRecord | studios/studio16/readfile.c:22-34 | a record in front of anything is read back as its byte length and its line |
| RecordFile.ReadBackExact | studios/studio16/readfile.c:22-34 | of the file that any sequence of runs leaves, the reader gets every line in order, with its own length and without overflow, and then makes one pass too many, if and only if no argument contained a newline and every line's length is an int |
| RecordFile.AppendThenRead | studios/studio16/readfile.c:22-34 | the same of the two programs together: the appending runs on a file that starts empty, then the reader on it |
| QueuedSignals.NextInv | studios/studio20/sender.c:31-40 | every queueing, delivery and failure keeps zeros accepted equal to zeros counted plus zeros pending, with the 1 queued last |
| QueuedSignals.CountIsExact | studios/studio20/receiver.c:24-49 | whatever the interleaving, the receiver prints the number of zeros that were queued, and prints at the end if and only if the final signal was queued |
| QueuedSignals.ReceiverStopsExactly | studios/studio20/sender.c:23-40 | with nothing else pending, every complete run prints exactly n if and only if n is below the limit |
| QueuedSignals.RefusedExactly | studios/studio20/sender.c:23-26 | in a complete run the sender has refused if and only if the count exceeds the limit, and then sent nothing; of the other counts those are not printed whose final signal was turned away |
| QueuedSignals.PendingWithinLimit | studios/studio20/sender.c:31-40 | a signal is queued if and only if fewer than the limit are pending, those of others included; the loop queues zeros, the last one is a 1 |
| QueuedSignals.RunsAreFinite | studios/studio20/sender.c:31-40 | no run of the two programs goes on for ever |
| QueuedSignals.Processes.Step | studios/studio20/sender.c:31-40 | on the programs' own variables, one system call, delivery or print is one step of the protocol |
| QueuedSignals.Processes.RunToEnd | studios/studio20/receiver.c:47-49 | under any scheduler the count printed is the number of zeros queued, and it is printed if and only if the final signal was queued |

## Left out

- Floating point: `sort.c` is modelled on real numbers, on which each of its conversions and comparisons is exact; infinities and NaN, and values outside (-1, 2^32), whose conversion is undefined, are excluded by precondition. The products, serial, parallel and timed, are proved for any addition and multiplication, rounded ones included.
- SortMain.GenerateSortVerify: for sizes from 1 it assumes that the mapping has a slot number `array_size` with a convertible value, because `quicksort` takes `end` as inclusive.
- SharedCounter.CoreThread.constructor: starts when `mod_init` has returned and no thread has run yet; the loops of `mod_init` and `mod_exit` use the same `i`, so neither the number of threads created nor the end of those loops is guaranteed. Overflow of the signed `i` or of the plain counter is undefined and ends the modelled run; it takes 2^31 - 1 bodies, and the bound on bodies in `CounterBound` is not tight.
- SharedCounter: the compiler is assumed to keep each access of `i` as one read and one write, and memory to be sequentially consistent.
- MatrixMultiply.SerialMultiply: byte sizes, failing mallocs and the random filling of A and B are not modelled, A and B are arbitrary; an access outside an allocation ends the modelled run.
- TimedRuns.PassesAreMultiples: exact real sums stand for double sums, which round.
- TimedRuns.ZeroProduct: exact real sums and products stand for those of doubles.
- TimedRuns.CheckAfterPasses: exact real sums stand for double sums, which round; for one pass `OnePassIsProduct` holds of any arithmetic.
- TimedRuns.MeanIsBetween: at least one and fewer than 2^31 runs. The `omp` pragma of that program stands before a declaration and is taken to have no effect.
- PagingInvariant: each handler is one atomic step; handlers of different processes race on the list without a lock, and then none of these results holds. The kmalloc of a list node is assumed to succeed. Counters are unbounded, so their equalities hold modulo 2^32 for the atomic ints.
- PagingInvariant: VMAs are opened by splits and by moves without a change of size, since they are not copied at fork (VM_DONTCOPY) nor expanded; a move over another mapping of the module counts as the close of that one first. A positive ENOMEM returned by `paging_mmap` counts as failure. A fault may name any address; the answer of `remap_pfn_range` is arbitrary.
- PagingModule: `alloc_page`, `remap_pfn_range` and the kmalloc of a record answer by parameters; misc device registration and messages are not modelled.
- ForkTree: a printed line is one atomic step and is printed once; what the buffers of stdio hold across a fork is not modelled, nor the argument check (1 to 10) beyond n >= 1, nor exit statuses.
- Handshake: setting up the shared object, a stale object of an earlier run and the relaxed memory model; the object starts zeroed and memory is sequentially consistent. A turn of a spin loop that finds its flag 0 is no step.
- KernelMemory.ThreadFn: what the module does with a null page after a failed alloc_pages is undefined and ends the modelled run.
- KernelMemory: pages smaller than 4096 bytes and a zero page address; `BitAnd` is defined on natural numbers of any width.
- RecordFile.ReadFile: what the buffer holds in the last pass, and prints, is left open, as are the malloc and realloc bookkeeping; a file is one string, so concurrent appenders are not modelled.
- QueuedSignals: the receiver is assumed to have installed its handler before the sender starts; a negative count, which the sender's unsigned comparison refuses, and counts beyond the sender's int are not modelled.
- Timer modules of labs/lab1, kobject samples, `serverip.c`, `vfs_thread.c`, `family_reader.c`, `arr_search.c`, `sing.c`, the file writers and clock probes: input and output, library wrappers or single branches.
- Further copies of sort, dense_mm, parallel_dense_mm and tree_fork elsewhere in the repository, and its generated files.
