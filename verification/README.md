# Concurrent and distributed programming exercises, modelled in Dafny

This project models the computational core of a set of C++ exercises in parallel programming:

- **Traffic simulator** (`Traffic_SIM.cpp`). It generates five-minute traffic readings as text and parses them back with `stoi`. Producer threads then push the readings through a four-slot ring buffer, guarded by two counting semaphores and a mutex. Consumer threads fold each reading into a per-hour "top 3 most congested lights" table (`insert_row` and `record_results`).
- **Quicksort.** The sequential Lomuto quicksort and its OpenMP task variant.
- **Matrix multiplication.** Sequential, one thread per row block (pthreads), and MPI (scatter, broadcast, gather).
- **Vector addition.** Sequential, pthreads, and MPI with a reduction of the partial sums.

## How each part is modelled

- **Arrays** are `seq<int>` and matrices are `seq<seq<int>>`. Every procedure that writes into an array is a method that returns the new sequence.
- **Random numbers.** `rand` and `rand_r` results are supplied as a `draws` parameter. Both return non-negative values, so C's `%` equals Dafny's `%` there.
- **Critical sections.** Each critical section of a thread is one atomic step. A schedule is any sequence of such steps, and a step whose semaphore is zero is not enabled.
- **OpenMP tasks** and **pthreads over disjoint row or index ranges** are run one after another. For pthreads the order is arbitrary.
- **MPI collectives** are spelled out as the data movement they perform.

Modules:

| module | file | contents |
|---|---|---|
| `Optional` | option.dfy | `Option` result type |
| `CInt` | cint.dfy | `int` range of the C++ compilers targeted |
| `Partitions` | partitions.dfy | `[start, stop)` ranges, the work split of every `main`, tiling lemmas |
| `TrafficData` | traffic_data.dfy | `get_day`, `increment_time`, the line format, `stoi`, `fill_data_m` |
| `TopResults` | top_results.dfy | `prep_result_m`, `insert_row`, `record_results`, the top-3 invariant |
| `RingBuffer` | ring_buffer.dfy | the shared buffer, semaphores as counters, FIFO over any schedule |
| `TrafficSim` | traffic_sim.dfy | producer/consumer steps over buffer and table together |
| `Quicksort` | quicksort.dfy | `rand_fill`, `partition`, `quick_sort`, `quick_sort_OMP` |
| `MatrixMultiply` | matrix.dfy | `init_zero`, `random_matrix`, `init_matrix`, the three `multiply_matrix`, the MPI node |
| `VectorAddition` | vector_add.dfy | `randomVector`, `addVector`, `vector_add`, the three `main` totals |

## Model

| member | source | states |
|---|---|---|
| TrafficData.GetDay | Traffic_SIM.cpp:44-75 | Days 1..7 are named Monday..Sunday. Above 7 the name follows `value % 7`. The result is "Lost in space and time" exactly when the value is not positive or is a multiple of 7 above 7. |
| TrafficData.GetDayLosesMultiplesOfSeven | Traffic_SIM.cpp:44-75 | Day 7 is Sunday, yet every later multiple of 7 (14, 21, …) maps to the lost-day text. |
| TrafficData.GetDayCorrected | Traffic_SIM.cpp:44-75 | Agrees with `get_day` wherever `get_day` names a day, and is lost only for non-positive values. |
| TrafficData.GetDayCorrectedIsWeekly | Traffic_SIM.cpp:44-75 | The corrected name repeats every 7 days, and every multiple of 7 is Sunday. |
| TrafficData.StoiIntToString | Traffic_SIM.cpp:245 | `stoi` reads back every `int` printed in decimal. |
| TrafficData.Stoi | Traffic_SIM.cpp:245 | A successful parse lies in the `int` range. |
| TrafficData.IncrementTimeIsFiveMinutesLater | Traffic_SIM.cpp:77-114 | For a valid clock time on the five-minute grid, `increment_time` yields the day, a comma, and the HHMM text of five minutes later, wrapping midnight to 00. |
| TrafficData.IncrementTimeTopOfHour | Traffic_SIM.cpp:77-114 | At minute 55 the text is the day, a comma, the next hour as exactly two digits (24 wrapping to "00"), then "00". |
| TrafficData.IncrementTimeWithinHour | Traffic_SIM.cpp:77-114 | Before minute 55 the hour is kept and the minutes advance by 5, zero-padded. |
| TrafficData.FirstComma | Traffic_SIM.cpp:239-247 | The position `find(",")` returns: no comma before it, and a comma at it unless it is the end. |
| TrafficData.ParseAll | Traffic_SIM.cpp:241-249 | A successful parse gives one integer per field. |
| TrafficData.FillDataMRoundTrip | Traffic_SIM.cpp:234-250 | Integers written comma-terminated, plus any comma-free tail, are parsed back by `fill_data_m` as exactly those integers. |
| TrafficData.GeneratedLineRoundTrip | Traffic_SIM.cpp:153 | Each generated data line parses back to [day, HHMM of the next slot, light, count]. |
| TopResults.Div100 | Traffic_SIM.cpp:342 | C's truncating division by 100. For a non-negative time q·100 ≤ x < q·100 + 100; for a negative one q·100 − 100 < x ≤ q·100, so the quotient rounds toward zero. |
| TopResults.PrepResult | Traffic_SIM.cpp:205-232 | Every field of the 15×4 table is zeroed, except that rows 3b..3b+2 carry hour 6+b in the time column. |
| TopResults.InsertRow | Traffic_SIM.cpp:309-336 | Rows outside the reading's bucket and the matched row are untouched. Every row either keeps its value, becomes the reading, or takes the value of its successor in the bucket (the shift). |
| TopResults.RecordIsBucketUpdate | Traffic_SIM.cpp:339-354 | On a well-formed table the full 15-row scan changes only the reading's own bucket. |
| TopResults.BucketStep | Traffic_SIM.cpp:309-336 | One update keeps the table well-formed. The top row becomes the larger of the old top and the reading. A strictly larger reading lands in the top row, and a reading no greater than any row of its bucket changes nothing. |
| TopResults.ScanAny | Traffic_SIM.cpp:309-320 | One scan step for a reading of any hour fails exactly when a matching row with a non-zero count is below the reading and the hour has no bucket. That is the case where `insert_row` indexes row (hour − 6)·3 + 2 outside the table. |
| TopResults.RecordAnyValid | Traffic_SIM.cpp:339-354 | For an hour with a bucket, the scan over any hour is the bounded `record_results` model and never fails. |
| TopResults.NoMatchUnchanged | Traffic_SIM.cpp:344-353 | When no row from i on matches the reading's hour, the scan leaves the table unchanged. |
| TopResults.OtherHourIgnored | Traffic_SIM.cpp:339-354 | On a well-formed table, a reading whose hour is not 0, not 6..10 and not 600..1099 leaves the table unchanged. |
| TopResults.HourZeroBreaksTable | Traffic_SIM.cpp:309-320 | A positive hour-0 reading overwrites all 15 placeholders with itself, because their times 6..10 divide to 0. A larger second hour-0 reading then makes `insert_row` index outside the table. |
| TopResults.RecordResultsEffect | Traffic_SIM.cpp:339-354 | `record_results` changes only the reading's bucket, keeps the table well-formed, and makes the bucket's last row hold max(old top, reading). A non-positive count changes nothing. |
| TopResults.Peak | Traffic_SIM.cpp:391-403 | The reference meaning of "busiest": at least every count of that hour, and either 0 or attained by some reading of that hour. |
| TopResults.TopIsPeak | Traffic_SIM.cpp:339-354 | Starting from the prepared table and recording any valid readings in any order, each hour's last bucket row holds that hour's peak count. |
| TopResults.TopIsPeakFrom | Traffic_SIM.cpp:339-354 | From any well-formed table, the top becomes max(old top, peak of the new readings). |
| TopResults.RankingScenario | Traffic_SIM.cpp:309-354 | On counts 50, 80, 80, 90, 10 in hour 6 the bucket ends as (90, 80, 90). The maximum sits last, and the table may hold a duplicate. |
| RingBuffer.Init | Traffic_SIM.cpp:445-452 | With freshly created semaphores, the free-slot semaphore starts at BUFFER_SIZE, the filled-slot semaphore at 0, both indices at 0, and the buffer is empty. |
| RingBuffer.Put | Traffic_SIM.cpp:367-381 | The producer critical section appends the reading to the waiting contents, advances `insert` modulo 4, and moves one unit from free to filled. |
| RingBuffer.Take | Traffic_SIM.cpp:396-412 | The consumer critical section returns the oldest waiting reading, drops it from the contents, advances `extract` modulo 4, and moves one unit back. |
| RingBuffer.StepIsFifo | Traffic_SIM.cpp:364-413 | One enabled critical section keeps the balance "taken + waiting = waiting before + put". |
| RingBuffer.RunIsFifo | Traffic_SIM.cpp:364-413 | Over any schedule that runs, nothing is lost, duplicated or reordered between producers and consumers. |
| RingBuffer.FifoFromInit | Traffic_SIM.cpp:364-413 | From the initial buffer, the filled count stays in [0, 4], and the readings taken are a prefix of the readings put, in put order. |
| TrafficSim.SimStep | Traffic_SIM.cpp:396-403 | A step keeps the buffer valid and the table 15 rows long. A producer step takes nothing and leaves the table alone. A consumer step takes exactly one reading. When that reading's hour has no bucket, the table is left as it was. |
| TrafficSim.OtherHourConsumed | Traffic_SIM.cpp:396-403 | On a well-formed table, a consumer step on a reading of another hour (not 0 and not 600..1099) succeeds, takes the reading and leaves the table unchanged, as the source's scan does. |
| TrafficSim.StepRecords | Traffic_SIM.cpp:396-403 | One pipeline step is one ring-buffer step, and its table is the old one with the consumed reading folded in when its hour has a bucket. |
| TrafficSim.PeakValidOnly | Traffic_SIM.cpp:339-354 | Dropping readings of hours without a bucket does not change the peak of any hour that has one. |
| TrafficSim.RecordAllConcat | Traffic_SIM.cpp:393-403 | Recording two batches one after the other equals recording their concatenation. |
| TrafficSim.SimRunRecordsTaken | Traffic_SIM.cpp:364-413 | The combined run performs the same buffer run. The final table is `record_results` folded over the consumed readings of hours with a bucket, in consumption order. |
| TrafficSim.ScheduleTopIsPeak | Traffic_SIM.cpp:358-415 | For every schedule that runs: consumers read in put order, the table stays well-formed, and each hour's top row is the peak count of the readings consumed so far. Readings of other hours may be among them. |
| TrafficSim.PeakPermutation | Traffic_SIM.cpp:459-471 | The peak of each hour does not depend on the order in which producers interleave. |
| TrafficSim.CompleteRunTopIsPeak | Traffic_SIM.cpp:458-489 | If the producers put each data row exactly once, in any interleaving, and the consumers took that many readings, then every reading was consumed. Each hour's top row is then that hour's peak over the whole data set. |
| Partitions.WorkerCount | Traffic_SIM.cpp:428-435 | One extra worker exactly when the division leaves a remainder. |
| Partitions.BuildRanges | Traffic_SIM.cpp:459-468 | The start/stop loop yields `count` ranges that tile [0, total). All but the last have length `partition`, and the last stops at total. |
| Partitions.RangesWithExtraWorker | Module02/Matrix_Multiplication/pThread.cpp:152-178 | With the extra remainder worker, the ranges tile [0, SIZE), and every range but the last has SIZE / THREADS rows. |
| Partitions.RangesLastAbsorbs | Module03/Vector_Addition/Pthread.cpp:85-97 | Exactly THREADS ranges tile [0, size). The last one absorbs the remainder. |
| Partitions.ExactlyOneRange | Module02/Matrix_Multiplication/pThread.cpp:168-178 | Tiling ranges never overlap, so no two threads write the same row. |
| Partitions.TilesCover | Module02/Matrix_Multiplication/pThread.cpp:168-178 | Every index below the total lies in some range. |
| Partitions.TilesLength | Traffic_SIM.cpp:459-468 | The range lengths add up to the total. |
| Partitions.ConsumerQuota | Traffic_SIM.cpp:391 | Each consumer takes total / consumers readings. All readings are consumed exactly when the division is exact, and otherwise total % consumers are never taken. |
| Partitions.ScatterCoversPartitionRows | Module03/Matrix_Multiplication/MPI_MM.cpp:148-150 | The processes cover at most SIZE rows, and a scatter carries whole rows when the process count divides SIZE. |
| Quicksort.RandFill | Module02/Quicksort/Quicksort.cpp:15-21 | The first `size` cells get draw % 1000, in [0, 999], and the rest is unchanged. |
| Quicksort.Swap | Module02/Quicksort/Quicksort.cpp:109 | Exchanges the two cells, leaves the rest alone, and preserves the multiset. |
| Quicksort.Partition | Module02/Quicksort/Quicksort.cpp:93-116 | Returns p in [low, high]. The old `vec[high]` sits at p, cells left of it are ≤ it and cells right are >. The slice is a permutation, and cells outside it are unchanged. |
| Quicksort.PartitionStep | Module02/Quicksort/Quicksort.cpp:104-111 | One loop iteration keeps the invariant: entries low..i are at most the pivot, entries i+1..j-1 are above it, the pivot stays at `high`, and the vector is a permutation with nothing outside the range moved. |
| Quicksort.PlacePivot | Module02/Quicksort/Quicksort.cpp:113-115 | The final swap puts the pivot at i+1, with entries at or below it to its left and entries above it to its right. |
| Quicksort.QuickSort | Module02/Quicksort/Quicksort.cpp:119-132 | `vec[low..high]` becomes a sorted permutation of itself, and nothing outside changes. |
| Quicksort.QuickSortOmp | Module02/Quicksort/OMP_Qsort.cpp:137-163 | The same contract as `quick_sort`, whatever the cut-off `limit`. |
| Quicksort.AscendingUnique | Module02/Quicksort/OMP_Qsort.cpp:137-163 | Two ascending sequences with the same multiset are equal. |
| Quicksort.SortedPermUnique | Module02/Quicksort/OMP_Qsort.cpp:137-163 | Two sorted permutations of the same slice, with the same frame, are identical arrays. |
| Quicksort.SortsAgree | Module02/Quicksort/OMP_Qsort.cpp:137-163 | The task-parallel sort produces exactly the array the sequential sort produces. |
| MatrixMultiply.Product | Module02/Matrix_Multiplication/Sequential.cpp:79-91 | The mathematical product of two n×n matrices is n×n. |
| MatrixMultiply.InitZero | Module02/Matrix_Multiplication/Sequential.cpp:15-24 | Every entry becomes 0. |
| MatrixMultiply.RandomMatrix | Module02/Matrix_Multiplication/Sequential.cpp:27-36 | Every entry is draw % modulus, in [0, modulus). |
| MatrixMultiply.InitMatrix | Module03/Matrix_Multiplication/MPI_MM.cpp:98-121 | With `fill`, entries are in [0, 100). Without it, the memory keeps whatever it held before. |
| MatrixMultiply.MultiplyMatrix | Module02/Matrix_Multiplication/Sequential.cpp:79-91 | `result_m` gains the product: r = c + A·B entrywise. |
| MatrixMultiply.ZeroThenMultiply | Module02/Matrix_Multiplication/Sequential.cpp:109-125 | Zeroing and then multiplying leaves exactly A·B. |
| MatrixMultiply.MultiplyRows | Module02/Matrix_Multiplication/pThread.cpp:97-115 | A thread adds the dot products to its own rows and to no other row. |
| MatrixMultiply.PthreadMultiply | Module02/Matrix_Multiplication/pThread.cpp:141-188 | Whatever order the threads run in, their ranges tile the rows and the result is exactly A·B. |
| MatrixMultiply.RunThread | Module02/Matrix_Multiplication/pThread.cpp:168-181 | One more thread's body finishes exactly its own rows, because tiling ranges are disjoint. Rows no thread has reached stay zero. |
| MatrixMultiply.MultiplyPartition | Module03/Matrix_Multiplication/MPI_MM.cpp:243-255 | Rows below `partition` gain the product, and the other rows are untouched. |
| MatrixMultiply.MpiNodeAsWritten | Module03/Matrix_Multiplication/MPI_MM.cpp:168-189 | A node's rows below `partition` hold storage + A·B, where storage is the uninitialised memory. |
| MatrixMultiply.MpiNodeWitness | Module03/Matrix_Multiplication/MPI_MM.cpp:171-185 | With 1×1 matrices [1]·[1] and leftover memory 5, the node reports 6, not the product 1. |
| MatrixMultiply.MpiNodeZeroed | Module03/Matrix_Multiplication/MPI_MM.cpp:171-185 | With `init_zero` applied first, rows below `partition` are exactly the product rows and all other rows are 0. |
| MatrixMultiply.DotBound | Module02/Matrix_Multiplication/Sequential.cpp:85-88 | With entries in [0, m), each partial sum is in [0, (m-1)²·k]. |
| MatrixMultiply.NoOverflowSize1000 | Module02/Matrix_Multiplication/Sequential.cpp:12-33 | For SIZE 1000 and entries % 10, every partial sum fits in `int` (≤ 81000). |
| MatrixMultiply.NoOverflowSize1200 | Module03/Matrix_Multiplication/Sequential_MM.cpp:12-57 | For SIZE 1200 and entries % 100, every partial sum fits in `int` (≤ 11 761 200). |
| VectorAddition.SumConcat | Module02/Vector_Addition/Seq.cpp:52-63 | The sum of a concatenation is the sum of the parts. |
| VectorAddition.SumPointwise | Module02/Vector_Addition/Seq.cpp:52-63 | If v3 = v1 + v2 pointwise, then Σv3 = Σv1 + Σv2, which is the check the programs print. |
| VectorAddition.RandomVector | Module03/Vector_Addition/Pthread.cpp:12-19 | Cells in [start, end) get draw % 100, in [0, 99], and the others are unchanged. |
| VectorAddition.AddRange | Module02/Vector_Addition/Seq.cpp:42-45 | v3[i] = v1[i] + v2[i] inside the range, unchanged outside. |
| VectorAddition.Total | Module02/Vector_Addition/Seq.cpp:52-56 | `total` is the sum of v3. |
| VectorAddition.TotalCheck | Module02/Vector_Addition/Seq.cpp:58-63 | `totalCheck` is Σv1 + Σv2. |
| VectorAddition.SeqProgram | Module02/Vector_Addition/Seq.cpp:21-63 | After the fill and add, every cell is in range and v3 = v1 + v2, so the two printed totals are equal. |
| VectorAddition.AddVector | Module03/Vector_Addition/Pthread.cpp:34-51 | A thread fills its range of v1 and of v2 from two draw sequences, which may come from different seeds. Each cell is draw % 100, in [0, 99], and v3 = v1 + v2 there. Other cells are untouched. |
| VectorAddition.RunThreads | Module03/Vector_Addition/Pthread.cpp:85-107 | Once every thread of a tiling has run, every cell is filled and added. |
| VectorAddition.CheckTotals | Module03/Vector_Addition/Pthread.cpp:114-123 | When v3 = v1 + v2, the two totals agree and equal Σv3. |
| VectorAddition.PthreadProgram | Module03/Vector_Addition/Pthread.cpp:54-123 | THREADS ranges tile the vector. Every cell of v1 and v2 is in [0, 99], every cell of v3 is their sum, and the two printed totals agree. |
| VectorAddition.VectorAdd | Module03/Vector_Addition/mpi_vectorAdd.cpp:28-38 | The first `partition` cells become v1 + v2, the rest are unchanged, and the returned sum is their total: Σv1 + Σv2 over that prefix, or 0 for a non-positive partition. |
| VectorAddition.ScatterAdd | Module03/Vector_Addition/mpi_vectorAdd.cpp:81-85 | A rank adds its scattered slices, and its local sum is the slices' total. |
| VectorAddition.GatherRank | Module03/Vector_Addition/mpi_vectorAdd.cpp:87-90 | Appending one rank's gathered block and reduced sum extends the prefix invariant by `partition` cells. |
| VectorAddition.MpiProgram | Module03/Vector_Addition/mpi_vectorAdd.cpp:60-90 | partition = SIZE / num_tasks. The gathered v3 is v1 + v2 on the first num_tasks·partition cells, and the reduced total is Σv1 + Σv2 over exactly those cells. |

## Left out

- **Threads, mutex, named semaphores, OpenMP and MPI runtime calls.** Each critical section is one atomic step. For the ring buffer every interleaving is covered; elsewhere the threads or tasks run one after another. `sem_open`/`sem_unlink` failures and `perror`/`exit` are not modelled.
- RingBuffer.Init: assumes the named semaphores `/buffer_count` and `/consumer_flag` are newly created. `sem_open` is called with `O_CREAT` but without `O_EXCL` (Traffic_SIM.cpp:444, 451), so a semaphore left by an earlier run is reopened with its old count, and the initial value is ignored. Only the normal ending unlinks them (Traffic_SIM.cpp:494-503). A run that dies earlier, including the `exit(1)` after a failed second `sem_open`, leaves them behind. With a leftover positive filled-slot count, a consumer would read a slot no producer wrote. `RingBuffer.FifoFromInit` and everything built on `Init` hold only for fresh semaphores.
- **I/O and bookkeeping.** File writing and reading (`create_input_data`'s file, `read_file`, `write_vec`, `write_matrix`), printing, timing, memory allocation and freeing are left out. The generated line and its parse are modelled as strings.
- **Random numbers.** `rand`/`rand_r`/`srand` are replaced by the `draws` parameter. The pthread vector program shares one `data.seed` field that `main` overwrites while threads start. `addVector` reads that field once for v1 and again for v2, so the two fills of a range may use different seeds. The model therefore gives each thread two independent draw sequences, one for v1 and one for v2, and proves nothing about v1 equalling v2.
- **The user-defined `swap(int*, int*)`** in the quicksort files. It only exchanges its local pointer copies, and the calls with `int` arguments resolve to `std::swap`. `Quicksort.Swap` models `std::swap`.
- **Context files.** `MPI_OpenCL_MM.cpp`, `vector_ops2.cpp`, `OpenMP.cpp`, `OMP_11.cpp` and `M1.T4D.cpp` are not part of this model.
- **Column-count limits of `fill_data_m`.** Each `data_m` row has room for 60 ints, so a line with more than 60 comma-terminated fields writes past the row. The model returns all fields. A field `stoi` rejects throws in C++; the model returns None.
- **Hours outside 6..10 that the source does not ignore.** `record_results` ignores a reading when no row matches its hour, and `TrafficSim.SimStep` consumes such a reading and keeps the table. `TopResults.OtherHourIgnored` shows this covers every hour except 0 and 600..1099. Hour 0 matches the placeholders: its first positive reading overwrites them all, and a later larger one makes `insert_row` index row −16 (`TopResults.HourZeroBreaksTable`). An hour of 600..1099 can equal a stored reading's time and reach the same out-of-range index. For a reading of an hour without a bucket, `SimStep` fails whenever the source's scan would change the table or index outside it. The generated data only yields hours 6..10.
- **Top-3 table versus the documented intent.** The documented intent is a descending top-3 with the busiest light first. The code keeps the maximum in the LAST row of each bucket, keeps scanning after an insert, and can store the same reading twice. The model follows the code, and `TopResults.RankingScenario` shows the difference.
- **Remainder rows in MPI_MM.** When the process count does not divide SIZE, the `partition` rows are never computed, and the element-wise scatter no longer aligns with whole rows. The model covers the node computation and `Partitions.ScatterCoversPartitionRows` only.
- **The head node's scatter** of `MPI_MM.cpp` receives into `&matrix_a` with count 0. Its effect on the head's own rows is not modelled.
- VectorAddition.SeqProgram: the `int` totals of 150 000 000 (Seq, Pthread) or 102 000 000 (MPI) cells of up to 198 exceed `int` and wrap in C++. The model sums unbounded integers, so the equality it proves is the intended one, not the wrapped one.
- VectorAddition.PthreadProgram: the threads run one after another in thread order. They write disjoint ranges, so any interleaving gives the same vectors, but the model does not enumerate interleavings.
- VectorAddition.MpiProgram: the ranks' work is modelled one rank after another, not as concurrent processes.
- MatrixMultiply.PthreadMultiply: threads run in a caller-chosen order, one at a time, not interleaved.
- Quicksort.QuickSortOmp: the two tasks run one after the other. They touch disjoint slices, so this is the only result any schedule produces.

## Findings

| source | as written | input that shows it | evidently intended | confidence | as-written member | corrected member |
|---|---|---|---|---|---|---|
| Traffic_SIM.cpp:44-75 | `value % 7` is used for days above 7, and a remainder of 0 falls through to the lost-day text | `get_day(14)` returns "Lost in space and time" instead of "Sunday" | every multiple of 7 is Sunday | not executed | TrafficData.GetDayLosesMultiplesOfSeven | TrafficData.GetDayCorrectedIsWeekly |
| Module03/Matrix_Multiplication/MPI_MM.cpp:171-185 | `result_m` is allocated by `init_matrix(result_m, false)` and never zeroed before `multiply_matrix` adds into it | 1×1 matrices [1]·[1] with leftover memory 5 give 6 | `init_zero(result_m)` before multiplying, so the rows equal A·B | not executed | MatrixMultiply.MpiNodeWitness | MatrixMultiply.MpiNodeZeroed |
