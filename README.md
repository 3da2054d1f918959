# yamr — a Dafny model of an in-process map/shuffle/reduce engine

`main.cpp` implements `TextFileMapReduceFramework<MapFunctor, ReduceFunctor>`.
The engine reads a text file and runs three stages on it.

- **Map.** The file is cut into `M` blocks. `blockSize` is `fileSize / M`, and
  every boundary is pushed past the next newline by `moveOffsetToEndOfLine`.
  Map task `i` reads its block line by line with `getline`, stopping once
  `tellg()` passes the block's end. It hands each line to `MapFunctor`, which
  lowercases the line and returns every prefix, shortest first. The task then
  sorts what it gathered.
- **Shuffle.** Every record goes to partition `value[0] % R`, and each
  partition is then sorted.
- **Reduce.** Each partition is fed, in order, to a fresh `ReduceFunctor`. The
  functor remembers the previous record (`m_prevLine`) and a threshold
  (`m_length`). When a record equals the previous one and is longer than the
  threshold, the functor sets the threshold to the length plus one. Because
  `_DEBUG` is defined, it also emits `to_string(threshold) + " " + record`.
  Partition `j`'s output is written to `reduce_<j>.txt`.

The model is split into these modules:

- **`Text`** (text.dfy): bytes, `::tolower`, `std::to_string` and reading the
  number back.
- **`Order`** (order.dfy): the `std::string` order, with `std::sort` modelled
  as a sort proved unique for that order.
- **`Functors`** (functors.dfy): both functors. `ReduceFunctor` is a class
  whose call operator updates its two fields.
- **`Blocks`** (blocks.dfy): the block offsets, `moveOffsetToEndOfLine` and the
  `getline` loop's stopping rule. The block size is written as repeated
  subtraction and `offset*blockSize` as repeated addition.
  `BlockSizeIsQuotient` and `ProvisionalRanges` prove that they equal
  `fileSize / M` and the products.
- **`Framework`** (framework.dfy): the three stages and `run()` as methods with
  loops. Each method is proved equal to a specification function, and the
  properties of the engine are proved about those functions.
- **`Scenarios`** (scenarios.dfy): concrete runs on small inputs.

The file is a byte sequence. A record is a byte sequence. `char` is signed,
as on the usual x86 ABIs.

An engine of this kind is expected to behave in the ways listed below. In
each case `main.cpp` does something else, and the model follows `main.cpp`.
The proofs make each difference concrete:

- **The reducer can skip a duplicate.** One would expect one report per run of
  two or more equal records. The `>` at line 54, combined
  with the `+1` at line 56, skips a duplicate whose length equals the
  threshold. Over `a a ab ab` only `2 a` is reported (`ReduceSkipsAtThreshold`).
- **The Cat/cat/dog scenario has two reports.** One would expect the
  `"cat"`-family partition of `Cat/cat/dog` (with `M = 1` and `R = 2`) to hold
  one report, `4`. The code writes `2 c` and `4 cat` to `reduce_1.txt`, and writes
  nothing to `reduce_0.txt` (`RunCatDog`).
- **Lines after the last block's end are read by no task.** One would expect
  the blocks to cover the whole file. In the code the last block ends at the
  adjusted `M * blockSize`, which can fall before the end of the file. For
  `"a\nb\n\nc\n"` with `M = 4` the line `c` is read by no task
  (`TrailingLineDropped`). In a file that ends with a newline, completeness
  holds when the last end is the end of the file, for example when `M`
  divides the file size (`BlocksReadEachLineOnce`, `LastEndAtEofWhenDivisible`).
- **An unterminated last line can be read more than once.** One would expect
  every line to be read by exactly one task. When the file does not end with
  a newline, `moveOffsetToEndOfLine` cannot move a boundary that falls inside
  the last line, and `tellg()` is -1 after that line, so it always passes
  `<= offsetEnd`. A task reads the line when its adjusted end is at or past
  the line's start: in whole if it starts at or before the line, from its
  start on if it starts inside it. For `"abcd"` with `M = 2`, task 0
  reads `abcd` and task 1 reads `cd`, although `M` divides the file size
  (`UnterminatedLineReadTwice`). For `"abc"` with `M = 4`, all four tasks read
  `abc` (`UnterminatedLineReadByEveryTask`). For `"a\nb\nc\nxyz"` with
  `M = 3`, task 0 ends at 4 and stops at `c`, so only tasks 1 and 2 read
  `xyz`, both in whole (`UnterminatedLineSkippedByEarlyTask`).
- **An empty record gets index 0.** One would expect an empty record in the
  shuffle to be rejected as a contract violation. In the code `value[0]` of an empty
  `std::string` is its terminating `'\0'`, so the record gets index 0. The
  model does the same.
- **A first byte above 127 can abort the run.** Such a byte is a negative
  `char`, so `%` may give a negative index. Then `shuffleMutexes.at(index)`
  throws, and the run does not complete. The model reports this as
  `ok == false` (`HighByteAborts`).

## Model

| member | source | states |
|---|---|---|
| `Functors.MapLine` | main.cpp:17-35 | the loop returns exactly `MapOutput(line)`: the prefixes of the lowered line, shortest first (see `PrefixesSpec` and `MapOutputShape`) |
| `Functors.PrefixesSpec` | main.cpp:22-31 | entry `k` of the list is the prefix of length `k + 1` |
| `Functors.MapOutputShape` | main.cpp:17-35 | an empty line gives no records; record `k` has length `k + 1`, starts with the lowered first byte and has no upper-case letter; each record is a prefix of the next |
| `Functors.MapAllAppend` | main.cpp:188-192 | gathering the records of two runs of lines gives the two results one after the other |
| `Functors.MapAllCons` | main.cpp:188-192 | the records of a first line come before those of the lines after it |
| `Functors.MapAllNonEmpty` | main.cpp:188-192 | every gathered record is non-empty |
| `Functors.ReduceFunctor.constructor` | main.cpp:41-45 | a new functor has threshold 0 and an empty previous record |
| `Functors.ReduceFunctor.Apply` | main.cpp:47-68 | at most one report, exactly when the line equals the previous one and is longer than the threshold; the report is `to_string(len + 1) + " " + line`; the threshold then becomes `len + 1`, otherwise it stays; the previous line becomes the line |
| `Functors.Report` | main.cpp:57-58 | the report `to_string(n) + " " + line`; `Text.LeadingNumberOfDecimal` states that it reads back as the number `n` |
| `Functors.Emit` | main.cpp:52-65 | what one call returns; `ReduceFunctor.Apply` proves the call operator returns it, and `RunReportsOnce` and `ThresholdsIncrease` state what it yields over a sequence of calls |
| `Functors.Next` | main.cpp:52-63 | the fields after one call; `ReduceFunctor.Apply` proves the call operator leaves them, and `FeedOne` and `ThresholdsIncrease` state how they evolve |
| `Functors.FeedOne` | main.cpp:265-269 | feeding one more record advances the fold by one call |
| `Functors.RunReportsOnce` | main.cpp:52-65 | a run of `k` equal records that does not continue the previous one emits exactly one report, `to_string(len + 1) + " " + record`, when `k >= 2` and the record is longer than the threshold, and nothing otherwise |
| `Functors.ThresholdsIncrease` | main.cpp:54-58 | the numbers the reports carry strictly increase, all exceed the starting threshold, and the last one is the final threshold |
| `Functors.ThresholdsExtend` | main.cpp:54-58 | a report whose threshold exceeds every earlier one keeps the thresholds rising, and its leading number reads back as that threshold |
| `Functors.ReportsAreRepeats` | main.cpp:52-58 | every report names a record that arrived twice in a row |
| `Functors.NoRepeatsNoReports` | main.cpp:52-58 | a partition with no two equal neighbours produces no output |
| `Text.LowerSpec` | main.cpp:21 | after lowering, no upper-case letter remains; upper-case letters gain 32; other bytes are unchanged; lowering twice is lowering once |
| `Text.Lower` | main.cpp:21 | `std::transform` with `::tolower` keeps the length; `LowerSpec` states its effect on each byte |
| `Text.DecimalRoundTrip` | main.cpp:58 | the decimal digits `to_string` writes read back as the number |
| `Text.Decimal` | main.cpp:58 | `std::to_string` of a non-negative number: at least one digit, all digits, no leading zero; `DecimalRoundTrip` states that it reads back as the number |
| `Text.LeadingNumberOfDecimal` | main.cpp:58 | reading the number in front of a report gives its threshold back |
| `Text.ConcatMultisetUpdate` | main.cpp:233 | appending a record to one partition adds exactly that record to what the partitions hold |
| `Order.LexLeMeaning` | main.cpp:195 | the recursive order is "prefix, or smaller at the first difference", in both directions |
| `Order.LexLe` | main.cpp:195 | `std::string`'s `<=` used by both sorts (also line 247), unsigned byte by byte; `LexLeMeaning` states its meaning, and `LexLeTransitive`, `LexLeAntisymmetric` and `LexLeTotal` make it a total order |
| `Order.LexLeTransitive` | main.cpp:195 | the string order is transitive |
| `Order.LexLeAntisymmetric` | main.cpp:195 | the string order is antisymmetric |
| `Order.LexLeTotal` | main.cpp:195 | the string order is total |
| `Order.Insert` | main.cpp:195 | inserting a record adds exactly that record and keeps a sorted sequence sorted |
| `Order.Sort` | main.cpp:195 | the result is sorted and a permutation of the input |
| `Order.SortedPermutationUnique` | main.cpp:247 | two sorted permutations of the same records are equal, so any sorting algorithm gives the same partition |
| `Order.SortedHeadsAgree` | main.cpp:247 | two sorted permutations of the same records start with the same record |
| `Order.SortDependsOnlyOnMultiset` | main.cpp:247 | sorting depends only on which records are present |
| `Order.SortCharacterised` | main.cpp:247 | any sorted rearrangement equals the sort, and sorting twice changes nothing |
| `Blocks.MoveOffsetToEndOfLine` | main.cpp:285-303 | the loop leaves the offset the specification function `AdjustOffset` gives |
| `Blocks.AdjustOffset` | main.cpp:285-303 | the adjusted offset never moves back and stays inside the file |
| `Blocks.AdjustOffsetSpec` | main.cpp:285-303 | offset 0 stays 0; otherwise it moves to just past the first newline at or after it, or stays when no newline follows; the result is a line boundary when the file ends with a newline |
| `Blocks.AdjustOffsetMonotone` | main.cpp:285-303 | a larger offset is never adjusted to a smaller one, so a block's adjusted start never passes its adjusted end |
| `Blocks.BlockSizeBounds` | main.cpp:97 | `M` blocks of `blockSize` bytes fit in the file and leave fewer than `M` bytes over |
| `Blocks.BlockSizeIsQuotient` | main.cpp:97 | the block size is C++'s `fileSize / M` |
| `Blocks.BlockSize` | main.cpp:97 | `fileSize / M` as repeated subtraction; `BlockSizeIsQuotient` and `BlockSizeBounds` state that it is the quotient |
| `Blocks.ProvisionalInFile` | main.cpp:176-177 | both provisional offsets of a task lie inside the file, and each task's provisional end is the next task's provisional start |
| `Blocks.ProvisionalRanges` | main.cpp:97-177 | `offset*blockSize` and `offset*blockSize + blockSize`, with `blockSize = fileSize / M`, make consecutive ranges inside the file |
| `Blocks.ProvisionalStart` | main.cpp:176 | `offsetStart` before adjustment; `ProvisionalRanges` states that it is `offset*blockSize` |
| `Blocks.ProvisionalEnd` | main.cpp:177 | `offsetEnd` before adjustment; `ProvisionalRanges` states that it is `offset*blockSize + blockSize` |
| `Blocks.BlocksAreContiguous` | main.cpp:176-181 | the adjusted blocks start at 0, meet end to end, are never reversed, and fall on line boundaries |
| `Blocks.BlockStart` | main.cpp:176-180 | the adjusted `offsetStart` lies in the file; `BlocksAreContiguous` and `TaskBoundary` place it |
| `Blocks.BlockEnd` | main.cpp:177-181 | the adjusted `offsetEnd` lies in the file; `BlocksAreContiguous` and `LastEndAtEofWhenDivisible` place it |
| `Blocks.TaskBoundary` | main.cpp:176-181 | in any file, task `i` starts where task `i - 1` ended; in a file that ends with a newline, that is a line boundary |
| `Blocks.TellAfterLine` | main.cpp:188 | `tellg()` after a `getline` is -1 or a position past the line's start inside the file |
| `Blocks.BlockLinesStep` | main.cpp:188 | a line ended by a newline before the block's end is read, and reading goes on after it |
| `Blocks.BlockLinesLast` | main.cpp:188 | a line that runs to the end of the file is always read, and is the last |
| `Blocks.ReadToEndReadsAll` | main.cpp:188 | reading to the end of the file with `getline` yields every line |
| `Blocks.BlockLines` | main.cpp:188 | the lines the `getline && tellg() <= offsetEnd` loop reads, an unterminated last line always passing with `tellg() == -1`; `ReadToEndReadsAll`, `BlockLinesStep`, `BlockLinesLast` and `BlockLinesSplit` state its meaning |
| `Blocks.BlockLinesSplit` | main.cpp:188 | a read splits at a line boundary into the read before it and the read after it |
| `Blocks.TasksReadPrefix` | main.cpp:165-201 | the first `k` tasks together read the lines before task `k - 1`'s end, each once and in order |
| `Blocks.ReadByTasksStep` | main.cpp:165-201 | task `k - 1` adds the lines of its block after those of the tasks before it |
| `Blocks.FirstTaskReadsFromStart` | main.cpp:176-192 | the first task reads the lines from the start of the file to its end |
| `Blocks.NextTaskReadsOn` | main.cpp:176-192 | each further task reads on exactly where the previous one stopped |
| `Blocks.BlocksReadEachLineOnce` | main.cpp:160-210 | all tasks together read each line before the last end once; that is every line when the last end is the end of the file |
| `Blocks.LastEndAtEofWhenDivisible` | main.cpp:97 | when `M` divides the file size, the last block ends at the end of the file |
| `Blocks.SmallFileReadsNothing` | main.cpp:97 | with fewer bytes than tasks, `blockSize` is 0 and no task reads a line of a file that ends with a newline |
| `Framework.MapTask` | main.cpp:167-199 | a task's result is sorted and holds exactly the functor's records for its block's lines |
| `Framework.ReadBlock` | main.cpp:186-192 | the `getline` loop gathers the functor's records for the lines from the start while `tellg() <= offsetEnd` |
| `Framework.MapAllFirstLine` | main.cpp:188-191 | one step of the read loop: the first line's records, then the rest |
| `Framework.MapAllLastLine` | main.cpp:188-191 | a line that runs to the end of the file gives the last records of the read |
| `Framework.ReadStops` | main.cpp:188 | a line ending past the block's end stops the read |
| `Framework.MapStage` | main.cpp:160-210 | map result `i` is task `i`'s output, index-aligned with the blocks |
| `Framework.MapOverTasksStep` | main.cpp:188-195 | task `k - 1` adds the records of its own lines, sorted, to what the earlier tasks produced |
| `Framework.MapOverTasks` | main.cpp:160-201 | the first `k` map results hold exactly the functor's records for the lines the first `k` tasks read |
| `Framework.MapStageComplete` | main.cpp:160-210 | the map results together hold the functor's records for every line before the last end, each once |
| `Framework.TruncatedRem` | main.cpp:228 | C++ `%`: the remainder has the sign of the dividend, a magnitude below `R`, and differs from the dividend by a multiple of `R`, which together fix it |
| `Framework.SignedChar` | main.cpp:228 | the signed `char` of a byte lies in -128..127, is negative exactly for bytes from 128 up, and is congruent to the byte modulo 256 |
| `Framework.PartitionIndex` | main.cpp:228 | the index lies strictly between `-R` and `R`, is congruent to the signed first byte modulo `R`, and is at most 0 when that byte is 128 or more (C++ `%` keeps the dividend's sign), which fixes its value; it equals `v[0] % R` for an ASCII first byte and 0 for an empty record |
| `Framework.RoutedCounts` | main.cpp:226-234 | a partition holds a record as often as the input does when the record's index is that partition, and never otherwise |
| `Framework.RoutedBelongs` | main.cpp:226-234 | every record in a partition belongs there and came from the input |
| `Framework.RoutedSnoc` | main.cpp:226-234 | one more record joins the end of its own partition and no other |
| `Framework.RouteAllSnoc` | main.cpp:226-234 | routing one more record appends it to partition `value[0] % R` and leaves the others unchanged |
| `Framework.RouteAllKeepsRecords` | main.cpp:222-242 | when no index is negative, the partitions together hold exactly the routed records |
| `Framework.Shuffle` | main.cpp:212-251 | it completes exactly when no index is negative, and then returns the sorted routed partitions |
| `Framework.PushAll` | main.cpp:224-235 | a shuffle task appends each record to its partition in order, and fails exactly when a record's index is negative |
| `Framework.SortEach` | main.cpp:244-248 | each partition is replaced by its sorted version |
| `Framework.SortEachKeepsRecords` | main.cpp:244-248 | sorting every partition keeps the records the partitions hold together |
| `Framework.ShuffleSpec` | main.cpp:212-251 | `R` partitions, each sorted; each record sits only in partition `value[0] % R`, as many times as it was produced; nothing is lost or added |
| `Framework.ShuffleIgnoresArrivalOrder` | main.cpp:222-248 | any interleaving of the shuffle threads' appends gives the same sorted partitions |
| `Framework.RoutableIndex` | main.cpp:228-231 | a record's index is non-negative, so `at()` does not throw, exactly when it is empty, starts with an ASCII byte, or starts with a negative `char` that `R` divides |
| `Framework.RoutableExactly` | main.cpp:222-234 | the map results can be shuffled without `at()` throwing exactly when every record is empty, starts with an ASCII byte, or starts with a negative `char` that `R` divides |
| `Framework.AsciiRecordsAreRoutable` | main.cpp:228-231 | records whose first byte is ASCII never make `at()` throw |
| `Framework.ReduceStage` | main.cpp:253-282 | result `j` is what a fresh functor emits over partition `j`, index-aligned |
| `Framework.RunOutputReportsRepeats` | main.cpp:87-158 | each line of `reduce_<j>.txt` reports a record that the map stage produced at least twice and that was routed to `j`; within a file the numbers strictly increase |
| `Framework.PartitionReportsRepeats` | main.cpp:253-282 | in one partition's output every report names a record routed there and produced at least twice, and the numbers strictly increase |
| `Framework.Run` | main.cpp:87-158 | it completes exactly when every map record is routable, and then returns the composed map, shuffle and reduce output, one sequence per partition |
| `Scenarios.MapCat` | main.cpp:17-35 | `"Cat"` maps to `"c"`, `"ca"`, `"cat"` |
| `Scenarios.MapOutputThree` | main.cpp:17-35 | a three-byte line maps to its three lowered prefixes |
| `Scenarios.ReduceTwice` | main.cpp:47-68 | a fresh functor given a non-empty record twice reports it once and sets the threshold to its length plus one |
| `Scenarios.ReduceThreePairs` | main.cpp:47-68 | records of lengths 1, 2 and 3, each twice, give two reports; the middle record is skipped |
| `Scenarios.ReduceSkipsAtThreshold` | main.cpp:54-56 | a duplicate one byte longer than an already reported record is not reported |
| `Scenarios.ReduceCatPartition` | main.cpp:47-68 | the sorted `c`-partition of `Cat/cat` gives `2 c` and `4 cat` |
| `Scenarios.ReduceSkipsAb` | main.cpp:54-56 | `a a ab ab` gives only `2 a` |
| `Scenarios.TrailingLineDropped` | main.cpp:176-192 | for `"a\nb\n\nc\n"` with `M = 4` the last block ends at offset 5, and the line `c` is read by no task |
| `Scenarios.TrailingLines` | main.cpp:188 | `"a\nb\n\nc\n"` holds the lines `a`, `b`, the empty line and `c` |
| `Scenarios.TrailingOffsets` | main.cpp:176-181 | with block size 1, the adjusted offsets of the four tasks are 0-2, 2-4, 4-4 and 4-5 |
| `Scenarios.TrailingTasks` | main.cpp:186-192 | the four tasks read `a`, `b`, nothing and the empty line |
| `Scenarios.UnterminatedLineSkippedByEarlyTask` | main.cpp:176-192 | for `"a\nb\nc\nxyz"` with `M = 3` task 0 ends at offset 4 and does not read `xyz`; tasks 1 and 2 both read it |
| `Scenarios.SkippedOffsets` | main.cpp:176-181 | with block size 3 the adjusted offsets of the three tasks are 0-4, 4-6 and 6-9 |
| `Scenarios.SkippedReads` | main.cpp:188 | the reads 0-4, 4-6 and 6-9 give `a b`, `c xyz` and `xyz` |
| `Scenarios.SkippedTasks` | main.cpp:186-192 | the three tasks together read `a`, `b`, `c`, `xyz`, `xyz` |
| `Scenarios.UnterminatedLineReadTwice` | main.cpp:176-192 | for `"abcd"` with `M = 2` the last block ends at the end of the file, yet task 0 reads `abcd` and task 1 reads `cd` |
| `Scenarios.UnterminatedLineReadByEveryTask` | main.cpp:97-192 | for `"abc"` with `M = 4` every one of the four tasks reads `abc` |
| `Scenarios.HighByteAborts` | main.cpp:228-231 | a record starting with byte 201 gets index -1 for `R = 2`, so the shuffle does not complete |
| `Scenarios.CatDogLines` | main.cpp:176-192 | the one block of `"Cat\ncat\ndog\n"` is the whole file and holds its three lines |
| `Scenarios.RouteCatDog` | main.cpp:222-235 | the `d` records go to partition 0 and the `c` records to partition 1, in arrival order |
| `Scenarios.CatDogShuffle` | main.cpp:222-248 | the sorted partitions are `d do dog` and `c c ca ca cat cat` |
| `Scenarios.CatDogReduce` | main.cpp:253-282 | partition 0 gives nothing, partition 1 gives `2 c` and `4 cat` |
| `Scenarios.RunCatDog` | main.cpp:87-158 | `Cat/cat/dog` with `M = 1`, `R = 2` writes nothing to partition 0 and `2 c`, `4 cat` to partition 1 |

## Left out

- Concurrency. The `std::async` tasks, the futures and the mutexes are left
  out. The tasks of each stage run one after another. Map and reduce results
  are index-aligned. Every shuffle partition is sorted after routing, and
  `ShuffleIgnoresArrivalOrder` proves that the order of the appends does not
  matter.
- File and stream I/O. The file is a byte sequence. `ifstream`, `seekg` and
  the stream flags are modelled only through their effect on offsets and
  lines. The failed opens, in `run()` (lines 90-95) and in a map task
  (lines 169-174), are left out, because the file is given. Writing `reduce_<j>.txt` and the debug
  output on `std::cout` are left out too.
- `main` and `atoi`. The command line is left out. `M >= 1` and `R >= 1` are
  preconditions, because `M = 0` divides by zero at line 97.
- Unterminated last line. `BlockLines` models `tellg() == -1` after an
  unterminated last line, which lets that line through. The completeness
  theorems (`BlocksAreContiguous`' line-boundary clause, `BlockLinesSplit`,
  `TasksReadPrefix`, `BlocksReadEachLineOnce`, `MapStageComplete`,
  `SmallFileReadsNothing`) require the file to end with a newline. Without
  one, the last line can be read by several tasks, or in part, as
  `UnterminatedLineReadTwice`, `UnterminatedLineReadByEveryTask` and
  `UnterminatedLineSkippedByEarlyTask` show.
- Framework.MapStageComplete: states completeness for the lines before the
  last block's end. Lines after it are not read at all, as
  `TrailingLineDropped` shows.
- `int` overflow. `offset*blockSize` and `m_length` are C++ `int`, but the
  model uses unbounded integers. Files of 2 GiB or more, and lines of that
  length, are not modelled.
- Locale. `::tolower` is taken in the "C" locale, which changes only
  `A`..`Z`.
- `_DEBUG` off. The variant that emits only `to_string(m_length)` is not
  modelled, because `_DEBUG` is defined at line 9.
