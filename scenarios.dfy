/** Concrete runs of the model on small inputs: what the engine does on a few
    files and partitions, including the places where its behaviour is easy to
    misread (the reducer's threshold, lines past the last block's end, and a
    first byte above 127). */
module Scenarios {
  import opened Text
  import opened Order
  import opened Functors
  import opened Blocks
  import opened Framework

  /** "Cat" maps to "c", "ca", "cat": lowered, every prefix, shortest first. */
  lemma MapCat()
    ensures MapOutput([67, 97, 116]) == [[99], [99, 97], [99, 97, 116]]
  {
    var lowered := Lower([67, 97, 116]);
    assert lowered == [99, 97, 116];
    MapOutputThree([67, 97, 116]);
    assert lowered[..1] == [99] && lowered[..2] == [99, 97];
  }

  /** A three-byte line maps to its three lowered prefixes. */
  lemma MapOutputThree(line: Record)
    requires |line| == 3
    ensures MapOutput(line) == [Lower(line)[..1], Lower(line)[..2], Lower(line)]
  {
    PrefixesSpec(Lower(line));
    assert Lower(line)[..3] == Lower(line);
  }

  /** A sorted partition holding three records of lengths 1, 2 and 3, each
      twice, reduces to two reports: the middle record is not reported,
      because its length 2 is not above the threshold 2 that reporting the
      first one left behind. */
  lemma ReduceThreePairs(c: Record, ca: Record, cat: Record)
    requires |c| == 1 && |ca| == 2 && |cat| == 3
    ensures Emitted(Fresh, [c, c, ca, ca, cat, cat]) == [Report(2, c), Report(4, cat)]
  {
    var xs4 := [c, c, ca, ca];
    ReduceSkipsAtThreshold(c, ca);
    var xs5 := xs4 + [cat];
    FeedOne(Fresh, xs4, cat);
    assert After(Fresh, xs5) == ReduceState(cat, 2) && Emitted(Fresh, xs5) == [Report(2, c)];
    var xs6 := xs5 + [cat];
    FeedOne(Fresh, xs5, cat);
    assert Emitted(Fresh, xs6) == [Report(2, c), Report(4, cat)];
    assert xs6 == [c, c, ca, ca, cat, cat];
  }

  /** Partition 1 of "Cat\ncat\ndog\n" with R = 2 ('c' is 99, and 99 % 2 = 1)
      holds "c", "c", "ca", "ca", "cat", "cat"; it reduces to "2 c" and "4 cat". */
  lemma ReduceCatPartition()
    ensures Emitted(Fresh, [[99], [99], [99, 97], [99, 97], [99, 97, 116], [99, 97, 116]]) ==
      [[50, 32, 99], [52, 32, 99, 97, 116]]
  {
    ReduceThreePairs([99], [99, 97], [99, 97, 116]);
    assert Decimal(2) == [50] && Decimal(4) == [52];
    assert Report(2, [99]) == [50, 32, 99];
    assert Report(4, [99, 97, 116]) == [52, 32, 99, 97, 116];
  }

  /** A duplicate whose length equals the threshold is skipped: over `a`, `a`,
      `b`, `b` with `|b| == |a| + 1` only `a` is reported, because reporting
      `a` set the threshold to `|a| + 1`. */
  lemma ReduceSkipsAtThreshold(a: Record, b: Record)
    requires a != [] && a != b && |b| == |a| + 1
    ensures Emitted(Fresh, [a, a, b, b]) == [Report(|a| + 1, a)]
    ensures After(Fresh, [a, a, b, b]) == ReduceState(b, |a| + 1)
  {
    var xs2 := [a, a];
    ReduceTwice(a);
    var xs3 := xs2 + [b];
    FeedOne(Fresh, xs2, b);
    assert After(Fresh, xs3) == ReduceState(b, |a| + 1) && Emitted(Fresh, xs3) == [Report(|a| + 1, a)];
    var xs4 := xs3 + [b];
    FeedOne(Fresh, xs3, b);
    assert After(Fresh, xs4) == ReduceState(b, |a| + 1) && Emitted(Fresh, xs4) == [Report(|a| + 1, a)];
    assert xs4 == [a, a, b, b];
  }

  /** A fresh functor given a non-empty record twice reports it once, with
      the threshold its length plus one. */
  lemma ReduceTwice(a: Record)
    requires a != []
    ensures Emitted(Fresh, [a, a]) == [Report(|a| + 1, a)]
    ensures After(Fresh, [a, a]) == ReduceState(a, |a| + 1)
  {
    var none: seq<Record> := [];
    var xs1 := none + [a];
    var once := ReduceState(a, 0);
    FeedOne(Fresh, none, a);
    assert !Reports(Fresh, a) && Emit(Fresh, a) == [] && Next(Fresh, a) == once;
    assert After(Fresh, xs1) == once && Emitted(Fresh, xs1) == [];
    FeedOne(Fresh, xs1, a);
    assert Reports(once, a);
    assert Emit(once, a) == [Report(|a| + 1, a)] && Next(once, a) == ReduceState(a, |a| + 1);
    assert xs1 + [a] == [a, a];
  }

  /** Over "a", "a", "ab", "ab" the output is "2 a" alone. */
  lemma ReduceSkipsAb()
    ensures Emitted(Fresh, [[97], [97], [97, 98], [97, 98]]) == [[50, 32, 97]]
  {
    ReduceSkipsAtThreshold([97], [97, 98]);
    assert Decimal(2) == [50];
    assert Report(2, [97]) == [50, 32, 97];
  }

  /** "a\nb\n\nc\n" split into 4 blocks: the block size is 1, the last block
      ends at the adjusted offset 5, and the line "c" after it is read by no
      task although the file holds it. */
  lemma TrailingLineDropped()
    ensures Lines([97, 10, 98, 10, 10, 99, 10]) == [[97], [98], [], [99]]
    ensures BlockEnd([97, 10, 98, 10, 10, 99, 10], 4, 3) == 5
    ensures Concat(ReadByTasks([97, 10, 98, 10, 10, 99, 10], 4, 4)) == [[97], [98], []]
  {
    var data: seq<byte> := [97, 10, 98, 10, 10, 99, 10];
    TrailingLines(data);
    TrailingOffsets(data);
    TrailingTasks(data);
  }

  lemma TrailingLines(data: seq<byte>)
    requires data == [97, 10, 98, 10, 10, 99, 10]
    ensures Lines(data) == [[97], [98], [], [99]]
  {
    assert FirstNewline(data, 0) == 1 && FirstNewline(data, 2) == 3;
    assert FirstNewline(data, 4) == 4 && FirstNewline(data, 5) == 6;
    assert data[0..1] == [97] && data[2..3] == [98] && data[4..4] == [] && data[5..6] == [99];
    assert LinesFrom(data, 7) == [];
    assert LinesFrom(data, 5) == [[99]];
    assert LinesFrom(data, 4) == [[], [99]];
    assert LinesFrom(data, 2) == [[98], [], [99]];
  }

  /** With block size 1 the provisional offsets 1, 2, 3, 4 move to 2, 4, 4, 5. */
  lemma TrailingOffsets(data: seq<byte>)
    requires data == [97, 10, 98, 10, 10, 99, 10]
    ensures BlockStart(data, 4, 0) == 0 && BlockEnd(data, 4, 0) == 2
    ensures BlockStart(data, 4, 1) == 2 && BlockEnd(data, 4, 1) == 4
    ensures BlockStart(data, 4, 2) == 4 && BlockEnd(data, 4, 2) == 4
    ensures BlockStart(data, 4, 3) == 4 && BlockEnd(data, 4, 3) == 5
  {
    assert BlockSize(|data|, 4) == 1;
    assert FirstNewline(data, 1) == 1 && FirstNewline(data, 2) == 3;
    assert FirstNewline(data, 3) == 3 && FirstNewline(data, 4) == 4;
    assert AdjustOffset(data, 1) == 2 && AdjustOffset(data, 2) == 4;
    assert AdjustOffset(data, 3) == 4 && AdjustOffset(data, 4) == 5;
  }

  /** The lines read between those adjusted offsets. */
  lemma TrailingReads(data: seq<byte>)
    requires data == [97, 10, 98, 10, 10, 99, 10]
    ensures BlockLines(data, 0, 2) == [[97]] && BlockLines(data, 2, 4) == [[98]]
    ensures BlockLines(data, 4, 4) == [] && BlockLines(data, 4, 5) == [[]]
  {
    assert FirstNewline(data, 0) == 1 && FirstNewline(data, 2) == 3;
    assert FirstNewline(data, 4) == 4 && FirstNewline(data, 5) == 6;
    assert data[0..1] == [97] && data[2..3] == [98] && data[4..4] == [];
  }

  /** The four tasks read "a", "b", nothing, and the empty line. */
  lemma TrailingTasks(data: seq<byte>)
    requires data == [97, 10, 98, 10, 10, 99, 10]
    ensures Concat(ReadByTasks(data, 4, 4)) == [[97], [98], []]
  {
    TrailingOffsets(data);
    TrailingReads(data);
    assert Concat(ReadByTasks(data, 4, 0)) == [];
    ReadByTasksStep(data, 4, 1);
    assert Concat(ReadByTasks(data, 4, 1)) == [[97]];
    ReadByTasksStep(data, 4, 2);
    assert Concat(ReadByTasks(data, 4, 2)) == [[97], [98]];
    ReadByTasksStep(data, 4, 3);
    ReadByTasksStep(data, 4, 4);
  }

  /** "abcd" without a final newline, split into 2 blocks: the last block
      ends at the end of the file, yet no newline follows offset 2, so task 1
      starts inside the line. Task 0 reads the whole line (`tellg()` is -1
      after it) and task 1 reads its tail "cd" as a second line. */
  lemma UnterminatedLineReadTwice()
    ensures BlockEnd([97, 98, 99, 100], 2, 1) == 4
    ensures Concat(ReadByTasks([97, 98, 99, 100], 2, 2)) == [[97, 98, 99, 100], [99, 100]]
  {
    var data: seq<byte> := [97, 98, 99, 100];
    assert BlockSize(|data|, 2) == 2;
    assert FirstNewline(data, 0) == 4 && FirstNewline(data, 2) == 4;
    assert AdjustOffset(data, 2) == 2 && AdjustOffset(data, 4) == 4;
    assert BlockLines(data, 0, 2) == [data[0..]];
    assert BlockLines(data, 2, 4) == [data[2..]];
    assert Concat(ReadByTasks(data, 2, 0)) == [];
    ReadByTasksStep(data, 2, 1);
    ReadByTasksStep(data, 2, 2);
  }

  /** "a\nb\nc\nxyz" split into 3 blocks: task 0 starts before the
      unterminated line "xyz" but its adjusted end 4 falls before it, so it
      stops at "c"; task 1, whose end 6 is the start of "xyz", reads it in
      whole, and task 2 reads it again. */
  lemma UnterminatedLineSkippedByEarlyTask()
    ensures BlockEnd([97, 10, 98, 10, 99, 10, 120, 121, 122], 3, 0) == 4
    ensures Concat(ReadByTasks([97, 10, 98, 10, 99, 10, 120, 121, 122], 3, 3)) ==
      [[97], [98], [99], [120, 121, 122], [120, 121, 122]]
  {
    var data: seq<byte> := [97, 10, 98, 10, 99, 10, 120, 121, 122];
    SkippedOffsets(data);
    SkippedTasks(data);
  }

  /** With block size 3 the provisional offsets 3, 6, 9 move to 4, 6, 9:
      no newline follows offset 6. */
  lemma SkippedOffsets(data: seq<byte>)
    requires data == [97, 10, 98, 10, 99, 10, 120, 121, 122]
    ensures BlockStart(data, 3, 0) == 0 && BlockEnd(data, 3, 0) == 4
    ensures BlockStart(data, 3, 1) == 4 && BlockEnd(data, 3, 1) == 6
    ensures BlockStart(data, 3, 2) == 6 && BlockEnd(data, 3, 2) == 9
  {
    assert BlockSize(3, 3) == 1 && BlockSize(6, 3) == 2 && BlockSize(|data|, 3) == 3;
    assert Times(1, 3) == 3 && Times(2, 3) == 6;
    assert FirstNewline(data, 3) == 3 && FirstNewline(data, 6) == 9;
    assert AdjustOffset(data, 3) == 4 && AdjustOffset(data, 6) == 6;
  }

  /** The lines read between those adjusted offsets: the read from 0 stops
      at "c", which ends at 6, past 4. */
  lemma SkippedReads(data: seq<byte>)
    requires data == [97, 10, 98, 10, 99, 10, 120, 121, 122]
    ensures BlockLines(data, 0, 4) == [[97], [98]]
    ensures BlockLines(data, 4, 6) == [[99], [120, 121, 122]]
    ensures BlockLines(data, 6, 9) == [[120, 121, 122]]
  {
    assert FirstNewline(data, 0) == 1 && FirstNewline(data, 2) == 3;
    assert FirstNewline(data, 4) == 5 && FirstNewline(data, 6) == 9;
    assert data[0..1] == [97] && data[2..3] == [98] && data[4..5] == [99];
    assert data[6..] == [120, 121, 122];
    assert BlockLines(data, 2, 4) == [[98]];
    assert BlockLines(data, 6, 6) == [[120, 121, 122]];
  }

  /** The three tasks read "a" and "b"; "c" and "xyz"; and "xyz". */
  lemma SkippedTasks(data: seq<byte>)
    requires data == [97, 10, 98, 10, 99, 10, 120, 121, 122]
    ensures Concat(ReadByTasks(data, 3, 3)) == [[97], [98], [99], [120, 121, 122], [120, 121, 122]]
  {
    SkippedOffsets(data);
    SkippedReads(data);
    assert Concat(ReadByTasks(data, 3, 0)) == [];
    ReadByTasksStep(data, 3, 1);
    assert Concat(ReadByTasks(data, 3, 1)) == [[97], [98]];
    ReadByTasksStep(data, 3, 2);
    assert Concat(ReadByTasks(data, 3, 2)) == [[97], [98], [99], [120, 121, 122]];
    ReadByTasksStep(data, 3, 3);
  }

  /** "abc" without a final newline, split into 4 blocks: the block size is
      0, every offset stays 0, and each of the four tasks reads the whole
      line. */
  lemma UnterminatedLineReadByEveryTask()
    ensures Concat(ReadByTasks([97, 98, 99], 4, 4)) == [[97, 98, 99], [97, 98, 99], [97, 98, 99], [97, 98, 99]]
  {
    var data: seq<byte> := [97, 98, 99];
    assert BlockSize(|data|, 4) == 0;
    assert FirstNewline(data, 0) == 3;
    assert BlockLines(data, 0, 0) == [data];
    assert Concat(ReadByTasks(data, 4, 0)) == [];
    ReadByTasksStep(data, 4, 1);
    ReadByTasksStep(data, 4, 2);
    ReadByTasksStep(data, 4, 3);
    ReadByTasksStep(data, 4, 4);
  }

  /** A record whose first byte is 201 has the signed value -55, and -55 % 2
      is -1 in C++: `at(-1)` throws and the run does not complete. */
  lemma HighByteAborts()
    ensures PartitionIndex([201], 2) == -1
    ensures !Routable([[[201]]], 2)
  {
    var one: seq<seq<Record>> := [[[201]]];
    assert one[..0] == [];
    assert Concat(one) == [[201]];
  }

  /** "Cat\ncat\ndog\n" with one map task and two partitions: partition 0
      ('d' is 100, and 100 % 2 = 0) reports nothing, and partition 1 reports
      "2 c" and "4 cat". */
  lemma RunCatDog(data: seq<byte>)
    requires data == [67, 97, 116, 10, 99, 97, 116, 10, 100, 111, 103, 10]
    ensures RunOutput(data, 1, 2) == [[], [[50, 32, 99], [52, 32, 99, 97, 116]]]
  {
    CatDogLines(data);
    var arrival := CatDogArrival();
    CatDogMap(data, arrival);
    CatDogShuffle(arrival, [99], [99, 97], [99, 97, 116], [100], [100, 111], [100, 111, 103]);
    CatDogParts(MapStageOutput(data, 1), arrival, [[100], [100, 111], [100, 111, 103]],
                [[99], [99], [99, 97], [99, 97], [99, 97, 116], [99, 97, 116]]);
    CatDogReduce(ShuffleOutput(MapStageOutput(data, 1), 2));
  }

  /** The records `MapFunctor` yields for the three lines, in line order. */
  lemma CatDogArrival() returns (arrival: seq<Record>)
    ensures arrival == [[99], [99, 97], [99, 97, 116], [99], [99, 97], [99, 97, 116], [100], [100, 111], [100, 111, 103]]
    ensures arrival == MapAll([[67, 97, 116], [99, 97, 116], [100, 111, 103]])
  {
    var cat: Record := [99, 97, 116];
    var dog: Record := [100, 111, 103];
    var lines: seq<Record> := [[67, 97, 116], cat, dog];
    MapCat();
    assert Lower(cat) == cat && Lower(dog) == dog;
    MapOutputThree(cat);
    MapOutputThree(dog);
    assert cat[..1] == [99] && cat[..2] == [99, 97];
    assert dog[..1] == [100] && dog[..2] == [100, 111];
    MapAllThree([67, 97, 116], cat, dog);
    arrival := MapAll(lines);
  }

  /** Three lines gather the records of the first, then the second, then the third. */
  lemma MapAllThree(a: Record, b: Record, c: Record)
    ensures MapAll([a, b, c]) == MapOutput(a) + MapOutput(b) + MapOutput(c)
  {
    var ab: seq<Record> := [a, b];
    var abc: seq<Record> := [a, b, c];
    var none: seq<Record> := [];
    assert abc[..2] == ab && ab[..1] == [a] && [a][..0] == none;
    assert MapAll([a]) == MapOutput(a);
    assert MapAll(ab) == MapOutput(a) + MapOutput(b);
    assert MapAll(abc) == MapAll(ab) + MapOutput(c);
  }

  /** The one map task reads the three lines and returns their records, sorted. */
  lemma CatDogMap(data: seq<byte>, arrival: seq<Record>)
    requires BlockStart(data, 1, 0) == 0 && BlockEnd(data, 1, 0) == 12
    requires BlockLines(data, 0, 12) == [[67, 97, 116], [99, 97, 116], [100, 111, 103]]
    requires arrival == MapAll([[67, 97, 116], [99, 97, 116], [100, 111, 103]])
    ensures MapStageOutput(data, 1) == [Sort(arrival)]
  {
    assert MapTaskOutput(data, 1, 0) == Sort(arrival);
  }

  /** The shuffle's two partitions, once each routed group is known sorted. */
  lemma CatDogParts(mapResults: seq<seq<Record>>, arrival: seq<Record>, p0: seq<Record>, p1: seq<Record>)
    requires mapResults == [Sort(arrival)]
    requires Sort(Routed(arrival, 2, 0)) == p0 && Sort(Routed(arrival, 2, 1)) == p1
    ensures |ShuffleOutput(mapResults, 2)| == 2
    ensures ShuffleOutput(mapResults, 2)[0] == p0 && ShuffleOutput(mapResults, 2)[1] == p1
  {
    OneTaskShuffle(arrival, 2);
  }

  /** Partition 0 has no two equal neighbours; partition 1 is the "c" one. */
  lemma CatDogReduce(parts: seq<seq<Record>>)
    requires |parts| == 2 && parts[0] == [[100], [100, 111], [100, 111, 103]]
    requires parts[1] == [[99], [99], [99, 97], [99, 97], [99, 97, 116], [99, 97, 116]]
    ensures ReduceOutput(parts) == [[], [[50, 32, 99], [52, 32, 99, 97, 116]]]
  {
    ReduceCatPartition();
    NoRepeatsNoReports(parts[0]);
    assert ReduceOutput(parts) == [Emitted(Fresh, parts[0]), Emitted(Fresh, parts[1])];
  }

  /** The one block is the whole file, and it holds three lines. */
  lemma CatDogLines(data: seq<byte>)
    requires data == [67, 97, 116, 10, 99, 97, 116, 10, 100, 111, 103, 10]
    ensures BlockStart(data, 1, 0) == 0 && BlockEnd(data, 1, 0) == 12
    ensures BlockLines(data, 0, 12) == [[67, 97, 116], [99, 97, 116], [100, 111, 103]]
  {
    assert FirstNewline(data, 11) == 11 && FirstNewline(data, 12) == 12;
    assert FirstNewline(data, 10) == 11 && FirstNewline(data, 9) == 11 && FirstNewline(data, 8) == 11;
    assert FirstNewline(data, 7) == 7 && FirstNewline(data, 6) == 7;
    assert FirstNewline(data, 5) == 7 && FirstNewline(data, 4) == 7;
    assert FirstNewline(data, 3) == 3 && FirstNewline(data, 2) == 3;
    assert FirstNewline(data, 1) == 3 && FirstNewline(data, 0) == 3;
    assert data[0..3] == [67, 97, 116] && data[4..7] == [99, 97, 116] && data[8..11] == [100, 111, 103];
    assert BlockLines(data, 12, 12) == [];
    assert BlockLines(data, 8, 12) == [[100, 111, 103]];
    assert BlockLines(data, 4, 12) == [[99, 97, 116], [100, 111, 103]];
  }

  /** The sorted partitions of the nine records "Cat\ncat\ndog\n" maps to. */
  lemma CatDogShuffle(arrival: seq<Record>,
                      c: Record, ca: Record, cat: Record, d: Record, do: Record, dog: Record)
    requires c == [99] && ca == [99, 97] && cat == [99, 97, 116]
    requires d == [100] && do == [100, 111] && dog == [100, 111, 103]
    requires arrival == [c, ca, cat, c, ca, cat, d, do, dog]
    ensures Sort(Routed(arrival, 2, 0)) == [d, do, dog]
    ensures Sort(Routed(arrival, 2, 1)) == [c, c, ca, ca, cat, cat]
  {
    RouteCatDog(arrival, c, ca, cat, d, do, dog);
    SortCs(c, ca, cat);
    SortDs(d, do, dog);
  }

  lemma RouteCatDog(arrival: seq<Record>, c: Record, ca: Record, cat: Record, d: Record, do: Record, dog: Record)
    requires c == [99] && ca == [99, 97] && cat == [99, 97, 116]
    requires d == [100] && do == [100, 111] && dog == [100, 111, 103]
    requires arrival == [c, ca, cat, c, ca, cat, d, do, dog]
    ensures Routed(arrival, 2, 0) == [d, do, dog]
    ensures Routed(arrival, 2, 1) == [c, ca, cat, c, ca, cat]
  {
    var cs := [c, ca, cat, c, ca, cat];
    var ds := [d, do, dog];
    assert arrival == cs + ds;
    assert PartitionIndex(c, 2) == 1 && PartitionIndex(ca, 2) == 1 && PartitionIndex(cat, 2) == 1;
    assert PartitionIndex(d, 2) == 0 && PartitionIndex(do, 2) == 0 && PartitionIndex(dog, 2) == 0;
    RoutedAppend(cs, ds, 2, 0);
    RoutedAppend(cs, ds, 2, 1);
    RoutedAllOrNone(cs, 2, 1);
    RoutedAllOrNone(cs, 2, 0);
    RoutedAllOrNone(ds, 2, 0);
    RoutedAllOrNone(ds, 2, 1);
  }

  lemma SortCs(c: Record, ca: Record, cat: Record)
    requires c == [99] && ca == [99, 97] && cat == [99, 97, 116]
    ensures Sort([c, ca, cat, c, ca, cat]) == [c, c, ca, ca, cat, cat]
  {
    LexLeReflexive(c);
    LexLeReflexive(ca);
    LexLeReflexive(cat);
    assert LexLe(c, ca) && LexLe(ca, cat) && LexLe(c, cat);
    assert Sorted([c, c, ca, ca, cat, cat]);
    SortCharacterised([c, ca, cat, c, ca, cat], [c, c, ca, ca, cat, cat]);
  }

  lemma SortDs(d: Record, do: Record, dog: Record)
    requires d == [100] && do == [100, 111] && dog == [100, 111, 103]
    ensures Sort([d, do, dog]) == [d, do, dog]
  {
    assert LexLe(d, do) && LexLe(do, dog) && LexLe(d, dog);
    SortCharacterised([d, do, dog], [d, do, dog]);
  }

  /** With one map task, the shuffle routes the task's records as they came
      from the functor, before the task's sort. */
  lemma OneTaskShuffle(arrival: seq<Record>, r: int)
    requires r >= 1
    ensures ShuffleOutput([Sort(arrival)], r) == seq(r, j requires 0 <= j < r => Sort(Routed(arrival, r, j)))
  {
    var mapResults := [Sort(arrival)];
    var none: seq<seq<Record>> := [];
    assert mapResults[..0] == none;
    assert Concat(mapResults) == Sort(arrival);
    ShuffleIgnoresArrivalOrder(mapResults, arrival, r);
  }

  lemma {:induction false} RoutedAppend(xs: seq<Record>, ys: seq<Record>, r: int, j: int)
    requires r >= 1
    ensures Routed(xs + ys, r, j) == Routed(xs, r, j) + Routed(ys, r, j)
    decreases |ys|
  {
    if ys == [] {
      assert xs + ys == xs;
    } else {
      var init := ys[..|ys| - 1];
      assert (xs + ys)[..|xs + ys| - 1] == xs + init;
      RoutedAppend(xs, init, r, j);
    }
  }

  /** A sequence whose records all go to one partition is routed whole to it
      and not at all to the others. */
  lemma {:induction false} RoutedAllOrNone(xs: seq<Record>, r: int, j: int)
    requires r >= 1 && xs != []
    requires forall k :: 0 <= k < |xs| ==> PartitionIndex(xs[k], r) == PartitionIndex(xs[0], r)
    ensures Routed(xs, r, j) == if PartitionIndex(xs[0], r) == j then xs else []
    decreases |xs|
  {
    var init, last := xs[..|xs| - 1], xs[|xs| - 1];
    if init != [] {
      assert init[0] == xs[0];
      RoutedAllOrNone(init, r, j);
    }
    assert xs == init + [last];
    RoutedSnoc(init, last, r, j);
  }
}
