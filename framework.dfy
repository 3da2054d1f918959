/** `TextFileMapReduceFramework<MapFunctor, ReduceFunctor>`: the map stage
    (one task per block), the shuffle into `R` partitions and the reduce stage
    (a fresh `ReduceFunctor` per partition). The tasks the engine runs with
    `std::async` are run one after another here; every stage ends by sorting,
    or is index-aligned, so the order the threads finished in does not show. */
module Framework {
  import opened Text
  import opened Order
  import opened Functors
  import opened Blocks

  // ------------------------------------------------------------------- map

  /** What map task `i` of `m` returns: the `MapFunctor` records of the lines
      of its block, gathered in line order, then sorted. */
  function MapTaskOutput(data: seq<byte>, m: nat, i: nat): seq<Record>
    requires m >= 1 && i < m
  {
    Sort(MapAll(BlockLines(data, BlockStart(data, m, i), BlockEnd(data, m, i))))
  }

  /** The body of map task `i`: computes and adjusts its offsets, reads the
      block's lines, and sorts what the functor returned for them. */
  method MapTask(data: seq<byte>, m: nat, i: nat) returns (results: seq<Record>)
    requires m >= 1 && i < m
    ensures Sorted(results)
    ensures multiset(results) == multiset(MapAll(BlockLines(data, BlockStart(data, m, i), BlockEnd(data, m, i))))
    ensures results == MapTaskOutput(data, m, i)
  {
    var blockSize := |data| / m;
    ProvisionalRanges(|data|, m, i);
    var offsetStart := if i == 0 then 0 else i * blockSize;
    var offsetEnd := if i == 0 then blockSize else i * blockSize + blockSize;
    offsetStart := MoveOffsetToEndOfLine(data, offsetStart);
    offsetEnd := MoveOffsetToEndOfLine(data, offsetEnd);
    assert offsetStart == BlockStart(data, m, i) && offsetEnd == BlockEnd(data, m, i);
    var gathered := ReadBlock(data, offsetStart, offsetEnd);
    results := Sort(gathered);
  }

  /** The read loop of a map task: from `offsetStart`, `getline` a line while
      `tellg() <= offsetEnd`, call the functor on it and append its records. */
  method ReadBlock(data: seq<byte>, offsetStart: nat, offsetEnd: nat) returns (gathered: seq<Record>)
    requires offsetStart <= |data|
    ensures gathered == MapAll(BlockLines(data, offsetStart, offsetEnd))
  {
    gathered := [];
    var pos := offsetStart;
    while pos < |data| && TellAfterLine(data, pos) <= offsetEnd
      invariant offsetStart <= pos <= |data|
      invariant MapAll(BlockLines(data, offsetStart, offsetEnd)) == gathered + MapAll(BlockLines(data, pos, offsetEnd))
      decreases |data| - pos
    {
      // getline: the line runs to the next newline or to the end of the file
      var q := FirstNewline(data, pos);
      var part := MapLine(data[pos..q]);
      var next := if q < |data| then q + 1 else |data|;
      MapAllFirstLine(data, pos, offsetEnd);
      ghost var rest := MapAll(BlockLines(data, next, offsetEnd));
      assert MapAll(BlockLines(data, pos, offsetEnd)) == part + rest;
      AppendAssociates(gathered, part, rest);
      gathered := gathered + part;
      pos := next;
    }
    if pos < |data| {
      ReadStops(data, pos, offsetEnd);
    } else {
      assert MapAll(BlockLines(data, pos, offsetEnd)) == [];
    }
    assert gathered + [] == gathered;
  }

  lemma AppendAssociates(a: seq<Record>, b: seq<Record>, c: seq<Record>)
    ensures a + (b + c) == (a + b) + c
  {
  }

  /** `getline` past the end offset ends the read: nothing more is gathered. */
  lemma ReadStops(data: seq<byte>, pos: nat, e: nat)
    requires pos < |data|
    requires var q := FirstNewline(data, pos); q < |data| && e < q + 1
    ensures MapAll(BlockLines(data, pos, e)) == []
  {
  }

  /** One step of the read loop: the first line read from `pos`, then the rest. */
  lemma MapAllFirstLine(data: seq<byte>, pos: nat, e: nat)
    requires pos < |data|
    requires var q := FirstNewline(data, pos); q == |data| || q + 1 <= e
    ensures var q := FirstNewline(data, pos);
      var next := if q < |data| then q + 1 else |data|;
      MapAll(BlockLines(data, pos, e)) == MapOutput(data[pos..q]) + MapAll(BlockLines(data, next, e))
  {
    if FirstNewline(data, pos) == |data| {
      MapAllLastLine(data, pos, e);
    } else {
      var q := FirstNewline(data, pos);
      BlockLinesStep(data, pos, e);
      MapAllCons(data[pos..q], BlockLines(data, q + 1, e));
    }
  }

  /** A line that runs to the end of the file is the last one read. */
  lemma MapAllLastLine(data: seq<byte>, pos: nat, e: nat)
    requires pos < |data| && FirstNewline(data, pos) == |data|
    ensures MapAll(BlockLines(data, pos, e)) == MapOutput(data[pos..|data|]) + MapAll(BlockLines(data, |data|, e))
  {
    var none: seq<Record> := [];
    var line := data[pos..|data|];
    BlockLinesLast(data, pos, e);
    assert data[pos..] == line;
    assert [line] == [line] + none;
    assert BlockLines(data, |data|, e) == none;
    MapAllCons(line, none);
  }

  /** The results of map tasks `0 .. k-1`, in task order. */
  function MapResults(data: seq<byte>, m: nat, k: nat): (mapResults: seq<seq<Record>>)
    requires m >= 1 && k <= m
    ensures |mapResults| == k
    decreases k
  {
    if k == 0 then [] else MapResults(data, m, k - 1) + [MapTaskOutput(data, m, k - 1)]
  }

  /** The map results, index-aligned with the blocks. */
  function MapStageOutput(data: seq<byte>, m: nat): (mapResults: seq<seq<Record>>)
    requires m >= 1
    ensures |mapResults| == m
  {
    MapResults(data, m, m)
  }

  /** The map stage: task `i` reads block `i`, and its result is stored at
      index `i`. */
  method MapStage(data: seq<byte>, m: nat) returns (mapResults: seq<seq<Record>>)
    requires m >= 1
    ensures |mapResults| == m
    ensures mapResults == MapStageOutput(data, m)
  {
    mapResults := [];
    for i := 0 to m
      invariant mapResults == MapResults(data, m, i)
    {
      var results := MapTask(data, m, i);
      mapResults := mapResults + [results];
    }
  }

  /** Completeness of the map stage: together the map tasks hold exactly the
      `MapFunctor` records of the lines before the last block's end, each line
      expanded once; when that end is the end of the file, of every line. */
  lemma MapStageComplete(data: seq<byte>, m: nat)
    requires EndsWithNewline(data) && m >= 1
    ensures multiset(Concat(MapStageOutput(data, m))) ==
      multiset(MapAll(BlockLines(data, 0, BlockEnd(data, m, m - 1))))
    ensures BlockEnd(data, m, m - 1) == |data| ==>
      multiset(Concat(MapStageOutput(data, m))) == multiset(MapAll(Lines(data)))
  {
    BlocksReadEachLineOnce(data, m);
    MapOverTasks(data, m, m);
  }

  /** Appending the same records to the same records gives the same records. */
  lemma SameRecordsAppended(a: seq<Record>, t: seq<Record>, b: seq<Record>, u: seq<Record>)
    requires multiset(a) == multiset(b) && multiset(t) == multiset(u)
    ensures multiset(a + t) == multiset(b + u)
  {
  }

  /** Task `k - 1`'s sorted records follow those of the tasks before it. */
  lemma MapResultsStep(data: seq<byte>, m: nat, k: nat)
    requires m >= 1 && 1 <= k <= m
    ensures Concat(MapResults(data, m, k)) ==
      Concat(MapResults(data, m, k - 1)) + MapTaskOutput(data, m, k - 1)
  {
    assert MapResults(data, m, k)[..k - 1] == MapResults(data, m, k - 1);
  }

  /** The first `k` map results hold the records of the lines the first `k`
      tasks read. */
  lemma {:induction false} MapOverTasks(data: seq<byte>, m: nat, k: nat)
    requires m >= 1 && k <= m
    ensures multiset(Concat(MapResults(data, m, k))) == multiset(MapAll(Concat(ReadByTasks(data, m, k))))
    decreases k
  {
    if k != 0 {
      MapOverTasks(data, m, k - 1);
      MapOverTasksStep(data, m, k);
    }
  }

  /** Task `k - 1` adds the records of its own lines to both sides. */
  lemma MapOverTasksStep(data: seq<byte>, m: nat, k: nat)
    requires m >= 1 && 1 <= k <= m
    requires multiset(Concat(MapResults(data, m, k - 1))) == multiset(MapAll(Concat(ReadByTasks(data, m, k - 1))))
    ensures multiset(Concat(MapResults(data, m, k))) == multiset(MapAll(Concat(ReadByTasks(data, m, k))))
  {
    var lines := BlockLines(data, BlockStart(data, m, k - 1), BlockEnd(data, m, k - 1));
    var earlierLines := Concat(ReadByTasks(data, m, k - 1));
    MapResultsStep(data, m, k);
    ReadByTasksStep(data, m, k);
    MapAllAppend(earlierLines, lines);
    SameRecordsAppended(Concat(MapResults(data, m, k - 1)), MapTaskOutput(data, m, k - 1), MapAll(earlierLines), MapAll(lines));
  }

  // --------------------------------------------------------------- shuffle

  /** A `char` holding byte `b`: signed, so bytes from 128 up are negative. */
  function SignedChar(b: byte): (c: int)
    ensures -128 <= c < 128 && (c - b) % 256 == 0
    ensures c < 0 <==> b >= 128
  {
    if b < 128 then b else b - 256
  }

  /** C++ `%` on `int`: the remainder takes the sign of the dividend and
      differs from it by a multiple of the divisor. */
  function TruncatedRem(a: int, r: int): (z: int)
    requires r >= 1
    ensures a >= 0 ==> 0 <= z < r
    ensures a < 0 ==> -r < z <= 0
    ensures (a - z) % r == 0
  {
    RemCongruent(a, r);
    if a >= 0 then a % r else -((-a) % r)
  }

  /** Both branches of `TruncatedRem` leave a multiple of `r` behind. */
  lemma RemCongruent(a: int, r: int)
    requires r >= 1
    ensures a >= 0 ==> (a - a % r) % r == 0
    ensures a < 0 ==> (a + (-a) % r) % r == 0
  {
    if a >= 0 {
      var q := a / r;
      assert a - a % r == q * r;
      MultipleRem(q, r);
    } else {
      var q := (-a) / r;
      assert -a == q * r + (-a) % r;
      assert a + (-a) % r == (-q) * r;
      MultipleRem(-q, r);
    }
  }

  /** A multiple of `r` leaves remainder 0. */
  lemma MultipleRem(k: int, r: int)
    requires r >= 1
    ensures (k * r) % r == 0
  {
    var q, m := (k * r) / r, (k * r) % r;
    assert k * r == q * r + m && 0 <= m < r;
    assert m == (k - q) * r;
    ProductSign(k - q, r);
  }

  /** A non-zero multiple of `r` is at least `r` away from 0. */
  lemma ProductSign(d: int, r: int)
    requires r >= 1
    ensures d >= 1 ==> d * r >= r
    ensures d <= -1 ==> d * r <= -r
    ensures d == 0 ==> d * r == 0
  {
    if d >= 1 {
      assert d * r == r + (d - 1) * r;
    } else if d <= -1 {
      assert d * r == -((-d) * r);
      assert (-d) * r == r + (-d - 1) * r;
    }
  }

  /** `value[0] % m_rnum`. An empty record yields its terminating '\0' and so
      index 0. */
  function PartitionIndex(v: Record, r: int): (idx: int)
    requires r >= 1
    ensures -r < idx < r
    ensures v != [] && v[0] < 128 ==> idx == v[0] % r
    ensures v == [] ==> idx == 0
    ensures v != [] ==> (SignedChar(v[0]) - idx) % r == 0
    ensures v != [] && v[0] >= 128 ==> idx <= 0
  {
    TruncatedRem(SignedChar(if v == [] then 0 else v[0]), r)
  }

  /** The records of `xs` routed to partition `j`, in the order they arrive. */
  function Routed(xs: seq<Record>, r: int, j: int): seq<Record>
    requires r >= 1
    decreases |xs|
  {
    if xs == [] then []
    else
      var v := xs[|xs| - 1];
      Routed(xs[..|xs| - 1], r, j) + if PartitionIndex(v, r) == j then [v] else []
  }

  /** Each record goes to its own partition and to no other, as many times as
      it occurs. */
  lemma {:induction false} RoutedCounts(xs: seq<Record>, r: int, j: int, v: Record)
    requires r >= 1
    ensures multiset(Routed(xs, r, j))[v] ==
      if PartitionIndex(v, r) == j then multiset(xs)[v] else 0
    decreases |xs|
  {
    if xs != [] {
      var init := xs[..|xs| - 1];
      RoutedCounts(init, r, j, v);
      assert xs == init + [xs[|xs| - 1]];
    }
  }

  /** Every record of partition `j` belongs there. */
  lemma RoutedBelongs(xs: seq<Record>, r: int, j: int)
    requires r >= 1
    ensures forall v :: v in Routed(xs, r, j) ==> PartitionIndex(v, r) == j && v in xs
  {
    forall v | v in Routed(xs, r, j) ensures PartitionIndex(v, r) == j && v in xs {
      RoutedCounts(xs, r, j, v);
      assert multiset(Routed(xs, r, j))[v] > 0;
    }
  }

  /** The `r` partitions, in partition order. */
  function RouteAll(xs: seq<Record>, r: int): (parts: seq<seq<Record>>)
    requires r >= 1
    ensures |parts| == r
  {
    seq(r, j requires 0 <= j < r => Routed(xs, r, j))
  }

  /** No record of `xs` has a negative partition index. */
  predicate AllRoutable(xs: seq<Record>, r: int)
    requires r >= 1
  {
    forall v :: v in xs ==> PartitionIndex(v, r) >= 0
  }

  lemma RoutedSnoc(xs: seq<Record>, v: Record, r: int, j: int)
    requires r >= 1
    ensures Routed(xs + [v], r, j) == Routed(xs, r, j) + if PartitionIndex(v, r) == j then [v] else []
  {
    assert (xs + [v])[..|xs|] == xs;
  }

  /** When no index is negative, the partitions together hold exactly the
      routed records: nothing is lost or duplicated. */
  lemma {:induction false} RouteAllKeepsRecords(xs: seq<Record>, r: int)
    requires r >= 1 && AllRoutable(xs, r)
    ensures multiset(Concat(RouteAll(xs, r))) == multiset(xs)
    ensures |Concat(RouteAll(xs, r))| == |xs|
    decreases |xs|
  {
    if xs == [] {
      assert RouteAll(xs, r) == seq(r, _ => []);
      ConcatOfEmpties(r);
    } else {
      var init := xs[..|xs| - 1];
      var v := xs[|xs| - 1];
      assert xs == init + [v];
      RouteAllKeepsRecords(init, r);
      RouteAllSnoc(init, v, r);
      ConcatMultisetUpdate(RouteAll(init, r), PartitionIndex(v, r), v);
      assert |Concat(RouteAll(xs, r))| == |multiset(Concat(RouteAll(xs, r)))|;
    }
  }

  lemma RouteAllSnoc(xs: seq<Record>, v: Record, r: int)
    requires r >= 1 && PartitionIndex(v, r) >= 0
    ensures var before := RouteAll(xs, r);
      RouteAll(xs + [v], r) == before[PartitionIndex(v, r) := before[PartitionIndex(v, r)] + [v]]
  {
    var before := RouteAll(xs, r);
    var idx := PartitionIndex(v, r);
    var after := before[idx := before[idx] + [v]];
    forall j | 0 <= j < r ensures RouteAll(xs + [v], r)[j] == after[j] {
      RoutedSnoc(xs, v, r, j);
    }
  }

  lemma {:induction false} ConcatOfEmpties(r: nat)
    ensures Concat(seq(r, _ => [])) == []
    decreases r
  {
    if r != 0 {
      var empties: seq<seq<Record>> := seq(r, _ => []);
      assert empties[..r - 1] == seq(r - 1, _ => []);
      ConcatOfEmpties(r - 1);
    }
  }

  /** What the shuffle leaves in partition `j`: its routed records, sorted. */
  function ShuffleOutput(mapResults: seq<seq<Record>>, r: int): (parts: seq<seq<Record>>)
    requires r >= 1
    ensures |parts| == r
  {
    seq(r, j requires 0 <= j < r => Sort(Routed(Concat(mapResults), r, j)))
  }

  /** Whether `at(index)` accepts every record's index; a negative one throws
      `std::out_of_range`, which ends the run. */
  predicate Routable(mapResults: seq<seq<Record>>, r: int)
    requires r >= 1
  {
    AllRoutable(Concat(mapResults), r)
  }

  /** The shuffle: pushes every record onto `shuffleResults[value[0] % R]`,
      then sorts each partition. `ok` is false when some index was negative,
      where the engine aborts. */
  method Shuffle(mapResults: seq<seq<Record>>, r: int) returns (partitions: seq<seq<Record>>, ok: bool)
    requires r >= 1
    ensures ok <==> Routable(mapResults, r)
    ensures ok ==> partitions == ShuffleOutput(mapResults, r)
  {
    var shuffleResults := new seq<Record>[r](_ => []);
    partitions := [];
    ok := true;
    var a := 0;
    while a < |mapResults|
      invariant 0 <= a <= |mapResults|
      invariant forall j :: 0 <= j < r ==> shuffleResults[j] == Routed(Concat(mapResults[..a]), r, j)
      invariant AllRoutable(Concat(mapResults[..a]), r)
    {
      ghost var done := Concat(mapResults[..a]);
      ConcatSnoc(mapResults, a);
      ok := PushAll(mapResults[a], shuffleResults, r, done);
      if !ok {
        ConcatHolds(mapResults, a);
        return;
      }
      a := a + 1;
    }
    assert mapResults[..a] == mapResults;
    SortEach(shuffleResults);
    partitions := shuffleResults[..];
  }

  lemma ConcatSnoc(ss: seq<seq<Record>>, a: nat)
    requires a < |ss|
    ensures Concat(ss[..a + 1]) == Concat(ss[..a]) + ss[a]
  {
    assert ss[..a + 1][..a] == ss[..a];
  }

  /** The second half of the shuffle: sorts every partition in place. */
  method SortEach(shuffleResults: array<seq<Record>>)
    modifies shuffleResults
    ensures forall k :: 0 <= k < shuffleResults.Length ==> shuffleResults[k] == Sort(old(shuffleResults[k]))
  {
    ghost var unsorted := shuffleResults[..];
    var j := 0;
    while j < shuffleResults.Length
      invariant 0 <= j <= shuffleResults.Length == |unsorted|
      invariant forall k :: 0 <= k < j ==> shuffleResults[k] == Sort(unsorted[k])
      invariant forall k :: j <= k < shuffleResults.Length ==> shuffleResults[k] == unsorted[k]
    {
      var sorted := Sort(shuffleResults[j]);
      shuffleResults[j] := sorted;
      j := j + 1;
    }
  }

  /** One shuffle task: routes the records of one map result in order. It
      stops, returning false, at the first record whose index `at()` rejects. */
  method PushAll(values: seq<Record>, shuffleResults: array<seq<Record>>, r: int, ghost done: seq<Record>)
    returns (ok: bool)
    requires r >= 1 && shuffleResults.Length == r
    requires forall j :: 0 <= j < r ==> shuffleResults[j] == Routed(done, r, j)
    modifies shuffleResults
    ensures ok <==> AllRoutable(values, r)
    ensures ok ==> forall j :: 0 <= j < r ==> shuffleResults[j] == Routed(done + values, r, j)
  {
    assert done + values[..0] == done;
    for b := 0 to |values|
      invariant forall j :: 0 <= j < r ==> shuffleResults[j] == Routed(done + values[..b], r, j)
      invariant AllRoutable(values[..b], r)
    {
      var value := values[b];
      var index := PartitionIndex(value, r);
      if index < 0 {
        // shuffleMutexes.at(index) throws
        return false;
      }
      assert values[..b + 1] == values[..b] + [value];
      assert done + values[..b + 1] == (done + values[..b]) + [value];
      forall j | 0 <= j < r {
        RoutedSnoc(done + values[..b], value, r, j);
      }
      shuffleResults[index] := shuffleResults[index] + [value];
    }
    assert values[..|values|] == values;
    return true;
  }

  /** Every record of map result `a` is among all the records. */
  lemma ConcatHolds(ss: seq<seq<Record>>, a: nat)
    requires a < |ss|
    ensures forall v :: v in ss[a] ==> v in Concat(ss)
  {
    assert ss == ss[..a] + [ss[a]] + ss[a + 1..];
    ConcatAppend(ss[..a] + [ss[a]], ss[a + 1..]);
    var one: seq<seq<Record>> := [ss[a]];
    ConcatAppend(ss[..a], one);
    assert one[..0] == [];
  }

  /** The shuffle's guarantees: `R` partitions, each sorted; every record in
      partition `value[0] % R` and in no other; nothing lost or added. */
  lemma ShuffleSpec(mapResults: seq<seq<Record>>, r: int)
    requires r >= 1 && Routable(mapResults, r)
    ensures var parts := ShuffleOutput(mapResults, r);
      && |parts| == r
      && (forall j :: 0 <= j < r ==> Sorted(parts[j]))
      && (forall j, v :: 0 <= j < r && v in parts[j] ==> PartitionIndex(v, r) == j)
      && (forall j, v :: 0 <= j < r ==>
            multiset(parts[j])[v] == (if PartitionIndex(v, r) == j then multiset(Concat(mapResults))[v] else 0))
      && multiset(Concat(parts)) == multiset(Concat(mapResults))
  {
    var xs := Concat(mapResults);
    var parts := ShuffleOutput(mapResults, r);
    forall j, v | 0 <= j < r
      ensures multiset(parts[j])[v] == if PartitionIndex(v, r) == j then multiset(xs)[v] else 0
    {
      RoutedCounts(xs, r, j, v);
    }
    forall j, v | 0 <= j < r && v in parts[j] ensures PartitionIndex(v, r) == j {
      RoutedCounts(xs, r, j, v);
      assert multiset(parts[j])[v] > 0;
    }
    RouteAllKeepsRecords(xs, r);
    SortEachKeepsRecords(RouteAll(xs, r));
    assert parts == seq(r, j requires 0 <= j < r => Sort(RouteAll(xs, r)[j]));
  }

  lemma {:induction false} SortEachKeepsRecords(ss: seq<seq<Record>>)
    ensures multiset(Concat(seq(|ss|, j requires 0 <= j < |ss| => Sort(ss[j])))) == multiset(Concat(ss))
    decreases |ss|
  {
    var sorted := seq(|ss|, j requires 0 <= j < |ss| => Sort(ss[j]));
    if ss != [] {
      var n := |ss| - 1;
      assert sorted[..n] == seq(n, j requires 0 <= j < n => Sort(ss[..n][j]));
      SortEachKeepsRecords(ss[..n]);
    }
  }

  /** The threads may push records in any interleaving: every arrival order
      that is a rearrangement of the map results yields the same partitions. */
  lemma ShuffleIgnoresArrivalOrder(mapResults: seq<seq<Record>>, arrival: seq<Record>, r: int)
    requires r >= 1 && multiset(arrival) == multiset(Concat(mapResults))
    ensures seq(r, j requires 0 <= j < r => Sort(Routed(arrival, r, j))) == ShuffleOutput(mapResults, r)
  {
    var xs := Concat(mapResults);
    forall j | 0 <= j < r ensures Sort(Routed(arrival, r, j)) == Sort(Routed(xs, r, j)) {
      forall v ensures multiset(Routed(arrival, r, j))[v] == multiset(Routed(xs, r, j))[v] {
        RoutedCounts(arrival, r, j, v);
        RoutedCounts(xs, r, j, v);
      }
      assert multiset(Routed(arrival, r, j)) == multiset(Routed(xs, r, j));
      SortDependsOnlyOnMultiset(Routed(arrival, r, j), Routed(xs, r, j));
    }
  }

  /** A record gets a non-negative index exactly when it is empty, starts
      with an ASCII byte, or starts with a negative `char` that `R` divides. */
  lemma RoutableIndex(v: Record, r: int)
    requires r >= 1
    ensures PartitionIndex(v, r) >= 0 <==> v == [] || v[0] < 128 || SignedChar(v[0]) % r == 0
  {
    if v != [] && v[0] >= 128 {
      var a, z := SignedChar(v[0]), PartitionIndex(v, r);
      assert a == (a / r) * r + a % r;
      assert a - z == ((a - z) / r) * r + (a - z) % r;
      assert z == (a / r - (a - z) / r) * r + a % r;
      ProductSign(a / r - (a - z) / r, r);
    }
  }

  /** The map results can be shuffled exactly when every record is empty,
      starts with an ASCII byte, or starts with a negative `char` that `R`
      divides. */
  lemma RoutableExactly(mapResults: seq<seq<Record>>, r: int)
    requires r >= 1
    ensures Routable(mapResults, r) <==>
      forall v :: v in Concat(mapResults) ==> v == [] || v[0] < 128 || SignedChar(v[0]) % r == 0
  {
    forall v | v in Concat(mapResults) {
      RoutableIndex(v, r);
    }
  }

  /** Records whose first byte is ASCII are always routable, to `v[0] % R`. */
  lemma AsciiRecordsAreRoutable(mapResults: seq<seq<Record>>, r: int)
    requires r >= 1
    requires forall v :: v in Concat(mapResults) ==> v == [] || v[0] < 128
    ensures Routable(mapResults, r)
  {
  }

  // ---------------------------------------------------------------- reduce

  /** What the reduce stage returns: for each partition, everything a fresh
      `ReduceFunctor` emits over it, in order. */
  function ReduceOutput(partitions: seq<seq<Record>>): (results: seq<seq<Record>>)
    ensures |results| == |partitions|
  {
    seq(|partitions|, j requires 0 <= j < |partitions| => Emitted(Fresh, partitions[j]))
  }

  /** The reduce stage: one fresh functor per partition, fed the partition's
      records in order, its outputs appended; results index-aligned. */
  method ReduceStage(partitions: seq<seq<Record>>) returns (reduceResults: seq<seq<Record>>)
    ensures |reduceResults| == |partitions|
    ensures forall j :: 0 <= j < |partitions| ==> reduceResults[j] == Emitted(Fresh, partitions[j])
  {
    reduceResults := [];
    for j := 0 to |partitions|
      invariant |reduceResults| == j
      invariant forall k :: 0 <= k < j ==> reduceResults[k] == Emitted(Fresh, partitions[k])
    {
      var values := partitions[j];
      var functor := new ReduceFunctor();
      var results: seq<Record> := [];
      for k := 0 to |values|
        invariant functor.State() == After(Fresh, values[..k])
        invariant results == Emitted(Fresh, values[..k])
      {
        assert values[..k + 1][..k] == values[..k];
        var partResults := functor.Apply(values[k]);
        results := results + partResults;
      }
      assert values[..|values|] == values;
      reduceResults := reduceResults + [results];
    }
  }

  // ------------------------------------------------------------------- run

  /** What a run writes to `reduce_<j>.txt`, for every `j < R`. */
  function RunOutput(data: seq<byte>, m: nat, r: int): seq<seq<Record>>
    requires m >= 1 && r >= 1
  {
    ReduceOutput(ShuffleOutput(MapStageOutput(data, m), r))
  }

  /** What the output files hold: every line of `reduce_<j>.txt` is
      `to_string(|x| + 1) + " " + x` for a record `x` that the map stage
      produced at least twice and that was routed to partition `j`; within a
      file the leading numbers strictly increase, so no line repeats. */
  lemma RunOutputReportsRepeats(data: seq<byte>, m: nat, r: int)
    requires m >= 1 && r >= 1 && Routable(MapStageOutput(data, m), r)
    ensures |RunOutput(data, m, r)| == r
    ensures forall j, v :: 0 <= j < r && v in RunOutput(data, m, r)[j] ==>
      exists x :: v == Report(|x| + 1, x) && PartitionIndex(x, r) == j &&
        multiset(Concat(MapStageOutput(data, m)))[x] >= 2
    ensures forall j, a, b :: 0 <= j < r && 0 <= a < b < |RunOutput(data, m, r)[j]| ==>
      LeadingNumber(RunOutput(data, m, r)[j][a]) < LeadingNumber(RunOutput(data, m, r)[j][b])
  {
    var mapResults := MapStageOutput(data, m);
    var xs := Concat(mapResults);
    var parts := ShuffleOutput(mapResults, r);
    var out := RunOutput(data, m, r);
    ShuffleSpec(mapResults, r);
    forall j | 0 <= j < r
      ensures forall v :: v in out[j] ==>
        exists x :: v == Report(|x| + 1, x) && PartitionIndex(x, r) == j && multiset(xs)[x] >= 2
      ensures forall a, b :: 0 <= a < b < |out[j]| ==> LeadingNumber(out[j][a]) < LeadingNumber(out[j][b])
    {
      PartitionReportsRepeats(parts[j], xs, r, j);
    }
  }

  /** The reduce output of one shuffled partition reports only records routed
      to it that occur at least twice in `xs`, with increasing numbers. */
  lemma PartitionReportsRepeats(part: seq<Record>, xs: seq<Record>, r: int, j: int)
    requires r >= 1
    requires forall v :: multiset(part)[v] == if PartitionIndex(v, r) == j then multiset(xs)[v] else 0
    ensures forall v :: v in Emitted(Fresh, part) ==>
      exists x :: v == Report(|x| + 1, x) && PartitionIndex(x, r) == j && multiset(xs)[x] >= 2
    ensures forall a, b :: 0 <= a < b < |Emitted(Fresh, part)| ==>
      LeadingNumber(Emitted(Fresh, part)[a]) < LeadingNumber(Emitted(Fresh, part)[b])
  {
    ReportsAreRepeats(part);
    ThresholdsIncrease(Fresh, part);
    forall v | v in Emitted(Fresh, part)
      ensures exists x :: v == Report(|x| + 1, x) && PartitionIndex(x, r) == j && multiset(xs)[x] >= 2
    {
      var i :| 1 <= i < |part| && part[i - 1] == part[i] && v == Report(|part[i]| + 1, part[i]);
      AdjacentTwice(part, i);
    }
  }

  /** Two equal neighbours put a record in the multiset twice. */
  lemma AdjacentTwice(xs: seq<Record>, i: nat)
    requires 1 <= i < |xs| && xs[i - 1] == xs[i]
    ensures multiset(xs)[xs[i]] >= 2
  {
    assert xs == xs[..i - 1] + [xs[i - 1], xs[i]] + xs[i + 1..];
  }

  /** `run()` after the size probe: map, shuffle, reduce. `ok` is false when
      the shuffle meets an index `at()` rejects. */
  method Run(data: seq<byte>, m: nat, r: int) returns (reduceResults: seq<seq<Record>>, ok: bool)
    requires m >= 1 && r >= 1
    ensures ok <==> Routable(MapStageOutput(data, m), r)
    ensures ok ==> reduceResults == RunOutput(data, m, r) && |reduceResults| == r
  {
    var mapResults := MapStage(data, m);
    var shuffleResults;
    shuffleResults, ok := Shuffle(mapResults, r);
    reduceResults := [];
    if ok {
      reduceResults := ReduceStage(shuffleResults);
    }
  }
}
