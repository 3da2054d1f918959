/** The two user functors the engine is instantiated with: `MapFunctor`
    (prefix expansion of a lowered line) and `ReduceFunctor` (the stateful
    duplicate detector fed one sorted partition). */
module Functors {
  import opened Text

  // ---------------------------------------------------------------- MapFunctor

  /** Every prefix of `s`, shortest first: the list `MapFunctor` builds by
      appending, at each byte, the previous entry extended by that byte. */
  function Prefixes(s: seq<byte>): (r: seq<Record>)
    ensures |r| == |s|
    decreases |s|
  {
    if |s| == 0 then [] else Prefixes(s[..|s| - 1]) + [s]
  }

  /** Entry `k` of `Prefixes(s)` is the prefix of length `k + 1`. */
  lemma {:induction false} PrefixesSpec(s: seq<byte>)
    ensures forall k :: 0 <= k < |s| ==> Prefixes(s)[k] == s[..k + 1]
    decreases |s|
  {
    if |s| != 0 {
      var init := s[..|s| - 1];
      PrefixesSpec(init);
      forall k | 0 <= k < |s| ensures Prefixes(s)[k] == s[..k + 1] {
        if k < |init| {
          assert init[..k + 1] == s[..k + 1];
        }
      }
    }
  }

  /** What `MapFunctor` returns for one line. */
  function MapOutput(line: Record): seq<Record>
  {
    Prefixes(Lower(line))
  }

  /** `MapFunctor::operator()`: lowers the line in place, then walks it byte by
      byte, pushing the last entry (or the empty string) plus the current byte. */
  method MapLine(line: Record) returns (list: seq<Record>)
    ensures list == MapOutput(line)
  {
    var lowered := Lower(line);
    list := [];
    var i := 0;
    while i < |lowered|
      invariant 0 <= i <= |lowered|
      invariant |list| == i
      invariant forall k :: 0 <= k < i ==> list[k] == lowered[..k + 1]
    {
      var last := if |list| != 0 then list[|list| - 1] else [];
      assert last == lowered[..i];
      list := list + [last + [lowered[i]]];
      assert lowered[..i] + [lowered[i]] == lowered[..i + 1];
      i := i + 1;
    }
    PrefixesSpec(lowered);
  }

  /** The shape of a `MapFunctor` result: one record per byte of the line,
      none for an empty line; every record is non-empty, lower-case, starts
      with the lowered first byte, and is a proper prefix of the next one. */
  lemma MapOutputShape(line: Record)
    ensures |MapOutput(line)| == |line|
    ensures line == [] ==> MapOutput(line) == []
    ensures forall k :: 0 <= k < |line| ==> |MapOutput(line)[k]| == k + 1
    ensures forall k :: 0 <= k < |line| ==> MapOutput(line)[k][0] == LowerByte(line[0])
    ensures forall k, i :: 0 <= k < |line| && 0 <= i <= k ==> !IsUpper(MapOutput(line)[k][i])
    ensures forall k :: 0 <= k < |line| - 1 ==> MapOutput(line)[k] == MapOutput(line)[k + 1][..k + 1]
  {
    var r := MapOutput(line);
    LowerSpec(line);
    PrefixesSpec(Lower(line));
    forall k | 0 <= k < |line| - 1 ensures r[k] == r[k + 1][..k + 1] {
      assert r[k + 1][..k + 1] == Lower(line)[..k + 2][..k + 1];
    }
  }

  /** The records `MapFunctor` yields over a list of lines, concatenated in
      line order (what a map task gathers before it sorts). */
  function MapAll(lines: seq<Record>): (r: seq<Record>)
    decreases |lines|
  {
    if lines == [] then [] else MapAll(lines[..|lines| - 1]) + MapOutput(lines[|lines| - 1])
  }

  lemma {:induction false} MapAllAppend(a: seq<Record>, b: seq<Record>)
    ensures MapAll(a + b) == MapAll(a) + MapAll(b)
    decreases |b|
  {
    if b == [] {
      assert a + b == a;
    } else {
      var b', last := b[..|b| - 1], b[|b| - 1];
      assert (a + b)[..|a + b| - 1] == a + b';
      assert (a + b)[|a + b| - 1] == last;
      calc {
        MapAll(a + b);
        MapAll(a + b') + MapOutput(last);
        { MapAllAppend(a, b'); }
        MapAll(a) + MapAll(b') + MapOutput(last);
        MapAll(a) + (MapAll(b') + MapOutput(last));
        MapAll(a) + MapAll(b);
      }
    }
  }

  /** One line followed by more: its records come first, then theirs. */
  lemma MapAllCons(line: Record, rest: seq<Record>)
    ensures MapAll([line] + rest) == MapOutput(line) + MapAll(rest)
  {
    MapAllAppend([line], rest);
    var one: seq<Record> := [line];
    var none: seq<Record> := [];
    assert one[..0] == none;
  }

  /** Every gathered record is non-empty. */
  lemma {:induction false} MapAllNonEmpty(lines: seq<Record>)
    ensures forall v :: v in MapAll(lines) ==> |v| != 0
    decreases |lines|
  {
    if lines != [] {
      MapAllNonEmpty(lines[..|lines| - 1]);
      MapOutputShape(lines[|lines| - 1]);
    }
  }

  // ------------------------------------------------------------ ReduceFunctor

  /** The two fields of a `ReduceFunctor`: the previous record and the threshold. */
  datatype ReduceState = ReduceState(prevLine: Record, length: nat)

  /** A freshly constructed functor: threshold 0, empty previous record. */
  const Fresh := ReduceState([], 0)

  /** The record emitted for threshold `n` and line `line`; with `_DEBUG`
      defined it is `to_string(n) + " " + line`. */
  function Report(n: nat, line: Record): Record
  {
    Decimal(n) + [Space] + line
  }

  /** Whether a call with `line` on state `st` reports. */
  predicate Reports(st: ReduceState, line: Record)
  {
    st.prevLine == line && |line| > st.length
  }

  /** The records one call returns. */
  function Emit(st: ReduceState, line: Record): seq<Record>
  {
    if Reports(st, line) then [Report(|line| + 1, line)] else []
  }

  /** The fields after one call. */
  function Next(st: ReduceState, line: Record): ReduceState
  {
    ReduceState(line, if Reports(st, line) then |line| + 1 else st.length)
  }

  /** The state after feeding `xs` in order. */
  function After(st: ReduceState, xs: seq<Record>): ReduceState
    decreases |xs|
  {
    if xs == [] then st else Next(After(st, xs[..|xs| - 1]), xs[|xs| - 1])
  }

  /** All records returned while feeding `xs` in order, concatenated. */
  function Emitted(st: ReduceState, xs: seq<Record>): seq<Record>
    decreases |xs|
  {
    if xs == [] then []
    else
      var init := xs[..|xs| - 1];
      Emitted(st, init) + Emit(After(st, init), xs[|xs| - 1])
  }

  /** Feeding one more record: the fold advances by one call. */
  lemma FeedOne(st: ReduceState, xs: seq<Record>, x: Record)
    ensures After(st, xs + [x]) == Next(After(st, xs), x)
    ensures Emitted(st, xs + [x]) == Emitted(st, xs) + Emit(After(st, xs), x)
  {
    assert (xs + [x])[..|xs|] == xs;
  }

  /** `ReduceFunctor`, whose call operator updates `m_prevLine` and `m_length`. */
  class ReduceFunctor {
    var prevLine: Record
    var length: nat

    function State(): ReduceState
      reads this
    {
      ReduceState(prevLine, length)
    }

    constructor ()
      ensures State() == Fresh
    {
      prevLine := [];
      length := 0;
    }

    /** `operator()`: reports at most once, and only for a repeat of the
        previous record longer than the threshold. */
    method Apply(line: Record) returns (list: seq<Record>)
      modifies this
      ensures State() == Next(old(State()), line) && list == Emit(old(State()), line)
      ensures prevLine == line && length >= old(length) && |list| <= 1
      ensures list != [] <==> old(prevLine) == line && |line| > old(length)
      ensures list != [] ==> length == |line| + 1 && list == [Report(length, line)]
      ensures list == [] ==> length == old(length)
    {
      list := [];
      if prevLine == line {
        if |line| > length {
          length := |line| + 1;
          list := list + [Report(length, line)];
        }
      }
      prevLine := line;
    }
  }

  /** Fed a run of `k` copies of `x` that does not continue the previous
      record, the functor reports at most once: on the run's second element,
      and only if `x` is longer than the threshold. */
  lemma {:induction false} RunReportsOnce(st: ReduceState, x: Record, k: nat)
    requires st.prevLine != x
    ensures Emitted(st, seq(k, _ => x)) ==
      (if k >= 2 && |x| > st.length then [Report(|x| + 1, x)] else [])
    ensures k >= 1 ==> After(st, seq(k, _ => x)).prevLine == x
    ensures k >= 2 ==> After(st, seq(k, _ => x)).length >= |x|
    ensures k < 2 ==> After(st, seq(k, _ => x)).length == st.length
    decreases k
  {
    var run := seq(k, _ => x);
    if k != 0 {
      var shorter := seq(k - 1, _ => x);
      assert run[..k - 1] == shorter;
      RunReportsOnce(st, x, k - 1);
      if k == 1 {
        assert shorter == [];
      }
    }
  }

  /** The thresholds carried by `out` all lie in `(lo, hi]` and strictly increase. */
  ghost predicate ThresholdsRise(out: seq<Record>, lo: nat, hi: nat)
  {
    && (forall i :: 0 <= i < |out| ==> lo < LeadingNumber(out[i]) <= hi)
    && (forall i, j :: 0 <= i < j < |out| ==> LeadingNumber(out[i]) < LeadingNumber(out[j]))
  }

  /** Over any input, the thresholds the reports carry strictly increase and
      all exceed the starting threshold; the last one is the final threshold. */
  lemma {:induction false} ThresholdsIncrease(st: ReduceState, xs: seq<Record>)
    ensures ThresholdsRise(Emitted(st, xs), st.length, After(st, xs).length)
    ensures Emitted(st, xs) != [] ==>
      LeadingNumber(Emitted(st, xs)[|Emitted(st, xs)| - 1]) == After(st, xs).length
    ensures st.length <= After(st, xs).length
    decreases |xs|
  {
    if xs != [] {
      var init := xs[..|xs| - 1];
      var x := xs[|xs| - 1];
      ThresholdsIncrease(st, init);
      var pre := After(st, init);
      var before := Emitted(st, init);
      assert Emitted(st, xs) == before + Emit(pre, x);
      assert After(st, xs) == Next(pre, x);
      if Reports(pre, x) {
        ThresholdsExtend(before, st.length, pre.length, |x| + 1, x);
        assert Emitted(st, xs) == before + [Report(|x| + 1, x)];
        assert After(st, xs).length == |x| + 1;
      } else {
        assert Emit(pre, x) == [];
        assert Emitted(st, xs) == before;
        assert After(st, xs).length == pre.length;
      }
    }
  }

  /** Appending a report with a threshold above every earlier one keeps the
      thresholds rising. */
  lemma ThresholdsExtend(before: seq<Record>, lo: nat, hi: nat, n: nat, x: Record)
    requires ThresholdsRise(before, lo, hi) && lo <= hi < n
    ensures ThresholdsRise(before + [Report(n, x)], lo, n)
    ensures LeadingNumber((before + [Report(n, x)])[|before|]) == n
  {
    var out := before + [Report(n, x)];
    LeadingNumberOfDecimal(n, x);
    assert LeadingNumber(out[|before|]) == n;
    forall i | 0 <= i < |before| ensures out[i] == before[i] {
    }
  }

  /** Every report names a record that arrived twice in a row. */
  lemma {:induction false} ReportsAreRepeats(xs: seq<Record>)
    ensures forall v :: v in Emitted(Fresh, xs) ==>
      exists j :: 1 <= j < |xs| && xs[j - 1] == xs[j] && v == Report(|xs[j]| + 1, xs[j])
    decreases |xs|
  {
    if xs != [] {
      var init := xs[..|xs| - 1];
      var x := xs[|xs| - 1];
      ReportsAreRepeats(init);
      var pre := After(Fresh, init);
      if Reports(pre, x) {
        var j := |xs| - 1;
        if j > 0 {
          assert pre.prevLine == init[|init| - 1];
          assert xs[j - 1] == xs[j];
        }
      }
      forall v | v in Emitted(Fresh, init)
        ensures exists j :: 1 <= j < |xs| && xs[j - 1] == xs[j] && v == Report(|xs[j]| + 1, xs[j])
      {
        var j :| 1 <= j < |init| && init[j - 1] == init[j] && v == Report(|init[j]| + 1, init[j]);
        assert xs[j - 1] == xs[j];
      }
    }
  }

  /** A partition with no two equal neighbours produces no output. */
  lemma {:induction false} NoRepeatsNoReports(xs: seq<Record>)
    requires forall j :: 1 <= j < |xs| ==> xs[j - 1] != xs[j]
    ensures Emitted(Fresh, xs) == []
    ensures After(Fresh, xs).length == 0
    ensures xs != [] ==> After(Fresh, xs).prevLine == xs[|xs| - 1]
    decreases |xs|
  {
    if xs != [] {
      var init := xs[..|xs| - 1];
      NoRepeatsNoReports(init);
      if init != [] {
        assert init[|init| - 1] == xs[|xs| - 2];
      }
    }
  }
}
