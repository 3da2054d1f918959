/** The block partitioner: the input file as a byte sequence, the provisional
    block offsets `i * blockSize`, the adjustment `moveOffsetToEndOfLine`
    applies to them, and the lines a map task reads between two adjusted
    offsets. */
module Blocks {
  import opened Text

  /** The first newline at or after `p`, or `|data|` if there is none. */
  function FirstNewline(data: seq<byte>, p: nat): (q: nat)
    requires p <= |data|
    ensures p <= q <= |data|
    ensures q < |data| ==> data[q] == Newline
    ensures forall k :: p <= k < q ==> data[k] != Newline
    decreases |data| - p
  {
    if p == |data| || data[p] == Newline then p else FirstNewline(data, p + 1)
  }

  /** A position just after a newline, or the start or the end of the file. */
  predicate LineBoundary(data: seq<byte>, p: nat)
  {
    p == 0 || p == |data| || (p < |data| && data[p - 1] == Newline)
  }

  /** The file is empty or its last byte is a newline. */
  predicate EndsWithNewline(data: seq<byte>)
  {
    data == [] || data[|data| - 1] == Newline
  }

  /** The offset `moveOffsetToEndOfLine` leaves behind: 0 stays 0; otherwise
      one past the first newline at or after `offset`; if the scan reaches the
      end of the file without one, `tellg()` reports -1 and the offset is kept. */
  function AdjustOffset(data: seq<byte>, offset: nat): (r: nat)
    requires offset <= |data|
    ensures offset <= r <= |data|
  {
    if offset == 0 then 0
    else
      var q := FirstNewline(data, offset);
      if q < |data| then q + 1 else offset
  }

  /** `moveOffsetToEndOfLine`: seeks to `offset`, then repeats `get()` until it
      returns '\n' or `peek()` sees the end of the file. Once the stream has hit
      the end, `tellg()` returns -1 and the offset is left as it was. */
  method MoveOffsetToEndOfLine(data: seq<byte>, offset: nat) returns (adjusted: nat)
    requires offset <= |data|
    ensures adjusted == AdjustOffset(data, offset)
  {
    adjusted := offset;
    if offset == 0 {
      return;
    }
    var pos := offset;
    var atEof := false;
    while !atEof
      invariant offset <= pos <= |data|
      invariant forall k :: offset <= k < pos ==> data[k] != Newline
      invariant atEof ==> pos == |data|
      decreases |data| - pos, !atEof
    {
      if pos == |data| {
        // get() at the end of the file fails
        atEof := true;
      } else {
        var c := data[pos];
        pos := pos + 1;
        if c == Newline {
          break;
        }
        if pos == |data| {
          // peek() sees the end of the file
          atEof := true;
        }
      }
    }
    if !atEof {
      adjusted := pos;
    }
  }

  /** What `moveOffsetToEndOfLine` achieves: the offset never moves backwards;
      it moves exactly when a newline follows it, and then to just past the
      first one; in a file that ends with a newline the result is a line
      boundary. */
  lemma AdjustOffsetSpec(data: seq<byte>, offset: nat)
    requires offset <= |data|
    ensures offset <= AdjustOffset(data, offset) <= |data|
    ensures offset == 0 ==> AdjustOffset(data, offset) == 0
    ensures offset != 0 && (exists k :: offset <= k < |data| && data[k] == Newline) ==>
      var r := AdjustOffset(data, offset);
      offset < r && data[r - 1] == Newline && forall k :: offset <= k < r - 1 ==> data[k] != Newline
    ensures offset != 0 && (forall k :: offset <= k < |data| ==> data[k] != Newline) ==>
      AdjustOffset(data, offset) == offset
    ensures EndsWithNewline(data) ==> LineBoundary(data, AdjustOffset(data, offset))
  {
  }

  /** A larger offset is never adjusted to a smaller one, so the adjusted
      start of a block never passes its adjusted end. */
  lemma AdjustOffsetMonotone(data: seq<byte>, a: nat, b: nat)
    requires a <= b <= |data|
    ensures AdjustOffset(data, a) <= AdjustOffset(data, b)
  {
    if a != 0 {
      var qa := FirstNewline(data, a);
      var qb := FirstNewline(data, b);
      if qa >= b {
        assert qb == qa;
      }
    }
  }

  // ------------------------------------------------------------- block offsets

  /** `blockSize = fileSize / M`, spelled out as repeated subtraction
      (`BlockSizeIsQuotient` relates it to the division). */
  function BlockSize(fileSize: nat, m: nat): nat
    requires m >= 1
    decreases fileSize
  {
    if fileSize < m then 0 else 1 + BlockSize(fileSize - m, m)
  }

  /** `i * b`, spelled out as repeated addition so that a proof about one
      block unfolds it one step at a time (`TimesIsProduct` relates the two). */
  function Times(i: nat, b: nat): nat
    decreases i
  {
    if i == 0 then 0 else Times(i - 1, b) + b
  }

  lemma {:induction false} TimesIsProduct(i: nat, b: nat)
    ensures Times(i, b) == i * b
    decreases i
  {
    if i != 0 {
      TimesIsProduct(i - 1, b);
    }
  }

  /** `offsetStart` of task `i` before adjustment: `offset*blockSize`, or 0
      for the first task. */
  function ProvisionalStart(blockSize: nat, i: nat): nat
  {
    if i == 0 then 0 else Times(i, blockSize)
  }

  /** `offsetEnd` of task `i` before adjustment: `offset*blockSize + blockSize`,
      or `blockSize` for the first task. */
  function ProvisionalEnd(blockSize: nat, i: nat): nat
  {
    if i == 0 then blockSize else Times(i, blockSize) + blockSize
  }

  lemma {:induction false} TimesSucc(i: nat, b: nat)
    ensures Times(i, b + 1) == Times(i, b) + i
    decreases i
  {
    if i != 0 {
      TimesSucc(i - 1, b);
    }
  }

  lemma {:induction false} TimesMonotone(i: nat, j: nat, b: nat)
    requires i <= j
    ensures Times(i, b) <= Times(j, b)
    decreases j
  {
    if i < j {
      TimesMonotone(i, j - 1, b);
    }
  }

  /** `M` blocks of `blockSize` bytes fit in the file and leave fewer than
      `M` bytes over. */
  lemma {:induction false} BlockSizeBounds(fileSize: nat, m: nat)
    requires m >= 1
    ensures Times(m, BlockSize(fileSize, m)) <= fileSize < Times(m, BlockSize(fileSize, m)) + m
    decreases fileSize
  {
    if fileSize < m {
      TimesIsProduct(m, 0);
    } else {
      BlockSizeBounds(fileSize - m, m);
      TimesSucc(m, BlockSize(fileSize - m, m));
    }
  }

  /** The repeated subtraction computes C++'s `fileSize / M`. */
  lemma BlockSizeIsQuotient(fileSize: nat, m: nat)
    requires m >= 1
    ensures BlockSize(fileSize, m) == fileSize / m
  {
    var bs := BlockSize(fileSize, m);
    BlockSizeBounds(fileSize, m);
    TimesIsProduct(m, bs);
    QuotientUnique(fileSize, m, bs, fileSize - m * bs);
  }

  /** `q` is the quotient when `f == m*q + r` with `0 <= r < m`. */
  lemma QuotientUnique(f: nat, m: nat, q: nat, r: nat)
    requires m >= 1 && f == m * q + r && r < m
    ensures f / m == q
  {
    var q', r' := f / m, f % m;
    assert f == m * q' + r' && 0 <= r' < m;
    MulLeq(q + 1, q', m);
    MulLeq(q' + 1, q, m);
  }

  /** Multiplication by `c` is monotone, and adds `c` per step. */
  lemma MulLeq(a: nat, b: nat, c: nat)
    ensures a <= b ==> a * c <= c * b
    ensures (a + 1) * c == a * c + c
  {
    if a <= b {
      assert c * b == a * c + (b - a) * c;
    }
  }

  /** Both provisional offsets of task `i` lie inside the file, and task
      `i` ends where task `i + 1` starts. */
  lemma ProvisionalInFile(fileSize: nat, m: nat, i: nat)
    requires m >= 1 && i < m
    ensures var bs := BlockSize(fileSize, m);
      && ProvisionalStart(bs, i) <= ProvisionalEnd(bs, i) <= fileSize
      && ProvisionalEnd(bs, i) == ProvisionalStart(bs, i + 1)
  {
    var bs := BlockSize(fileSize, m);
    TimesMonotone(i + 1, m, bs);
    BlockSizeBounds(fileSize, m);
  }

  /** The provisional range of task `i` is `[i*blockSize, (i+1)*blockSize)`
      with `blockSize = fileSize / M`, and it lies inside the file. */
  lemma ProvisionalRanges(fileSize: nat, m: nat, i: nat)
    requires m >= 1 && i < m
    ensures var bs := BlockSize(fileSize, m);
      && bs == fileSize / m
      && ProvisionalStart(bs, i) == i * bs
      && ProvisionalEnd(bs, i) == ProvisionalStart(bs, i + 1) == (i + 1) * bs
      && ProvisionalStart(bs, i) <= ProvisionalEnd(bs, i) <= fileSize
  {
    var bs := BlockSize(fileSize, m);
    BlockSizeIsQuotient(fileSize, m);
    ProvisionalInFile(fileSize, m, i);
    TimesIsProduct(i, bs);
    TimesIsProduct(i + 1, bs);
  }

  /** The adjusted start of task `i`. */
  function BlockStart(data: seq<byte>, m: nat, i: nat): (r: nat)
    requires m >= 1 && i < m
    ensures r <= |data|
  {
    ProvisionalInFile(|data|, m, i);
    AdjustOffset(data, ProvisionalStart(BlockSize(|data|, m), i))
  }

  /** The adjusted end of task `i`. */
  function BlockEnd(data: seq<byte>, m: nat, i: nat): (r: nat)
    requires m >= 1 && i < m
    ensures r <= |data|
  {
    ProvisionalInFile(|data|, m, i);
    AdjustOffset(data, ProvisionalEnd(BlockSize(|data|, m), i))
  }

  /** The adjusted blocks tile a prefix of the file: the first starts at 0,
      each ends where the next starts, none is reversed, and in a file that
      ends with a newline every boundary is a line boundary. */
  lemma BlocksAreContiguous(data: seq<byte>, m: nat, i: nat)
    requires m >= 1 && i < m
    ensures BlockStart(data, m, 0) == 0
    ensures i + 1 < m ==> BlockEnd(data, m, i) == BlockStart(data, m, i + 1)
    ensures BlockStart(data, m, i) <= BlockEnd(data, m, i) <= |data|
    ensures EndsWithNewline(data) ==>
      LineBoundary(data, BlockStart(data, m, i)) && LineBoundary(data, BlockEnd(data, m, i))
  {
    var bs := BlockSize(|data|, m);
    ProvisionalInFile(|data|, m, i);
    AdjustOffsetMonotone(data, ProvisionalStart(bs, i), ProvisionalEnd(bs, i));
    AdjustOffsetSpec(data, ProvisionalStart(bs, i));
    AdjustOffsetSpec(data, ProvisionalEnd(bs, i));
  }

  // -------------------------------------------------------------- line reading

  /** `tellg()` after `getline` reads the line at `pos`: the position past its
      newline, or -1 when the line runs to the end of the file. */
  function TellAfterLine(data: seq<byte>, pos: nat): (t: int)
    requires pos < |data|
    ensures t == -1 || pos < t <= |data|
  {
    var q := FirstNewline(data, pos);
    if q < |data| then q + 1 else -1
  }

  /** The lines `getline` yields from position `s` while `tellg() <= e`.
      After a line ended by a newline `tellg()` is the position past it; after
      an unterminated last line the stream is at its end and `tellg()` is -1,
      which passes the test, so that line is always taken. */
  function BlockLines(data: seq<byte>, s: nat, e: nat): seq<Record>
    requires s <= |data|
    decreases |data| - s
  {
    if s == |data| then []
    else
      var q := FirstNewline(data, s);
      if q == |data| then [data[s..]]
      else if q + 1 <= e then [data[s..q]] + BlockLines(data, q + 1, e)
      else []
  }

  /** The lines of the file from position `s` on, split at newlines (a
      reference definition with no end position). */
  function LinesFrom(data: seq<byte>, s: nat): seq<Record>
    requires s <= |data|
    decreases |data| - s
  {
    if s == |data| then []
    else
      var q := FirstNewline(data, s);
      if q == |data| then [data[s..]] else [data[s..q]] + LinesFrom(data, q + 1)
  }

  /** Every line of the file, each without its newline. */
  function Lines(data: seq<byte>): seq<Record>
  {
    LinesFrom(data, 0)
  }

  /** Reading up to the end of the file reads every line from `s` on. */
  lemma {:induction false} ReadToEndReadsAll(data: seq<byte>, s: nat)
    requires s <= |data|
    ensures BlockLines(data, s, |data|) == LinesFrom(data, s)
    decreases |data| - s
  {
    if s < |data| {
      var q := FirstNewline(data, s);
      if q < |data| {
        ReadToEndReadsAll(data, q + 1);
      }
    }
  }

  /** A read that would end at a line boundary `b` between `s` and `e` splits
      there: the lines up to `e` are the lines up to `b`, then those from `b`. */
  lemma {:induction false} BlockLinesSplit(data: seq<byte>, s: nat, b: nat, e: nat)
    requires EndsWithNewline(data)
    requires s <= b <= e && b <= |data| && LineBoundary(data, b)
    ensures BlockLines(data, s, e) == BlockLines(data, s, b) + BlockLines(data, b, e)
    decreases |data| - s
  {
    if s == b {
      assert BlockLines(data, s, b) == [] by {
        if s < |data| {
          assert FirstNewline(data, s) < |data|;
        }
      }
      var back := BlockLines(data, b, e);
      assert [] + back == back;
    } else {
      var q := FirstNewline(data, s);
      assert data[b - 1] == Newline;
      BlockLinesSplit(data, q + 1, b, e);
      SplitAfterFirstLine(data, s, b, e);
    }
  }

  /** The step of `BlockLinesSplit`: the first line lies before `b`, so both
      sides start with it and the rest splits at `b`. */
  lemma SplitAfterFirstLine(data: seq<byte>, s: nat, b: nat, e: nat)
    requires s < b <= e && b <= |data| && FirstNewline(data, s) < b
    requires BlockLines(data, FirstNewline(data, s) + 1, e) ==
      BlockLines(data, FirstNewline(data, s) + 1, b) + BlockLines(data, b, e)
    ensures BlockLines(data, s, e) == BlockLines(data, s, b) + BlockLines(data, b, e)
  {
    var q := FirstNewline(data, s);
    BlockLinesStep(data, s, e);
    BlockLinesStep(data, s, b);
    var line, front, back := data[s..q], BlockLines(data, q + 1, b), BlockLines(data, b, e);
    assert [line] + (front + back) == ([line] + front) + back;
  }

  /** A line that runs to the end of the file is always read, and is the last. */
  lemma BlockLinesLast(data: seq<byte>, s: nat, e: nat)
    requires s < |data| && FirstNewline(data, s) == |data|
    ensures BlockLines(data, s, e) == [data[s..]]
  {
  }

  /** A line ended by a newline that lies before `e` is read, and reading
      goes on after it. */
  lemma BlockLinesStep(data: seq<byte>, s: nat, e: nat)
    requires s < |data| && FirstNewline(data, s) < |data| && FirstNewline(data, s) < e
    ensures BlockLines(data, s, e) == [data[s..FirstNewline(data, s)]] + BlockLines(data, FirstNewline(data, s) + 1, e)
  {
  }

  /** The lines tasks `0 .. k-1` read, in task order. */
  function ReadByTasks(data: seq<byte>, m: nat, k: nat): (tasks: seq<seq<Record>>)
    requires m >= 1 && k <= m
    ensures |tasks| == k
    decreases k
  {
    if k == 0 then []
    else ReadByTasks(data, m, k - 1) + [BlockLines(data, BlockStart(data, m, k - 1), BlockEnd(data, m, k - 1))]
  }

  /** Task `k - 1` adds the lines of its block after those of the tasks before it. */
  lemma ReadByTasksStep(data: seq<byte>, m: nat, k: nat)
    requires m >= 1 && 1 <= k <= m
    ensures Concat(ReadByTasks(data, m, k)) ==
      Concat(ReadByTasks(data, m, k - 1)) + BlockLines(data, BlockStart(data, m, k - 1), BlockEnd(data, m, k - 1))
  {
    assert ReadByTasks(data, m, k)[..k - 1] == ReadByTasks(data, m, k - 1);
  }

  /** Taken together, the first `k` tasks read every line before the end of
      task `k - 1`, each exactly once and in file order. */
  lemma {:induction false} TasksReadPrefix(data: seq<byte>, m: nat, k: nat)
    requires EndsWithNewline(data)
    requires m >= 1 && 1 <= k <= m
    ensures Concat(ReadByTasks(data, m, k)) == BlockLines(data, 0, BlockEnd(data, m, k - 1))
    decreases k
  {
    var j := k - 1;
    if j == 0 {
      FirstTaskReadsFromStart(data, m);
    } else {
      TasksReadPrefix(data, m, j);
      NextTaskReadsOn(data, m, j, k);
    }
  }

  lemma FirstTaskReadsFromStart(data: seq<byte>, m: nat)
    requires m >= 1
    ensures Concat(ReadByTasks(data, m, 1)) == BlockLines(data, 0, BlockEnd(data, m, 0))
  {
    ReadByTasksStep(data, m, 1);
    assert BlockStart(data, m, 0) == 0;
    assert Concat(ReadByTasks(data, m, 0)) == [];
  }

  /** Task `k - 1` starts reading where task `k - 2` stopped. */
  lemma NextTaskReadsOn(data: seq<byte>, m: nat, j: nat, k: nat)
    requires EndsWithNewline(data)
    requires m >= 1 && 1 <= j && k == j + 1 && k <= m
    requires Concat(ReadByTasks(data, m, j)) == BlockLines(data, 0, BlockEnd(data, m, j - 1))
    ensures Concat(ReadByTasks(data, m, k)) == BlockLines(data, 0, BlockEnd(data, m, k - 1))
  {
    ReadByTasksStep(data, m, k);
    TaskBoundary(data, m, j);
    ReadOn(data, BlockEnd(data, m, j - 1), BlockEnd(data, m, j));
  }

  /** Task `i` starts where task `i - 1` ended, which is a line boundary in
      a file that ends with a newline. */
  lemma TaskBoundary(data: seq<byte>, m: nat, i: nat)
    requires 1 <= i < m
    ensures BlockStart(data, m, i) == BlockEnd(data, m, i - 1) <= BlockEnd(data, m, i)
    ensures EndsWithNewline(data) ==> LineBoundary(data, BlockEnd(data, m, i - 1))
  {
    BlocksAreContiguous(data, m, i - 1);
    BlocksAreContiguous(data, m, i);
  }

  /** Reading on from a line boundary `b` to `e` extends the lines up to `b`
      to the lines up to `e`. */
  lemma ReadOn(data: seq<byte>, b: nat, e: nat)
    requires EndsWithNewline(data)
    requires b <= e <= |data| && LineBoundary(data, b)
    ensures BlockLines(data, 0, b) + BlockLines(data, b, e) == BlockLines(data, 0, e)
  {
    BlockLinesSplit(data, 0, b, e);
  }

  /** Completeness of the block split: the tasks together read the lines of
      the file before the last task's adjusted end, each exactly once and in
      order; when that end is the end of the file, that is every line. */
  lemma BlocksReadEachLineOnce(data: seq<byte>, m: nat)
    requires EndsWithNewline(data) && m >= 1
    ensures Concat(ReadByTasks(data, m, m)) == BlockLines(data, 0, BlockEnd(data, m, m - 1))
    ensures BlockEnd(data, m, m - 1) == |data| ==> Concat(ReadByTasks(data, m, m)) == Lines(data)
  {
    TasksReadPrefix(data, m, m);
    ReadToEndReadsAll(data, 0);
  }

  /** The last task's end is the end of the file when the file size is a
      multiple of `M`. */
  lemma LastEndAtEofWhenDivisible(data: seq<byte>, m: nat)
    requires m >= 1 && |data| % m == 0
    ensures BlockEnd(data, m, m - 1) == |data|
  {
    var bs := BlockSize(|data|, m);
    BlockSizeIsQuotient(|data|, m);
    TimesIsProduct(m, bs);
    assert Times(m, bs) == |data|;
    if |data| != 0 {
      assert ProvisionalEnd(bs, m - 1) == |data|;
    }
  }

  /** When the file is smaller than `M`, `blockSize` is 0, no offset is ever
      adjusted, and in a file that ends with a newline no task reads a line. */
  lemma SmallFileReadsNothing(data: seq<byte>, m: nat, i: nat)
    requires EndsWithNewline(data) && |data| < m && i < m
    ensures BlockSize(|data|, m) == 0
    ensures BlockStart(data, m, i) == 0 && BlockEnd(data, m, i) == 0
    ensures BlockLines(data, 0, 0) == []
  {
    TimesIsProduct(i, 0);
    if |data| != 0 {
      assert FirstNewline(data, 0) < |data|;
    }
  }
}
