/** Bytes, ASCII case folding and decimal formatting: the pieces of the C++
    standard library (`char`, `::tolower`, `std::to_string`) that the engine
    and its two functors rely on, stated over byte sequences. */
module Text {

  /** One byte of the input file, read as an unsigned value. */
  type byte = b: int | 0 <= b < 256

  /** A record flowing between the stages: a line, a prefix or a report. */
  type Record = seq<byte>

  const Newline: byte := 10
  const Space: byte := 32

  predicate IsUpper(c: byte) { 65 <= c <= 90 }

  /** `::tolower` in the "C" locale: only 'A'..'Z' change. */
  function LowerByte(c: byte): byte
  {
    if IsUpper(c) then c + 32 else c
  }

  /** `std::transform(..., ::tolower)` over a whole line. */
  function Lower(s: seq<byte>): (r: seq<byte>)
    ensures |r| == |s|
  {
    seq(|s|, i requires 0 <= i < |s| => LowerByte(s[i]))
  }

  /** Lowering leaves no upper-case letter, keeps every other byte, and is idempotent. */
  lemma LowerSpec(s: seq<byte>)
    ensures forall i :: 0 <= i < |s| ==> !IsUpper(Lower(s)[i])
    ensures forall i :: 0 <= i < |s| && !IsUpper(s[i]) ==> Lower(s)[i] == s[i]
    ensures forall i :: 0 <= i < |s| && IsUpper(s[i]) ==> Lower(s)[i] == s[i] + 32
    ensures Lower(Lower(s)) == Lower(s)
  {
  }

  predicate IsDigit(c: byte) { 48 <= c <= 57 }

  predicate AllDigits(s: seq<byte>) { forall i :: 0 <= i < |s| ==> IsDigit(s[i]) }

  /** `std::to_string` of a non-negative int: decimal digits, most significant first. */
  function Decimal(n: nat): (r: seq<byte>)
    ensures |r| >= 1 && AllDigits(r)
    ensures |r| > 1 ==> r[0] != 48
    decreases n
  {
    if n < 10 then [48 + n] else Decimal(n / 10) + [48 + n % 10]
  }

  /** The value of a string of decimal digits (the inverse of `Decimal`). */
  function DigitsValue(s: seq<byte>): nat
    requires AllDigits(s)
    decreases |s|
  {
    if s == [] then 0 else DigitsValue(s[..|s| - 1]) * 10 + (s[|s| - 1] - 48)
  }

  lemma {:induction false} DecimalRoundTrip(n: nat)
    ensures DigitsValue(Decimal(n)) == n
    decreases n
  {
    if n >= 10 {
      DecimalRoundTrip(n / 10);
      var d := Decimal(n);
      assert d[..|d| - 1] == Decimal(n / 10);
    }
  }

  /** The length of the longest run of digits at the front of `s`. */
  function DigitPrefixLength(s: seq<byte>): (k: nat)
    ensures k <= |s| && AllDigits(s[..k])
    ensures k < |s| ==> !IsDigit(s[k])
    decreases |s|
  {
    if s == [] || !IsDigit(s[0]) then 0 else 1 + DigitPrefixLength(s[1..])
  }

  /** The number a record starts with, as a reader of the output file would parse it. */
  function LeadingNumber(s: seq<byte>): nat
  {
    var k := DigitPrefixLength(s);
    DigitsValue(s[..k])
  }

  /** Reading back the number in front of `to_string(n) + " " + tail` gives `n`. */
  lemma {:induction false} LeadingNumberOfDecimal(n: nat, tail: seq<byte>)
    ensures LeadingNumber(Decimal(n) + [Space] + tail) == n
  {
    var d := Decimal(n);
    var s := d + [Space] + tail;
    assert s == d + ([Space] + tail);
    DigitRunStopsAt(d, [Space] + tail);
    assert s[..|d|] == d;
    DecimalRoundTrip(n);
  }

  lemma {:induction false} DigitRunStopsAt(d: seq<byte>, t: seq<byte>)
    requires AllDigits(d) && t != [] && !IsDigit(t[0])
    ensures DigitPrefixLength(d + t) == |d|
    decreases |d|
  {
    if d == [] {
      assert d + t == t;
    } else {
      assert (d + t)[1..] == d[1..] + t;
      DigitRunStopsAt(d[1..], t);
    }
  }

  /** The records of several sequences, one after another. */
  function Concat(ss: seq<seq<Record>>): (r: seq<Record>)
    decreases |ss|
  {
    if ss == [] then [] else Concat(ss[..|ss| - 1]) + ss[|ss| - 1]
  }

  lemma {:induction false} ConcatAppend(ss: seq<seq<Record>>, tt: seq<seq<Record>>)
    ensures Concat(ss + tt) == Concat(ss) + Concat(tt)
    decreases |tt|
  {
    if tt == [] {
      assert ss + tt == ss;
    } else {
      var init := tt[..|tt| - 1];
      assert (ss + tt)[..|ss + tt| - 1] == ss + init;
      ConcatAppend(ss, init);
    }
  }

  /** Adding `v` to the end of one of the sequences adds `v` to what they hold together. */
  lemma {:induction false} ConcatMultisetUpdate(ss: seq<seq<Record>>, idx: nat, v: Record)
    requires idx < |ss|
    ensures multiset(Concat(ss[idx := ss[idx] + [v]])) == multiset(Concat(ss)) + multiset{v}
    decreases |ss|
  {
    var tt := ss[idx := ss[idx] + [v]];
    var n := |ss| - 1;
    assert tt[..n] == if idx == n then ss[..n] else ss[..n][idx := ss[idx] + [v]];
    if idx < n {
      ConcatMultisetUpdate(ss[..n], idx, v);
    }
  }
}
