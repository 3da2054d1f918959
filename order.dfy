/** The order `std::sort` uses on `std::string` values (byte-wise, each byte
    compared as unsigned char, a proper prefix first), and a sort on it.
    `Sort` stands for the library call: `SortedPermutationUnique` shows that
    every sorting algorithm, fed any arrangement of the same records, yields
    the same sequence, which is what makes the engine's output independent of
    the order its threads delivered records in. */
module Order {
  import opened Text

  /** `a <= b` for `std::string`. */
  predicate LexLe(a: seq<byte>, b: seq<byte>)
    decreases |a|
  {
    if |a| == 0 then true
    else if |b| == 0 then false
    else if a[0] != b[0] then a[0] < b[0]
    else LexLe(a[1..], b[1..])
  }

  /** The same order stated without recursion: `a` is a prefix of `b`, or at the
      first position where they differ `a` has the smaller byte. */
  lemma {:induction false} LexLeMeaning(a: seq<byte>, b: seq<byte>)
    ensures LexLe(a, b) <==>
      (|a| <= |b| && a == b[..|a|]) ||
      (exists k :: 0 <= k < |a| && k < |b| && a[..k] == b[..k] && a[k] < b[k])
    decreases |a|
  {
    if |a| != 0 && |b| != 0 {
      LexLeMeaning(a[1..], b[1..]);
      if a[0] == b[0] {
        SameHeadPrefix(a, b);
        SameHeadDifference(a, b);
      } else {
        if a[0] < b[0] {
          assert a[..0] == b[..0];
        }
        EqualPrefixesAgreeAtHead(a, b);
      }
    }
  }

  /** With equal first bytes, `a` is a prefix of `b` iff the tails are. */
  lemma SameHeadPrefix(a: seq<byte>, b: seq<byte>)
    requires |a| != 0 && |b| != 0 && a[0] == b[0]
    ensures (|a| <= |b| && a == b[..|a|]) <==>
      (|a[1..]| <= |b[1..]| && a[1..] == b[1..][..|a[1..]|])
  {
    if |a| <= |b| && a == b[..|a|] {
      assert a[1..] == b[1..][..|a| - 1];
    }
    if |a| - 1 <= |b| - 1 && a[1..] == b[1..][..|a| - 1] {
      assert a == [a[0]] + a[1..] && b[..|a|] == [b[0]] + b[1..][..|a| - 1];
    }
  }

  /** With equal first bytes, `a` and `b` first differ with `a` smaller iff
      their tails do. */
  lemma SameHeadDifference(a: seq<byte>, b: seq<byte>)
    requires |a| != 0 && |b| != 0 && a[0] == b[0]
    ensures (exists k :: 0 <= k < |a| && k < |b| && a[..k] == b[..k] && a[k] < b[k]) <==>
      (exists k :: 0 <= k < |a[1..]| && k < |b[1..]| && a[1..][..k] == b[1..][..k] && a[1..][k] < b[1..][k])
  {
    if exists k :: 0 <= k < |a| && k < |b| && a[..k] == b[..k] && a[k] < b[k] {
      var k :| 0 <= k < |a| && k < |b| && a[..k] == b[..k] && a[k] < b[k];
      assert k != 0;
      assert a[1..][..k - 1] == a[..k][1..] && b[1..][..k - 1] == b[..k][1..];
      assert a[1..][k - 1] < b[1..][k - 1];
    }
    if exists k :: 0 <= k < |a| - 1 && k < |b| - 1 && a[1..][..k] == b[1..][..k] && a[1..][k] < b[1..][k] {
      var k :| 0 <= k < |a| - 1 && k < |b| - 1 && a[1..][..k] == b[1..][..k] && a[1..][k] < b[1..][k];
      assert a[..k + 1] == [a[0]] + a[1..][..k] && b[..k + 1] == [b[0]] + b[1..][..k];
      assert a[k + 1] < b[k + 1];
    }
  }

  lemma EqualPrefixesAgreeAtHead(a: seq<byte>, b: seq<byte>)
    requires |a| != 0 && |b| != 0
    ensures forall k :: 0 < k <= |a| && k <= |b| && a[..k] == b[..k] ==> a[0] == b[0]
  {
    forall k | 0 < k <= |a| && k <= |b| && a[..k] == b[..k] ensures a[0] == b[0] {
      assert a[..k][0] == b[..k][0];
    }
  }

  lemma {:induction false} LexLeReflexive(a: seq<byte>)
    ensures LexLe(a, a)
    decreases |a|
  {
    if |a| != 0 { LexLeReflexive(a[1..]); }
  }

  lemma {:induction false} LexLeAntisymmetric(a: seq<byte>, b: seq<byte>)
    requires LexLe(a, b) && LexLe(b, a)
    ensures a == b
    decreases |a|
  {
    if |a| != 0 {
      LexLeAntisymmetric(a[1..], b[1..]);
      assert a == [a[0]] + a[1..] && b == [b[0]] + b[1..];
    }
  }

  lemma {:induction false} LexLeTransitive(a: seq<byte>, b: seq<byte>, c: seq<byte>)
    requires LexLe(a, b) && LexLe(b, c)
    ensures LexLe(a, c)
    decreases |a|
  {
    if |a| != 0 && a[0] == b[0] && b[0] == c[0] {
      LexLeTransitive(a[1..], b[1..], c[1..]);
    }
  }

  lemma {:induction false} LexLeTotal(a: seq<byte>, b: seq<byte>)
    ensures LexLe(a, b) || LexLe(b, a)
    decreases |a|
  {
    if |a| != 0 && |b| != 0 && a[0] == b[0] {
      LexLeTotal(a[1..], b[1..]);
    }
  }

  /** Non-decreasing under `LexLe`: the state `std::sort` leaves a vector in. */
  predicate Sorted(s: seq<Record>)
  {
    forall i, j :: 0 <= i < j < |s| ==> LexLe(s[i], s[j])
  }

  /** Inserts `x` before the first element it is not greater than. */
  function Insert(x: Record, s: seq<Record>): (r: seq<Record>)
    ensures multiset(r) == multiset(s) + multiset{x}
    ensures Sorted(s) ==> Sorted(r)
    decreases |s|
  {
    if s == [] then [x]
    else if LexLe(x, s[0]) then
      InsertFrontSorted(x, s);
      [x] + s
    else
      var t := Insert(x, s[1..]);
      InsertBehindSorted(x, s, t);
      assert s == [s[0]] + s[1..];
      [s[0]] + t
  }

  lemma InsertFrontSorted(x: Record, s: seq<Record>)
    requires s != [] && LexLe(x, s[0])
    ensures Sorted(s) ==> Sorted([x] + s)
  {
    if Sorted(s) {
      var r := [x] + s;
      forall i, j | 0 <= i < j < |r| ensures LexLe(r[i], r[j]) {
        if i == 0 {
          if j > 1 { LexLeTransitive(x, s[0], s[j - 1]); }
        } else {
          assert r[i] == s[i - 1] && r[j] == s[j - 1];
        }
      }
    }
  }

  lemma InsertBehindSorted(x: Record, s: seq<Record>, t: seq<Record>)
    requires s != [] && !LexLe(x, s[0])
    requires multiset(t) == multiset(s[1..]) + multiset{x}
    requires Sorted(s[1..]) ==> Sorted(t)
    ensures Sorted(s) ==> Sorted([s[0]] + t)
  {
    if Sorted(s) {
      LexLeTotal(x, s[0]);
      forall j | 0 <= j < |t| ensures LexLe(s[0], t[j]) {
        assert t[j] in multiset(t);
        if t[j] != x {
          assert t[j] in multiset(s[1..]);
          var k :| 0 <= k < |s[1..]| && s[1..][k] == t[j];
          assert s[k + 1] == t[j];
        }
      }
      assert Sorted(s[1..]);
    }
  }

  /** The sorted arrangement of `s`: insertion sort standing in for `std::sort`. */
  function Sort(s: seq<Record>): (r: seq<Record>)
    ensures Sorted(r)
    ensures multiset(r) == multiset(s)
    decreases |s|
  {
    if s == [] then []
    else
      assert s == [s[0]] + s[1..];
      Insert(s[0], Sort(s[1..]))
  }

  /** Two sorted sequences that hold the same records are equal. */
  lemma {:induction false} SortedPermutationUnique(a: seq<Record>, b: seq<Record>)
    requires Sorted(a) && Sorted(b) && multiset(a) == multiset(b)
    ensures a == b
    decreases |a|
  {
    if a == [] {
      assert |b| == |multiset(b)| == 0;
    } else {
      SortedHeadsAgree(a, b);
      assert a == [a[0]] + a[1..];
      assert b == [b[0]] + b[1..];
      assert multiset(a[1..]) == multiset(b[1..]) by {
        assert multiset(a[1..]) == multiset(a) - multiset{a[0]};
        assert multiset(b[1..]) == multiset(b) - multiset{b[0]};
      }
      SortedPermutationUnique(a[1..], b[1..]);
    }
  }

  /** Two non-empty sorted sequences holding the same records start alike. */
  lemma SortedHeadsAgree(a: seq<Record>, b: seq<Record>)
    requires Sorted(a) && Sorted(b) && multiset(a) == multiset(b) && a != []
    ensures b != [] && a[0] == b[0]
  {
    assert a[0] in multiset(b);
    assert b != [] && b[0] in multiset(a);
    var i :| 0 <= i < |b| && b[i] == a[0];
    var j :| 0 <= j < |a| && a[j] == b[0];
    LexLeReflexive(a[0]);
    LexLeReflexive(b[0]);
    assert LexLe(b[0], a[0]) by { if i > 0 { assert LexLe(b[0], b[i]); } }
    assert LexLe(a[0], b[0]) by { if j > 0 { assert LexLe(a[0], a[j]); } }
    LexLeAntisymmetric(a[0], b[0]);
  }

  /** Sorting depends only on which records are present, not on their order. */
  lemma SortDependsOnlyOnMultiset(a: seq<Record>, b: seq<Record>)
    requires multiset(a) == multiset(b)
    ensures Sort(a) == Sort(b)
  {
    SortedPermutationUnique(Sort(a), Sort(b));
  }

  /** Any sorted rearrangement of `s` is `Sort(s)`; in particular sorting twice
      changes nothing. */
  lemma SortCharacterised(s: seq<Record>, r: seq<Record>)
    requires Sorted(r) && multiset(r) == multiset(s)
    ensures r == Sort(s)
    ensures Sort(Sort(s)) == Sort(s)
  {
    SortedPermutationUnique(r, Sort(s));
    SortedPermutationUnique(Sort(Sort(s)), Sort(s));
  }
}
