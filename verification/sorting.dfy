/** Go's string order and sort.Strings: strings compare byte by byte, and a
    proper prefix sorts first. The sort is modelled as a function (it is a
    library call on a slice the caller owns); what matters to the callers is
    that its result is ordered, holds the same strings, and is the only such
    arrangement. */
module Sorting {
  import opened ByteText

  /** Go's `a <= b` on strings. */
  predicate LessEq(a: Bytes, b: Bytes)
  {
    if a == [] then true
    else if b == [] then false
    else if a[0] != b[0] then a[0] < b[0]
    else LessEq(a[1..], b[1..])
  }

  lemma {:induction false} LessEqTotal(a: Bytes, b: Bytes)
    ensures LessEq(a, b) || LessEq(b, a)
  {
    if a != [] && b != [] && a[0] == b[0] {
      LessEqTotal(a[1..], b[1..]);
    }
  }

  lemma {:induction false} LessEqAntisymmetric(a: Bytes, b: Bytes)
    requires LessEq(a, b) && LessEq(b, a)
    ensures a == b
  {
    if a != [] && b != [] {
      LessEqAntisymmetric(a[1..], b[1..]);
      assert a == [a[0]] + a[1..] && b == [b[0]] + b[1..];
    }
  }

  lemma {:induction false} LessEqTransitive(a: Bytes, b: Bytes, c: Bytes)
    requires LessEq(a, b) && LessEq(b, c)
    ensures LessEq(a, c)
  {
    if a != [] && b != [] && c != [] && a[0] == b[0] && b[0] == c[0] {
      LessEqTransitive(a[1..], b[1..], c[1..]);
    }
  }

  predicate Sorted(s: seq<Bytes>)
  {
    forall i, j :: 0 <= i < j < |s| ==> LessEq(s[i], s[j])
  }

  /** Every string of a sorted sequence is at least its head. */
  lemma HeadIsLeast(s: seq<Bytes>, y: Bytes)
    requires Sorted(s) && |s| > 0 && y in multiset(s)
    ensures LessEq(s[0], y)
  {
    var i :| 0 <= i < |s| && s[i] == y;
    if i == 0 {
      LessEqTotal(y, y);
    }
  }

  function Insert(x: Bytes, s: seq<Bytes>): (r: seq<Bytes>)
    requires Sorted(s)
    ensures Sorted(r)
    ensures multiset(r) == multiset(s) + multiset{x}
    ensures |r| > 0 && (r[0] == x || (|s| > 0 && r[0] == s[0]))
  {
    if s == [] then [x]
    else if LessEq(x, s[0]) then
      InsertFront(x, s);
      [x] + s
    else
      SortedTail(s);
      var rest := Insert(x, s[1..]);
      InsertBehind(x, s, rest);
      [s[0]] + rest
  }

  /** A string no greater than the head goes in front. */
  lemma InsertFront(x: Bytes, s: seq<Bytes>)
    requires Sorted(s) && |s| > 0 && LessEq(x, s[0])
    ensures Sorted([x] + s)
  {
    forall i, j | 0 <= i < j < |s| + 1 ensures LessEq(([x] + s)[i], ([x] + s)[j]) {
      if i == 0 && j > 1 {
        LessEqTransitive(x, s[0], s[j - 1]);
      } else if i > 0 {
        assert ([x] + s)[i] == s[i - 1] && ([x] + s)[j] == s[j - 1];
      }
    }
  }

  /** A string greater than the head goes into the tail, behind the head. */
  lemma InsertBehind(x: Bytes, s: seq<Bytes>, rest: seq<Bytes>)
    requires Sorted(s) && |s| > 0 && !LessEq(x, s[0])
    requires Sorted(rest) && multiset(rest) == multiset(s[1..]) + multiset{x}
    ensures Sorted([s[0]] + rest)
    ensures multiset([s[0]] + rest) == multiset(s) + multiset{x}
  {
    assert s == [s[0]] + s[1..];
    LessEqTotal(x, s[0]);
    var r := [s[0]] + rest;
    forall i, j | 0 <= i < j < |r| ensures LessEq(r[i], r[j]) {
      assert r[j] == rest[j - 1];
      if i == 0 {
        assert rest[j - 1] in multiset(rest);
        if rest[j - 1] != x {
          assert rest[j - 1] in multiset(s[1..]);
          HeadIsLeast(s, rest[j - 1]);
        }
      } else {
        assert r[i] == rest[i - 1];
      }
    }
  }

  /** sort.Strings, as the sorted copy of its argument. */
  function SortStrings(s: seq<Bytes>): (r: seq<Bytes>)
    ensures Sorted(r)
    ensures multiset(r) == multiset(s)
  {
    if s == [] then []
    else
      assert s == [s[0]] + s[1..];
      Insert(s[0], SortStrings(s[1..]))
  }

  lemma MultisetTail(s: seq<Bytes>)
    requires |s| > 0
    ensures multiset(s[1..]) == multiset(s) - multiset{s[0]}
  {
    assert s == [s[0]] + s[1..];
  }

  lemma SortedTail(s: seq<Bytes>)
    requires Sorted(s) && |s| > 0
    ensures Sorted(s[1..])
  {
    forall i, j | 0 <= i < j < |s| - 1 ensures LessEq(s[1..][i], s[1..][j]) {
      assert s[1..][i] == s[i + 1] && s[1..][j] == s[j + 1];
    }
  }

  /** Two sorted sequences holding the same strings are equal. */
  lemma {:induction false} SortedUnique(a: seq<Bytes>, b: seq<Bytes>)
    requires Sorted(a) && Sorted(b) && multiset(a) == multiset(b)
    ensures a == b
    decreases |a|
  {
    if a != [] {
      assert a[0] in multiset(a);
      assert b != [];
      assert b[0] in multiset(b);
      HeadIsLeast(a, b[0]);
      HeadIsLeast(b, a[0]);
      LessEqAntisymmetric(a[0], b[0]);
      MultisetTail(a);
      MultisetTail(b);
      SortedTail(a);
      SortedTail(b);
      SortedUnique(a[1..], b[1..]);
      assert |a| == |b| by {
        assert |multiset(a)| == |a| && |multiset(b)| == |b|;
      }
      forall i | 0 < i < |a| ensures a[i] == b[i] {
        assert a[i] == a[1..][i - 1] && b[i] == b[1..][i - 1];
      }
    }
  }

  /** Some sequence holding exactly the strings of `ms`. */
  ghost function SequenceOf(ms: multiset<Bytes>): (s: seq<Bytes>)
    ensures multiset(s) == ms
    decreases |ms|
  {
    if ms == multiset{} then []
    else
      var x :| x in ms;
      SequenceOf(ms - multiset{x}) + [x]
  }

  /** The strings of `ms` in ascending order: the one sorted sequence whose
      multiset is `ms`, whatever order the strings were gathered in. */
  ghost function Ascending(ms: multiset<Bytes>): (r: seq<Bytes>)
    ensures Sorted(r) && multiset(r) == ms
  {
    SortStrings(SequenceOf(ms))
  }

  /** Sorting any arrangement of the same strings gives the same result. */
  lemma SortIsAscending(s: seq<Bytes>)
    ensures SortStrings(s) == Ascending(multiset(s))
  {
    SortedUnique(SortStrings(s), Ascending(multiset(s)));
  }
}
