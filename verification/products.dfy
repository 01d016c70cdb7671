/** The product list of the audience-member alerts
    (events/alerts/new_audience_member.go): comma-separated decimal product
    ids, read into int64 values and printed back. */
module Products {
  import opened ByteText
  import opened Failures
  import opened Wrappers

  predicate IsListByte(c: Byte) { c == ',' || IsDigit(c) }

  predicate AllListBytes(s: Bytes) { forall i :: 0 <= i < |s| ==> IsListByte(s[i]) }

  /** The int64 value the parser accumulates for one run of digits: each
      digit multiplies by ten and adds, wrapping around as Go's int64 does. */
  function SegmentValue(seg: Bytes): int
    requires AllDigits(seg)
  {
    if seg == [] then 0 else Wrap64(SegmentValue(seg[..|seg| - 1]) * 10 + DigitValue(seg[|seg| - 1]))
  }

  /** The values after reading a whole list of digits and commas: a comma
      opens a new value at 0, a digit extends the last value. */
  function Values(data: Bytes): (vs: seq<int>)
    requires AllListBytes(data)
    ensures |vs| == Count(data, ',') + 1
  {
    if data == [] then [0]
    else
      var vs := Values(data[..|data| - 1]);
      var c := data[|data| - 1];
      if c == ',' then vs + [0]
      else vs[..|vs| - 1] + [Wrap64(vs[|vs| - 1] * 10 + DigitValue(c))]
  }

  /** Where reading stops with "not a number": the first byte that is
      neither a digit nor a comma. */
  function FirstBad(data: Bytes): (k: nat)
    requires !AllListBytes(data)
    ensures k < |data| && !IsListByte(data[k]) && AllListBytes(data[..k])
    ensures Count(data[..k], ',') <= Count(data, ',')
  {
    var k :=
      if !IsListByte(data[0]) then 0
      else
        assert !AllListBytes(data[1..]) by {
          var i :| 0 <= i < |data| && !IsListByte(data[i]);
          assert data[1..][i - 1] == data[i];
        }
        1 + FirstBad(data[1..]);
    CountStaysBelow(data, k);
    k
  }

  /** `vs` followed by zeros up to length n: the slice allocated up front. */
  function Padded(vs: seq<int>, n: nat): (r: seq<int>)
    requires |vs| <= n
    ensures |r| == n && r[..|vs|] == vs
  {
    vs + seq(n - |vs|, _ => 0)
  }

  const NotANumber: Err := Plain("not a number")

  /** What UnmarshalText does to the list, as a value: the empty input gives
      the empty (nil) list; a bad byte gives the error; anything else the
      values between the commas. */
  function ParseProducts(data: Bytes): (r: Result)
  {
    if data == [] then Parsed([])
    else if AllListBytes(data) then Parsed(Values(data))
    else Failed(NotANumber)
  }

  datatype Result = Parsed(values: seq<int>) | Failed(err: Err)

  /** `String()`: the base-10 values joined with commas. */
  function ProductsText(vs: seq<int>): Bytes
  {
    Join(seq(|vs|, i requires 0 <= i < |vs| => IntText(vs[i])), ',')
  }

  /** The first loop of UnmarshalText: one more value than there are commas. */
  method ListLength(data: Bytes) returns (l: nat)
    ensures l == Count(data, ',') + 1
  {
    l := 1;
    for i := 0 to |data|
      invariant l == Count(data[..i], ',') + 1
    {
      assert data[..i + 1][..i] == data[..i];
      if data[i] == ',' {
        l := l + 1;
      }
    }
    assert data[..|data|] == data;
  }

  /** The second loop of UnmarshalText: each digit extends the value at the
      current index, each comma moves to the next one, and the first other
      byte stops the reading with what was read so far. */
  method ReadValues(data: Bytes, l: nat) returns (n: seq<int>, ok: bool)
    requires l == Count(data, ',') + 1
    ensures ok <==> AllListBytes(data)
    ensures ok ==> n == Values(data)
    ensures !ok ==> n == Padded(Values(data[..FirstBad(data)]), l)
  {
    n := seq(l, _ => 0);
    var i := 0;
    var rest := data;
    ghost var k := 0;
    assert data[..0] == [];
    while |rest| > 0
      invariant 0 <= k <= |data| && rest == data[k..]
      invariant AllListBytes(data[..k])
      invariant i == Count(data[..k], ',') && i < l
      invariant n == Padded(Values(data[..k]), l)
    {
      var c := rest[0];
      ReadStep(data, k);
      if c != ',' {
        if c < '0' || c > '9' {
          FirstBadIs(data, k);
          return n, false;
        }
        DigitAt(data, k, l, n);
        n := PushDigit(n, i, c);
      } else {
        CommaBelow(data, k, l);
        CommaAt(data, k, l);
        i := i + 1;
      }
      rest := rest[1..];
      k := k + 1;
    }
    assert data[..k] == data;
    assert n == Values(data) by {
      assert |Values(data)| == l;
    }
    ok := true;
  }

  // ---------------------------------------------------------------------------
  // The receiver.

  class AudienceMemberProducts {
    var values: seq<int>

    constructor ()
      ensures values == []
    {
      values := [];
    }

    /** Counts the commas to size the list, then consumes `data` one byte at
        a time into a zeroed slice of that size, which becomes the receiver's
        list. On a bad byte the list keeps what was read so far. */
    method UnmarshalText(data: Bytes) returns (err: Option<Err>)
      modifies this
      ensures ParseProducts(data).Parsed? ==> err.None? && values == ParseProducts(data).values
      ensures ParseProducts(data).Failed? ==>
        err == Some(NotANumber)
        && values == Padded(Values(data[..FirstBad(data)]), Count(data, ',') + 1)
    {
      if |data| == 0 {
        values := [];
        return None;
      }
      var l := ListLength(data);
      var n, ok := ReadValues(data, l);
      values := n;
      err := if ok then None else Some(NotANumber);
    }

    /** A JSON value: the bytes strictly between the first and the last are
        read as text; fewer than two bytes change nothing. */
    method UnmarshalJSON(data: Bytes) returns (err: Option<Err>)
      modifies this
      ensures |data| < 2 ==> values == old(values) && err.None?
      ensures |data| >= 2 ==> var inner := data[1..|data| - 1];
        (ParseProducts(inner).Parsed? ==> err.None? && values == ParseProducts(inner).values)
        && (ParseProducts(inner).Failed? ==>
              err == Some(NotANumber) && values == Padded(Values(inner[..FirstBad(inner)]), Count(inner, ',') + 1))
    {
      if |data| < 2 {
        return None;
      }
      err := UnmarshalText(data[1..|data| - 1]);
    }

    /** Formats each value and joins them with commas. */
    method String() returns (s: Bytes)
      ensures s == ProductsText(values)
    {
      var vs := values;
      var texts := new Bytes[|vs|];
      for i := 0 to |vs|
        invariant forall k :: 0 <= k < i ==> texts[k] == IntText(vs[k])
      {
        texts[i] := IntText(vs[i]);
      }
      assert texts[..] == seq(|vs|, i requires 0 <= i < |vs| => IntText(vs[i]));
      s := Join(texts[..], ',');
    }
  }

  // ---------------------------------------------------------------------------
  // Facts the method proofs use.

  lemma FirstBadIs(data: Bytes, k: nat)
    requires k < |data| && AllListBytes(data[..k]) && !IsListByte(data[k])
    ensures !AllListBytes(data) && FirstBad(data) == k
  {
    assert !IsListByte(data[k]);
    if k > 0 {
      assert IsListByte(data[..k][0]);
      assert data[1..][..k - 1] == data[..k][1..];
      FirstBadIs(data[1..], k - 1);
    }
  }

  lemma ReadStep(data: Bytes, k: nat)
    requires k < |data|
    ensures data[..k + 1] == data[..k] + [data[k]]
    ensures data[k..][0] == data[k] && data[k..][1..] == data[k + 1..]
  {
  }

  /** Reading one more list byte. */
  lemma ListSnoc(p: Bytes, c: Byte, q: Bytes)
    requires q == p + [c] && AllListBytes(p) && IsListByte(c)
    ensures AllListBytes(q)
    ensures Count(q, ',') == Count(p, ',') + (if c == ',' then 1 else 0)
    ensures var vs := Values(p);
      Values(q) == if c == ',' then vs + [0] else vs[..|vs| - 1] + [Wrap64(vs[|vs| - 1] * 10 + DigitValue(c))]
  {
    ListBytesSnoc(p, c, q);
    assert q[..|q| - 1] == p && q[|q| - 1] == c;
  }

  lemma ListBytesSnoc(p: Bytes, c: Byte, q: Bytes)
    requires q == p + [c] && AllListBytes(p) && IsListByte(c)
    ensures AllListBytes(q)
  {
    forall i | 0 <= i < |q| ensures IsListByte(q[i]) {
      if i < |p| {
        assert q[i] == p[i];
      }
    }
  }

  /** The two wrapping steps of the source equal one wrap of ten times the
      value plus the digit. */
  lemma DigitArith(x: int, c: Byte)
    requires IsDigit(c)
    ensures Wrap64(Wrap64(Wrap64(x * 10) + c as int) - '0' as int) == Wrap64(x * 10 + DigitValue(c))
  {
    WrapTwice(x * 10, c as int);
    WrapTwice(x * 10 + c as int, - ('0' as int));
  }

  /** `(*n)[i] = (*n)[i]*10` then `(*n)[i] = (*n)[i] + int64(c) - '0'`, each
      step wrapping as int64 arithmetic does. */
  method PushDigit(n: seq<int>, i: nat, c: Byte) returns (m: seq<int>)
    requires i < |n| && IsDigit(c)
    ensures m == n[i := Wrap64(n[i] * 10 + DigitValue(c))]
  {
    var x := Wrap64(n[i] * 10);
    x := Wrap64(Wrap64(x + c as int) - '0' as int);
    DigitArith(n[i], c);
    m := n[i := x];
  }

  /** One digit: the last value so far becomes ten times itself plus the
      digit. */
  lemma DigitStep(p: Bytes, c: Byte, l: nat, before: seq<int>)
    requires AllListBytes(p) && IsDigit(c) && Count(p, ',') < l
    requires before == Padded(Values(p), l)
    ensures AllListBytes(p + [c]) && Count(p + [c], ',') == Count(p, ',')
    ensures var i := Count(p, ',');
      before[i := Wrap64(before[i] * 10 + DigitValue(c))] == Padded(Values(p + [c]), l)
  {
    var vs := Values(p);
    var i := |vs| - 1;
    var w := Wrap64(vs[i] * 10 + DigitValue(c));
    ListSnoc(p, c, p + [c]);
    assert Values(p + [c]) == vs[..i] + [w];
    assert before[i] == vs[i] by {
      assert before[..|vs|] == vs;
    }
    PaddedUpdate(vs, l, w);
    assert Count(p, ',') == i;
    assert before[i := w] == Padded(Values(p + [c]), l);
  }

  /** DigitStep for the byte at k of the whole input. */
  lemma DigitAt(data: Bytes, k: nat, l: nat, n: seq<int>)
    requires k < |data| && IsDigit(data[k])
    requires AllListBytes(data[..k]) && Count(data[..k], ',') < l
    requires n == Padded(Values(data[..k]), l)
    ensures AllListBytes(data[..k + 1]) && Count(data[..k + 1], ',') == Count(data[..k], ',')
    ensures var i := Count(data[..k], ',');
      n[i := Wrap64(n[i] * 10 + DigitValue(data[k]))] == Padded(Values(data[..k + 1]), l)
  {
    assert data[..k + 1] == data[..k] + [data[k]];
    DigitStep(data[..k], data[k], l, n);
  }

  /** CommaStep for the comma at k of the whole input. */
  lemma CommaAt(data: Bytes, k: nat, l: nat)
    requires k < |data| && data[k] == ','
    requires AllListBytes(data[..k]) && Count(data[..k], ',') + 1 < l
    ensures AllListBytes(data[..k + 1]) && Count(data[..k + 1], ',') == Count(data[..k], ',') + 1
    ensures Padded(Values(data[..k]), l) == Padded(Values(data[..k + 1]), l)
  {
    assert data[..k + 1] == data[..k] + [data[k]];
    CommaStep(data[..k], l);
  }

  /** One comma: the next value starts, at the 0 the slice already holds. */
  lemma CommaStep(p: Bytes, l: nat)
    requires AllListBytes(p) && Count(p, ',') + 1 < l
    ensures AllListBytes(p + [',']) && Count(p + [','], ',') == Count(p, ',') + 1
    ensures Padded(Values(p), l) == Padded(Values(p + [',']), l)
  {
    ListSnoc(p, ',', p + [',']);
    PaddedComma(Values(p), l);
  }

  /** A comma before the end leaves room for the value after it. */
  lemma CommaBelow(data: Bytes, k: nat, l: nat)
    requires k < |data| && data[k] == ',' && l == Count(data, ',') + 1
    ensures Count(data[..k], ',') + 1 < l
  {
    CountStaysBelow(data, k + 1);
    assert data[..k + 1][..k] == data[..k];
  }

  lemma PaddedUpdate(vs: seq<int>, n: nat, v: int)
    requires 1 <= |vs| <= n
    ensures Padded(vs, n)[|vs| - 1 := v] == Padded(vs[..|vs| - 1] + [v], n)
  {
  }

  lemma PaddedComma(vs: seq<int>, n: nat)
    requires |vs| < n
    ensures Padded(vs, n) == Padded(vs + [0], n)
  {
    assert Padded(vs, n)[|vs|] == 0;
  }

  lemma CountStaysBelow(data: Bytes, k: nat)
    requires k <= |data|
    ensures Count(data[..k], ',') <= Count(data, ',')
  {
    CountAppend(data[..k], data[k..], ',');
    assert data[..k] + data[k..] == data;
  }

  // ---------------------------------------------------------------------------
  // The list as values between commas.

  lemma {:induction false} SplitDigits(data: Bytes)
    requires AllListBytes(data)
    ensures forall k :: 0 <= k < |Split(data, ',')| ==> AllDigits(Split(data, ',')[k])
  {
    if data != [] {
      var t := data[..|data| - 1];
      SplitDigits(t);
      var p := Split(t, ',');
      var c := data[|data| - 1];
      if c != ',' {
        assert IsDigit(c);
        var q := Split(data, ',');
        assert q == p[..|p| - 1] + [p[|p| - 1] + [c]];
        forall k | 0 <= k < |q| ensures AllDigits(q[k]) {
          if k < |p| - 1 {
            assert q[k] == p[k];
          }
        }
      }
    }
  }

  /** `vs` holds, position by position, the values of the digit runs `p`. */
  predicate ValuesOf(vs: seq<int>, p: seq<Bytes>)
  {
    |vs| == |p| &&
    forall k :: 0 <= k < |p| ==> AllDigits(p[k]) && vs[k] == SegmentValue(p[k])
  }

  lemma ValuesOfComma(vs: seq<int>, p: seq<Bytes>)
    requires ValuesOf(vs, p)
    ensures ValuesOf(vs + [0], p + [[]])
  {
    var vs', p' := vs + [0], p + [[]];
    forall k | 0 <= k < |p'| ensures AllDigits(p'[k]) && vs'[k] == SegmentValue(p'[k]) {
      if k < |p| {
        assert p'[k] == p[k] && vs'[k] == vs[k];
      }
    }
  }

  lemma ValuesOfDigit(vs: seq<int>, p: seq<Bytes>, c: Byte)
    requires ValuesOf(vs, p) && |p| >= 1 && IsDigit(c)
    ensures ValuesOf(vs[..|vs| - 1] + [Wrap64(vs[|vs| - 1] * 10 + DigitValue(c))],
                     p[..|p| - 1] + [p[|p| - 1] + [c]])
  {
    var last := p[|p| - 1] + [c];
    assert last[..|last| - 1] == p[|p| - 1];
    var vs' := vs[..|vs| - 1] + [Wrap64(vs[|vs| - 1] * 10 + DigitValue(c))];
    var p' := p[..|p| - 1] + [last];
    forall k | 0 <= k < |p'| ensures AllDigits(p'[k]) && vs'[k] == SegmentValue(p'[k]) {
      if k < |p| - 1 {
        assert p'[k] == p[k] && vs'[k] == vs[k];
      }
    }
  }

  lemma {:induction false} ValuesMatchSegments(data: Bytes)
    requires AllListBytes(data)
    ensures ValuesOf(Values(data), Split(data, ','))
  {
    if data == [] {
      assert Split(data, ',') == [[]];
    } else {
      var t := data[..|data| - 1];
      assert AllListBytes(t);
      ValuesMatchSegments(t);
      var c := data[|data| - 1];
      var vs, p := Values(t), Split(t, ',');
      if c == ',' {
        assert Values(data) == vs + [0];
        assert Split(data, ',') == p + [[]];
        ValuesOfComma(vs, p);
      } else {
        assert Values(data) == vs[..|vs| - 1] + [Wrap64(vs[|vs| - 1] * 10 + DigitValue(c))];
        assert Split(data, ',') == p[..|p| - 1] + [p[|p| - 1] + [c]];
        ValuesOfDigit(vs, p, c);
      }
    }
  }

  /** Each value is the wrapped decimal value of the digits between two
      commas (or the ends); an empty segment gives 0. */
  lemma ValuesAreSegments(data: Bytes)
    requires AllListBytes(data)
    ensures |Values(data)| == |Split(data, ',')|
    ensures forall k :: 0 <= k < |Split(data, ',')| ==>
      AllDigits(Split(data, ',')[k]) && Values(data)[k] == SegmentValue(Split(data, ',')[k])
  {
    ValuesMatchSegments(data);
  }

  /** Values that fit in int64 are read exactly, with no wrap-around. */
  lemma {:induction false} SegmentValueExact(seg: Bytes)
    requires AllDigits(seg) && DecimalValue(seg) < TwoTo63
    ensures SegmentValue(seg) == DecimalValue(seg)
  {
    if seg != [] {
      SegmentValueExact(seg[..|seg| - 1]);
    }
  }

  lemma {:induction false} JoinListBytes(parts: seq<Bytes>)
    requires forall k :: 0 <= k < |parts| ==> AllDigits(parts[k])
    ensures AllListBytes(Join(parts, ','))
  {
    if |parts| > 1 {
      JoinListBytes(parts[..|parts| - 1]);
    }
  }

  lemma {:induction false} DigitsHaveNoComma(s: Bytes)
    requires AllDigits(s)
    ensures ',' !in s
  {
    forall i | 0 <= i < |s| ensures s[i] != ',' {
      assert IsDigit(s[i]);
    }
  }

  /** Printing then reading gives the list back, for non-negative int64
      values (the empty list prints as "" and reads back as empty). */
  lemma TextRoundTrip(xs: seq<int>)
    requires forall k :: 0 <= k < |xs| ==> 0 <= xs[k] < TwoTo63
    ensures ParseProducts(ProductsText(xs)) == Parsed(xs)
  {
    if xs != [] {
      var parts := seq(|xs|, i requires 0 <= i < |xs| => IntText(xs[i]));
      var s := ProductsText(xs);
      assert s == Join(parts, ',');
      forall k | 0 <= k < |parts|
        ensures AllDigits(parts[k]) && ',' !in parts[k] && |parts[k]| >= 1
        ensures DecimalValue(parts[k]) == xs[k]
      {
        assert parts[k] == DecimalText(xs[k]);
        DigitsHaveNoComma(parts[k]);
        DecimalTextValue(xs[k]);
      }
      JoinListBytes(parts);
      SplitJoin(parts, ',');
      NonEmptyJoin(parts, ',');
      ValuesAreSegments(s);
      var vs := Values(s);
      assert |vs| == |xs|;
      forall k | 0 <= k < |xs| ensures vs[k] == xs[k] {
        SegmentValueExact(parts[k]);
      }
      assert vs == xs;
    }
  }

  lemma NonEmptyJoin(parts: seq<Bytes>, sep: Byte)
    requires |parts| >= 1 && |parts[0]| >= 1
    ensures Join(parts, sep) != []
  {
    if |parts| > 1 {
      JoinFront(parts, sep);
    }
  }

  /** A list spelled as the printer spells it — decimal values without
      leading zeros, each below 2^63 — reads and prints back to itself. */
  predicate IsCanonicalList(s: Bytes)
  {
    s == [] ||
    forall k :: 0 <= k < |Split(s, ',')| ==>
      IsCanonicalDecimal(Split(s, ',')[k]) && DecimalValue(Split(s, ',')[k]) < TwoTo63
  }

  lemma CanonicalRoundTrip(s: Bytes)
    requires IsCanonicalList(s)
    ensures ParseProducts(s).Parsed?
    ensures ProductsText(ParseProducts(s).values) == s
  {
    if s != [] {
      var parts := Split(s, ',');
      SplitPieces(s, ',');
      JoinListBytes(parts);
      ValuesAreSegments(s);
      var vs := Values(s);
      var texts := seq(|vs|, i requires 0 <= i < |vs| => IntText(vs[i]));
      forall k | 0 <= k < |parts| ensures texts[k] == parts[k] {
        SegmentValueExact(parts[k]);
        DecimalValueText(parts[k]);
      }
      assert texts == parts;
    }
  }

  /** The length of a parsed list is one more than the number of commas. */
  lemma ParsedLength(data: Bytes)
    requires data != [] && ParseProducts(data).Parsed?
    ensures |ParseProducts(data).values| == Count(data, ',') + 1
  {
  }

  /** Reading fails exactly when some byte is neither a digit nor a comma. */
  lemma FailsOnlyOnBadByte(data: Bytes)
    ensures ParseProducts(data).Failed? <==> exists i :: 0 <= i < |data| && !IsListByte(data[i])
  {
  }
}
