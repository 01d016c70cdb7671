/** Byte strings as Go sees them: a Go `string` or `[]byte` is a sequence of
    bytes. A `Byte` is a char below 256, so that ASCII literals can be written
    directly. This module also holds the decimal text of numbers (fmt's `%d`,
    strconv.FormatInt), Go's int64 wrap-around, and splitting and joining at a
    separator byte (strings.Split, strings.Join). */
module ByteText {

  type Byte = c: char | c as int < 256 witness '\0'
  type Bytes = seq<Byte>

  predicate IsDigit(c: Byte) { '0' <= c <= '9' }

  predicate AllDigits(s: Bytes) { forall i :: 0 <= i < |s| ==> IsDigit(s[i]) }

  function DigitValue(c: Byte): (d: nat)
    requires IsDigit(c)
    ensures d < 10
  {
    c as int - '0' as int
  }

  function DigitChar(d: nat): (c: Byte)
    requires d < 10
    ensures IsDigit(c) && DigitValue(c) == d
  {
    (d + '0' as int) as char
  }

  function Pow10(n: nat): (p: nat)
    ensures p >= 1
  {
    if n == 0 then 1 else 10 * Pow10(n - 1)
  }

  /** Decimal text of a natural number: no sign, no leading zero ("0" for zero). */
  function DecimalText(n: nat): (r: Bytes)
    ensures |r| >= 1 && AllDigits(r)
    ensures |r| > 1 ==> r[0] != '0'
    decreases n
  {
    if n < 10 then [DigitChar(n)] else DecimalText(n / 10) + [DigitChar(n % 10)]
  }

  /** Value of a digit string read left to right, without any bound. */
  function DecimalValue(s: Bytes): nat
    requires AllDigits(s)
  {
    if s == [] then 0 else DecimalValue(s[..|s| - 1]) * 10 + DigitValue(s[|s| - 1])
  }

  /** A digit string as DecimalText writes it: non-empty, no leading zero. */
  predicate IsCanonicalDecimal(s: Bytes) {
    |s| >= 1 && AllDigits(s) && (|s| > 1 ==> s[0] != '0')
  }

  lemma {:induction false} DecimalTextValue(n: nat)
    ensures DecimalValue(DecimalText(n)) == n
    decreases n
  {
    if n >= 10 {
      var t := DecimalText(n);
      assert t[..|t| - 1] == DecimalText(n / 10);
      DecimalTextValue(n / 10);
    }
  }

  lemma {:induction false} LeadingDigitPositive(s: Bytes)
    requires IsCanonicalDecimal(s) && s[0] != '0'
    ensures DecimalValue(s) >= Pow10(|s| - 1)
  {
    if |s| > 1 {
      var p := s[..|s| - 1];
      assert p[0] == s[0];
      LeadingDigitPositive(p);
    }
  }

  lemma {:induction false} DecimalValueText(s: Bytes)
    requires IsCanonicalDecimal(s)
    ensures DecimalText(DecimalValue(s)) == s
  {
    if |s| > 1 {
      var p := s[..|s| - 1];
      assert p[0] == s[0];
      LeadingDigitPositive(p);
      DecimalValueText(p);
      var v := DecimalValue(s);
      assert v / 10 == DecimalValue(p) && v % 10 == DigitValue(s[|s| - 1]);
      assert s == p + [s[|s| - 1]];
    }
  }

  /** DecimalText is one-to-one: different numbers never print alike. */
  lemma DecimalTextInjective(m: nat, n: nat)
    requires DecimalText(m) == DecimalText(n)
    ensures m == n
  {
    DecimalTextValue(m);
    DecimalTextValue(n);
  }

  lemma {:induction false} DecimalValueBound(s: Bytes)
    requires AllDigits(s)
    ensures DecimalValue(s) < Pow10(|s|)
  {
    if s != [] {
      DecimalValueBound(s[..|s| - 1]);
    }
  }

  /** strconv.FormatInt(x, 10): a minus sign for negative values. */
  function IntText(x: int): (r: Bytes)
    ensures x >= 0 ==> r == DecimalText(x)
    ensures x < 0 ==> |r| >= 2 && r[0] == '-' && r[1..] == DecimalText(-x)
  {
    if x < 0 then ['-'] + DecimalText(-x) else DecimalText(x)
  }

  /** The low `w` decimal digits of `n`, zero-padded: Go's time formatting of
      a fixed-width field ("2006", "01", ...) for values that fit the width. */
  function FixedDigits(n: nat, w: nat): (r: Bytes)
    ensures |r| == w && AllDigits(r)
  {
    if w == 0 then [] else FixedDigits(n / 10, w - 1) + [DigitChar(n % 10)]
  }

  lemma {:induction false} FixedDigitsValue(n: nat, w: nat)
    requires n < Pow10(w)
    ensures DecimalValue(FixedDigits(n, w)) == n
  {
    if w > 0 {
      var r := FixedDigits(n, w);
      assert r[..|r| - 1] == FixedDigits(n / 10, w - 1);
      FixedDigitsValue(n / 10, w - 1);
    }
  }

  lemma {:induction false} ValueFixedDigits(s: Bytes)
    requires AllDigits(s)
    ensures FixedDigits(DecimalValue(s), |s|) == s
  {
    if s != [] {
      var p := s[..|s| - 1];
      ValueFixedDigits(p);
      var v := DecimalValue(s);
      assert v / 10 == DecimalValue(p) && v % 10 == DigitValue(s[|s| - 1]);
      assert s == p + [s[|s| - 1]];
    }
  }

  // ---------------------------------------------------------------------------
  // Go's int64 arithmetic wraps around modulo 2^64.

  const TwoTo63: int := 0x8000_0000_0000_0000
  const TwoTo64: int := 0x1_0000_0000_0000_0000

  predicate IsInt64(x: int) { -TwoTo63 <= x < TwoTo63 }

  /** The int64 that two's-complement arithmetic leaves for the exact value x. */
  function Wrap64(x: int): (r: int)
    ensures IsInt64(r)
    ensures IsInt64(x) ==> r == x
  {
    (x + TwoTo63) % TwoTo64 - TwoTo63
  }

  /** Wrapping after every operation equals wrapping once at the end. */
  lemma WrapTwice(x: int, y: int)
    ensures Wrap64(Wrap64(x) + y) == Wrap64(x + y)
  {
    var k := (x + TwoTo63) / TwoTo64;
    assert Wrap64(x) == x - k * TwoTo64;
    assert Wrap64(x) + y + TwoTo63 == (x + y + TwoTo63) - k * TwoTo64;
  }

  // ---------------------------------------------------------------------------
  // Separators.

  function Count(s: Bytes, c: Byte): nat
  {
    if s == [] then 0 else Count(s[..|s| - 1], c) + (if s[|s| - 1] == c then 1 else 0)
  }

  /** strings.Split(s, sep) for a one-byte separator: the pieces between
      separators, always at least one (the empty string gives [""]). */
  function Split(s: Bytes, sep: Byte): (parts: seq<Bytes>)
    ensures |parts| == Count(s, sep) + 1
  {
    if s == [] then [[]]
    else
      var p := Split(s[..|s| - 1], sep);
      var c := s[|s| - 1];
      if c == sep then p + [[]] else p[..|p| - 1] + [p[|p| - 1] + [c]]
  }

  /** strings.Join(parts, sep); joining no parts gives the empty string. */
  function Join(parts: seq<Bytes>, sep: Byte): Bytes
  {
    if |parts| == 0 then []
    else if |parts| == 1 then parts[0]
    else Join(parts[..|parts| - 1], sep) + [sep] + parts[|parts| - 1]
  }

  predicate NoSep(parts: seq<Bytes>, sep: Byte) {
    forall i :: 0 <= i < |parts| ==> sep !in parts[i]
  }

  lemma {:induction false} SplitPieces(s: Bytes, sep: Byte)
    ensures NoSep(Split(s, sep), sep)
    ensures Join(Split(s, sep), sep) == s
  {
    if s != [] {
      var t := s[..|s| - 1];
      SplitPieces(t, sep);
      var p := Split(t, sep);
      var c := s[|s| - 1];
      assert s == t + [c];
      if c == sep {
        assert Split(s, sep) == p + [[]];
        assert (p + [[]])[..|p|] == p;
      } else {
        var q := p[..|p| - 1] + [p[|p| - 1] + [c]];
        assert Split(s, sep) == q;
        if |p| == 1 {
          assert Join(p, sep) == p[0];
        } else {
          assert q[..|q| - 1] == p[..|p| - 1];
          assert Join(p, sep) == Join(p[..|p| - 1], sep) + [sep] + p[|p| - 1];
        }
      }
    }
  }

  lemma {:induction false} JoinLast(parts: seq<Bytes>, sep: Byte, c: Byte)
    requires |parts| >= 1
    ensures Join(parts[..|parts| - 1] + [parts[|parts| - 1] + [c]], sep) == Join(parts, sep) + [c]
  {
    var q := parts[..|parts| - 1] + [parts[|parts| - 1] + [c]];
    if |parts| > 1 {
      assert q[..|q| - 1] == parts[..|parts| - 1];
    }
  }

  lemma {:induction false} SplitSnoc(u: Bytes, c: Byte, sep: Byte)
    ensures var p := Split(u, sep);
      Split(u + [c], sep) == if c == sep then p + [[]] else p[..|p| - 1] + [p[|p| - 1] + [c]]
  {
    assert (u + [c])[..|u|] == u;
  }

  /** A byte other than the separator extends the last piece. */
  lemma SplitSnocPlain(u: Bytes, c: Byte, sep: Byte, init: seq<Bytes>, last: Bytes)
    requires c != sep && Split(u, sep) == init + [last]
    ensures Split(u + [c], sep) == init + [last + [c]]
  {
    SplitSnoc(u, c, sep);
    var p := Split(u, sep);
    assert p[..|p| - 1] == init;
  }

  /** Text without a separator extends the last piece. */
  lemma {:induction false} SplitExtend(s: Bytes, t: Bytes, sep: Byte)
    requires sep !in t
    ensures var p := Split(s, sep);
      Split(s + t, sep) == p[..|p| - 1] + [p[|p| - 1] + t]
    decreases |t|
  {
    if t == [] {
      var p := Split(s, sep);
      assert s + t == s;
      assert p[|p| - 1] + t == p[|p| - 1];
      assert p[..|p| - 1] + [p[|p| - 1]] == p;
    } else {
      var t' := t[..|t| - 1];
      assert t == t' + [t[|t| - 1]];
      SplitExtend(s, t', sep);
      SplitExtendStep(s, t', t[|t| - 1], sep);
    }
  }

  lemma {:induction false} SplitExtendStep(s: Bytes, t: Bytes, c: Byte, sep: Byte)
    requires sep !in t + [c]
    requires var p := Split(s, sep);
      Split(s + t, sep) == p[..|p| - 1] + [p[|p| - 1] + t]
    ensures var p := Split(s, sep);
      Split(s + (t + [c]), sep) == p[..|p| - 1] + [p[|p| - 1] + (t + [c])]
  {
    var p := Split(s, sep);
    var init, last := p[..|p| - 1], p[|p| - 1];
    var u := s + t;
    assert c != sep by { assert c in t + [c]; }
    SplitSnocPlain(u, c, sep, init, last + t);
    assert (last + t) + [c] == last + (t + [c]);
    assert s + (t + [c]) == u + [c];
  }

  /** Splitting undoes joining when no piece holds the separator. */
  lemma {:induction false} SplitJoin(parts: seq<Bytes>, sep: Byte)
    requires |parts| >= 1 && NoSep(parts, sep)
    ensures Split(Join(parts, sep), sep) == parts
    decreases |parts|
  {
    var last := parts[|parts| - 1];
    if |parts| == 1 {
      SplitExtend([], last, sep);
      assert [] + last == last;
    } else {
      var init := parts[..|parts| - 1];
      assert NoSep(init, sep) by {
        forall i | 0 <= i < |init| ensures sep !in init[i] { assert init[i] == parts[i]; }
      }
      SplitJoin(init, sep);
      var s := Join(init, sep) + [sep];
      assert Split(s, sep) == init + [[]] by {
        assert s[..|s| - 1] == Join(init, sep);
      }
      SplitExtend(s, last, sep);
      assert (init + [[]])[..|init|] == init;
      assert [] + last == last;
      assert init + [last] == parts;
    }
  }

  /** Join puts exactly one separator between neighbouring pieces. */
  lemma {:induction false} JoinFront(parts: seq<Bytes>, sep: Byte)
    requires |parts| >= 2
    ensures Join(parts, sep) == parts[0] + [sep] + Join(parts[1..], sep)
    decreases |parts|
  {
    if |parts| > 2 {
      var init := parts[..|parts| - 1];
      JoinFront(init, sep);
      assert init[1..] == parts[1..][..|parts| - 2];
    }
  }

  lemma {:induction false} JoinNoSep(parts: seq<Bytes>, sep: Byte)
    requires NoSep(parts, sep)
    ensures Count(Join(parts, sep), sep) == if |parts| == 0 then 0 else |parts| - 1
  {
    if |parts| >= 1 {
      SplitJoin(parts, sep);
    }
  }

  lemma {:induction false} CountAppend(s: Bytes, t: Bytes, c: Byte)
    ensures Count(s + t, c) == Count(s, c) + Count(t, c)
    decreases |t|
  {
    if t == [] {
      assert s + t == s;
    } else {
      CountAppend(s, t[..|t| - 1], c);
      assert (s + t)[..|s + t| - 1] == s + t[..|t| - 1];
    }
  }

  lemma {:induction false} CountZero(s: Bytes, c: Byte)
    ensures Count(s, c) == 0 <==> c !in s
  {
    if s != [] {
      CountZero(s[..|s| - 1], c);
      assert s == s[..|s| - 1] + [s[|s| - 1]];
    }
  }

  /** The first piece of a split is the text before the first separator. */
  lemma {:induction false} SplitHead(s: Bytes, sep: Byte)
    ensures var h := Split(s, sep)[0];
      h <= s && sep !in h && (|h| < |s| ==> s[|h|] == sep)
  {
    if s != [] {
      var t := s[..|s| - 1];
      var c := s[|s| - 1];
      SplitHead(t, sep);
      var p := Split(t, sep);
      assert s == t + [c];
      if c == sep {
        assert Split(s, sep)[0] == p[0];
      } else if |p| == 1 {
        SplitPieces(t, sep);
        assert p[0] == t;
        assert Split(s, sep)[0] == s;
      } else {
        CountZero(t, sep);
        assert p[0] != t;
        assert Split(s, sep)[0] == p[0];
      }
    }
  }
}
