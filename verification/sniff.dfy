/** The alert-name sniffer of the event middleware
    (middleware/event.go:75-107): a byte scanner over an
    application/x-www-form-urlencoded body that looks for the key
    `alert_name=` at offset 0 or right after an `&` and returns the bytes up to
    the next `&` or the end of the body.

    The loop is modelled twice: as the method `EventNameFromURLEncoded`, with
    the loop structure of the source, and as the function `Scan`, which
    follows the same steps and specifies it. The independent, field-level
    reading of the same procedure is `SniffFields`, which works on the body
    split at `&`; `SniffIsFieldWalk` proves the two agree on every input.

    The source reads `b[i]` before it checks `i >= len(b)`. `BoundsCheck`
    selects between that order (which makes Go panic with an index out of
    range) and the corrected order (check, then read). */
module Sniffer {
  import opened ByteText

  const AlertKey: Bytes := "alert_name="

  /** Whether the key comparison reads the byte before checking the bound
      (as written) or checks the bound first (corrected). */
  datatype BoundsCheck = ReadThenCheck | CheckThenRead

  /** What the sniffer produces: a name, or Go's index-out-of-range panic. */
  datatype Sniffed = Name(name: Bytes) | IndexPanic

  /** How the comparison against `alert_name=` ended. */
  datatype KeyMatch = Matched(next: nat) | Stopped(at: nat) | OutOfRange

  /** A key the scanner can look for: at least one byte, and no `&`. */
  predicate KeyShape(key: Bytes)
  {
    |key| > 0 && '&' !in key
  }

  lemma AlertKeyShape()
    ensures KeyShape(AlertKey)
  {
  }

  // ---------------------------------------------------------------------------
  // The loop, step by step.

  /** The inner `for _, ac := range alertKey` loop over the bytes of `key`,
      entered at body position `i` with `j` key bytes already matched. */
  function MatchKey(b: Bytes, key: Bytes, i: nat, j: nat, order: BoundsCheck): (m: KeyMatch)
    requires i <= |b| && j <= |key|
    ensures m.Matched? ==> m.next == i + |key| - j <= |b| && b[i..m.next] == key[j..]
    ensures m.Stopped? ==> i <= m.at <= |b|
    ensures m.OutOfRange? ==> order == ReadThenCheck
    decreases |key| - j
  {
    if j == |key| then Matched(i)
    else if i >= |b| then (if order == ReadThenCheck then OutOfRange else Stopped(i))
    else if b[i] != key[j] then Stopped(i)
    else
      var m := MatchKey(b, key, i + 1, j + 1, order);
      if m.Matched? then
        assert m.next == i + 1 + |key| - (j + 1) && i < m.next <= |b|;
        SliceCons(b, i, m.next);
        SliceCons(key, j, |key|);
        m
      else m
  }

  /** A slice is its first byte followed by the rest. */
  lemma SliceCons(s: Bytes, i: nat, n: nat)
    requires i < n <= |s|
    ensures s[i..n] == [s[i]] + s[i + 1..n]
  {
    assert s[i..n][1..] == s[i + 1..n];
  }

  /** Where the value starting at `k` ends: the next `&`, or the end. */
  function ValueEnd(b: Bytes, k: nat): (e: nat)
    requires k <= |b|
    ensures k <= e <= |b| && '&' !in b[k..e]
    ensures e == |b| || b[e] == '&'
    decreases |b| - k
  {
    if k == |b| || b[k] == '&' then k
    else
      var e := ValueEnd(b, k + 1);
      assert b[k..e] == [b[k]] + b[k + 1..e];
      e
  }

  /** The value the source returns once the loop is over. */
  function Result(b: Bytes, start: nat, end: nat): (r: Sniffed)
    requires start <= end <= |b| && '&' !in b[start..end]
    ensures r.Name? && '&' !in r.name
  {
    if start != 0 && end > start then Name(b[start..end]) else Name([])
  }

  /** The outer loop at the top of an iteration with index `i`. */
  function Scan(b: Bytes, key: Bytes, i: nat, start: nat, end: nat, order: BoundsCheck): (r: Sniffed)
    requires i <= |b| + 1
    requires start <= end <= |b| && '&' !in b[start..end]
    ensures order == CheckThenRead ==> r.Name?
    ensures r.Name? ==> '&' !in r.name
    decreases |b| + 1 - i, 1
  {
    if i >= |b| then Result(b, start, end)
    else if i != 0 && b[i] != '&' then Scan(b, key, i + 1, start, end, order)
    else ExamineAt(b, key, if b[i] == '&' then i + 1 else i, start, end, order)
  }

  /** One examination of the bytes at `i1` as a possible key, and the rest of
      the loop after it. */
  function ExamineAt(b: Bytes, key: Bytes, i1: nat, start: nat, end: nat, order: BoundsCheck): (r: Sniffed)
    requires i1 <= |b|
    requires start <= end <= |b| && '&' !in b[start..end]
    ensures order == CheckThenRead ==> r.Name?
    ensures r.Name? ==> '&' !in r.name
    decreases |b| + 1 - i1, 0
  {
    match MatchKey(b, key, i1, 0, order)
    case OutOfRange => IndexPanic
    case Stopped(k) => Scan(b, key, k + 1, start, end, order)
    case Matched(k) => var e := ValueEnd(b, k); Scan(b, key, e + 1, k, e, order)
  }

  /** eventNameFromURLEncoded as a function of the body. */
  function Sniff(b: Bytes, order: BoundsCheck): (r: Sniffed)
    ensures b == [] ==> r == Name([])
    ensures order == CheckThenRead ==> r.Name?
    ensures r.Name? ==> '&' !in r.name
  {
    if |b| == 0 then Name([]) else Scan(b, AlertKey, 0, 0, 0, order)
  }

  /** eventNameFromURLEncoded, with the loops of the source. With
      `ReadThenCheck` a read past the end returns `IndexPanic`. */
  method EventNameFromURLEncoded(b: Bytes, order: BoundsCheck) returns (r: Sniffed)
    ensures r == Sniff(b, order)
  {
    if |b| == 0 {
      return Name([]);
    }
    ghost var target := Sniff(b, order);
    var start: nat, end: nat := 0, 0;
    var i: nat := 0;
    while i < |b|
      invariant i <= |b| + 1
      invariant start <= end <= |b| && '&' !in b[start..end]
      invariant Scan(b, AlertKey, i, start, end, order) == target
      decreases |b| + 1 - i
    {
      if i != 0 && b[i] != '&' {
        ScanPassesOver(b, AlertKey, i, start, end, order);
        i := i + 1;
        continue;
      }
      ScanExamines(b, AlertKey, i, start, end, order);
      if b[i] == '&' {
        i := i + 1;
      }
      var panicked;
      i, start, end, panicked := ExamineFrom(b, AlertKey, i, start, end, order);
      if panicked {
        return IndexPanic;
      }
    }
    r := Result(b, start, end);
  }

  /** The rest of one iteration of the outer loop, from the position `i0`
      where `key` (AlertKey) is looked for to the final `i++`. */
  method ExamineFrom(b: Bytes, key: Bytes, i0: nat, start0: nat, end0: nat, order: BoundsCheck)
    returns (i: nat, start: nat, end: nat, panicked: bool)
    requires i0 <= |b|
    requires start0 <= end0 <= |b| && '&' !in b[start0..end0]
    ensures panicked <==> ExamineAt(b, key, i0, start0, end0, order) == IndexPanic && MatchKey(b, key, i0, 0, order).OutOfRange?
    ensures !panicked ==> i0 < i <= |b| + 1 && start <= end <= |b| && '&' !in b[start..end]
    ensures !panicked ==> ExamineAt(b, key, i0, start0, end0, order) == Scan(b, key, i, start, end, order)
  {
    var j;
    i, j, panicked := CompareKey(b, key, i0, order);
    start, end := start0, end0;
    if panicked {
      return;
    }
    if j == |key| {
      start := i;
      i := ValueEndFrom(b, i);
      end := i;
      ExamineMatched(b, key, i0, start0, end0, start, end, order);
    } else {
      ExamineStopped(b, key, i0, i, start, end, order);
    }
    i := i + 1;
  }

  /** The `for _, ac := range alertKey` loop, entered at `i0` (`key` is
      AlertKey at the one call site): the position reached, the number of key
      bytes matched, and whether the as-written order read past the end. */
  method CompareKey(b: Bytes, key: Bytes, i0: nat, order: BoundsCheck) returns (i: nat, j: nat, panicked: bool)
    requires i0 <= |b|
    ensures panicked <==> MatchKey(b, key, i0, 0, order) == OutOfRange
    ensures !panicked ==> j <= |key| && (j == |key| <==> MatchKey(b, key, i0, 0, order) == Matched(i))
    ensures !panicked && j < |key| ==> MatchKey(b, key, i0, 0, order) == Stopped(i)
  {
    i, j, panicked := i0, 0, false;
    while j < |key|
      invariant i == i0 + j <= |b| && j <= |key|
      invariant MatchKey(b, key, i, j, order) == MatchKey(b, key, i0, 0, order)
    {
      if i >= |b| {
        if order == ReadThenCheck {
          // b[i] is read before i >= len(b) is checked: index out of range
          panicked := true;
          return;
        }
        break;
      }
      if b[i] != key[j] {
        break;
      }
      j := j + 1;
      i := i + 1;
    }
  }

  /** The loop that runs `i` to the end of a value. */
  method ValueEndFrom(b: Bytes, k: nat) returns (i: nat)
    requires k <= |b|
    ensures i == ValueEnd(b, k)
  {
    i := k;
    while i < |b| && b[i] != '&'
      invariant k <= i <= |b| && ValueEnd(b, i) == ValueEnd(b, k)
    {
      i := i + 1;
    }
  }

  /** Steps of the outer loop, one lemma each. */
  lemma ScanPassesOver(b: Bytes, key: Bytes, i: nat, start: nat, end: nat, order: BoundsCheck)
    requires 0 < i < |b| && b[i] != '&'
    requires start <= end <= |b| && '&' !in b[start..end]
    ensures Scan(b, key, i, start, end, order) == Scan(b, key, i + 1, start, end, order)
  {
  }

  lemma ScanExamines(b: Bytes, key: Bytes, i: nat, start: nat, end: nat, order: BoundsCheck)
    requires i < |b| && (i == 0 || b[i] == '&')
    requires start <= end <= |b| && '&' !in b[start..end]
    ensures Scan(b, key, i, start, end, order) == ExamineAt(b, key, if b[i] == '&' then i + 1 else i, start, end, order)
  {
  }

  lemma ExamineMatched(b: Bytes, key: Bytes, i1: nat, start: nat, end: nat, k: nat, e: nat, order: BoundsCheck)
    requires i1 <= |b| && MatchKey(b, key, i1, 0, order) == Matched(k) && e == ValueEnd(b, k)
    requires start <= end <= |b| && '&' !in b[start..end]
    ensures k <= e <= |b| && '&' !in b[k..e]
    ensures ExamineAt(b, key, i1, start, end, order) == Scan(b, key, e + 1, k, e, order)
  {
  }

  lemma ExamineStopped(b: Bytes, key: Bytes, i1: nat, k: nat, start: nat, end: nat, order: BoundsCheck)
    requires i1 <= k <= |b| && MatchKey(b, key, i1, 0, order) == Stopped(k)
    requires start <= end <= |b| && '&' !in b[start..end]
    ensures ExamineAt(b, key, i1, start, end, order) == Scan(b, key, k + 1, start, end, order)
  {
  }

  // ---------------------------------------------------------------------------
  // The same procedure, read field by field.

  /** Whether the next field is examined as a possible key, or stepped over
      because the outer `i++` consumed the `&` in front of it. */
  datatype Mode = Examine | SkipNext

  /** The fields of the body, left to right. A field starting with the key
      sets the value found (a later one overwrites an earlier one) and hides
      the field after it; a field that is a proper prefix of the key hides the
      field after it too, or, as the last field, makes the as-written order
      read past the end; any other field is passed over. */
  function Walk(ps: seq<Bytes>, key: Bytes, mode: Mode, found: Bytes, order: BoundsCheck): Sniffed
    decreases |ps|
  {
    if ps == [] then Name(found)
    else
      var p := ps[0];
      match mode
      case SkipNext => Walk(ps[1..], key, Examine, found, order)
      case Examine =>
        if key <= p then Walk(ps[1..], key, SkipNext, p[|key|..], order)
        else if p < key then
          if |ps| == 1 && order == ReadThenCheck then IndexPanic
          else Walk(ps[1..], key, SkipNext, found, order)
        else Walk(ps[1..], key, Examine, found, order)
  }

  /** The sniffer on the fields of the body (the body split at `&`). An empty
      body gives ""; a body starting with `&` starts examining at the second
      field. */
  function SniffFields(pairs: seq<Bytes>, order: BoundsCheck): Sniffed
    requires |pairs| >= 1
  {
    if pairs == [[]] then Name([])
    else if pairs[0] == [] then Walk(pairs[1..], AlertKey, Examine, [], order)
    else Walk(pairs, AlertKey, Examine, [], order)
  }

  /** A field that neither starts with the key nor is a proper prefix of it. */
  predicate Diverges(p: Bytes, key: Bytes)
  {
    !(key <= p) && !(p < key)
  }

  // ---------------------------------------------------------------------------
  // The loop agrees with the field-level reading.

  predicate Layout(b: Bytes, i: nat, ps: seq<Bytes>)
  {
    i <= |b| && |ps| >= 1 && NoSep(ps, '&') && b[i..] == Join(ps, '&')
  }

  /** Where the first field and the rest lie in the body. */
  lemma PairLayout(b: Bytes, i: nat, ps: seq<Bytes>)
    requires Layout(b, i, ps)
    ensures i + |ps[0]| <= |b| && b[i..i + |ps[0]|] == ps[0] && '&' !in ps[0]
    ensures |ps| == 1 ==> i + |ps[0]| == |b|
    ensures |ps| > 1 ==> i + |ps[0]| < |b| && b[i + |ps[0]|] == '&' && Layout(b, i + |ps[0]| + 1, ps[1..])
  {
    var q := i + |ps[0]|;
    if |ps| > 1 {
      JoinFront(ps, '&');
      assert b[i..] == ps[0] + ['&'] + Join(ps[1..], '&');
      assert b[i..][|ps[0]|] == '&';
      assert b[q + 1..] == b[i..][|ps[0]| + 1..];
      assert b[i..q] == b[i..][..|ps[0]|];
      assert NoSep(ps[1..], '&') by {
        forall k | 0 <= k < |ps[1..]| ensures '&' !in ps[1..][k] { assert ps[1..][k] == ps[k + 1]; }
      }
    }
  }

  /** Non-`&` bytes after position 0 are passed over one by one. */
  lemma {:induction false} ScanSkipPlain(b: Bytes, key: Bytes, i: nat, k: nat, start: nat, end: nat, order: BoundsCheck)
    requires 0 < i <= k <= |b| && '&' !in b[i..k]
    requires start <= end <= |b| && '&' !in b[start..end]
    ensures Scan(b, key, i, start, end, order) == Scan(b, key, k, start, end, order)
    decreases k - i
  {
    if i < k {
      assert b[i] == b[i..k][0];
      assert b[i + 1..k] == b[i..k][1..];
      ScanSkipPlain(b, key, i + 1, k, start, end, order);
    }
  }

  /** The field `p` lies at `i` and ends at an `&` or at the end of the body. */
  predicate FieldAt(b: Bytes, i: nat, p: Bytes)
  {
    i + |p| <= |b| && b[i..i + |p|] == p && '&' !in p && (i + |p| == |b| || b[i + |p|] == '&')
  }

  /** The key comparison on a field that starts with the key, entered with
      `j` key bytes matched: the whole key matches. */
  lemma {:induction false} MatchKeyOnKeyField(b: Bytes, key: Bytes, i: nat, j: nat, p: Bytes, order: BoundsCheck)
    requires FieldAt(b, i, p) && key <= p
    requires j <= |key| && p[..j] == key[..j]
    ensures MatchKey(b, key, i + j, j, order) == Matched(i + |key|)
    decreases |key| - j
  {
    if j < |key| {
      assert b[i + j] == p[j];
      assert p[..j + 1] == p[..j] + [p[j]];
      assert key[..j + 1] == key[..j] + [key[j]];
      MatchKeyOnKeyField(b, key, i, j + 1, p, order);
    }
  }

  /** The key comparison on a field that is a proper prefix of the key: it
      stops at the `&` after the field, or runs off the end of the body. */
  lemma {:induction false} MatchKeyOnPrefixField(b: Bytes, key: Bytes, i: nat, j: nat, p: Bytes, order: BoundsCheck)
    requires FieldAt(b, i, p) && p < key && '&' !in key
    requires j <= |p| && p[..j] == key[..j]
    ensures MatchKey(b, key, i + j, j, order) ==
            if i + |p| == |b| && order == ReadThenCheck then OutOfRange else Stopped(i + |p|)
    decreases |key| - j
  {
    if j == |p| {
      if i + |p| < |b| {
        assert key[j] in key;
      }
    } else {
      assert b[i + j] == p[j];
      assert p[..j + 1] == p[..j] + [p[j]];
      assert key[..j + 1] == key[..j] + [key[j]];
      MatchKeyOnPrefixField(b, key, i, j + 1, p, order);
    }
  }

  /** The first position where a field that neither starts with the key nor
      is a proper prefix of it differs from the key. */
  lemma {:induction false} Divergence(p: Bytes, key: Bytes, j: nat) returns (m: nat)
    requires !(key <= p) && !(p < key) && j <= |p| && j <= |key| && p[..j] == key[..j]
    ensures j <= m < |p| && m < |key| && p[..m] == key[..m] && p[m] != key[m]
    decreases |p| - j
  {
    if p[j] != key[j] {
      m := j;
    } else {
      assert p[..j + 1] == p[..j] + [p[j]];
      assert key[..j + 1] == key[..j] + [key[j]];
      m := Divergence(p, key, j + 1);
    }
  }

  /** The key comparison on any other field stops inside the field, where
      the field first differs from the key. */
  lemma {:induction false} MatchKeyOnOtherField(b: Bytes, key: Bytes, i: nat, j: nat, m: nat, p: Bytes, order: BoundsCheck)
    requires FieldAt(b, i, p)
    requires m < |p| && m < |key| && p[..m] == key[..m] && p[m] != key[m] && j <= m
    ensures MatchKey(b, key, i + j, j, order) == Stopped(i + m)
    decreases m - j
  {
    assert b[i + j] == p[j];
    if j < m {
      assert p[j] == p[..m][j];
      MatchKeyOnOtherField(b, key, i, j + 1, m, p, order);
    }
  }

  /** The value of a field that starts with the key ends where the field does. */
  lemma ValueEndOnPair(b: Bytes, k: nat, q: nat)
    requires k <= q <= |b| && '&' !in b[k..q] && (q == |b| || b[q] == '&')
    ensures ValueEnd(b, k) == q
  {
  }

  /** Examining a field boundary (`i` in mode Examine). */
  lemma {:induction false} ExamineWalk(b: Bytes, key: Bytes, i: nat, ps: seq<Bytes>, start: nat, end: nat, found: Bytes, order: BoundsCheck)
    requires KeyShape(key)
    requires Layout(b, i, ps)
    requires start <= end <= |b| && '&' !in b[start..end] && Result(b, start, end) == Name(found)
    ensures ExamineAt(b, key, i, start, end, order) == Walk(ps, key, Examine, found, order)
    decreases |ps|, 2
  {
    if key <= ps[0] {
      ExamineKeyField(b, key, i, ps, start, end, found, order);
    } else if ps[0] < key {
      ExaminePrefixField(b, key, i, ps, start, end, found, order);
    } else {
      ExamineOtherField(b, key, i, ps, start, end, found, order);
    }
  }

  /** A field that starts with the key: its value becomes the one found. */
  lemma {:induction false} ExamineKeyField(b: Bytes, key: Bytes, i: nat, ps: seq<Bytes>, start: nat, end: nat, found: Bytes, order: BoundsCheck)
    requires KeyShape(key)
    requires Layout(b, i, ps) && key <= ps[0]
    requires start <= end <= |b| && '&' !in b[start..end] && Result(b, start, end) == Name(found)
    ensures ExamineAt(b, key, i, start, end, order) == Walk(ps, key, Examine, found, order)
    decreases |ps|, 1
  {
    PairLayout(b, i, ps);
    var p := ps[0];
    var q := i + |p|;
    var k := i + |key|;
    var v := p[|key|..];
    KeyFieldStep(b, key, i, p, k, q, start, end, order);
    assert ExamineAt(b, key, i, start, end, order) == Scan(b, key, q + 1, k, q, order);
    assert Walk(ps, key, Examine, found, order) == Walk(ps[1..], key, SkipNext, v, order);
    AfterField(b, key, q, ps[1..], k, q, v, order);
  }

  /** Examining a field that starts with the key records its value and
      resumes after the `&` that ends it. */
  lemma KeyFieldStep(b: Bytes, key: Bytes, i: nat, p: Bytes, k: nat, q: nat, start: nat, end: nat, order: BoundsCheck)
    requires KeyShape(key)
    requires FieldAt(b, i, p) && key <= p && k == i + |key| && q == i + |p|
    requires start <= end <= |b| && '&' !in b[start..end]
    ensures k <= q <= |b| && '&' !in b[k..q]
    ensures Result(b, k, q) == Name(p[|key|..])
    ensures ExamineAt(b, key, i, start, end, order) == Scan(b, key, q + 1, k, q, order)
  {
    MatchKeyOnKeyField(b, key, i, 0, p, order);
    KeyFieldValue(b, key, i, p);
    ValueEndOnPair(b, k, q);
    ExamineMatched(b, key, i, start, end, k, q, order);
    KeyFieldResult(b, key, i, p);
  }

  /** The value of a field that starts with the key lies between the key
      and the end of the field. */
  lemma KeyFieldValue(b: Bytes, key: Bytes, i: nat, p: Bytes)
    requires KeyShape(key)
    requires FieldAt(b, i, p) && key <= p
    ensures b[i + |key|..i + |p|] == p[|key|..]
    ensures '&' !in p[|key|..]
  {
    var q := i + |p|;
    var k := i + |key|;
    assert b[k..q] == b[i..q][|key|..];
    var v := p[|key|..];
    forall x | x in v ensures x != '&' {
      var t :| 0 <= t < |v| && v[t] == x;
      assert p[|key| + t] == x;
    }
  }

  /** What the loop returns for that value: the value itself. */
  lemma KeyFieldResult(b: Bytes, key: Bytes, i: nat, p: Bytes)
    requires KeyShape(key)
    requires FieldAt(b, i, p) && key <= p
    requires b[i + |key|..i + |p|] == p[|key|..] && '&' !in p[|key|..]
    ensures Result(b, i + |key|, i + |p|) == Name(p[|key|..])
  {
    if |p| == |key| {
      assert p[|key|..] == [];
    } else {
      assert i + |key| != 0;
    }
  }

  /** A field that is a proper prefix of the key. */
  lemma {:induction false} ExaminePrefixField(b: Bytes, key: Bytes, i: nat, ps: seq<Bytes>, start: nat, end: nat, found: Bytes, order: BoundsCheck)
    requires KeyShape(key)
    requires Layout(b, i, ps) && ps[0] < key
    requires start <= end <= |b| && '&' !in b[start..end] && Result(b, start, end) == Name(found)
    ensures ExamineAt(b, key, i, start, end, order) == Walk(ps, key, Examine, found, order)
    decreases |ps|, 1
  {
    PairLayout(b, i, ps);
    var p := ps[0];
    var q := i + |p|;
    PrefixFieldStep(b, key, i, p, start, end, order);
    assert Walk(ps, key, Examine, found, order) ==
           if |ps| == 1 && order == ReadThenCheck then IndexPanic
           else Walk(ps[1..], key, SkipNext, found, order);
    if |ps| == 1 && order == ReadThenCheck {
      assert q == |b|;
    } else {
      assert ExamineAt(b, key, i, start, end, order) == Scan(b, key, q + 1, start, end, order);
      AfterField(b, key, q, ps[1..], start, end, found, order);
    }
  }

  /** Examining a field that is a proper prefix of the key: the comparison
      stops at the `&` after it, which the outer `i++` steps over, or, at the
      end of the body, reads past it. */
  lemma PrefixFieldStep(b: Bytes, key: Bytes, i: nat, p: Bytes, start: nat, end: nat, order: BoundsCheck)
    requires KeyShape(key)
    requires FieldAt(b, i, p) && p < key
    requires start <= end <= |b| && '&' !in b[start..end]
    ensures ExamineAt(b, key, i, start, end, order) ==
            if i + |p| == |b| && order == ReadThenCheck then IndexPanic
            else Scan(b, key, i + |p| + 1, start, end, order)
  {
    MatchKeyOnPrefixField(b, key, i, 0, p, order);
    if i + |p| == |b| && order == ReadThenCheck {
      assert MatchKey(b, key, i, 0, order) == OutOfRange;
    } else {
      ExamineStopped(b, key, i, i + |p|, start, end, order);
    }
  }

  /** Any other field: the scan resumes inside it. */
  lemma {:induction false} ExamineOtherField(b: Bytes, key: Bytes, i: nat, ps: seq<Bytes>, start: nat, end: nat, found: Bytes, order: BoundsCheck)
    requires KeyShape(key)
    requires Layout(b, i, ps) && Diverges(ps[0], key)
    requires start <= end <= |b| && '&' !in b[start..end] && Result(b, start, end) == Name(found)
    ensures ExamineAt(b, key, i, start, end, order) == Walk(ps, key, Examine, found, order)
    decreases |ps|, 1
  {
    PairLayout(b, i, ps);
    var p := ps[0];
    var m := OtherFieldStep(b, key, i, p, start, end, order);
    SkipWalk(b, key, i, i + m + 1, ps, start, end, found, order);
  }

  /** Examining any other field stops where it first differs from the key;
      the outer `i++` then resumes inside the field. */
  lemma OtherFieldStep(b: Bytes, key: Bytes, i: nat, p: Bytes, start: nat, end: nat, order: BoundsCheck) returns (m: nat)
    requires FieldAt(b, i, p) && Diverges(p, key)
    requires start <= end <= |b| && '&' !in b[start..end]
    ensures m < |p| && ExamineAt(b, key, i, start, end, order) == Scan(b, key, i + m + 1, start, end, order)
  {
    m := Divergence(p, key, 0);
    MatchKeyOnOtherField(b, key, i, 0, m, p, order);
  }

  /** After a field that hides the one following it: the scan resumes past
      the `&` that ends the field, in mode SkipNext. */
  lemma {:induction false} AfterField(b: Bytes, key: Bytes, q: nat, rest: seq<Bytes>, start: nat, end: nat, found: Bytes, order: BoundsCheck)
    requires KeyShape(key)
    requires q <= |b| && (rest == [] ==> q == |b|)
    requires rest != [] ==> q < |b| && b[q] == '&' && Layout(b, q + 1, rest)
    requires start <= end <= |b| && '&' !in b[start..end] && Result(b, start, end) == Name(found)
    ensures Scan(b, key, q + 1, start, end, order) == Walk(rest, key, SkipNext, found, order)
    decreases |rest|, 3
  {
    if rest != [] {
      SkipWalk(b, key, q + 1, q + 1, rest, start, end, found, order);
    }
  }

  /** Scanning from inside a field that is not examined: the loop passes over
      the rest of it and examines the field after it. */
  lemma {:induction false} SkipWalk(b: Bytes, key: Bytes, i: nat, j: nat, ps: seq<Bytes>, start: nat, end: nat, found: Bytes, order: BoundsCheck)
    requires KeyShape(key)
    requires Layout(b, i, ps) && 0 < j <= |b| && i <= j <= i + |ps[0]|
    requires start <= end <= |b| && '&' !in b[start..end] && Result(b, start, end) == Name(found)
    ensures Scan(b, key, j, start, end, order) == Walk(ps, key, SkipNext, found, order)
    decreases |ps|, 0
  {
    PairLayout(b, i, ps);
    var p := ps[0];
    var q := i + |p|;
    assert '&' !in b[j..q] by {
      forall t | 0 <= t < q - j ensures b[j..q][t] != '&' {
        assert b[j..q][t] == b[i..q][j - i + t] == p[j - i + t];
      }
    }
    ScanSkipPlain(b, key, j, q, start, end, order);
    assert Walk(ps, key, SkipNext, found, order) == Walk(ps[1..], key, Examine, found, order);
    if |ps| > 1 {
      SkipToNext(b, key, q, ps[1..], start, end, found, order);
    } else {
      assert q == |b| && ps[1..] == [];
      ScanAtEnd(b, key, start, end, found, order);
    }
  }

  /** An `&` that ends a skipped field starts the examination of the next. */
  lemma {:induction false} SkipToNext(b: Bytes, key: Bytes, q: nat, ps: seq<Bytes>, start: nat, end: nat, found: Bytes, order: BoundsCheck)
    requires KeyShape(key)
    requires q < |b| && b[q] == '&' && Layout(b, q + 1, ps)
    requires start <= end <= |b| && '&' !in b[start..end] && Result(b, start, end) == Name(found)
    ensures Scan(b, key, q, start, end, order) == Walk(ps, key, Examine, found, order)
    decreases |ps|, 3
  {
    ScanExamines(b, key, q, start, end, order);
    ExamineWalk(b, key, q + 1, ps, start, end, found, order);
  }

  /** At the end of the body the scan yields the value found so far. */
  lemma ScanAtEnd(b: Bytes, key: Bytes, start: nat, end: nat, found: Bytes, order: BoundsCheck)
    requires start <= end <= |b| && '&' !in b[start..end] && Result(b, start, end) == Name(found)
    ensures Scan(b, key, |b|, start, end, order) == Name(found)
  {
  }

  /** The scanner is the field-level procedure on the body split at `&`. */
  lemma SniffIsFieldWalk(b: Bytes, order: BoundsCheck)
    ensures Sniff(b, order) == SniffFields(Split(b, '&'), order)
  {
    var pairs := Split(b, '&');
    AlertKeyShape();
    SplitPieces(b, '&');
    SplitHead(b, '&');
    if |b| > 0 {
      assert Result(b, 0, 0) == Name([]);
      assert b[0..] == b;
      if b[0] == '&' {
        assert pairs[0] == [];
        assert Layout(b, 0, pairs);
        PairLayout(b, 0, pairs);
        ExamineWalk(b, AlertKey, 1, pairs[1..], 0, 0, [], order);
      } else {
        assert pairs[0] != [];
        ExamineWalk(b, AlertKey, 0, pairs, 0, 0, [], order);
      }
    }
  }

  // ---------------------------------------------------------------------------
  // What the sniffer finds.

  /** The two orders agree wherever the as-written one does not read past the
      end, and the corrected order never does. */
  lemma {:induction false} WalkOrdersAgree(ps: seq<Bytes>, key: Bytes, mode: Mode, found: Bytes)
    ensures Walk(ps, key, mode, found, CheckThenRead).Name?
    ensures Walk(ps, key, mode, found, ReadThenCheck) == IndexPanic ||
            Walk(ps, key, mode, found, ReadThenCheck) == Walk(ps, key, mode, found, CheckThenRead)
    decreases |ps|
  {
    if ps != [] {
      var p := ps[0];
      WalkOrdersAgree(ps[1..], key, Examine, found);
      WalkOrdersAgree(ps[1..], key, SkipNext, found);
      if |key| <= |p| {
        WalkOrdersAgree(ps[1..], key, SkipNext, p[|key|..]);
      }
    }
  }

  /** The as-written order reads past the end only when the last field of the
      body is a proper prefix of the key (an empty last field included). */
  lemma {:induction false} WalkPanicsOnlyAtPrefixEnd(ps: seq<Bytes>, key: Bytes, mode: Mode, found: Bytes)
    requires Walk(ps, key, mode, found, ReadThenCheck) == IndexPanic
    ensures ps != [] && ps[|ps| - 1] < key
    decreases |ps|
  {
    var p := ps[0];
    if |ps| > 1 {
      assert ps[1..][|ps| - 2] == ps[|ps| - 1];
      if mode == SkipNext || !(key <= p) {
        WalkPanicsOnlyAtPrefixEnd(ps[1..], key, if mode == Examine && p < key then SkipNext else Examine, found);
      } else {
        WalkPanicsOnlyAtPrefixEnd(ps[1..], key, SkipNext, p[|key|..]);
      }
    }
  }

  /** A name found is the one carried in, or the rest of a field that starts
      with the key. */
  lemma {:induction false} WalkValueIsField(ps: seq<Bytes>, key: Bytes, mode: Mode, found: Bytes, order: BoundsCheck)
    requires Walk(ps, key, mode, found, order).Name?
    ensures var v := Walk(ps, key, mode, found, order).name;
      v == found || exists k :: 0 <= k < |ps| && ps[k] == key + v
    decreases |ps|
  {
    if ps != [] {
      var p := ps[0];
      var v := Walk(ps, key, mode, found, order).name;
      var next, carried := Examine, found;
      if mode == Examine && key <= p {
        next, carried := SkipNext, p[|key|..];
        assert p == key + carried;
      } else if mode == Examine && p < key {
        next := SkipNext;
      } else if mode == SkipNext {
        next := Examine;
      }
      assert Walk(ps, key, mode, found, order) == Walk(ps[1..], key, next, carried, order);
      WalkValueIsField(ps[1..], key, next, carried, order);
      if v != found && v != carried {
        var k :| 0 <= k < |ps[1..]| && ps[1..][k] == key + v;
        assert ps[k + 1] == key + v;
      }
    }
  }

  /** The non-empty name the sniffer returns is the value of an
      `alert_name=` field of the body. */
  lemma SniffValueIsField(b: Bytes, order: BoundsCheck)
    requires Sniff(b, order).Name? && Sniff(b, order).name != []
    ensures exists k :: 0 <= k < |Split(b, '&')| && Split(b, '&')[k] == AlertKey + Sniff(b, order).name
  {
    var pairs := Split(b, '&');
    var v := Sniff(b, order).name;
    SniffIsFieldWalk(b, order);
    if pairs[0] == [] {
      WalkValueIsField(pairs[1..], AlertKey, Examine, [], order);
      var k :| 0 <= k < |pairs[1..]| && pairs[1..][k] == AlertKey + v;
      assert pairs[k + 1] == AlertKey + v;
    } else {
      WalkValueIsField(pairs, AlertKey, Examine, [], order);
    }
  }

  /** Fields that neither start with the key nor are a proper prefix of it
      are passed over. */
  lemma {:induction false} WalkPassesDiverging(xs: seq<Bytes>, ys: seq<Bytes>, key: Bytes, found: Bytes, order: BoundsCheck)
    requires forall x :: x in xs ==> Diverges(x, key)
    ensures Walk(xs + ys, key, Examine, found, order) == Walk(ys, key, Examine, found, order)
    decreases |xs|
  {
    if xs != [] {
      assert xs[0] in xs && (xs + ys)[0] == xs[0];
      assert (xs + ys)[1..] == xs[1..] + ys;
      forall x | x in xs[1..] ensures Diverges(x, key) { assert x in xs; }
      WalkPassesDiverging(xs[1..], ys, key, found, order);
    } else {
      assert xs + ys == ys;
    }
  }

  /** A body whose fields all diverge from `alert_name=` except one, which
      starts with it, names the value of that one field, in either order. */
  lemma SniffFieldsSingleKey(xs: seq<Bytes>, v: Bytes, ys: seq<Bytes>, order: BoundsCheck)
    requires forall x :: x in xs + ys ==> Diverges(x, AlertKey)
    ensures SniffFields(xs + [AlertKey + v] + ys, order) == Name(v)
  {
    var pairs := xs + [AlertKey + v] + ys;
    assert pairs == xs + ([AlertKey + v] + ys);
    if xs != [] {
      assert xs[0] in xs + ys;
      assert pairs[0] == xs[0];
    } else {
      assert pairs[0] == AlertKey + v;
    }
    WalkPassesDiverging(xs, [AlertKey + v] + ys, AlertKey, [], order);
    assert ([AlertKey + v] + ys)[1..] == ys;
    assert (AlertKey + v)[|AlertKey|..] == v;
    if ys != [] {
      assert ys[1..] == ys[1..] + [];
      WalkPassesDiverging(ys[1..], [], AlertKey, v, order);
    }
  }

  /** The same on the bytes of the body: joined at `&`, such fields yield the
      value of the one `alert_name=` field. */
  lemma SniffSingleKey(xs: seq<Bytes>, v: Bytes, ys: seq<Bytes>, order: BoundsCheck)
    requires forall x :: x in xs + ys ==> Diverges(x, AlertKey)
    requires NoSep(xs + [AlertKey + v] + ys, '&')
    ensures Sniff(Join(xs + [AlertKey + v] + ys, '&'), order) == Name(v)
  {
    var pairs := xs + [AlertKey + v] + ys;
    SplitJoin(pairs, '&');
    SniffIsFieldWalk(Join(pairs, '&'), order);
    SniffFieldsSingleKey(xs, v, ys, order);
  }

  /** A later `alert_name=` field overwrites the value of an earlier one
      (here with one field between them, which the first match hides). */
  lemma LaterKeyOverwrites(v1: Bytes, y: Bytes, v2: Bytes, order: BoundsCheck)
    requires '&' !in v1 && '&' !in y && '&' !in v2
    ensures Sniff(Join([AlertKey + v1, y, AlertKey + v2], '&'), order) == Name(v2)
  {
    var pairs: seq<Bytes> := [AlertKey + v1, y, AlertKey + v2];
    assert NoSep(pairs, '&');
    SplitJoin(pairs, '&');
    SniffIsFieldWalk(Join(pairs, '&'), order);
    assert pairs[0] != [] && AlertKey <= pairs[0] && pairs[0][|AlertKey|..] == v1;
    assert Split(Join(pairs, '&'), '&') == pairs && pairs != [[]];
    assert SniffFields(pairs, order) == Walk(pairs, AlertKey, Examine, [], order);
    assert Walk(pairs, AlertKey, Examine, [], order) == Walk(pairs[1..], AlertKey, SkipNext, v1, order);
    assert pairs[1..][1..] == [AlertKey + v2];
    assert AlertKey <= AlertKey + v2 && (AlertKey + v2)[|AlertKey|..] == v2;
    var none: seq<Bytes> := [];
    assert Walk([AlertKey + v2], AlertKey, Examine, v1, order) == Walk(none, AlertKey, SkipNext, v2, order);
  }

  /** The `&` that ends a value is consumed by the outer `i++`, so an
      `alert_name=` field right after a matched one is never examined: the
      first value stands. */
  lemma AdjacentKeyHidden(v1: Bytes, v2: Bytes, order: BoundsCheck)
    requires '&' !in v1 && '&' !in v2
    ensures Sniff(Join([AlertKey + v1, AlertKey + v2], '&'), order) == Name(v1)
  {
    var pairs: seq<Bytes> := [AlertKey + v1, AlertKey + v2];
    assert NoSep(pairs, '&');
    SplitJoin(pairs, '&');
    SniffIsFieldWalk(Join(pairs, '&'), order);
    assert pairs[0] != [] && AlertKey <= pairs[0] && pairs[0][|AlertKey|..] == v1;
    assert Split(Join(pairs, '&'), '&') == pairs && pairs != [[]];
    assert SniffFields(pairs, order) == Walk(pairs, AlertKey, Examine, [], order);
    assert Walk(pairs, AlertKey, Examine, [], order) == Walk(pairs[1..], AlertKey, SkipNext, v1, order);
    assert Walk(pairs[1..], AlertKey, SkipNext, v1, order) == Walk(pairs[1..][1..], AlertKey, Examine, v1, order);
    assert |pairs[1..][1..]| == 0;
  }

  /** The field after a matched `alert_name=` field is consumed unexamined,
      so an empty field after it is examined and, as written, read past the
      end; with the bound checked first, the matched value stands. */
  lemma KeyThenEmptyLastField(v: Bytes, y: Bytes)
    requires '&' !in v && '&' !in y
    ensures Sniff(Join([AlertKey + v, y, []], '&'), ReadThenCheck) == IndexPanic
    ensures Sniff(Join([AlertKey + v, y, []], '&'), CheckThenRead) == Name(v)
  {
    var pairs: seq<Bytes> := [AlertKey + v, y, []];
    assert NoSep(pairs, '&');
    SplitJoin(pairs, '&');
    assert pairs[0] != [] && AlertKey <= pairs[0] && pairs[0][|AlertKey|..] == v;
    assert Split(Join(pairs, '&'), '&') == pairs && pairs != [[]];
    assert pairs[1..][1..] == [[]];
    var none: seq<Bytes> := [];
    var last: Bytes := [];
    assert last < AlertKey;
    forall order: BoundsCheck
      ensures Sniff(Join(pairs, '&'), order) == Walk([last], AlertKey, Examine, v, order)
    {
      SniffIsFieldWalk(Join(pairs, '&'), order);
      assert SniffFields(pairs, order) == Walk(pairs, AlertKey, Examine, [], order);
      assert Walk(pairs, AlertKey, Examine, [], order) == Walk(pairs[1..], AlertKey, SkipNext, v, order);
      assert Walk(pairs[1..], AlertKey, SkipNext, v, order) == Walk([last], AlertKey, Examine, v, order);
    }
    assert Walk([last], AlertKey, Examine, v, CheckThenRead) == Walk(none, AlertKey, SkipNext, v, CheckThenRead);
  }

  /** A form field `k=v` whose key has no `=` and is not `alert_name`
      diverges from `alert_name=`. */
  lemma FormFieldDiverges(k: Bytes, v: Bytes)
    requires '=' !in k && k != AlertKey[..|AlertKey| - 1]
    ensures Diverges(k + "=" + v, AlertKey)
  {
    var f := k + "=" + v;
    assert f[|k|] == '=';
    if |k| < |AlertKey| - 1 {
      assert AlertKey[|k|] != f[|k|];
    } else if |k| == |AlertKey| - 1 {
      assert f[..|k|] == k != AlertKey[..|k|];
    } else {
      assert f[|AlertKey| - 1] == k[|AlertKey| - 1] != AlertKey[|AlertKey| - 1];
    }
  }

  /** Wherever the as-written order does not read past the end, the
      corrected order gives the same name, and it never reads past it. */
  lemma CheckedSniffAgrees(b: Bytes)
    ensures Sniff(b, CheckThenRead).Name?
    ensures Sniff(b, ReadThenCheck) == IndexPanic || Sniff(b, ReadThenCheck) == Sniff(b, CheckThenRead)
  {
    var pairs := Split(b, '&');
    SniffIsFieldWalk(b, ReadThenCheck);
    SniffIsFieldWalk(b, CheckThenRead);
    if pairs != [[]] {
      if pairs[0] == [] {
        WalkOrdersAgree(pairs[1..], AlertKey, Examine, []);
      } else {
        WalkOrdersAgree(pairs, AlertKey, Examine, []);
      }
    }
  }

  /** Diverging fields then an empty last field: as written, the comparison
      at the empty field reads past the end. */
  lemma WalkEmptyLast(xs: seq<Bytes>, key: Bytes, order: BoundsCheck)
    requires KeyShape(key)
    requires forall x :: x in xs ==> Diverges(x, key)
    ensures Walk(xs + [[]], key, Examine, [], order) ==
            if order == ReadThenCheck then IndexPanic else Name([])
  {
    WalkPassesDiverging(xs, [[]], key, [], order);
    var e: seq<Bytes> := [[]];
    assert e[0] < key;
    assert Walk(e, key, Examine, [], order) ==
           if order == ReadThenCheck then IndexPanic else Walk(e[1..], key, SkipNext, [], order);
  }

  /** As written, ordinary form fields followed by a trailing `&` make the
      key comparison read one byte past the end of the body; with the bound
      checked first the same body names nothing. */
  lemma TrailingAmpersandPanics(xs: seq<Bytes>)
    requires xs != [] && NoSep(xs, '&')
    requires forall x :: x in xs ==> Diverges(x, AlertKey)
    ensures Sniff(Join(xs, '&') + "&", ReadThenCheck) == IndexPanic
    ensures Sniff(Join(xs, '&') + "&", CheckThenRead) == Name([])
  {
    var pairs := xs + [[]];
    var b := Join(pairs, '&');
    assert pairs[..|pairs| - 1] == xs;
    assert b == Join(xs, '&') + "&";
    assert NoSep(pairs, '&') by {
      forall k | 0 <= k < |pairs| ensures '&' !in pairs[k] {
        if k < |xs| { assert pairs[k] == xs[k]; }
      }
    }
    SplitJoin(pairs, '&');
    assert xs[0] in xs && pairs[0] == xs[0] && pairs[0] != [];
    AlertKeyShape();
    WalkEmptyLast(xs, AlertKey, ReadThenCheck);
    WalkEmptyLast(xs, AlertKey, CheckThenRead);
    SniffIsFieldWalk(b, ReadThenCheck);
    SniffIsFieldWalk(b, CheckThenRead);
  }

  /** The smallest such body: `foo=bar&`. */
  lemma TrailingAmpersandExample()
    ensures Sniff("foo=bar&", ReadThenCheck) == IndexPanic
    ensures Sniff("foo=bar&", CheckThenRead) == Name([])
  {
    var k: Bytes, v: Bytes := "foo", "bar";
    var f := k + "=" + v;
    FormFieldDiverges(k, v);
    assert f == "foo=bar" && Join([f], '&') == f;
    assert f + "&" == "foo=bar&";
    TrailingAmpersandPanics([f]);
  }
}
