/** Field types shared by the webhook records (events/types/types.go): dates
    and date-times in fixed text layouts, the marketing-consent flag and the
    PHP rendering of a boolean. */
module Types {
  import opened ByteText
  import opened Failures
  import opened Wrappers

  /** Go reference layouts: the digits of the reference time mark where the
      year, month, day, hour, minute and second go. */
  const TimeFormatYYYYMMDD: Bytes := "2006-01-02"
  const TimeFormatYYYYMMDDHHmmSS: Bytes := "2006-01-02 15:04:05"

  datatype Layout = YYYYMMDD | YYYYMMDDHHmmSS

  function LayoutText(l: Layout): Bytes
  {
    match l
    case YYYYMMDD => TimeFormatYYYYMMDD
    case YYYYMMDDHHmmSS => TimeFormatYYYYMMDDHHmmSS
  }

  /** A calendar instant in UTC, as far as the two layouts can express it. */
  datatype Time = Time(year: nat, month: nat, day: nat, hour: nat, minute: nat, second: nat)

  /** Go's zero `time.Time`: January 1 of year 1, 00:00:00 UTC. */
  const ZeroTime: Time := Time(1, 1, 1, 0, 0, 0)

  predicate IsLeap(year: nat)
  {
    year % 4 == 0 && (year % 100 != 0 || year % 400 == 0)
  }

  function DaysIn(month: nat, year: nat): nat
    requires 1 <= month <= 12
  {
    if month == 2 then (if IsLeap(year) then 29 else 28)
    else if month == 4 || month == 6 || month == 9 || month == 11 then 30
    else 31
  }

  /** A date and time that exists and whose year has four digits. */
  predicate Valid(t: Time)
  {
    t.year <= 9999 && 1 <= t.month <= 12 && 1 <= t.day <= DaysIn(t.month, t.year)
    && t.hour < 24 && t.minute < 60 && t.second < 60
  }

  /** What a layout can hold: a date-only layout holds midnight only. */
  predicate Fits(l: Layout, t: Time)
  {
    Valid(t) && (l == YYYYMMDD ==> t.hour == 0 && t.minute == 0 && t.second == 0)
  }

  /** Three fixed-width numbers with a separator between them: the date part
      (width 4 for the year, '-') and the clock part (width 2, ':'). */
  function Triple(x: nat, y: nat, z: nat, w: nat, sep: Byte): (s: Bytes)
    ensures |s| == w + 6
  {
    FixedDigits(x, w) + [sep] + FixedDigits(y, 2) + [sep] + FixedDigits(z, 2)
  }

  predicate DigitsAt(s: Bytes, from: nat, to: nat)
  {
    from <= to <= |s| && AllDigits(s[from..to])
  }

  predicate TripleDigits(s: Bytes, w: nat)
  {
    |s| == w + 6 && DigitsAt(s, 0, w) && DigitsAt(s, w + 1, w + 3) && DigitsAt(s, w + 4, w + 6)
  }

  predicate TripleMatches(s: Bytes, w: nat, sep: Byte)
  {
    TripleDigits(s, w) && s[w] == sep && s[w + 3] == sep
  }

  function TripleValues(s: Bytes, w: nat): (nat, nat, nat)
    requires TripleDigits(s, w)
  {
    (DecimalValue(s[0..w]), DecimalValue(s[w + 1..w + 3]), DecimalValue(s[w + 4..w + 6]))
  }

  lemma TripleParsesBack(x: nat, y: nat, z: nat, w: nat, sep: Byte)
    requires x < Pow10(w) && y < 100 && z < 100
    ensures var s := Triple(x, y, z, w, sep);
      TripleMatches(s, w, sep) && TripleValues(s, w) == (x, y, z)
  {
    var a, b, c := FixedDigits(x, w), FixedDigits(y, 2), FixedDigits(z, 2);
    var s := Triple(x, y, z, w, sep);
    assert s == a + ([sep] + b + [sep] + c);
    assert s[0..w] == a;
    assert s[w + 1..] == b + ([sep] + c);
    assert s[w + 1..w + 3] == b;
    assert s[w + 4..] == c;
    assert s[w + 4..w + 6] == c;
    assert Pow10(2) == 100;
    FixedDigitsValue(x, w);
    FixedDigitsValue(y, 2);
    FixedDigitsValue(z, 2);
  }

  lemma TripleFormatsBack(s: Bytes, w: nat, sep: Byte)
    requires TripleMatches(s, w, sep)
    ensures var (x, y, z) := TripleValues(s, w); Triple(x, y, z, w, sep) == s
  {
    ValueFixedDigits(s[0..w]);
    ValueFixedDigits(s[w + 1..w + 3]);
    ValueFixedDigits(s[w + 4..w + 6]);
    assert s == s[0..w] + [s[w]] + s[w + 1..w + 3] + [s[w + 3]] + s[w + 4..w + 6];
  }

  /** `t.Format(layout)`. */
  function Format(l: Layout, t: Time): (s: Bytes)
    ensures |s| == |LayoutText(l)|
  {
    var date := Triple(t.year, t.month, t.day, 4, '-');
    match l
    case YYYYMMDD => date
    case YYYYMMDDHHmmSS => date + [' '] + Triple(t.hour, t.minute, t.second, 2, ':')
  }

  /** The text has the shape of the layout: digits where the reference time
      has digits, the layout's own separators elsewhere. */
  predicate Matches(l: Layout, s: Bytes)
  {
    match l
    case YYYYMMDD => TripleMatches(s, 4, '-')
    case YYYYMMDDHHmmSS =>
      |s| == 19 && TripleMatches(s[..10], 4, '-') && s[10] == ' ' && TripleMatches(s[11..], 2, ':')
  }

  /** `time.Parse(layout, s)`: None stands for a parse error. */
  function Parse(l: Layout, s: Bytes): (r: Option<Time>)
    ensures r.Some? ==> Fits(l, r.value) && Matches(l, s)
  {
    if !Matches(l, s) then None
    else
      var t :=
        match l
        case YYYYMMDD =>
          var (y, mo, d) := TripleValues(s, 4);
          Time(y, mo, d, 0, 0, 0)
        case YYYYMMDDHHmmSS =>
          var (y, mo, d) := TripleValues(s[..10], 4);
          var (h, mi, se) := TripleValues(s[11..], 2);
          Time(y, mo, d, h, mi, se);
      if Valid(t) then Some(t) else None
  }

  /** `time.Parse` with the layout between double quotes, as the JSON
      decoders use it. */
  function ParseQuoted(l: Layout, data: Bytes): (r: Option<Time>)
    ensures r.Some? ==> |data| >= 2 && data[0] == '"' && data[|data| - 1] == '"'
                        && r == Parse(l, data[1..|data| - 1])
  {
    if |data| >= 2 && data[0] == '"' && data[|data| - 1] == '"' then Parse(l, data[1..|data| - 1])
    else None
  }

  function ParseError(l: Layout, value: Bytes): Err
  {
    Plain("parsing time \"" + value + "\" as \"" + LayoutText(l) + "\"")
  }

  /** Formatting then parsing gives the time back. */
  lemma ParseFormat(l: Layout, t: Time)
    requires Fits(l, t)
    ensures Parse(l, Format(l, t)) == Some(t)
  {
    assert Pow10(4) == 10000 by { assert Pow10(2) == 100; }
    TripleParsesBack(t.year, t.month, t.day, 4, '-');
    if l == YYYYMMDDHHmmSS {
      TripleParsesBack(t.hour, t.minute, t.second, 2, ':');
      var s := Format(l, t);
      assert s[..10] == Triple(t.year, t.month, t.day, 4, '-');
      assert s[11..] == Triple(t.hour, t.minute, t.second, 2, ':');
    }
  }

  /** Every text the layout accepts is the formatting of what it parses to:
      the fields have fixed widths, so there is no second spelling. */
  lemma FormatParse(l: Layout, s: Bytes)
    requires Parse(l, s).Some?
    ensures Format(l, Parse(l, s).value) == s
  {
    if l == YYYYMMDD {
      TripleFormatsBack(s, 4, '-');
    } else {
      TripleFormatsBack(s[..10], 4, '-');
      TripleFormatsBack(s[11..], 2, ':');
      assert s == s[..10] + [s[10]] + s[11..];
    }
  }

  lemma ReferenceDigits()
    ensures FixedDigits(2006, 4) == "2006"
    ensures FixedDigits(1, 2) == "01" && FixedDigits(2, 2) == "02"
    ensures FixedDigits(15, 2) == "15" && FixedDigits(4, 2) == "04" && FixedDigits(5, 2) == "05"
  {
    assert FixedDigits(2, 1) == "2";
    assert FixedDigits(20, 2) == "20";
    assert FixedDigits(200, 3) == "200";
    assert FixedDigits(0, 1) == "0";
    assert FixedDigits(1, 1) == "1";
  }

  /** The date of the reference time in the date layout. */
  lemma ReferenceDate()
    ensures Triple(2006, 1, 2, 4, '-') == TimeFormatYYYYMMDD
  {
    ReferenceDigits();
  }

  /** The clock of the reference time in the clock layout. */
  lemma ReferenceClock()
    ensures Triple(15, 4, 5, 2, ':') == "15:04:05"
  {
    ReferenceDigits();
  }

  /** The date layout is itself the date of the Go reference time,
      January 2 2006. */
  lemma DateLayoutIsReferenceTime()
    ensures Parse(YYYYMMDD, TimeFormatYYYYMMDD) == Some(Time(2006, 1, 2, 0, 0, 0))
  {
    ReferenceDate();
    ParseFormat(YYYYMMDD, Time(2006, 1, 2, 0, 0, 0));
  }

  /** The date-and-time layout is itself the text of the Go reference time,
      January 2 2006, 15:04:05. */
  lemma DateTimeLayoutIsReferenceTime()
    ensures Parse(YYYYMMDDHHmmSS, TimeFormatYYYYMMDDHHmmSS) == Some(Time(2006, 1, 2, 15, 4, 5))
  {
    var t := Time(2006, 1, 2, 15, 4, 5);
    ReferenceDate();
    ReferenceClock();
    var date: Bytes, clock: Bytes := TimeFormatYYYYMMDD, "15:04:05";
    assert Format(YYYYMMDDHHmmSS, t) == date + [' '] + clock;
    LayoutJoin();
    ParseFormat(YYYYMMDDHHmmSS, t);
  }

  /** The date-and-time layout is the date layout, a space and the clock. */
  lemma LayoutJoin()
    ensures TimeFormatYYYYMMDD + [' '] + "15:04:05" == TimeFormatYYYYMMDDHHmmSS
  {
    var s: Bytes := TimeFormatYYYYMMDD + [' '] + "15:04:05";
    forall i | 0 <= i < 19 ensures s[i] == TimeFormatYYYYMMDDHHmmSS[i] {
      if i < 10 {
        assert s[i] == TimeFormatYYYYMMDD[i];
      } else if i > 10 {
        assert s[i] == "15:04:05"[i - 11];
      }
    }
  }

  /** `TimeYYYYMMDD`: a time read and written as YYYY-MM-DD. */
  class TimeYYYYMMDD {
    var time: Time

    constructor ()
      ensures time == ZeroTime
    {
      time := ZeroTime;
    }

    /** JSON `null` leaves the value alone; anything else must be a quoted
        date. On a parse error the value becomes the zero time. */
    method UnmarshalJSON(data: Bytes) returns (err: Option<Err>)
      modifies this
      ensures data == "null" ==> time == old(time) && err.None?
      ensures data != "null" && ParseQuoted(YYYYMMDD, data).Some? ==>
        err.None? && time == ParseQuoted(YYYYMMDD, data).value && String() == data[1..|data| - 1]
      ensures data != "null" && ParseQuoted(YYYYMMDD, data).None? ==> err.Some? && time == ZeroTime
    {
      if data == "null" {
        return None;
      }
      var parsed := ParseQuoted(YYYYMMDD, data);
      if parsed.Some? {
        time := parsed.value;
        err := None;
        FormatParse(YYYYMMDD, data[1..|data| - 1]);
      } else {
        time := ZeroTime;
        err := Some(ParseError(YYYYMMDD, data));
      }
    }

    /** The bare layout; on a parse error the value becomes the zero time. */
    method UnmarshalText(data: Bytes) returns (err: Option<Err>)
      modifies this
      ensures Parse(YYYYMMDD, data).Some? ==> err.None? && time == Parse(YYYYMMDD, data).value && String() == data
      ensures Parse(YYYYMMDD, data).None? ==> err.Some? && time == ZeroTime
    {
      var parsed := Parse(YYYYMMDD, data);
      if parsed.Some? {
        time := parsed.value;
        err := None;
        FormatParse(YYYYMMDD, data);
      } else {
        time := ZeroTime;
        err := Some(ParseError(YYYYMMDD, data));
      }
    }

    /** `String()`: what UnmarshalText reads back to the same time. */
    function String(): (s: Bytes)
      reads this
      ensures Fits(YYYYMMDD, time) ==> Parse(YYYYMMDD, s) == Some(time)
    {
      ParseFormatWhenFits(YYYYMMDD, time);
      Format(YYYYMMDD, time)
    }
  }

  /** `TimeYYYYMMDDHHmmSS`: a time read and written as YYYY-MM-DD HH:MM:SS. */
  class TimeYYYYMMDDHHmmSS {
    var time: Time

    constructor ()
      ensures time == ZeroTime
    {
      time := ZeroTime;
    }

    method UnmarshalJSON(data: Bytes) returns (err: Option<Err>)
      modifies this
      ensures data == "null" ==> time == old(time) && err.None?
      ensures data != "null" && ParseQuoted(YYYYMMDDHHmmSS, data).Some? ==>
        err.None? && time == ParseQuoted(YYYYMMDDHHmmSS, data).value && String() == data[1..|data| - 1]
      ensures data != "null" && ParseQuoted(YYYYMMDDHHmmSS, data).None? ==> err.Some? && time == ZeroTime
    {
      if data == "null" {
        return None;
      }
      var parsed := ParseQuoted(YYYYMMDDHHmmSS, data);
      if parsed.Some? {
        time := parsed.value;
        err := None;
        FormatParse(YYYYMMDDHHmmSS, data[1..|data| - 1]);
      } else {
        time := ZeroTime;
        err := Some(ParseError(YYYYMMDDHHmmSS, data));
      }
    }

    method UnmarshalText(data: Bytes) returns (err: Option<Err>)
      modifies this
      ensures Parse(YYYYMMDDHHmmSS, data).Some? ==>
        err.None? && time == Parse(YYYYMMDDHHmmSS, data).value && String() == data
      ensures Parse(YYYYMMDDHHmmSS, data).None? ==> err.Some? && time == ZeroTime
    {
      var parsed := Parse(YYYYMMDDHHmmSS, data);
      if parsed.Some? {
        time := parsed.value;
        err := None;
        FormatParse(YYYYMMDDHHmmSS, data);
      } else {
        time := ZeroTime;
        err := Some(ParseError(YYYYMMDDHHmmSS, data));
      }
    }

    function String(): (s: Bytes)
      reads this
      ensures Fits(YYYYMMDDHHmmSS, time) ==> Parse(YYYYMMDDHHmmSS, s) == Some(time)
    {
      ParseFormatWhenFits(YYYYMMDDHHmmSS, time);
      Format(YYYYMMDDHHmmSS, time)
    }
  }

  /** ParseFormat for any time: formatting parses back whenever the layout can hold the time. */
  lemma ParseFormatWhenFits(l: Layout, t: Time)
    ensures Fits(l, t) ==> Parse(l, Format(l, t)) == Some(t)
  {
    if Fits(l, t) {
      ParseFormat(l, t);
    }
  }

  /** `MarketingConsent` is a uint8 with two named values. */
  newtype MarketingConsent = x: int | 0 <= x < 256
  const REFUSED: MarketingConsent := 0
  const GRANTED: MarketingConsent := 1

  /** `PhpBool.String`: PHP's integer spelling of a boolean. */
  function PhpBoolString(b: bool): (s: Bytes)
    ensures IsCanonicalDecimal(s) && DecimalValue(s) == if b then 1 else 0
  {
    if b then "1" else "0"
  }
}
