/** Snapshot timestamps: the compact `YYYYMMDDHHMMSS` form that the
    availability endpoint returns, parsed the way
    `NaiveDateTime::parse_from_str(s, "%Y%m%d%H%M%S")` parses it, and the
    fact the freshness check relies on: for well-formed timestamps the
    lexicographic order of the strings is the chronological order of the
    instants they denote. */
module Timestamps {
  import opened Wrappers
  import opened Text

  predicate IsDigit(c: char) {
    '0' <= c <= '9'
  }

  predicate AllDigits(s: string) {
    forall i :: 0 <= i < |s| ==> IsDigit(s[i])
  }

  function DigitValue(c: char): nat
    requires IsDigit(c)
  {
    (c as int) - ('0' as int)
  }

  function DigitChar(d: nat): char
    requires d < 10
  {
    (('0' as int) + d) as char
  }

  function Pow10(n: nat): nat {
    if n == 0 then 1 else 10 * Pow10(n - 1)
  }

  /** Decimal value of a digit string, most significant digit first. */
  function Value(s: string): nat
    requires AllDigits(s)
  {
    if |s| == 0 then 0 else 10 * Value(s[..|s| - 1]) + DigitValue(s[|s| - 1])
  }

  /** `n` written with exactly `width` digits, zero-padded on the left (the
      `%Y`, `%m`, `%d`, `%H`, `%M`, `%S` renderings of a field). */
  function Digits(n: nat, width: nat): (s: string)
    ensures |s| == width && AllDigits(s)
  {
    if width == 0 then [] else Digits(n / 10, width - 1) + [DigitChar(n % 10)]
  }

  lemma {:induction false} ValueBound(s: string)
    requires AllDigits(s)
    ensures Value(s) < Pow10(|s|)
  {
    if |s| > 0 {
      ValueBound(s[..|s| - 1]);
    }
  }

  /** Writing a number that fits and reading it back gives the number. */
  lemma {:induction false} DigitsValue(n: nat, width: nat)
    requires n < Pow10(width)
    ensures Value(Digits(n, width)) == n
  {
    if width > 0 {
      DigitsValue(n / 10, width - 1);
      var s := Digits(n, width);
      assert s[..|s| - 1] == Digits(n / 10, width - 1);
    }
  }

  /** Reading a digit string and writing it back at the same width gives the string. */
  lemma {:induction false} ValueDigits(s: string)
    requires AllDigits(s)
    ensures Digits(Value(s), |s|) == s
  {
    if |s| > 0 {
      var init := s[..|s| - 1];
      ValueDigits(init);
      assert Value(s) / 10 == Value(init);
      assert Value(s) % 10 == DigitValue(s[|s| - 1]);
      assert s == init + [s[|s| - 1]];
    }
  }

  /** Appending one decimal place compares the heads first, then the digits. */
  lemma PlaceOrder(x: nat, y: nat, d: nat, e: nat)
    requires d < 10 && e < 10
    ensures 10 * x + d < 10 * y + e <==> x < y || (x == y && d < e)
    ensures 10 * x + d == 10 * y + e <==> x == y && d == e
  {
    if x < y {
      assert 10 * x + 10 <= 10 * y;
    } else if y < x {
      assert 10 * y + 10 <= 10 * x;
    }
  }

  /** For digit strings of one length, lexicographic order is numeric order. */
  lemma {:induction false} LexValue(a: string, b: string)
    requires |a| == |b| && AllDigits(a) && AllDigits(b)
    ensures LexLess(a, b) <==> Value(a) < Value(b)
    decreases |a|
  {
    if |a| == 0 {
      assert a == b;
      LexIrreflexive(a);
    } else {
      var n := |a|;
      var a', b' := a[..n - 1], b[..n - 1];
      var ca, cb := a[n - 1], b[n - 1];
      assert a == a' + [ca] && b == b' + [cb];
      LexConcat(a', [ca], b', [cb]);
      assert LexLess([ca], [cb]) <==> ca < cb by {
        assert [ca][1..] == [] && [cb][1..] == [];
      }
      LexValue(a', b');
      ValueDigits(a');
      ValueDigits(b');
      PlaceOrder(Value(a'), Value(b'), DigitValue(ca), DigitValue(cb));
    }
  }

  /** Zero-padded fields of one width compare as their values do. */
  lemma FieldOrder(x: nat, y: nat, width: nat)
    requires x < Pow10(width) && y < Pow10(width)
    ensures LexLess(Digits(x, width), Digits(y, width)) <==> x < y
    ensures Digits(x, width) == Digits(y, width) <==> x == y
  {
    DigitsValue(x, width);
    DigitsValue(y, width);
    LexValue(Digits(x, width), Digits(y, width));
  }

  /** A calendar instant: `NaiveDateTime`, proleptic Gregorian, no time zone. */
  datatype DateTime = DateTime(year: int, month: int, day: int,
                               hour: int, minute: int, second: int, nanosecond: nat)

  predicate IsLeapYear(y: int) {
    y % 4 == 0 && (y % 100 != 0 || y % 400 == 0)
  }

  function DaysInMonth(y: int, m: int): int
    requires 1 <= m <= 12
  {
    if m == 2 then (if IsLeapYear(y) then 29 else 28)
    else if m == 4 || m == 6 || m == 9 || m == 11 then 30
    else 31
  }

  predicate ValidDateTime(t: DateTime) {
    && 1 <= t.month <= 12
    && 1 <= t.day <= DaysInMonth(t.year, t.month)
    && 0 <= t.hour <= 23
    && 0 <= t.minute <= 59
    && 0 <= t.second <= 59
    && t.nanosecond < 1_000_000_000
  }

  /** `a < b` for `NaiveDateTime`: chronological order, which on valid values is
      the order of the fields from the most significant down. */
  predicate Before(a: DateTime, b: DateTime) {
    || a.year < b.year
    || (a.year == b.year && a.month < b.month)
    || (a.year == b.year && a.month == b.month && a.day < b.day)
    || (a.year == b.year && a.month == b.month && a.day == b.day && a.hour < b.hour)
    || (a.year == b.year && a.month == b.month && a.day == b.day && a.hour == b.hour
        && a.minute < b.minute)
    || (a.year == b.year && a.month == b.month && a.day == b.day && a.hour == b.hour
        && a.minute == b.minute && a.second < b.second)
    || (a.year == b.year && a.month == b.month && a.day == b.day && a.hour == b.hour
        && a.minute == b.minute && a.second == b.second && a.nanosecond < b.nanosecond)
  }

  /** Fields that fit the `%Y%m%d%H%M%S` layout without overflowing a column. */
  predicate FitsLayout(t: DateTime) {
    0 <= t.year < 10000 && 0 <= t.month < 100 && 0 <= t.day < 100
    && 0 <= t.hour < 100 && 0 <= t.minute < 100 && 0 <= t.second < 100
    && t.nanosecond == 0
  }

  /** `t.format("%Y%m%d%H%M%S")` for a value that fits the layout. */
  function Format(t: DateTime): (s: string)
    requires FitsLayout(t)
    ensures |s| == 14 && AllDigits(s)
  {
    Digits(t.year, 4) + (Digits(t.month, 2) + (Digits(t.day, 2)
      + (Digits(t.hour, 2) + (Digits(t.minute, 2) + Digits(t.second, 2)))))
  }

  /** chrono's `ParseErrorKind`, as far as this layout can produce it. */
  datatype ParseError = OutOfRange | Invalid | TooShort | TooLong

  /** The `Display` text of a chrono `ParseError`. */
  function ParseErrorText(e: ParseError): string {
    match e
    case OutOfRange => "input is out of range"
    case Invalid => "input contains invalid characters"
    case TooShort => "premature end of input"
    case TooLong => "trailing input"
  }

  /** The six fields of a 14-digit string, read column by column. */
  function Fields(s: string): (t: DateTime)
    requires |s| == 14 && AllDigits(s)
    ensures FitsLayout(t)
  {
    ValueBound(s[0..4]);
    ValueBound(s[4..6]);
    ValueBound(s[6..8]);
    ValueBound(s[8..10]);
    ValueBound(s[10..12]);
    ValueBound(s[12..14]);
    DateTime(Value(s[0..4]), Value(s[4..6]), Value(s[6..8]),
             Value(s[8..10]), Value(s[10..12]), Value(s[12..14]), 0)
  }

  /** Two 14-character strings that agree on every column are equal. */
  lemma ColumnsDetermine(s1: string, s2: string)
    requires |s1| == 14 && |s2| == 14
    requires s1[0..4] == s2[0..4] && s1[4..6] == s2[4..6] && s1[6..8] == s2[6..8]
    requires s1[8..10] == s2[8..10] && s1[10..12] == s2[10..12] && s1[12..14] == s2[12..14]
    ensures s1 == s2
  {
    assert s1 == s1[0..4] + s1[4..6] + s1[6..8] + s1[8..10] + s1[10..12] + s1[12..14];
    assert s2 == s2[0..4] + s2[4..6] + s2[6..8] + s2[8..10] + s2[10..12] + s2[12..14];
  }

  lemma FieldsFormat(s: string)
    requires |s| == 14 && AllDigits(s)
    ensures Format(Fields(s)) == s
  {
    ValueDigits(s[0..4]);
    ValueDigits(s[4..6]);
    ValueDigits(s[6..8]);
    ValueDigits(s[8..10]);
    ValueDigits(s[10..12]);
    ValueDigits(s[12..14]);
    FormatColumns(Fields(s));
    ColumnsDetermine(Format(Fields(s)), s);
  }

  /** A string the parser accepts: fourteen digits naming a real calendar instant. */
  predicate WellFormedTimestamp(s: string) {
    |s| == 14 && AllDigits(s) && ValidDateTime(Fields(s))
  }

  function Min(a: int, b: int): int {
    if a < b then a else b
  }

  /** `NaiveDateTime::parse_from_str(s, "%Y%m%d%H%M%S")`, restricted to the
      fixed-width reading of the layout. */
  function ParseTimestamp(s: string): (r: Result<DateTime, ParseError>)
    ensures r.Ok? <==> WellFormedTimestamp(s)
    ensures r.Ok? ==> ValidDateTime(r.value) && FitsLayout(r.value) && Format(r.value) == s
  {
    if !AllDigits(s[..Min(|s|, 14)]) then
      assert !AllDigits(s) by {
        var i :| 0 <= i < Min(|s|, 14) && !IsDigit(s[..Min(|s|, 14)][i]);
        assert s[..Min(|s|, 14)][i] == s[i];
      }
      Err(Invalid)
    else if |s| < 14 then Err(TooShort)
    else if |s| > 14 then Err(TooLong)
    else
      assert s[..14] == s;
      var t := Fields(s);
      if ValidDateTime(t) then
        FieldsFormat(s);
        Ok(t)
      else
        Err(OutOfRange)
  }

  /** The columns of a rendering hold the fields, each at its width. */
  lemma FormatColumns(t: DateTime)
    requires FitsLayout(t)
    ensures var s := Format(t);
      && s[0..4] == Digits(t.year, 4) && s[4..6] == Digits(t.month, 2)
      && s[6..8] == Digits(t.day, 2) && s[8..10] == Digits(t.hour, 2)
      && s[10..12] == Digits(t.minute, 2) && s[12..14] == Digits(t.second, 2)
  {
    var mi := Digits(t.minute, 2) + Digits(t.second, 2);
    var h := Digits(t.hour, 2) + mi;
    var d := Digits(t.day, 2) + h;
    var mo := Digits(t.month, 2) + d;
    var s := Format(t);
    assert s == Digits(t.year, 4) + mo;
    assert s[4..] == mo;
    assert s[6..] == d;
    assert s[8..] == h;
    assert s[10..] == mi;
  }

  /** Formatting a valid instant and parsing the text back gives the instant. */
  lemma {:induction false} ParseFormat(t: DateTime)
    requires ValidDateTime(t) && FitsLayout(t)
    ensures ParseTimestamp(Format(t)) == Ok(t)
  {
    var s := Format(t);
    FormatColumns(t);
    DigitsValue(t.year, 4);
    DigitsValue(t.month, 2);
    DigitsValue(t.day, 2);
    DigitsValue(t.hour, 2);
    DigitsValue(t.minute, 2);
    DigitsValue(t.second, 2);
    assert Fields(s) == t;
    assert s[..Min(|s|, 14)] == s;
  }

  /** Comparing two renderings that start with a field of the same width
      compares that field first and the rest only on a tie. */
  lemma FieldStep(x: nat, y: nat, width: nat, ra: string, rb: string)
    requires x < Pow10(width) && y < Pow10(width) && |ra| == |rb|
    ensures LexLess(Digits(x, width) + ra, Digits(y, width) + rb) <==> x < y || (x == y && LexLess(ra, rb))
    ensures Digits(x, width) + ra == Digits(y, width) + rb <==> x == y && ra == rb
  {
    var dx, dy := Digits(x, width), Digits(y, width);
    FieldOrder(x, y, width);
    LexConcat(dx, ra, dy, rb);
    ConcatInjective(dx, ra, dy, rb);
  }

  /** The time-of-day columns of a rendering: `%H%M%S`. */
  function ClockText(t: DateTime): string
    requires FitsLayout(t)
  {
    Digits(t.hour, 2) + (Digits(t.minute, 2) + Digits(t.second, 2))
  }

  /** Time-of-day renderings compare as the hour, minute and second do. */
  lemma ClockOrder(a: DateTime, b: DateTime)
    requires FitsLayout(a) && FitsLayout(b)
    ensures LexLess(ClockText(a), ClockText(b)) <==>
      || a.hour < b.hour
      || (a.hour == b.hour && a.minute < b.minute)
      || (a.hour == b.hour && a.minute == b.minute && a.second < b.second)
    ensures ClockText(a) == ClockText(b) <==>
      a.hour == b.hour && a.minute == b.minute && a.second == b.second
  {
    var sa, sb := Digits(a.second, 2), Digits(b.second, 2);
    FieldOrder(a.second, b.second, 2);
    FieldStep(a.minute, b.minute, 2, sa, sb);
    FieldStep(a.hour, b.hour, 2, Digits(a.minute, 2) + sa, Digits(b.minute, 2) + sb);
  }

  /** On values that fit the layout, comparing the formatted strings
      lexicographically is comparing the instants chronologically. */
  lemma {:induction false} FormatOrder(a: DateTime, b: DateTime)
    requires FitsLayout(a) && FitsLayout(b)
    ensures LexLess(Format(a), Format(b)) <==> Before(a, b)
  {
    var ca, cb := ClockText(a), ClockText(b);
    var da, db := Digits(a.day, 2) + ca, Digits(b.day, 2) + cb;
    var oa, ob := Digits(a.month, 2) + da, Digits(b.month, 2) + db;
    ClockOrder(a, b);
    FieldStep(a.day, b.day, 2, ca, cb);
    FieldStep(a.month, b.month, 2, da, db);
    FieldStep(a.year, b.year, 4, oa, ob);
    assert Format(a) == Digits(a.year, 4) + oa && Format(b) == Digits(b.year, 4) + ob;
  }

  /** The freshness check compares timestamp strings to pick the newest
      snapshot: on strings the parser accepts, that order is chronological. */
  lemma LexIsChronological(a: string, b: string)
    requires WellFormedTimestamp(a) && WellFormedTimestamp(b)
    ensures LexLess(a, b) <==> Before(ParseTimestamp(a).value, ParseTimestamp(b).value)
  {
    FormatOrder(ParseTimestamp(a).value, ParseTimestamp(b).value);
  }
}
