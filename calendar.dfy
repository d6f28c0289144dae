/**
 * Calendar dates, monthly periods and the text form through which a period
 * is turned back into a timestamp. A date is a plain (year, month, day)
 * triple: time of day and time zones play no part in the aggregation.
 */
module Calendar {

  import opened Wrappers

  /** A calendar date, the index of one daily row. */
  datatype Date = Date(year: int, month: int, day: int)

  /** A monthly period, what `to_period("M")` makes of a date. */
  datatype YearMonth = YearMonth(year: int, month: int)

  predicate IsLeapYear(y: int)
  {
    y % 4 == 0 && (y % 100 != 0 || y % 400 == 0)
  }

  function DaysInMonth(y: int, m: int): int
    requires 1 <= m <= 12
  {
    if m == 2 then (if IsLeapYear(y) then 29 else 28)
    else if m == 4 || m == 6 || m == 9 || m == 11 then 30
    else 31
  }

  /** Dates of a DatetimeIndex are real calendar dates. */
  predicate ValidDate(d: Date)
  {
    1 <= d.month <= 12 && 1 <= d.day <= DaysInMonth(d.year, d.month)
  }

  /** Strict chronological order on dates. */
  predicate DateBefore(a: Date, b: Date)
  {
    a.year < b.year ||
    (a.year == b.year && (a.month < b.month || (a.month == b.month && a.day < b.day)))
  }

  /** Strict chronological order on monthly periods. */
  predicate MonthBefore(a: YearMonth, b: YearMonth)
  {
    a.year < b.year || (a.year == b.year && a.month < b.month)
  }

  /** The monthly period a date falls in. */
  function ToPeriod(d: Date): YearMonth
  {
    YearMonth(d.year, d.month)
  }

  /** The timestamp a monthly period stands for: the first day of that month. */
  function MonthStart(k: YearMonth): (d: Date)
    ensures ToPeriod(d) == k
    ensures 1 <= k.month <= 12 ==> ValidDate(d)
    ensures forall e :: ToPeriod(e) == k && ValidDate(e) ==> d == e || DateBefore(d, e)
  {
    Date(k.year, k.month, 1)
  }

  /** Chronological order on dates never reverses the order of their periods. */
  lemma PeriodMonotone(a: Date, b: Date)
    requires DateBefore(a, b)
    ensures ToPeriod(a) == ToPeriod(b) || MonthBefore(ToPeriod(a), ToPeriod(b))
  {
  }

  /** Month starts are ordered exactly as their periods are. */
  lemma MonthStartOrder(k1: YearMonth, k2: YearMonth)
    ensures MonthBefore(k1, k2) <==> DateBefore(MonthStart(k1), MonthStart(k2))
  {
  }

  // ---------------------------------------------------------------------------
  // The text form of a period ("YYYY-MM") and its parsing back into a date.

  predicate IsDigit(c: char)
  {
    '0' <= c <= '9'
  }

  function DigitChar(n: int): (c: char)
    requires 0 <= n < 10
    ensures IsDigit(c)
  {
    ('0' as int + n) as char
  }

  function DigitValue(c: char): (n: int)
    requires IsDigit(c)
    ensures 0 <= n < 10
  {
    c as int - '0' as int
  }

  /** Two decimal digits, zero padded. */
  function TwoDigits(n: int): (s: string)
    requires 0 <= n < 100
    ensures |s| == 2 && IsDigit(s[0]) && IsDigit(s[1])
  {
    [DigitChar(n / 10), DigitChar(n % 10)]
  }

  /** The value of two decimal digits. */
  function TwoDigitValue(c0: char, c1: char): (n: int)
    requires IsDigit(c0) && IsDigit(c1)
    ensures 0 <= n < 100
  {
    10 * DigitValue(c0) + DigitValue(c1)
  }

  /** The string form of a monthly period, as `astype(str)` gives it: "YYYY-MM". */
  function PeriodString(k: YearMonth): (s: string)
    requires 0 <= k.year <= 9999 && 1 <= k.month <= 12
    ensures |s| == 7 && s[4] == '-'
    ensures forall i :: 0 <= i < 7 && i != 4 ==> IsDigit(s[i])
  {
    TwoDigits(k.year / 100) + TwoDigits(k.year % 100) + "-" + TwoDigits(k.month)
  }

  /**
   * The timestamp `to_datetime` reads from a "YYYY-MM" string: midnight of the
   * first day of that month. Any other text is not a month string.
   */
  function ParseMonthString(s: string): (r: Option<Date>)
    ensures r.Some? ==> ValidDate(r.value) && r.value.day == 1 && 0 <= r.value.year <= 9999
    ensures r.Some? ==> |s| == 7 && s[4] == '-'
  {
    if |s| == 7 && s[4] == '-' && forall i :: 0 <= i < 7 && i != 4 ==> IsDigit(s[i]) then
      var y := 100 * TwoDigitValue(s[0], s[1]) + TwoDigitValue(s[2], s[3]);
      var m := TwoDigitValue(s[5], s[6]);
      if 1 <= m <= 12 then Some(Date(y, m, 1)) else None
    else
      None
  }

  /** Writing a period out and reading it back gives the first day of that month. */
  lemma MonthStampRoundTrip(k: YearMonth)
    requires 0 <= k.year <= 9999 && 1 <= k.month <= 12
    ensures ParseMonthString(PeriodString(k)) == Some(MonthStart(k))
  {
  }

  /** Every month string is the string of the period of the date it parses to. */
  lemma MonthStringRoundTrip(s: string)
    requires ParseMonthString(s).Some?
    ensures PeriodString(ToPeriod(ParseMonthString(s).value)) == s
  {
    var d := ParseMonthString(s).value;
    var hi, lo := TwoDigitValue(s[0], s[1]), TwoDigitValue(s[2], s[3]);
    assert d.year == 100 * hi + lo;
    assert d.year / 100 == hi && d.year % 100 == lo;
    DigitsRoundTrip(s[0], s[1]);
    DigitsRoundTrip(s[2], s[3]);
    DigitsRoundTrip(s[5], s[6]);
  }

  lemma DigitsRoundTrip(c0: char, c1: char)
    requires IsDigit(c0) && IsDigit(c1)
    ensures TwoDigits(TwoDigitValue(c0, c1)) == [c0, c1]
  {
  }
}
