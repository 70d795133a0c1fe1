/**
 * `YearMonthValueGenerator` (Infrastructure/Data): the value of the
 * `CreatedAtYearMonth` shadow property, `createdAt.ToString("yyyy-MM")` under
 * the Gregorian calendar.
 */
module YearMonth {

  import opened Wrappers
  import Entities

  predicate IsLeapYear(year: int)
  {
    year % 4 == 0 && (year % 100 != 0 || year % 400 == 0)
  }

  function DaysInMonth(year: int, month: int): int
    requires 1 <= month <= 12
  {
    if month == 2 then (if IsLeapYear(year) then 29 else 28)
    else if month == 4 || month == 6 || month == 9 || month == 11 then 30
    else 31
  }

  /** A `DateTime` by its calendar fields (the kind and the sub-day ticks do not enter the key). */
  datatype DateTimeParts = DateTimeParts(year: int, month: int, day: int, tickOfDay: int)

  predicate IsDateTime(d: DateTimeParts)
  {
    && 1 <= d.year <= 9999
    && 1 <= d.month <= 12
    && 1 <= d.day <= DaysInMonth(d.year, d.month)
    && 0 <= d.tickOfDay < Entities.TicksPerDay
  }

  /** The values `DateTime` can hold: 0001-01-01 through 9999-12-31. */
  type DateTime = d: DateTimeParts | IsDateTime(d) witness DateTimeParts(1, 1, 1, 0)

  /**
   * The current value of the entry's `CreatedAt` property: missing, a
   * `DateTime`, or anything else (a `DateTimeOffset`, as `TemperatureReading`
   * and `BatteryChange` declare it, or null).
   */
  datatype PropertyValue = Missing | DateTimeValue(at: DateTime) | OtherValue

  predicate IsDigit(c: char)
  {
    '0' <= c <= '9'
  }

  function DigitChar(d: int): (c: char)
    requires 0 <= d <= 9
    ensures IsDigit(c) && DigitValue(c) == d
  {
    (48 + d) as char
  }

  function DigitValue(c: char): int
  {
    c as int - 48
  }

  /** Custom format "yyyy-MM": the year zero-padded to four digits, '-', the month zero-padded to two. */
  function FormatYearMonth(year: int, month: int): (key: string)
    requires 0 <= year <= 9999 && 0 <= month <= 99
    ensures |key| == 7 && key[4] == '-'
    ensures forall i :: 0 <= i < 7 && i != 4 ==> IsDigit(key[i])
  {
    [DigitChar(year / 1000), DigitChar(year / 100 % 10), DigitChar(year / 10 % 10), DigitChar(year % 10),
     '-',
     DigitChar(month / 10), DigitChar(month % 10)]
  }

  /** Reads a "yyyy-MM" key back into its year and month. */
  function ParseYearMonth(key: string): Option<(int, int)>
  {
    if |key| == 7 && key[4] == '-' && forall i :: 0 <= i < 7 && i != 4 ==> IsDigit(key[i]) then
      Some((1000 * DigitValue(key[0]) + 100 * DigitValue(key[1]) + 10 * DigitValue(key[2]) + DigitValue(key[3]),
            10 * DigitValue(key[5]) + DigitValue(key[6])))
    else None
  }

  lemma FourDigits(n: int)
    requires 0 <= n <= 9999
    ensures 1000 * (n / 1000) + 100 * (n / 100 % 10) + 10 * (n / 10 % 10) + n % 10 == n
  {
    var a, b := n / 100, n % 100;
    assert n == 100 * a + b;
    assert a == 10 * (a / 10) + a % 10;
    assert n / 1000 == a / 10;
    assert n / 10 == 10 * a + b / 10;
    assert n / 10 % 10 == b / 10;
    assert n % 10 == b % 10;
  }

  /** Parsing a formatted key gives back the year and month. */
  lemma {:induction false} ParseFormatRoundTrip(year: int, month: int)
    requires 0 <= year <= 9999 && 0 <= month <= 99
    ensures ParseYearMonth(FormatYearMonth(year, month)) == Some((year, month))
  {
    FourDigits(year);
  }

  /** Different (year, month) pairs never share a key. */
  lemma {:induction false} FormatYearMonthInjective(y1: int, m1: int, y2: int, m2: int)
    requires 0 <= y1 <= 9999 && 0 <= m1 <= 99 && 0 <= y2 <= 9999 && 0 <= m2 <= 99
    requires FormatYearMonth(y1, m1) == FormatYearMonth(y2, m2)
    ensures y1 == y2 && m1 == m2
  {
    ParseFormatRoundTrip(y1, m1);
    ParseFormatRoundTrip(y2, m2);
  }

  /** `GeneratesTemporaryValues`: the generated keys are stored, not placeholders. */
  function GeneratesTemporaryValues(): (temporary: bool)
    ensures !temporary
  {
    false
  }

  /**
   * `Next(entry)`: the year and month of `CreatedAt` when it holds a
   * `DateTime`, and otherwise of `utcNow`, the clock's current UTC time.
   */
  function Next(createdAt: PropertyValue, utcNow: DateTime): (key: string)
    ensures |key| == 7 && key[4] == '-'
    ensures createdAt.DateTimeValue? ==> ParseYearMonth(key) == Some((createdAt.at.year, createdAt.at.month))
    ensures !createdAt.DateTimeValue? ==> ParseYearMonth(key) == Some((utcNow.year, utcNow.month))
  {
    var at := if createdAt.DateTimeValue? then createdAt.at else utcNow;
    ParseFormatRoundTrip(at.year, at.month);
    FormatYearMonth(at.year, at.month)
  }

  /** Two instants in the same calendar month share a key, whatever the clock says. */
  lemma SameMonthSameKey(a: DateTime, b: DateTime, nowA: DateTime, nowB: DateTime)
    requires a.year == b.year && a.month == b.month
    ensures Next(DateTimeValue(a), nowA) == Next(DateTimeValue(b), nowB)
  {
  }

  /** Instants in different calendar months get different keys. */
  lemma {:induction false} DifferentMonthsDifferentKeys(a: DateTime, b: DateTime, nowA: DateTime, nowB: DateTime)
    requires (a.year, a.month) != (b.year, b.month)
    ensures Next(DateTimeValue(a), nowA) != Next(DateTimeValue(b), nowB)
  {
    if Next(DateTimeValue(a), nowA) == Next(DateTimeValue(b), nowB) {
      FormatYearMonthInjective(a.year, a.month, b.year, b.month);
    }
  }

  /** A `CreatedAt` that is not a `DateTime` falls back to the clock. */
  lemma NonDateTimeUsesClock(createdAt: PropertyValue, utcNow: DateTime)
    requires !createdAt.DateTimeValue?
    ensures Next(createdAt, utcNow) == FormatYearMonth(utcNow.year, utcNow.month)
  {
  }
}
