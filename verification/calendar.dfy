/** The proleptic Gregorian calendar: dates, day numbers counted from
    1970-01-01, the ISO 8601 weekday (Monday = 1 ... Sunday = 7, what
    PostgreSQL's EXTRACT(ISODOW ...) returns), JavaScript's weekday
    (Date.prototype.getDay, Sunday = 0 ... Saturday = 6), and the
    "YYYY-MM-DD" date strings the clients send. */
module Calendar {
  import opened Wrappers
  import opened Text
  import opened Arith

  datatype Date = Date(year: int, month: int, day: int)

  predicate IsLeapYear(y: int) {
    y % 4 == 0 && (y % 100 != 0 || y % 400 == 0)
  }

  function DaysInYear(y: int): int {
    if IsLeapYear(y) then 366 else 365
  }

  function DaysInMonth(y: int, m: int): (n: int)
    requires 1 <= m <= 12
    ensures 28 <= n <= 31
  {
    if m == 2 then (if IsLeapYear(y) then 29 else 28)
    else if m == 4 || m == 6 || m == 9 || m == 11 then 30
    else 31
  }

  predicate ValidDate(d: Date) {
    1 <= d.month <= 12 && 1 <= d.day <= DaysInMonth(d.year, d.month)
  }

  // ------------------------------------------------------------ day numbers

  /** Number of leap years among the years 1 .. y-1 (counted with floor
      division, which extends the count consistently below year 1). */
  function LeapYearsBefore(y: int): int {
    (y - 1) / 4 - (y - 1) / 100 + (y - 1) / 400
  }

  /** Days from 1970-01-01 to January 1st of year `y` (negative before 1970). */
  function YearStart(y: int): int {
    365 * (y - 1970) + LeapYearsBefore(y) - LeapYearsBefore(1970)
  }

  /** Days from January 1st of year `y` to the first day of month `m`. */
  function MonthStart(y: int, m: int): int
    requires 1 <= m <= 12
  {
    [0, 31, 59, 90, 120, 151, 181, 212, 243, 273, 304, 334][m - 1]
      + (if m > 2 && IsLeapYear(y) then 1 else 0)
  }

  /** Days from 1970-01-01 to `d`. */
  function DayNumber(d: Date): int
    requires ValidDate(d)
  {
    YearStart(d.year) + MonthStart(d.year, d.month) + d.day - 1
  }

  /** Floor division by `k` steps up by one exactly at multiples of `k`. */
  lemma DivStep(y: int, k: int)
    requires k > 0
    ensures y / k - (y - 1) / k == if y % k == 0 then 1 else 0
  {
    var q := (y - 1) / k;
    var r := (y - 1) % k;
    assert y == q * k + (r + 1);
    if r + 1 == k {
      assert y == (q + 1) * k + 0;
      DivOf(y, k, q + 1, 0);
    } else {
      DivOf(y, k, q, r + 1);
    }
  }

  /** A multiple of 400 is a multiple of 100, which is a multiple of 4. */
  lemma Multiples(y: int)
    ensures y % 400 == 0 ==> y % 100 == 0
    ensures y % 100 == 0 ==> y % 4 == 0
  {
    if y % 400 == 0 {
      DivOf(y, 100, 4 * (y / 400), 0);
    }
    if y % 100 == 0 {
      DivOf(y, 4, 25 * (y / 100), 0);
    }
  }

  lemma LeapYearsStep(y: int)
    ensures LeapYearsBefore(y + 1) - LeapYearsBefore(y) == if IsLeapYear(y) then 1 else 0
  {
    DivStep(y, 4);
    DivStep(y, 100);
    DivStep(y, 400);
    Multiples(y);
  }

  /** Consecutive years are a year's length apart. */
  lemma YearStartStep(y: int)
    ensures YearStart(y + 1) == YearStart(y) + DaysInYear(y)
  {
    LeapYearsStep(y);
  }

  /** Consecutive months are a month's length apart ... */
  lemma MonthStartStep(y: int, m: int)
    requires 1 <= m < 12
    ensures MonthStart(y, m + 1) == MonthStart(y, m) + DaysInMonth(y, m)
  {
  }

  /** ... and the twelve months fill the year exactly. */
  lemma MonthsFillYear(y: int)
    ensures MonthStart(y, 12) + DaysInMonth(y, 12) == DaysInYear(y)
  {
  }

  // --------------------------------------------------------------- weekdays

  /** ISO weekday of day number `n`; day 0, 1970-01-01, was a Thursday (4). */
  function IsoWeekday(n: int): (w: int)
    ensures 1 <= w <= 7
  {
    (n + 3) % 7 + 1
  }

  /** ISO weekday of a calendar date. */
  function IsoDayOf(d: Date): (w: int)
    requires ValidDate(d)
    ensures 1 <= w <= 7
  {
    IsoWeekday(DayNumber(d))
  }

  /** The day after `d`. */
  function NextDate(d: Date): (r: Date)
    requires ValidDate(d)
    ensures ValidDate(r)
  {
    if d.day < DaysInMonth(d.year, d.month) then Date(d.year, d.month, d.day + 1)
    else if d.month < 12 then Date(d.year, d.month + 1, 1)
    else Date(d.year + 1, 1, 1)
  }

  /** Day numbers count days: the next date is the next day number. */
  lemma NextDateIsNextDay(d: Date)
    requires ValidDate(d)
    ensures DayNumber(NextDate(d)) == DayNumber(d) + 1
  {
    if d.day == DaysInMonth(d.year, d.month) {
      if d.month == 12 {
        YearStartStep(d.year);
        MonthsFillYear(d.year);
      } else {
        MonthStartStep(d.year, d.month);
      }
    }
  }

  /** Weekdays advance cyclically from one date to the next: Monday after
      Sunday, otherwise one more. */
  lemma IsoDayOfNextDate(d: Date)
    requires ValidDate(d)
    ensures IsoDayOf(NextDate(d)) == IsoDayOf(d) % 7 + 1
  {
    NextDateIsNextDay(d);
    IsoWeekdayStep(DayNumber(d));
  }

  lemma IsoWeekdayStep(n: int)
    ensures IsoWeekday(n + 1) == IsoWeekday(n) % 7 + 1
  {
    var a := (n + 3) % 7;
    assert n + 3 == 7 * ((n + 3) / 7) + a;
    if a == 6 {
      assert n + 4 == 7 * ((n + 3) / 7 + 1);
    } else {
      assert n + 4 == 7 * ((n + 3) / 7) + a + 1;
    }
  }

  /** A fixed point of the calendar: 1970-01-01 is day 0, a Thursday, and
      2024-01-01 is a Monday. */
  lemma KnownWeekdays()
    ensures DayNumber(Date(1970, 1, 1)) == 0 && IsoDayOf(Date(1970, 1, 1)) == 4
    ensures DayNumber(Date(2024, 1, 1)) == 19723 && IsoDayOf(Date(2024, 1, 1)) == 1
  {
  }

  /** JavaScript's weekday of day number `n` (Sunday = 0). */
  function JsWeekday(n: int): (w: int)
    ensures 0 <= w <= 6
  {
    (n + 4) % 7
  }

  /** The client's conversion of a JavaScript weekday to ISO numbering:
      Sunday (0) becomes 7, Monday .. Saturday keep 1 .. 6. */
  function IsoDayFromJsDay(js: int): (iso: int)
    requires 0 <= js <= 6
    ensures 1 <= iso <= 7
    ensures iso % 7 == js
    ensures js != 0 ==> iso == js
  {
    if js == 0 then 7 else js
  }

  /** The inverse conversion, ISO weekday back to JavaScript's. */
  function JsDayFromIsoDay(iso: int): (js: int)
    requires 1 <= iso <= 7
    ensures 0 <= js <= 6
  {
    iso % 7
  }

  /** The conversion is a bijection from 0..6 onto 1..7. */
  lemma IsoJsBijection()
    ensures forall js :: 0 <= js <= 6 ==> JsDayFromIsoDay(IsoDayFromJsDay(js)) == js
    ensures forall iso :: 1 <= iso <= 7 ==> IsoDayFromJsDay(JsDayFromIsoDay(iso)) == iso
    ensures forall a, b :: 0 <= a <= 6 && 0 <= b <= 6 && IsoDayFromJsDay(a) == IsoDayFromJsDay(b) ==> a == b
  {
  }

  /** The browser's converted weekday agrees with PostgreSQL's ISODOW on
      every day. */
  lemma JsConversionAgreesWithIso(n: int)
    ensures IsoDayFromJsDay(JsWeekday(n)) == IsoWeekday(n)
  {
  }

  // ------------------------------------------------------------ date strings

  /** "YYYY-MM-DD" for a date of years 1 .. 9999. */
  function FormatIsoDate(d: Date): (s: string)
    requires ValidDate(d) && 1 <= d.year <= 9999
    ensures |s| == 10 && s[4] == '-' && s[7] == '-'
  {
    FixedDigits(d.year, 4) + "-" + FixedDigits(d.month, 2) + "-" + FixedDigits(d.day, 2)
  }

  /** Reads "YYYY-MM-DD"; anything that is not a real date of years
      1 .. 9999 in that form is rejected (PostgreSQL's date cast fails). */
  function ParseIsoDate(s: string): (r: Option<Date>)
    ensures r.Some? ==> ValidDate(r.value) && 1 <= r.value.year <= 9999
    ensures r.Some? ==> |s| == 10
  {
    if |s| == 10 && AllDigits(s[..4]) && s[4] == '-' && AllDigits(s[5..7]) && s[7] == '-' && AllDigits(s[8..])
    then
      var d := Date(DigitsValue(s[..4]), DigitsValue(s[5..7]), DigitsValue(s[8..]));
      if 1 <= d.year && ValidDate(d) then
        DigitsValueBound(s[..4]);
        assert Pow10(4) == 10000;
        Some(d)
      else None
    else None
  }

  /** Formatting a date and reading it back gives the date. */
  lemma ParseFormatDate(d: Date)
    requires ValidDate(d) && 1 <= d.year <= 9999
    ensures ParseIsoDate(FormatIsoDate(d)) == Some(d)
  {
    var s := FormatIsoDate(d);
    assert Pow10(4) == 10000 && Pow10(2) == 100;
    assert s[..4] == FixedDigits(d.year, 4);
    assert s[5..7] == FixedDigits(d.month, 2);
    assert s[8..] == FixedDigits(d.day, 2);
    FixedDigitsValue(d.year, 4);
    FixedDigitsValue(d.month, 2);
    FixedDigitsValue(d.day, 2);
  }

  /** A date string that parses is the canonical spelling of its date. */
  lemma FormatParseDate(s: string)
    requires ParseIsoDate(s).Some?
    ensures FormatIsoDate(ParseIsoDate(s).value) == s
  {
    DigitsValueFixed(s[..4]);
    DigitsValueFixed(s[5..7]);
    DigitsValueFixed(s[8..]);
    assert s == s[..4] + "-" + s[5..7] + "-" + s[8..];
  }
}
