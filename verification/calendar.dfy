/**
  The value types the utility class works on: `LocalDate`, `LocalTime` and
  `LocalDateTime` of the ISO-8601 proleptic Gregorian calendar, without a
  time zone, together with the day arithmetic that places a date on a
  single line of days counted from 1970-01-01.
 */
module Calendar {

  /** The year range of a `LocalDate`. */
  const MinYear: int := -999_999_999
  const MaxYear: int := 999_999_999

  const NanosPerSecond: int := 1_000_000_000
  const SecondsPerMinute: int := 60
  const SecondsPerHour: int := 3600
  const SecondsPerDay: int := 86400

  /** A calendar date: year, month-of-year 1..12, day-of-month. */
  datatype Date = Date(year: int, month: int, day: int) {
    predicate Valid() {
      && MinYear <= year <= MaxYear
      && 1 <= month <= 12
      && 1 <= day <= DaysInMonth(year, month)
    }
  }

  /** A time of day, down to the nanosecond. */
  datatype Time = Time(hour: int, minute: int, second: int, nano: int) {
    predicate Valid() {
      && 0 <= hour < 24
      && 0 <= minute < 60
      && 0 <= second < 60
      && 0 <= nano < NanosPerSecond
    }
  }

  /** A date paired with a time of day. */
  datatype DateTime = DateTime(date: Date, time: Time) {
    predicate Valid() {
      date.Valid() && time.Valid()
    }

    /** No fraction of a second. */
    predicate WholeSecond() {
      time.nano == 0
    }
  }

  const Midnight: Time := Time(0, 0, 0, 0)

  // ---------------------------------------------------------------------
  // Leap years and month lengths
  // ---------------------------------------------------------------------

  /** Gregorian leap-year rule, applied to the proleptic year (year 0 is 1 BCE). */
  predicate IsLeapYear(y: int) {
    y % 4 == 0 && (y % 100 != 0 || y % 400 == 0)
  }

  function YearLength(y: int): (n: int)
    ensures n == 365 || n == 366
    ensures n == 366 <==> IsLeapYear(y)
  {
    if IsLeapYear(y) then 366 else 365
  }

  function DaysInMonth(y: int, m: int): (n: int)
    requires 1 <= m <= 12
    ensures 28 <= n <= 31
    ensures n == 29 <==> m == 2 && IsLeapYear(y)
    ensures n == 30 <==> m == 4 || m == 6 || m == 9 || m == 11
  {
    if m == 2 then (if IsLeapYear(y) then 29 else 28)
    else if m == 4 || m == 6 || m == 9 || m == 11 then 30
    else 31
  }

  /** Days of the year before the first of month `m` in a common year. */
  function CommonYearOffset(m: int): int
    requires 1 <= m <= 12
  {
    match m
    case 1 => 0
    case 2 => 31
    case 3 => 59
    case 4 => 90
    case 5 => 120
    case 6 => 151
    case 7 => 181
    case 8 => 212
    case 9 => 243
    case 10 => 273
    case 11 => 304
    case _ => 334
  }

  /** Days of year `y` before the first of month `m`. */
  function DaysBeforeMonth(y: int, m: int): int
    requires 1 <= m <= 12
  {
    CommonYearOffset(m) + (if m > 2 && IsLeapYear(y) then 1 else 0)
  }

  /** The month table agrees with the month lengths: each month starts where the previous one ends. */
  lemma DaysBeforeMonthStep(y: int, m: int)
    requires 1 <= m <= 12
    ensures m < 12 ==> DaysBeforeMonth(y, m + 1) == DaysBeforeMonth(y, m) + DaysInMonth(y, m)
    ensures m == 12 ==> DaysBeforeMonth(y, m) + DaysInMonth(y, m) == YearLength(y)
    ensures DaysBeforeMonth(y, 1) == 0
  {
  }

  // ---------------------------------------------------------------------
  // Days from civil: the epoch day of a date
  // ---------------------------------------------------------------------

  /** The number of years k in 1..y (or minus those in y+1..0) that are leap years. */
  function LeapYearsThrough(y: int): int {
    y / 4 - y / 100 + y / 400
  }

  /** The epoch day of January 1st of year `y`. */
  function YearStart(y: int): int {
    365 * (y - 1970) + LeapYearsThrough(y - 1) - LeapYearsThrough(1969)
  }

  /** The number of days from 1970-01-01 to `d`, negative before it. */
  function EpochDay(d: Date): (n: int)
    requires 1 <= d.month <= 12
    ensures 1 <= d.day <= DaysInMonth(d.year, d.month) ==>
              YearStart(d.year) <= n < YearStart(d.year) + YearLength(d.year)
  {
    YearStart(d.year) + DaysBeforeMonth(d.year, d.month) + d.day - 1
  }

  /** For n in {4, 100, 400}, stepping from y-1 to y adds one multiple of n exactly when n divides y. */
  lemma FloorDivStep(y: int, n: int)
    requires n == 4 || n == 100 || n == 400
    ensures y / n - (y - 1) / n == if y % n == 0 then 1 else 0
  {
    var q, r := (y - 1) / n, (y - 1) % n;
    assert y - 1 == q * n + r && 0 <= r < n;
    if r + 1 < n {
      DivModUnique(y, n, q, r + 1);
    } else {
      DivModUnique(y, n, q + 1, 0);
    }
  }

  lemma DivModUnique(a: int, n: int, q: int, r: int)
    requires n == 4 || n == 100 || n == 400
    requires a == q * n + r && 0 <= r < n
    ensures a / n == q && a % n == r
  {
  }

  /** Divisibility by 400 implies divisibility by 100, which implies divisibility by 4. */
  lemma DivisibilityChain(y: int)
    ensures y % 400 == 0 ==> y % 100 == 0
    ensures y % 100 == 0 ==> y % 4 == 0
  {
    if y % 400 == 0 {
      DivModUnique(y, 100, 4 * (y / 400), 0);
    }
    if y % 100 == 0 {
      DivModUnique(y, 4, 25 * (y / 100), 0);
    }
  }

  lemma {:induction false} LeapYearsStep(y: int)
    ensures LeapYearsThrough(y) == LeapYearsThrough(y - 1) + (if IsLeapYear(y) then 1 else 0)
  {
    FloorDivStep(y, 4);
    FloorDivStep(y, 100);
    FloorDivStep(y, 400);
    DivisibilityChain(y);
  }

  /** Consecutive years start exactly one year length apart. */
  lemma {:induction false} YearStartStep(y: int)
    ensures YearStart(y + 1) == YearStart(y) + YearLength(y)
  {
    LeapYearsStep(y);
  }

  /** The first of the month after (y, m) starts where month (y, m) ends. */
  lemma {:induction false} MonthStartStep(y: int, m: int)
    requires 1 <= m <= 12
    ensures m < 12 ==> EpochDay(Date(y, m + 1, 1)) == EpochDay(Date(y, m, 1)) + DaysInMonth(y, m)
    ensures m == 12 ==> EpochDay(Date(y + 1, 1, 1)) == EpochDay(Date(y, m, 1)) + DaysInMonth(y, m)
  {
    DaysBeforeMonthStep(y, m);
    if m == 12 {
      YearStartStep(y);
    }
  }

  /** The day after `d`; it may fall one year beyond `MaxYear`. */
  function NextDay(d: Date): (r: Date)
    requires d.Valid()
    ensures r.year <= MaxYear ==> r.Valid()
    ensures DateBefore(d, r)
  {
    if d.day < DaysInMonth(d.year, d.month) then Date(d.year, d.month, d.day + 1)
    else if d.month < 12 then Date(d.year, d.month + 1, 1)
    else Date(d.year + 1, 1, 1)
  }

  /** Epoch days count days: the day after a date is one epoch day later. */
  lemma {:induction false} NextDayIsOneDayLater(d: Date)
    requires d.Valid()
    ensures EpochDay(NextDay(d)) == EpochDay(d) + 1
  {
    if d.day == DaysInMonth(d.year, d.month) {
      MonthStartStep(d.year, d.month);
    }
  }

  /** 1970-01-01 is day zero. */
  lemma EpochIsDayZero()
    ensures EpochDay(Date(1970, 1, 1)) == 0
  {
  }

  // ---------------------------------------------------------------------
  // Chronological order
  // ---------------------------------------------------------------------

  predicate DateBefore(a: Date, b: Date) {
    || a.year < b.year
    || (a.year == b.year && a.month < b.month)
    || (a.year == b.year && a.month == b.month && a.day < b.day)
  }

  predicate TimeBefore(a: Time, b: Time) {
    || a.hour < b.hour
    || (a.hour == b.hour && a.minute < b.minute)
    || (a.hour == b.hour && a.minute == b.minute && a.second < b.second)
    || (a.hour == b.hour && a.minute == b.minute && a.second == b.second && a.nano < b.nano)
  }

  /** `LocalDateTime.isBefore`: date first, then time of day. */
  predicate DateTimeBefore(a: DateTime, b: DateTime) {
    DateBefore(a.date, b.date) || (a.date == b.date && TimeBefore(a.time, b.time))
  }

  /** An earlier month of the same year ends no later than a later month starts. */
  lemma MonthOrder(y: int, m1: int, m2: int)
    requires 1 <= m1 < m2 <= 12
    ensures DaysBeforeMonth(y, m1) + DaysInMonth(y, m1) <= DaysBeforeMonth(y, m2)
  {
  }

  /** An earlier year ends no later than a later year starts. */
  lemma {:induction false} YearStartOrder(y1: int, y2: int)
    requires y1 < y2
    ensures YearStart(y1) + YearLength(y1) <= YearStart(y2)
    decreases y2 - y1
  {
    YearStartStep(y1);
    if y1 + 1 < y2 {
      YearStartOrder(y1 + 1, y2);
    }
  }

  /** Epoch days preserve chronological order and tell dates apart. */
  lemma {:induction false} EpochDayOrder(a: Date, b: Date)
    requires a.Valid() && b.Valid()
    ensures DateBefore(a, b) <==> EpochDay(a) < EpochDay(b)
    ensures a == b <==> EpochDay(a) == EpochDay(b)
  {
    if a.year < b.year {
      YearStartOrder(a.year, b.year);
    } else if b.year < a.year {
      YearStartOrder(b.year, a.year);
    } else if a.month < b.month {
      MonthOrder(a.year, a.month, b.month);
    } else if b.month < a.month {
      MonthOrder(a.year, b.month, a.month);
    }
  }

  // ---------------------------------------------------------------------
  // Seconds on the UTC time line
  // ---------------------------------------------------------------------

  /** Whole seconds since midnight; the fraction of a second is not counted. */
  function SecondOfDay(t: Time): (s: int)
    requires t.Valid()
    ensures 0 <= s < SecondsPerDay
  {
    t.hour * SecondsPerHour + t.minute * SecondsPerMinute + t.second
  }

  /** Whole seconds from 1970-01-01T00:00:00 to `dt`, reading `dt` as UTC. */
  function EpochSecond(dt: DateTime): (s: int)
    requires dt.Valid()
    ensures EpochDay(dt.date) * SecondsPerDay <= s < EpochDay(dt.date) * SecondsPerDay + SecondsPerDay
  {
    EpochDay(dt.date) * SecondsPerDay + SecondOfDay(dt.time)
  }

  /** Seconds of the day preserve the order of whole-second times and tell them apart. */
  lemma SecondOfDayOrder(a: Time, b: Time)
    requires a.Valid() && b.Valid() && a.nano == 0 && b.nano == 0
    ensures TimeBefore(a, b) <==> SecondOfDay(a) < SecondOfDay(b)
    ensures a == b <==> SecondOfDay(a) == SecondOfDay(b)
  {
  }

  /** Epoch seconds preserve the order of whole-second date-times and tell them apart. */
  lemma {:induction false} EpochSecondOrder(a: DateTime, b: DateTime)
    requires a.Valid() && b.Valid() && a.WholeSecond() && b.WholeSecond()
    ensures DateTimeBefore(a, b) <==> EpochSecond(a) < EpochSecond(b)
    ensures a == b <==> EpochSecond(a) == EpochSecond(b)
  {
    EpochDayOrder(a.date, b.date);
    SecondOfDayOrder(a.time, b.time);
  }
}
