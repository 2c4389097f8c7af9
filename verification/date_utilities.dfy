/**
  The utility class `DateUtilities`: formatting and parsing date-times,
  the difference between two date-times in a chosen unit, and composing
  and decomposing date-times.

  A Java reference argument that the class checks for null is an `Option`
  here; each exception that reaches the caller is a `Failure`, carrying an
  `IllegalArgument` for an `IllegalArgumentException`. Library calls whose behaviour is not part of this
  model (custom patterns, localized styles, caller-supplied formatters)
  are function parameters.
 */
module DateUtilities {
  import opened Results
  import opened Calendar
  import opened JavaArith
  import DefaultPattern

  const DateTimeIsNull: string := "Error: dateTime argument cannot be null"
  const StyleIsNull: string := "Error: dateTimeStyle argument cannot be null"
  const DateOrTimeIsNull: string := "Error: date or time argument cannot be null"

  /** What an `IllegalArgumentException` thrown by the class carries. */
  datatype IllegalArgument =
    /** One of the class's own null checks, with its message. */
    | NullArgument(message: string)
    /** The default-pattern parse failed on this text (None: the text was null). */
    | CannotParse(text: Option<string>)
    /** A library call failed; its message is passed on. */
    | LibraryFailure(message: string)

  /**
    An exception that reaches the caller. Most methods throw only
    `IllegalArgumentException` and return an `IllegalArgument` directly;
    the two formatting overloads also let the library's
    `DateTimeException` through.
   */
  datatype Thrown =
    | IllegalArgumentException(reason: IllegalArgument)
    | DateTimeException(message: string)

  /** `java.time.format.FormatStyle`. */
  datatype FormatStyle = Full | Long | Medium | Short

  /** `java.time.temporal.ChronoUnit`. */
  datatype ChronoUnit =
    | Nanos | Micros | Millis | Seconds | Minutes | Hours | HalfDays | Days
    | Weeks | Months | Years | Decades | Centuries | Millennia | Eras | Forever

  // ---------------------------------------------------------------------
  // Formatting
  // ---------------------------------------------------------------------

  /** `toString(LocalDateTime)`: the default layout, or the null-argument failure. */
  function ToString(dateTime: Option<DateTime>): (r: Result<string, IllegalArgument>)
    requires dateTime.Some? ==> dateTime.value.Valid()
    ensures r.Failure? <==> dateTime.None?
    ensures r.Failure? ==> r.error == NullArgument(DateTimeIsNull)
    ensures r.Success? ==> DefaultPattern.DefaultLayout(r.value)
  {
    match dateTime
    case None => Failure(NullArgument(DateTimeIsNull))
    case Some(dt) => Success(DefaultPattern.Format(dt))
  }

  /**
    `toString(LocalDateTime, String)`: the null check, then `ofPattern`
    (`compile`), whose refusal of the pattern is an
    `IllegalArgumentException`, then `format`, whose failure is a
    `DateTimeException` the class lets through unwrapped.
   */
  function ToStringWithPattern<F>(dateTime: Option<DateTime>, pattern: string,
                                  compile: string -> Result<F, string>,
                                  format: (F, DateTime) -> Result<string, string>)
    : (r: Result<string, Thrown>)
    ensures dateTime.None? ==> r == Failure(IllegalArgumentException(NullArgument(DateTimeIsNull)))
    ensures dateTime.Some? && compile(pattern).Failure? ==>
              r == Failure(IllegalArgumentException(LibraryFailure(compile(pattern).error)))
    ensures dateTime.Some? && compile(pattern).Success? ==>
              var printed := format(compile(pattern).value, dateTime.value);
              && (printed.Success? ==> r == Success(printed.value))
              && (printed.Failure? ==> r == Failure(DateTimeException(printed.error)))
    ensures r.Failure? && r.error.DateTimeException? ==> dateTime.Some? && compile(pattern).Success?
  {
    match dateTime
    case None => Failure(IllegalArgumentException(NullArgument(DateTimeIsNull)))
    case Some(dt) =>
      match compile(pattern)
      case Failure(message) => Failure(IllegalArgumentException(LibraryFailure(message)))
      case Success(formatter) =>
        match format(formatter, dt)
        case Success(s) => Success(s)
        case Failure(message) => Failure(DateTimeException(message))
  }

  /**
    `toString(LocalDateTime, FormatStyle)`: both null checks, date-time
    first, then the localized rendering (`format`), whose failure (a style
    that needs a time zone, say) is a `DateTimeException` the class lets
    through unwrapped.
   */
  function ToStringWithStyle(dateTime: Option<DateTime>, style: Option<FormatStyle>,
                             format: (FormatStyle, DateTime) -> Result<string, string>)
    : (r: Result<string, Thrown>)
    ensures dateTime.None? ==> r == Failure(IllegalArgumentException(NullArgument(DateTimeIsNull)))
    ensures dateTime.Some? && style.None? ==> r == Failure(IllegalArgumentException(NullArgument(StyleIsNull)))
    ensures dateTime.Some? && style.Some? && format(style.value, dateTime.value).Success? ==>
              r == Success(format(style.value, dateTime.value).value)
    ensures dateTime.Some? && style.Some? && format(style.value, dateTime.value).Failure? ==>
              r == Failure(DateTimeException(format(style.value, dateTime.value).error))
    ensures r.Failure? && r.error.IllegalArgumentException? <==> dateTime.None? || style.None?
  {
    if dateTime.None? then Failure(IllegalArgumentException(NullArgument(DateTimeIsNull)))
    else if style.None? then Failure(IllegalArgumentException(NullArgument(StyleIsNull)))
    else
      match format(style.value, dateTime.value)
      case Success(s) => Success(s)
      case Failure(message) => Failure(DateTimeException(message))
  }

  // ---------------------------------------------------------------------
  // Parsing
  // ---------------------------------------------------------------------

  /**
    `toDate(String)`: the date-time the text denotes in the default layout;
    any failure, a null text included, is an `IllegalArgument`.
   */
  function ToDate(text: Option<string>): (r: Result<DateTime, IllegalArgument>)
    ensures r.Failure? ==> r.error == CannotParse(text)
    ensures r.Success? ==> text.Some? && DefaultPattern.DefaultLayout(text.value)
    ensures r.Success? ==> r.value.Valid() && r.value.WholeSecond()
  {
    match text
    case None => Failure(CannotParse(None))
    case Some(s) =>
      match DefaultPattern.Parse(s)
      case Success(dt) => Success(dt)
      case Failure(_) => Failure(CannotParse(text))
  }

  /**
    `toDate(String, DateTimeFormatter)`: the library's parse with a
    caller-supplied formatter (`parse`), any failure of it rethrown as an
    `IllegalArgument` with the same message.
   */
  function ToDateWith(text: Option<string>, parse: Option<string> -> Result<DateTime, string>)
    : (r: Result<DateTime, IllegalArgument>)
    ensures r.Success? <==> parse(text).Success?
    ensures r.Success? ==> r.value == parse(text).value
    ensures r.Failure? ==> r.error == LibraryFailure(parse(text).error)
  {
    match parse(text)
    case Success(dt) => Success(dt)
    case Failure(message) => Failure(LibraryFailure(message))
  }

  /** Printing a date-time of the common era and parsing the text back gives it back. */
  lemma ToDateOfToString(dt: DateTime)
    requires dt.Valid() && dt.WholeSecond() && dt.date.year >= 1
    ensures ToString(Some(dt)).Success?
    ensures ToDate(Some(ToString(Some(dt)).value)) == Success(dt)
  {
    DefaultPattern.ParseFormatRoundTrip(dt);
  }

  /** The literal text "not-a-date" is refused. */
  lemma ToDateRefusesNonDate()
    ensures ToDate(Some("not-a-date")) == Failure(CannotParse(Some("not-a-date")))
  {
  }

  // ---------------------------------------------------------------------
  // Difference between two date-times
  // ---------------------------------------------------------------------

  /** The unit `dateDiff` actually counts in: one of the four it names, hours for every other. */
  function CountedUnit(unit: ChronoUnit): (u: ChronoUnit)
    ensures u == Days || u == Hours || u == Minutes || u == Seconds
    ensures unit == Days || unit == Hours || unit == Minutes || unit == Seconds ==> u == unit
    ensures !(unit == Days || unit == Hours || unit == Minutes || unit == Seconds) ==> u == Hours
  {
    match unit
    case Days => Days
    case Minutes => Minutes
    case Seconds => Seconds
    case _ => Hours
  }

  /** Seconds in one of the four counted units. */
  function UnitSeconds(unit: ChronoUnit): (n: int)
    requires unit == Days || unit == Hours || unit == Minutes || unit == Seconds
    ensures n > 0
  {
    match unit
    case Days => SecondsPerDay
    case Hours => SecondsPerHour
    case Minutes => SecondsPerMinute
    case Seconds => 1
  }

  /** `Duration.between(start, end)` in whole seconds: `end - start`, negative when `end` comes first. */
  function Span(start: DateTime, end: DateTime): (seconds: int)
    requires start.Valid() && end.Valid()
    ensures start.WholeSecond() && end.WholeSecond() ==>
              && (seconds > 0 <==> DateTimeBefore(start, end))
              && (seconds < 0 <==> DateTimeBefore(end, start))
              && (seconds == 0 <==> start == end)
  {
    var seconds := EpochSecond(end) - EpochSecond(start);
    if start.WholeSecond() && end.WholeSecond() then
      EpochSecondOrder(start, end);
      EpochSecondOrder(end, start);
      seconds
    else
      seconds
  }

  /** Whether `dateDiff` completes: `Duration.toMillis` overflows a `long` on spans of about 292 million years. */
  predicate DiffDefined(start: DateTime, end: DateTime, unit: ChronoUnit) {
    && start.Valid() && end.Valid() && start.WholeSecond() && end.WholeSecond()
    && (unit == Seconds ==> InLong(Span(start, end) * 1000))
  }

  /**
    The span's whole number of units and its negation both fit an `int`,
    so the narrowing cast keeps the count in either direction. A count of
    exactly `Integer.MIN_VALUE` fits but is left out, since its negation
    does not.
   */
  predicate SpanFitsInt(start: DateTime, end: DateTime, unit: ChronoUnit)
    requires start.Valid() && end.Valid()
  {
    var n := UnitSeconds(CountedUnit(unit));
    IntMin * n < Span(start, end) < -IntMin * n
  }

  /**
    `dateDiff(start, end, unit)`: the whole number of `unit`s in
    `end - start`, truncated toward zero and cast to `int`; SECONDS goes
    through milliseconds; every unit but the four falls back to hours.
   */
  function DateDiff(start: DateTime, end: DateTime, unit: ChronoUnit): (r: int)
    requires DiffDefined(start, end, unit)
    ensures InInt(r)
    ensures SpanFitsInt(start, end, unit) ==>
              IsTruncatedQuotient(Span(start, end), UnitSeconds(CountedUnit(unit)), r)
  {
    var seconds := Span(start, end);
    QuotFitsInt(seconds, UnitSeconds(CountedUnit(unit)));
    match unit
    case Days => NarrowToInt(Quot(seconds, SecondsPerDay))
    case Hours => NarrowToInt(Quot(seconds, SecondsPerHour))
    case Minutes => NarrowToInt(Quot(seconds, SecondsPerMinute))
    case Seconds =>
      QuotOfMultiple(seconds, 1000);
      NarrowToInt(Quot(seconds * 1000, 1000))
    case _ => NarrowToInt(Quot(seconds, SecondsPerHour))
  }

  /** Units other than DAYS, HOURS, MINUTES and SECONDS count hours. */
  lemma DateDiffFallsBackToHours(start: DateTime, end: DateTime, unit: ChronoUnit)
    requires DiffDefined(start, end, unit)
    requires unit != Days && unit != Hours && unit != Minutes && unit != Seconds
    ensures DateDiff(start, end, unit) == DateDiff(start, end, Hours)
  {
  }

  /** When the count fits an `int`, the difference is the truncated quotient itself. */
  lemma DateDiffIsQuotient(start: DateTime, end: DateTime, unit: ChronoUnit)
    requires DiffDefined(start, end, unit) && SpanFitsInt(start, end, unit)
    ensures DateDiff(start, end, unit) == Quot(Span(start, end), UnitSeconds(CountedUnit(unit)))
  {
    var n := UnitSeconds(CountedUnit(unit));
    TruncatedQuotientUnique(Span(start, end), n, DateDiff(start, end, unit), Quot(Span(start, end), n));
  }

  /** Swapping the two date-times negates the difference. */
  lemma DateDiffAntisymmetric(start: DateTime, end: DateTime, unit: ChronoUnit)
    requires DiffDefined(start, end, unit) && SpanFitsInt(start, end, unit)
    ensures DiffDefined(end, start, unit) && SpanFitsInt(end, start, unit)
    ensures DateDiff(end, start, unit) == -DateDiff(start, end, unit)
  {
    var n := UnitSeconds(CountedUnit(unit));
    var span := Span(start, end);
    assert Span(end, start) == -span;
    if unit == Seconds {
      assert InLong(-span * 1000);
    }
    DateDiffIsQuotient(start, end, unit);
    DateDiffIsQuotient(end, start, unit);
    QuotOfNegation(span, n);
  }

  /** Whatever the unit, the difference is the truncated quotient of the span, narrowed to `int`. */
  lemma DateDiffIsNarrowedQuotient(start: DateTime, end: DateTime, unit: ChronoUnit)
    requires DiffDefined(start, end, unit)
    ensures DateDiff(start, end, unit) == NarrowToInt(Quot(Span(start, end), UnitSeconds(CountedUnit(unit))))
  {
    if unit == Seconds {
      QuotOfMultiple(Span(start, end), 1000);
      QuotOfMultiple(Span(start, end), 1);
    }
  }

  /** The span back is the span forth, negated. */
  lemma SpanSwapped(start: DateTime, end: DateTime)
    requires start.Valid() && end.Valid()
    ensures Span(end, start) == -Span(start, end)
  {
  }

  /** A difference that completes also completes with the two date-times swapped. */
  lemma DiffDefinedSwapped(start: DateTime, end: DateTime, unit: ChronoUnit)
    requires DiffDefined(start, end, unit)
    ensures DiffDefined(end, start, unit)
  {
    var span := Span(start, end);
    SpanSwapped(start, end);
    if unit == Seconds {
      assert span * 1000 != LongMin;
    }
  }

  /**
    Swapping the two date-times negates the difference in Java's own `int`
    arithmetic, with no bound on the span: the result is the narrowed
    negation, which is the plain negation unless the difference is
    `Integer.MIN_VALUE`.
   */
  lemma DateDiffSwapNegates(start: DateTime, end: DateTime, unit: ChronoUnit)
    requires DiffDefined(start, end, unit)
    ensures DiffDefined(end, start, unit)
    ensures DateDiff(end, start, unit) == NarrowToInt(-DateDiff(start, end, unit))
    ensures DateDiff(start, end, unit) != IntMin ==> DateDiff(end, start, unit) == -DateDiff(start, end, unit)
  {
    DiffDefinedSwapped(start, end, unit);
    SpanSwapped(start, end);
    DateDiffIsNarrowedQuotient(start, end, unit);
    DateDiffIsNarrowedQuotient(end, start, unit);
    NarrowedQuotOfNegation(Span(start, end), UnitSeconds(CountedUnit(unit)));
  }

  /**
    The difference is negative exactly when `end` precedes `start` by at
    least one unit, positive exactly when it follows by at least one, and
    zero otherwise.
   */
  lemma DateDiffSign(start: DateTime, end: DateTime, unit: ChronoUnit)
    requires DiffDefined(start, end, unit) && SpanFitsInt(start, end, unit)
    ensures var n := UnitSeconds(CountedUnit(unit));
            && (DateDiff(start, end, unit) < 0 <==> EpochSecond(end) + n <= EpochSecond(start))
            && (DateDiff(start, end, unit) > 0 <==> EpochSecond(start) + n <= EpochSecond(end))
  {
    DateDiffIsQuotient(start, end, unit);
    QuotSign(Span(start, end), UnitSeconds(CountedUnit(unit)));
  }

  /** A negative difference means `end` is before `start`; a positive one, after. */
  lemma DateDiffOrder(start: DateTime, end: DateTime, unit: ChronoUnit)
    requires DiffDefined(start, end, unit) && SpanFitsInt(start, end, unit)
    ensures DateDiff(start, end, unit) < 0 ==> DateTimeBefore(end, start)
    ensures DateDiff(start, end, unit) > 0 ==> DateTimeBefore(start, end)
    ensures DateDiff(start, end, unit) != 0 ==> start != end
  {
    DateDiffSign(start, end, unit);
    EpochSecondOrder(start, end);
    EpochSecondOrder(end, start);
  }

  /** In SECONDS the sign of the difference is exactly the order of the two date-times. */
  lemma DateDiffSecondsOrder(start: DateTime, end: DateTime)
    requires DiffDefined(start, end, Seconds) && SpanFitsInt(start, end, Seconds)
    ensures DateDiff(start, end, Seconds) < 0 <==> DateTimeBefore(end, start)
    ensures DateDiff(start, end, Seconds) == 0 <==> start == end
    ensures DateDiff(start, end, Seconds) > 0 <==> DateTimeBefore(start, end)
  {
    DateDiffSign(start, end, Seconds);
    EpochSecondOrder(start, end);
    EpochSecondOrder(end, start);
  }

  /** One calendar day, counted in each unit. */
  lemma DateDiffOneDay()
    ensures var start := DateTime(Date(2023, 1, 1), Midnight);
            var end := DateTime(Date(2023, 1, 2), Midnight);
            && DateDiff(start, end, Days) == 1
            && DateDiff(start, end, Hours) == 24
            && DateDiff(start, end, Minutes) == 1440
            && DateDiff(start, end, Seconds) == 86400
            && DateDiff(start, end, Weeks) == 24
  {
    var start := DateTime(Date(2023, 1, 1), Midnight);
    var end := DateTime(Date(2023, 1, 2), Midnight);
    NextDayIsOneDayLater(start.date);
    assert Span(start, end) == SecondsPerDay;
  }

  // ---------------------------------------------------------------------
  // Composing and decomposing
  // ---------------------------------------------------------------------

  /** `getLocalDateTime(LocalDate, LocalTime)`: the date at the time of day. */
  function GetLocalDateTime(date: Option<Date>, time: Option<Time>): (r: Result<DateTime, IllegalArgument>)
    requires date.Some? ==> date.value.Valid()
    requires time.Some? ==> time.value.Valid()
    ensures r.Success? <==> date.Some? && time.Some?
    ensures r.Failure? ==> r.error == NullArgument(DateOrTimeIsNull)
    ensures r.Success? ==> r.value.Valid() && r.value.date == date.value && r.value.time == time.value
  {
    if date.None? || time.None? then Failure(NullArgument(DateOrTimeIsNull))
    else Success(DateTime(date.value, time.value))
  }

  /** `getLocalDate(LocalDateTime)`: year, month and day, the time of day dropped. */
  function GetLocalDate(dateTime: Option<DateTime>): (r: Result<Date, IllegalArgument>)
    requires dateTime.Some? ==> dateTime.value.Valid()
    ensures r.Success? <==> dateTime.Some?
    ensures r.Failure? ==> r.error == NullArgument(DateTimeIsNull)
    ensures r.Success? ==> r.value.Valid()
    ensures r.Success? ==> r.value.year == dateTime.value.date.year
    ensures r.Success? ==> r.value.month == dateTime.value.date.month
    ensures r.Success? ==> r.value.day == dateTime.value.date.day
  {
    match dateTime
    case None => Failure(NullArgument(DateTimeIsNull))
    case Some(dt) => Success(Date(dt.date.year, dt.date.month, dt.date.day))
  }

  /** Decomposing a composed date-time gives the date back. */
  lemma GetLocalDateOfGetLocalDateTime(date: Date, time: Time)
    requires date.Valid() && time.Valid()
    ensures GetLocalDateTime(Some(date), Some(time)).Success?
    ensures GetLocalDate(Some(GetLocalDateTime(Some(date), Some(time)).value)) == Success(date)
  {
  }

  /** Composing a date-time's date with its time gives the date-time back. */
  lemma GetLocalDateTimeOfGetLocalDate(dt: DateTime)
    requires dt.Valid()
    ensures GetLocalDate(Some(dt)).Success?
    ensures GetLocalDateTime(Some(GetLocalDate(Some(dt)).value), Some(dt.time)) == Success(dt)
  {
  }
}
