# DateUtilities in Dafny

A model of `edu.wctc.phd.date.DateUtilities`, a stateless utility class over
`java.time` value types. It has three parts:

- **Default-pattern serialiser and parser.** `toString(LocalDateTime)` renders a date-time as
  `yyyy-MM-dd HH:mm:ss`. `toDate(String)` parses that layout back. Every failure becomes an
  `IllegalArgumentException`.
- **Difference in a unit.** `dateDiff(start, end, unit)` reduces the duration `end - start` to a
  whole number of days, hours, minutes or seconds. Every other unit falls back to hours.
- **Compose and decompose.** `getLocalDateTime(date, time)` pairs a date with a time.
  `getLocalDate(dateTime)` projects the date back out.

The model also covers the null checks of the two other `toString` overloads and the
exception wrapping of `toDate(String, DateTimeFormatter)`.

Modules:

| file | module | what it holds |
|---|---|---|
| results.dfy | `Results` | `Option` (a nullable reference) and `Result` (a value or a thrown exception) |
| calendar.dfy | `Calendar` | `Date`, `Time`, `DateTime` (`LocalDate`, `LocalTime`, `LocalDateTime`), their validity in the proleptic Gregorian calendar, days-from-civil (`EpochDay`) and epoch seconds, chronological order |
| decimal_text.dfy | `DecimalText` | zero-padded decimal numerals and the numbers a run of digits denotes |
| default_pattern.dfy | `DefaultPattern` | `Format` and `Parse` for `yyyy-MM-dd HH:mm:ss`, and their round trips |
| java_arith.dfy | `JavaArith` | Java `long` division (truncates toward zero) and the `(int)` narrowing cast (wraps modulo 2^32) |
| date_utilities.dfy | `DateUtilities` | the class's eight public methods, and the properties that relate them |

How Java is rendered:

- A reference argument the class null-checks is an `Option`; `None` is `null`.
- A thrown `IllegalArgumentException` is `Failure(e)`, where `e: IllegalArgument` says what the
  exception carries:
  - `NullArgument` carries the class's own message literal.
  - `CannotParse` carries the rejected text.
  - `LibraryFailure` carries a library message that is passed on.
- The two formatting overloads can also let a library `DateTimeException` through unwrapped.
  Their failures are a `Thrown`: `IllegalArgumentException(e)` or `DateTimeException(message)`.
- Java objects are always valid, so every date-time argument carries a `Valid()` precondition.
  This is a type invariant, not an extra demand on callers.

The default pattern follows the formatter that `DateTimeFormatter.ofPattern("yyyy-MM-dd HH:mm:ss")`
builds:

- `yyyy` is the **year-of-era**. It is padded to four digits and gets a leading `+` once it is
  longer. Year 0 is 1 BCE and prints as `0001`.
- On parsing, the formatter reads at most 19 year digits. A `+` is accepted only before more than
  four digits, and is then required. A `-` sign never resolves.
- `MM dd HH mm ss` are exactly two digits each. Fractions of a second are neither printed nor
  parsed.
- Parsing uses the default *smart* resolver. A day-of-month past the end of its month (up to 31)
  becomes the month's last day. `24:00:00` becomes midnight of the next day. Every other
  out-of-range field is refused.

Consequences of the source that are easy to miss:

- The smart resolver accepts some text that does not name a real date or time.
  `2023-02-30 10:15:00` parses as February 28, and `2023-12-31 24:00:00` parses as 2024-01-01
  midnight. `ParseClampsDayExample` and `ParseEndOfDayExample` show both.
- `dateDiff` negates when start and end are swapped, in Java's `int` arithmetic and for every
  span (`DateDiffSwapNegates`). The `(int)` cast wraps once the count leaves the `int` range
  (after about 68 years in SECONDS), but two's-complement negation commutes with the cast. The
  only value that does not negate plainly is `Integer.MIN_VALUE`, which negates to itself. When
  the count and its negation fit an `int`, the result is also the true quotient
  (`DateDiffIsQuotient`), and `DateDiffAntisymmetric` states the plain negation.
- The round trip `toDate(toString(x)) == x` holds for every year from 1 up, not only for years up
  to 9999. From year 0 down to year -999,999,998 the era is lost (`ParseFormatBeforeCommonEra`).
  The earliest year, -999,999,999, does not come back at all. It prints the year-of-era
  1,000,000,000, one past the latest year the parser resolves (`ParseFormatAtMinYear`).

## Model

| member | source | states |
|---|---|---|
| `DateUtilities.ToString` | src/edu/wctc/phd/date/DateUtilities.java:54-60 | fails with the dateTime null message exactly when the argument is null; otherwise the text is in the default layout |
| `DefaultPattern.Format` | src/edu/wctc/phd/date/DateUtilities.java:58-59 | the output is a year-of-era text followed by `-MM-dd HH:mm:ss`; each two-digit field holds the month, day, hour, minute and second of the input; a year in 1..9999 gives exactly 19 characters; a year past 9999 starts with `+` |
| `DefaultPattern.FormatDropsFraction` | src/edu/wctc/phd/date/DateUtilities.java:58-59 | date-times that differ only in their nanoseconds format alike |
| `DefaultPattern.FormatExample` | src/edu/wctc/phd/date/DateUtilities.java:48 | 2023-06-15 14:30 formats as `"2023-06-15 14:30:00"` |
| `DecimalText.PadDigits` | src/edu/wctc/phd/date/DateUtilities.java:58-59 | the zero-padded numeral is all digits, denotes `n`, has at least `width` digits, exactly `width` when `n < 10^width`, and has no superfluous leading zero |
| `DefaultPattern.YearText` | src/edu/wctc/phd/date/DateUtilities.java:58-59 | `yyyy` prints the year-of-era; it has exactly four characters iff the year-of-era is below 10000, and the parser's year layout reads the year-of-era back from it |
| `DefaultPattern.FieldsText` | src/edu/wctc/phd/date/DateUtilities.java:58-59 | `-MM-dd HH:mm:ss` is in the fields layout and each field reads back as its value |
| `DefaultPattern.TwoDigitsChars` | src/edu/wctc/phd/date/DateUtilities.java:58-59 | a two-digit field prints its tens digit, then its units digit |
| `DefaultPattern.FieldsTextChars` | src/edu/wctc/phd/date/DateUtilities.java:58-59 | the fifteen characters after the year are the separators `- - space : :` around the tens and units digits of each field |
| `DecimalText.FourDigits` | src/edu/wctc/phd/date/DateUtilities.java:58-59 | a number below 10000 padded to four digits prints its thousands, hundreds, tens and units digits in order |
| `DefaultPattern.YearTextExample` | src/edu/wctc/phd/date/DateUtilities.java:58-59 | year 2023 prints as `"2023"` |
| `DateUtilities.ToDate` | src/edu/wctc/phd/date/DateUtilities.java:108-118 | every failure, null text included, is `CannotParse` of that text; a success means the text is in the default layout and the result is a valid whole-second date-time (no partial result) |
| `DefaultPattern.Parse` | src/edu/wctc/phd/date/DateUtilities.java:111-113 | a failure carries the text; a success only for text in the default layout, and always a valid date-time with no fraction of a second |
| `DefaultPattern.ParseYear` | src/edu/wctc/phd/date/DateUtilities.java:111-113 | the characters it consumes form a year-of-era layout (four digits, or `+` and five to nineteen), and the value is what they denote |
| `DefaultPattern.Resolve` | src/edu/wctc/phd/date/DateUtilities.java:111-113 | in-range fields give exactly that date-time; any field out of its own range, or hour 24 with non-zero minutes or seconds, is refused; a day past the month's end becomes its last day; 24:00:00 becomes midnight of the next day |
| `DefaultPattern.SmartDayOfMonth` | src/edu/wctc/phd/date/DateUtilities.java:111-113 | the day is kept when the month has it; otherwise it becomes the month's last day (checked against the month-length table) |
| `DefaultPattern.ParseYearOfLayout` | src/edu/wctc/phd/date/DateUtilities.java:111-113 | a year in the accepted layout followed by `-` is read whole, with the value it denotes |
| `DefaultPattern.ParseYearOfYearText` | src/edu/wctc/phd/date/DateUtilities.java:58-113 | the printed year-of-era, up to one past the latest year, is read back whole as itself |
| `DefaultPattern.ParseFormatRoundTrip` | src/edu/wctc/phd/date/DateUtilities.java:58-113 | `Parse(Format(dt)) == Success(dt)` for every valid whole-second date-time with year >= 1 |
| `DefaultPattern.FormatParseRoundTrip` | src/edu/wctc/phd/date/DateUtilities.java:58-113 | a 19-character text in the default layout with fields that need no adjustment parses, and formats back to the same text |
| `DefaultPattern.ParseFormatBeforeCommonEra` | src/edu/wctc/phd/date/DateUtilities.java:58-113 | for years 0 down to -999,999,998 the round trip gives year `1 - y`, with the day clamped if that year lacks it |
| `DefaultPattern.ParseFormatAtMinYear` | src/edu/wctc/phd/date/DateUtilities.java:58-113 | a date-time in year -999,999,999 prints a year-of-era one past the parser's range, so parsing it back fails |
| `DefaultPattern.ParseOfFieldsText` | src/edu/wctc/phd/date/DateUtilities.java:111-113 | printed fields parse to what the resolver makes of their six numbers |
| `DefaultPattern.ParseExample` | src/edu/wctc/phd/date/DateUtilities.java:111-113 | `"2023-06-15 14:30:00"` parses to 2023-06-15 14:30:00 |
| `DefaultPattern.ParseClampsDayExample` | src/edu/wctc/phd/date/DateUtilities.java:111-113 | `"2023-02-30 10:15:00"` parses to 2023-02-28 10:15:00 |
| `DefaultPattern.ParseEndOfDayExample` | src/edu/wctc/phd/date/DateUtilities.java:111-113 | `"2023-12-31 24:00:00"` parses to 2024-01-01 00:00:00 |
| `DefaultPattern.ParseRefusesMonthThirteenExample` | src/edu/wctc/phd/date/DateUtilities.java:112-116 | month 13 fails |
| `DefaultPattern.ParseRefusesPastEndOfDayExample` | src/edu/wctc/phd/date/DateUtilities.java:112-116 | `24:00:01` fails |
| `DecimalText.PadDigitsOfDecimalValue` | src/edu/wctc/phd/date/DateUtilities.java:111-113 | a run of digits is the padded numeral of its own value at its own width (parsing then printing a field is the identity) |
| `DecimalText.LeadingDigitsOfRun` | src/edu/wctc/phd/date/DateUtilities.java:111-113 | a run of digits followed by a non-digit is read to its end and no further |
| `DateUtilities.ToDateOfToString` | src/edu/wctc/phd/date/DateUtilities.java:54-118 | `toDate(toString(dt)) == dt` for every valid whole-second date-time with year >= 1 |
| `DateUtilities.ToDateRefusesNonDate` | src/edu/wctc/phd/date/DateUtilities.java:112-116 | `"not-a-date"` fails with `CannotParse` of that text |
| `DateUtilities.ToStringWithPattern` | src/edu/wctc/phd/date/DateUtilities.java:71-77 | fails with the dateTime null message when the argument is null; a pattern `ofPattern` refuses is an `IllegalArgumentException` with its message; otherwise it gives `format`'s text, and a `format` failure is a `DateTimeException` that only a non-null date-time and an accepted pattern can reach |
| `DateUtilities.ToStringWithStyle` | src/edu/wctc/phd/date/DateUtilities.java:88-97 | a null date-time fails with its message first; a null style then fails with the style message; otherwise it gives `format`'s text, and a `format` failure is a `DateTimeException`; an `IllegalArgumentException` arises exactly when an argument is null |
| `DateUtilities.ToDateWith` | src/edu/wctc/phd/date/DateUtilities.java:130-139 | succeeds exactly when the library parse does, with its value; every library failure is rethrown with its message |
| `DateUtilities.DateDiff` | src/edu/wctc/phd/date/DateUtilities.java:149-176 | the result fits an `int`; when the count and its negation fit an `int`, it is the whole number of the counted unit in `end - start`, truncated toward zero |
| `DateUtilities.CountedUnit` | src/edu/wctc/phd/date/DateUtilities.java:154-173 | DAYS, HOURS, MINUTES and SECONDS count themselves; every other unit counts hours |
| `DateUtilities.DateDiffFallsBackToHours` | src/edu/wctc/phd/date/DateUtilities.java:171-172 | any unit other than the four gives the HOURS result |
| `DateUtilities.DateDiffIsQuotient` | src/edu/wctc/phd/date/DateUtilities.java:150-169 | when the count and its negation fit an `int`, the result is the truncated quotient of the span by the unit's length |
| `DateUtilities.DateDiffAntisymmetric` | src/edu/wctc/phd/date/DateUtilities.java:150-173 | swapping start and end negates the result |
| `DateUtilities.DateDiffSwapNegates` | src/edu/wctc/phd/date/DateUtilities.java:150-173 | for every span, swapping start and end gives the `int`-narrowed negation of the result, which is the plain negation unless the result is `Integer.MIN_VALUE` |
| `DateUtilities.DateDiffIsNarrowedQuotient` | src/edu/wctc/phd/date/DateUtilities.java:150-173 | for every unit and span, the result is the truncated quotient of the span by the counted unit's length, narrowed by the `(int)` cast; SECONDS through milliseconds loses nothing |
| `DateUtilities.DiffDefinedSwapped` | src/edu/wctc/phd/date/DateUtilities.java:150-168 | a difference whose `toMillis` does not overflow also does not overflow with start and end swapped |
| `DateUtilities.Span` | src/edu/wctc/phd/date/DateUtilities.java:150 | for whole-second date-times, the span is positive exactly when start is before end, negative exactly when end is before start, and zero exactly when they are equal |
| `DateUtilities.DateDiffSign` | src/edu/wctc/phd/date/DateUtilities.java:150-173 | negative exactly when end precedes start by at least one unit; positive exactly when it follows by at least one |
| `DateUtilities.DateDiffOrder` | src/edu/wctc/phd/date/DateUtilities.java:150-173 | a negative result means end is chronologically before start; a positive one means after |
| `DateUtilities.DateDiffSecondsOrder` | src/edu/wctc/phd/date/DateUtilities.java:167-169 | in SECONDS the sign is exactly the chronological order, and zero exactly means equal date-times |
| `DateUtilities.DateDiffOneDay` | src/edu/wctc/phd/date/DateUtilities.java:150-173 | 2023-01-01 to 2023-01-02 is 1 day, 24 hours, 1440 minutes, 86400 seconds, and 24 for WEEKS (the hours fallback) |
| `JavaArith.Quot` | src/edu/wctc/phd/date/DateUtilities.java:156-168 | `long` division with a positive divisor truncates toward zero: `q * n` lies between 0 and `a`, less than one `n` away from `a` |
| `JavaArith.QuotOfNegation` | src/edu/wctc/phd/date/DateUtilities.java:156-168 | truncating division commutes with negation |
| `JavaArith.QuotSign` | src/edu/wctc/phd/date/DateUtilities.java:156-168 | the quotient is negative iff `a <= -n` and positive iff `a >= n` |
| `JavaArith.TruncatedQuotientUnique` | src/edu/wctc/phd/date/DateUtilities.java:156-168 | the truncated quotient is unique |
| `JavaArith.QuotOfMultiple` | src/edu/wctc/phd/date/DateUtilities.java:168 | milliseconds divided by 1000 give the whole seconds back exactly |
| `JavaArith.QuotFitsInt` | src/edu/wctc/phd/date/DateUtilities.java:156-172 | a span strictly inside the `int` range of units has a quotient the `(int)` cast keeps |
| `JavaArith.NarrowToInt` | src/edu/wctc/phd/date/DateUtilities.java:156-172 | `(int)` gives a value in the `int` range, congruent to its argument modulo 2^32, and equal to it when it already fits |
| `JavaArith.NarrowToIntOfShift` | src/edu/wctc/phd/date/DateUtilities.java:156-172 | adding any multiple of 2^32 does not change what `(int)` gives |
| `JavaArith.NarrowToIntNegation` | src/edu/wctc/phd/date/DateUtilities.java:156-172 | narrowing commutes with negation; a narrowed value negates exactly, except `Integer.MIN_VALUE`, which negates to itself |
| `JavaArith.NarrowedQuotOfNegation` | src/edu/wctc/phd/date/DateUtilities.java:156-172 | the narrowed quotient of a negated dividend is the narrowed negation of the narrowed quotient |
| `Calendar.NextDayIsOneDayLater` | src/edu/wctc/phd/date/DateUtilities.java:150 | the day after a date is exactly one epoch day later, across month and year ends and leap days |
| `Calendar.EpochIsDayZero` | src/edu/wctc/phd/date/DateUtilities.java:150 | 1970-01-01 is epoch day 0 |
| `Calendar.YearStartStep` | src/edu/wctc/phd/date/DateUtilities.java:150 | consecutive years start exactly one year length (365 or 366 days) apart |
| `Calendar.LeapYearsStep` | src/edu/wctc/phd/date/DateUtilities.java:150 | the closed-form leap-year count goes up by one exactly at a leap year |
| `Calendar.MonthStartStep` | src/edu/wctc/phd/date/DateUtilities.java:150 | the first of the next month is exactly the month's length later, December included |
| `Calendar.DaysBeforeMonthStep` | src/edu/wctc/phd/date/DateUtilities.java:150 | the month-offset table agrees with the month lengths and sums to the year length |
| `Calendar.EpochDayOrder` | src/edu/wctc/phd/date/DateUtilities.java:150 | epoch days preserve chronological order in both directions, and are equal only for equal dates |
| `Calendar.EpochSecondOrder` | src/edu/wctc/phd/date/DateUtilities.java:150 | epoch seconds preserve the order of whole-second date-times in both directions, and are equal only for equal date-times |
| `Calendar.EpochDay` | src/edu/wctc/phd/date/DateUtilities.java:150 | a valid day of a year falls inside that year's run of epoch days, from the year's start to one year length later |
| `Calendar.EpochSecond` | src/edu/wctc/phd/date/DateUtilities.java:150 | the epoch second lies within its date's day: at least the day's first second, less than the next day's |
| `Calendar.NextDay` | src/edu/wctc/phd/date/DateUtilities.java:113 | the next day is later, and valid unless it leaves the year range |
| `DateUtilities.GetLocalDateTime` | src/edu/wctc/phd/date/DateUtilities.java:186-192 | fails with the date-or-time null message exactly when either argument is null; otherwise the result's date and time are the arguments |
| `DateUtilities.GetLocalDate` | src/edu/wctc/phd/date/DateUtilities.java:201-207 | fails with the dateTime null message exactly when the argument is null; otherwise it keeps the year, month and day |
| `DateUtilities.GetLocalDateOfGetLocalDateTime` | src/edu/wctc/phd/date/DateUtilities.java:186-207 | decomposing a composed date-time gives the date back |
| `DateUtilities.GetLocalDateTimeOfGetLocalDate` | src/edu/wctc/phd/date/DateUtilities.java:186-207 | composing a date-time's date with its time gives the date-time back |

## Left out

- `DateUtilities.ToStringWithPattern`: the text a custom pattern produces is not modelled. It is
  the library's pattern mini-language. Compiling the pattern is the parameter `compile`, and
  formatting with it is the parameter `format`. A null `pattern` (a `NullPointerException` from
  `ofPattern`) is not modelled either.
- `DateUtilities.ToStringWithStyle`: the localized text depends on locale data. It is the
  parameter `format`.
- `DateUtilities.ToDateWith`: the caller's formatter is arbitrary library behaviour. It is the
  parameter `parse`. A null formatter is not modelled.
- `DateUtilities.DateDiff`: both date-times must have no fraction of a second. With nanoseconds,
  `Duration` floors the seconds and keeps the nanoseconds non-negative, so DAYS, HOURS and MINUTES
  stop being plain truncation for negative fractional spans.
- `DateUtilities.DateDiff`: a null `start`, `end` or `unit` is a `NullPointerException`, not a
  checked error. It is excluded by the non-null types.
- `DateUtilities.DateDiff`: in SECONDS, `Duration.toMillis` throws `ArithmeticException` on spans
  past about 292 million years. This is a precondition (`DiffDefined`), not an error result.
- `DefaultPattern.Parse`: the failure carries the rejected text, not the parser's exact message
  (`Text '…' could not be parsed at index …`). That message is library wording.
- `DefaultPattern.Parse`: the resolver behaviour (year-of-era without an era taken as a year of the
  common era, day clamping, `24:00:00`) and the numeral rules of `yyyy` are those of the
  `java.time` formatter. The formatter is not in the repository; the model states them as it
  implements them.
- Time zones, locales and the remaining `java.time` API: the class does not use them beyond the
  calls above.
