/**
  The default pattern "yyyy-MM-dd HH:mm:ss": rendering a date-time in it
  and parsing text back, with the rules of the formatter that pattern
  compiles to.

  - `yyyy` is the year-of-era (year 0 is 1 BCE, so it prints as 0001),
    at least four digits, with a leading '+' once it has more than four.
    Parsing reads up to 19 digits; '+' is accepted only before more than
    four digits and is required then.
  - `MM`, `dd`, `HH`, `mm`, `ss` are exactly two digits each.
  - The default "smart" resolution applies: a day-of-month past the end of
    the month (but at most 31) is moved back to the month's last day, and
    24:00:00 is midnight at the start of the next day.
  - Fractions of a second are not printed and not parsed.
 */
module DefaultPattern {
  import opened Results
  import opened Calendar
  import opened DecimalText

  // ---------------------------------------------------------------------
  // The layout
  // ---------------------------------------------------------------------

  /** The fifteen characters after the year: "-MM-dd HH:mm:ss", two digits per field. */
  predicate FieldsLayout(t: string) {
    && |t| == 15
    && t[0] == '-' && t[3] == '-' && t[6] == ' ' && t[9] == ':' && t[12] == ':'
    && AllDigits(t[1..3]) && AllDigits(t[4..6]) && AllDigits(t[7..9])
    && AllDigits(t[10..12]) && AllDigits(t[13..15])
  }

  /** Field k of the fifteen: 0 month, 1 day, 2 hour, 3 minute, 4 second. */
  function Field(t: string, k: nat): nat
    requires FieldsLayout(t) && k < 5
  {
    DecimalValue(t[3 * k + 1 .. 3 * k + 3])
  }

  /** A year-of-era as the parser accepts it: four digits, or '+' and five to nineteen. */
  predicate YearLayout(p: string) {
    || (|p| == 4 && AllDigits(p))
    || (6 <= |p| <= 20 && p[0] == '+' && AllDigits(p[1..]))
  }

  /** The number a year text denotes. */
  function YearValue(p: string): nat
    requires YearLayout(p)
  {
    if p[0] == '+' then DecimalValue(p[1..]) else DecimalValue(p)
  }

  /** Text in the default layout: a year followed by the fifteen field characters. */
  predicate DefaultLayout(text: string) {
    |text| >= 19 && YearLayout(text[..|text| - 15]) && FieldsLayout(text[|text| - 15..])
  }

  // ---------------------------------------------------------------------
  // Formatting
  // ---------------------------------------------------------------------

  /** The era-relative year: years 1 and up are themselves, year 0 is 1 BCE, -1 is 2 BCE. */
  function YearOfEra(year: int): (yoe: nat)
    ensures yoe >= 1
    ensures year >= 1 ==> yoe == year
    ensures year <= 0 ==> yoe + year == 1
  {
    if year >= 1 then year else 1 - year
  }

  /** `yyyy`: the year-of-era padded to four digits, signed with '+' past four digits. */
  function YearText(year: int): (p: string)
    ensures YearLayout(p) || YearOfEra(year) >= Pow10(19)
    ensures YearLayout(p) ==> YearValue(p) == YearOfEra(year)
    ensures YearOfEra(year) < 10000 <==> |p| == 4
  {
    var yoe := YearOfEra(year);
    var digits := PadDigits(yoe, 4);
    if yoe >= 10000 then
      PadDigitsLength(yoe, 4, 19);
      assert ("+" + digits)[1..] == digits;
      "+" + digits
    else
      digits
  }

  function TwoDigits(n: int): (r: string)
    requires 0 <= n < 100
    ensures |r| == 2 && AllDigits(r) && DecimalValue(r) == n
  {
    PadDigits(n, 2)
  }

  /** The two characters of a two-digit field: tens, then units. */
  lemma TwoDigitsChars(n: int)
    requires 0 <= n < 100
    ensures TwoDigits(n) == [DigitChar(n / 10), DigitChar(n % 10)]
  {
    assert PadDigits(n, 2) == PadDigits(n / 10, 1) + [DigitChar(n % 10)];
  }

  /** Five two-character numerals joined by the layout's separators. */
  function Punctuate(mm: string, dd: string, hh: string, mi: string, ss: string): (t: string)
    requires |mm| == 2 && |dd| == 2 && |hh| == 2 && |mi| == 2 && |ss| == 2
    ensures |t| == 15
  {
    ['-', mm[0], mm[1], '-', dd[0], dd[1], ' ', hh[0], hh[1], ':', mi[0], mi[1], ':', ss[0], ss[1]]
  }

  /** Each numeral sits at its field's place, between the separators. */
  lemma FieldsSlices(mm: string, dd: string, hh: string, mi: string, ss: string)
    requires |mm| == 2 && |dd| == 2 && |hh| == 2 && |mi| == 2 && |ss| == 2
    requires AllDigits(mm) && AllDigits(dd) && AllDigits(hh) && AllDigits(mi) && AllDigits(ss)
    ensures var t := Punctuate(mm, dd, hh, mi, ss);
            && FieldsLayout(t)
            && t[1..3] == mm && t[4..6] == dd && t[7..9] == hh && t[10..12] == mi && t[13..15] == ss
  {
    var t := Punctuate(mm, dd, hh, mi, ss);
    PairAt(t, 1, mm);
    PairAt(t, 4, dd);
    PairAt(t, 7, hh);
    PairAt(t, 10, mi);
    PairAt(t, 13, ss);
  }

  /** "-MM-dd HH:mm:ss" for the given field values. */
  function FieldsText(month: int, day: int, hour: int, minute: int, second: int): (t: string)
    requires 0 <= month < 100 && 0 <= day < 100 && 0 <= hour < 100 && 0 <= minute < 100 && 0 <= second < 100
    ensures FieldsLayout(t)
    ensures Field(t, 0) == month && Field(t, 1) == day && Field(t, 2) == hour
    ensures Field(t, 3) == minute && Field(t, 4) == second
  {
    var mm, dd, hh, mi, ss := TwoDigits(month), TwoDigits(day), TwoDigits(hour), TwoDigits(minute), TwoDigits(second);
    FieldsSlices(mm, dd, hh, mi, ss);
    Punctuate(mm, dd, hh, mi, ss)
  }

  /** `toString(LocalDateTime)`: the date-time in the default layout, without its fraction of a second. */
  function Format(dt: DateTime): (r: string)
    requires dt.Valid()
    ensures DefaultLayout(r)
    ensures YearValue(r[..|r| - 15]) == YearOfEra(dt.date.year)
    ensures 1 <= dt.date.year <= 9999 ==> |r| == 19
    ensures dt.date.year > 9999 ==> r[0] == '+'
    ensures Field(r[|r| - 15..], 0) == dt.date.month
    ensures Field(r[|r| - 15..], 1) == dt.date.day
    ensures Field(r[|r| - 15..], 2) == dt.time.hour
    ensures Field(r[|r| - 15..], 3) == dt.time.minute
    ensures Field(r[|r| - 15..], 4) == dt.time.second
  {
    var year := YearText(dt.date.year);
    Pow10Monotone(10, 19);
    var t := FieldsText(dt.date.month, dt.date.day, dt.time.hour, dt.time.minute, dt.time.second);
    assert (year + t)[..|year + t| - 15] == year;
    assert (year + t)[|year + t| - 15..] == t;
    year + t
  }

  // ---------------------------------------------------------------------
  // Parsing
  // ---------------------------------------------------------------------

  /**
    Reads the year-of-era at the front of `text`: the value and the number
    of characters it took. A '-' sign always ends in failure (a negative
    or zero year-of-era is out of range), so it is refused at once.
   */
  function ParseYear(text: string): (r: Option<(nat, nat)>)
    ensures r.Some? ==> r.value.1 <= |text| && YearLayout(text[..r.value.1])
    ensures r.Some? ==> r.value.0 == YearValue(text[..r.value.1])
  {
    if |text| == 0 || text[0] == '-' then None
    else
      var start := if text[0] == '+' then 1 else 0;
      var run := LeadingDigits(text[start..]);
      var taken := if run > 19 then 19 else run;
      if taken < 4 || (start == 1) != (taken > 4) then None
      else
        LeadingDigitsSlice(text, start, taken);
        SliceOfPrefix(text, start, start + taken);
        assert start == 0 ==> text[..start + taken] == text[start..start + taken];
        Some((DecimalValue(text[start..start + taken]), start + taken))
  }

  /**
    The day-of-month the smart resolver keeps: a day past the end of a
    30-day month or of February becomes that month's last day.
   */
  function SmartDayOfMonth(year: int, month: int, day: int): (d: int)
    requires 1 <= month <= 12 && 1 <= day <= 31
    ensures day <= DaysInMonth(year, month) ==> d == day
    ensures day > DaysInMonth(year, month) ==> d == DaysInMonth(year, month)
  {
    if month == 4 || month == 6 || month == 9 || month == 11 then (if day < 30 then day else 30)
    else if month == 2 then
      var last := if IsLeapYear(year) then 29 else 28;
      if day < last then day else last
    else day
  }

  /** Field values as the resolver sees them: every field within its own range and no adjustment needed. */
  predicate CanonicalFields(yoe: int, month: int, day: int, hour: int, minute: int, second: int) {
    && 1 <= yoe <= MaxYear && 1 <= month <= 12 && 1 <= day <= DaysInMonth(yoe, month)
    && 0 <= hour < 24 && 0 <= minute < 60 && 0 <= second < 60
  }

  /**
    Turns parsed field values into a date-time, as the smart resolver does,
    or refuses them.
   */
  function Resolve(yoe: nat, month: nat, day: nat, hour: nat, minute: nat, second: nat): (r: Option<DateTime>)
    ensures r.Some? ==> r.value.Valid() && r.value.WholeSecond()
    ensures CanonicalFields(yoe, month, day, hour, minute, second) ==>
              r == Some(DateTime(Date(yoe, month, day), Time(hour, minute, second, 0)))
    ensures (yoe == 0 || yoe > MaxYear || month == 0 || month > 12 || day == 0 || day > 31
              || minute >= 60 || second >= 60 || hour > 24) ==> r.None?
    ensures hour == 24 && (minute != 0 || second != 0) ==> r.None?
    ensures 1 <= yoe <= MaxYear && 1 <= month <= 12 && DaysInMonth(yoe, month) < day <= 31
              && hour < 24 && minute < 60 && second < 60 ==>
              r == Some(DateTime(Date(yoe, month, DaysInMonth(yoe, month)), Time(hour, minute, second, 0)))
    ensures 1 <= yoe <= MaxYear && 1 <= month <= 12 && 1 <= day <= 31 && hour == 24 && minute == 0 && second == 0 ==>
              var next := NextDay(Date(yoe, month, SmartDayOfMonth(yoe, month, day)));
              && (next.year <= MaxYear ==> r == Some(DateTime(next, Midnight)))
              && (r.None? <==> yoe == MaxYear && month == 12 && day == 31)
  {
    if !(1 <= yoe <= MaxYear && 1 <= month <= 12 && 1 <= day <= 31 && minute <= 59) then None
    else
      var date := Date(yoe, month, SmartDayOfMonth(yoe, month, day));
      if hour == 24 && minute == 0 && second == 0 then
        var next := NextDay(date);
        if next.year > MaxYear then None else Some(DateTime(next, Midnight))
      else if hour <= 23 && second <= 59 then
        Some(DateTime(date, Time(hour, minute, second, 0)))
      else
        None
  }

  /**
    `toDate(String)` before wrapping: the date-time the text denotes, or a
    failure carrying the text that could not be parsed. Text outside the
    default layout always fails; nothing partial is returned.
   */
  function Parse(text: string): (r: Result<DateTime, string>)
    ensures r.Failure? ==> r.error == text
    ensures r.Success? ==> DefaultLayout(text)
    ensures r.Success? ==> r.value.Valid() && r.value.WholeSecond()
  {
    match ParseYear(text)
    case None => Failure(text)
    case Some((yoe, k)) =>
      var t := text[k..];
      if !FieldsLayout(t) then Failure(text)
      else
        assert text[..k] == text[..|text| - 15] && t == text[|text| - 15..];
        match Resolve(yoe, Field(t, 0), Field(t, 1), Field(t, 2), Field(t, 3), Field(t, 4))
        case None => Failure(text)
        case Some(dt) => Success(dt)
  }

  // ---------------------------------------------------------------------
  // Round trips
  // ---------------------------------------------------------------------

  /** A year text followed by the fields' leading '-' is read back whole by `ParseYear`. */
  lemma ParseYearOfLayout(p: string, rest: string)
    requires YearLayout(p)
    requires |rest| > 0 && rest[0] == '-'
    ensures ParseYear(p + rest) == Some((YearValue(p), |p|))
  {
    var text := p + rest;
    if p[0] == '+' {
      assert text[1..] == p[1..] + rest;
      LeadingDigitsOfRun(p[1..], rest);
      assert text[..|p|] == p;
      assert text[1..|p|] == p[1..];
    } else {
      assert text[0..] == p + rest;
      LeadingDigitsOfRun(p, rest);
      assert text[..|p|] == p;
      assert text[0..|p|] == p;
    }
  }

  /** The year prefix `Format` writes is read back whole by `ParseYear`. */
  lemma ParseYearOfYearText(year: int, rest: string)
    requires YearOfEra(year) <= MaxYear + 1
    requires |rest| > 0 && rest[0] == '-'
    ensures ParseYear(YearText(year) + rest) == Some((YearOfEra(year), |YearText(year)|))
  {
    Pow10Monotone(10, 19);
    assert YearLayout(YearText(year));
    ParseYearOfLayout(YearText(year), rest);
  }

  /**
    Parsing what `Format` printed gives the date-time back, for every valid
    date-time of the common era without a fraction of a second.
   */
  lemma ParseFormatRoundTrip(dt: DateTime)
    requires dt.Valid() && dt.WholeSecond() && dt.date.year >= 1
    ensures Parse(Format(dt)) == Success(dt)
  {
    var text := Format(dt);
    var p := YearText(dt.date.year);
    var t := text[|text| - 15..];
    assert text == p + t;
    ParseYearOfYearText(dt.date.year, t);
    assert text[|p|..] == t;
  }

  /**
    The converse: text in the default layout with a four-digit year and
    fields that need no adjustment is exactly what `Format` prints for the
    date-time it parses to.
   */
  lemma FormatParseRoundTrip(text: string)
    requires |text| == 19 && DefaultLayout(text)
    requires CanonicalFields(DecimalValue(text[..4]), Field(text[4..], 0), Field(text[4..], 1),
                             Field(text[4..], 2), Field(text[4..], 3), Field(text[4..], 4))
    ensures Parse(text).Success?
    ensures Format(Parse(text).value) == text
  {
    var p, t := text[..4], text[4..];
    assert text == p + t;
    LeadingDigitsOfRun(p, t);
    assert text[0..] == text && text[0..][..4] == p;
    assert ParseYear(text) == Some((DecimalValue(p), 4));
    PadDigitsOfDecimalValue(p);
    FieldsTextOfLayout(t);
  }

  /** Fifteen field characters in the layout are what `FieldsText` prints for their values. */
  lemma FieldsTextOfLayout(t: string)
    requires FieldsLayout(t)
    ensures FieldsText(Field(t, 0), Field(t, 1), Field(t, 2), Field(t, 3), Field(t, 4)) == t
  {
    PadDigitsOfDecimalValue(t[1..3]);
    PadDigitsOfDecimalValue(t[4..6]);
    PadDigitsOfDecimalValue(t[7..9]);
    PadDigitsOfDecimalValue(t[10..12]);
    PadDigitsOfDecimalValue(t[13..15]);
    assert t == Punctuate(t[1..3], t[4..6], t[7..9], t[10..12], t[13..15]);
  }

  /**
    Before the common era the era is lost: `yyyy` prints the year-of-era,
    which parses back as a year of the common era (year 0 as year 1, and
    February 29 of year 0 as February 28 of year 1).
   */
  lemma ParseFormatBeforeCommonEra(dt: DateTime)
    requires dt.Valid() && dt.WholeSecond() && MinYear < dt.date.year <= 0
    ensures Parse(Format(dt)) == Success(DateTime(
              Date(1 - dt.date.year, dt.date.month, SmartDayOfMonth(1 - dt.date.year, dt.date.month, dt.date.day)),
              dt.time))
  {
    var text := Format(dt);
    var p := YearText(dt.date.year);
    var t := text[|text| - 15..];
    assert text == p + t;
    ParseYearOfYearText(dt.date.year, t);
    assert text[|p|..] == t;
  }

  /**
    The earliest year does not come back at all: year -999,999,999 prints
    the year-of-era 1,000,000,000 (as `+1000000000`), which is one past the
    latest year the parser resolves.
   */
  lemma ParseFormatAtMinYear(dt: DateTime)
    requires dt.Valid() && dt.date.year == MinYear
    ensures Parse(Format(dt)).Failure?
  {
    var text := Format(dt);
    var p := YearText(dt.date.year);
    var t := text[|text| - 15..];
    assert text == p + t;
    ParseYearOfYearText(dt.date.year, t);
    assert text[|p|..] == t;
  }

  /** Text printed from six numbers parses to whatever the resolver makes of them. */
  lemma ParseOfFieldsText(year: int, month: nat, day: nat, hour: nat, minute: nat, second: nat)
    requires 1 <= year <= MaxYear
    requires month < 100 && day < 100 && hour < 100 && minute < 100 && second < 100
    ensures Parse(YearText(year) + FieldsText(month, day, hour, minute, second))
              == match Resolve(year, month, day, hour, minute, second)
                 case None => Failure(YearText(year) + FieldsText(month, day, hour, minute, second))
                 case Some(dt) => Success(dt)
  {
    var p, t := YearText(year), FieldsText(month, day, hour, minute, second);
    ParseYearOfYearText(year, t);
    assert (p + t)[|p|..] == t;
  }

  /** The fifteen characters after the year, digit by digit. */
  lemma FieldsTextChars(month: int, day: int, hour: int, minute: int, second: int)
    requires 0 <= month < 100 && 0 <= day < 100 && 0 <= hour < 100 && 0 <= minute < 100 && 0 <= second < 100
    ensures FieldsText(month, day, hour, minute, second) ==
              ['-', DigitChar(month / 10), DigitChar(month % 10), '-', DigitChar(day / 10), DigitChar(day % 10),
               ' ', DigitChar(hour / 10), DigitChar(hour % 10), ':', DigitChar(minute / 10), DigitChar(minute % 10),
               ':', DigitChar(second / 10), DigitChar(second % 10)]
  {
    TwoDigitsChars(month);
    TwoDigitsChars(day);
    TwoDigitsChars(hour);
    TwoDigitsChars(minute);
    TwoDigitsChars(second);
  }

  /** The year of the examples below prints as its four digits. */
  lemma YearTextExample()
    ensures YearText(2023) == "2023"
  {
    FourDigits(2023);
  }

  /** The smart resolver, shown: a day past the end of February becomes its last day. */
  lemma ParseClampsDayExample()
    ensures Parse("2023-02-30 10:15:00") == Success(DateTime(Date(2023, 2, 28), Time(10, 15, 0, 0)))
  {
    YearTextExample();
    FieldsTextChars(2, 30, 10, 15, 0);
    assert "2023-02-30 10:15:00" == "2023" + FieldsText(2, 30, 10, 15, 0);
    assert Resolve(2023, 2, 30, 10, 15, 0) == Some(DateTime(Date(2023, 2, 28), Time(10, 15, 0, 0)));
    ParseOfFieldsText(2023, 2, 30, 10, 15, 0);
  }

  /** The smart resolver, shown: 24:00:00 is midnight of the next day. */
  lemma ParseEndOfDayExample()
    ensures Parse("2023-12-31 24:00:00") == Success(DateTime(Date(2024, 1, 1), Midnight))
  {
    YearTextExample();
    FieldsTextChars(12, 31, 24, 0, 0);
    assert "2023-12-31 24:00:00" == "2023" + FieldsText(12, 31, 24, 0, 0);
    assert NextDay(Date(2023, 12, 31)) == Date(2024, 1, 1);
    assert Resolve(2023, 12, 31, 24, 0, 0) == Some(DateTime(Date(2024, 1, 1), Midnight));
    ParseOfFieldsText(2023, 12, 31, 24, 0, 0);
  }

  /** Month 13 is refused. */
  lemma ParseRefusesMonthThirteenExample()
    ensures Parse("2023-13-01 00:00:00").Failure?
  {
    YearTextExample();
    FieldsTextChars(13, 1, 0, 0, 0);
    assert "2023-13-01 00:00:00" == "2023" + FieldsText(13, 1, 0, 0, 0);
    assert Resolve(2023, 13, 1, 0, 0, 0) == None;
    ParseOfFieldsText(2023, 13, 1, 0, 0, 0);
  }

  /** Hour 24 is accepted only as 24:00:00. */
  lemma ParseRefusesPastEndOfDayExample()
    ensures Parse("2023-12-31 24:00:01").Failure?
  {
    YearTextExample();
    FieldsTextChars(12, 31, 24, 0, 1);
    assert "2023-12-31 24:00:01" == "2023" + FieldsText(12, 31, 24, 0, 1);
    assert Resolve(2023, 12, 31, 24, 0, 1) == None;
    ParseOfFieldsText(2023, 12, 31, 24, 0, 1);
  }

  /** The fraction of a second does not show: date-times that differ only in it print alike. */
  lemma FormatDropsFraction(dt: DateTime, nano: int)
    requires dt.Valid() && 0 <= nano < NanosPerSecond
    ensures Format(dt.(time := dt.time.(nano := nano))) == Format(dt)
  {
  }

  /** The layout, shown on one date-time. */
  lemma FormatExample()
    ensures Format(DateTime(Date(2023, 6, 15), Time(14, 30, 0, 0))) == "2023-06-15 14:30:00"
  {
    YearTextExample();
    FieldsTextChars(6, 15, 14, 30, 0);
    assert "2023-06-15 14:30:00" == "2023" + FieldsText(6, 15, 14, 30, 0);
  }

  /** Parsing, shown on the same text. */
  lemma ParseExample()
    ensures Parse("2023-06-15 14:30:00") == Success(DateTime(Date(2023, 6, 15), Time(14, 30, 0, 0)))
  {
    FormatExample();
    ParseFormatRoundTrip(DateTime(Date(2023, 6, 15), Time(14, 30, 0, 0)));
  }
}
