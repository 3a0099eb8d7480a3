/** The two obsolete HTTP-date forms of section 5.6.7 of RFC 9110, rendered as the
    grammar prescribes and read back by the same parser. */
module ObsoleteDates {
  import opened Text
  import opened Calendar
  import opened HttpDate

  // ---------------------------------------------------------------- asctime

  /** Day of month in two columns, padded with a space, after a separating space. */
  function AsctimeDay(day: nat): string {
    if day < 10 then "  " + Decimal(day) else " " + Decimal(day)
  }

  function RenderAsctime(days: nat, secondsOfDay: nat): string
    requires Valid(CivilFromDays(days)) && CivilFromDays(days).year >= 0
  {
    var d := CivilFromDays(days);
    SHORT_WEEKDAYS[(days + 4) % 7] +
    (" " + MONTHS[d.month - 1] + (AsctimeDay(d.day) +
    (" " + FormatClock(secondsOfDay) + (" " + FixedDecimal(d.year, 4)))))
  }

  lemma FieldsOfFirst(word: string, rest: string)
    requires word != [] && NoOws(word) && (rest == [] || IsOws(rest[0]))
    ensures Fields(word + rest) == [word] + Fields(rest)
  {
    var t := word + rest;
    WordLengthOf(word, rest);
    FieldsStep(t, t, |word|);
    assert t[..|word|] == word && t[|word|..] == rest;
  }

  lemma FieldsOfPadded(word: string, rest: string)
    requires word != [] && NoOws(word) && (rest == [] || IsOws(rest[0]))
    ensures Fields("  " + word + rest) == [word] + Fields(rest)
  {
    hide Fields;
    var t := " " + word + rest;
    FieldsOfWord(word, rest);
    assert ("  " + word + rest)[1..] == t;
    FieldsByTrim("  " + word + rest, t);
  }

  lemma FieldsByTrim(s: string, t: string)
    requires TrimLeft(s) == TrimLeft(t)
    ensures Fields(s) == Fields(t)
  {
    hide TrimLeft, WordLength;
  }

  lemma DayReadsBack(day: nat)
    requires 1 <= day <= 31
    ensures NoOws(Decimal(day)) && ParseNumber(Decimal(day), 1, 2) == Some(day)
  {
    hide Decimal, DecimalValue;
    var s := Decimal(day);
    assert IsDigits(s);
  }

  lemma FieldsOfDay(day: nat, rest: string)
    requires 1 <= day <= 31 && (rest == [] || IsOws(rest[0]))
    ensures Fields(AsctimeDay(day) + rest) == [Decimal(day)] + Fields(rest)
  {
    hide Fields;
    DayReadsBack(day);
    if day < 10 { FieldsOfPadded(Decimal(day), rest); } else { FieldsOfWord(Decimal(day), rest); }
  }

  lemma FieldsOfAsctime(w: string, m: string, day: nat, t: string, y: string)
    requires w != [] && NoOws(w) && m != [] && NoOws(m) && 1 <= day <= 31
    requires t != [] && NoOws(t) && y != [] && NoOws(y)
    ensures Fields(w + (" " + m + (AsctimeDay(day) + (" " + t + (" " + y))))) == [w, m, Decimal(day), t, y]
  {
    hide Fields, Decimal, NoOws;
    FieldsOfFirst(w, " " + m + (AsctimeDay(day) + (" " + t + (" " + y))));
    FieldsOfWord(m, AsctimeDay(day) + (" " + t + (" " + y)));
    FieldsOfDay(day, " " + t + (" " + y));
    FieldsOfWord(t, " " + y);
    FieldsOfWord(y, []);
    assert " " + y + [] == " " + y;
    EmptyFields();
  }

  predicate NoComma(s: string) { ',' !in s }

  lemma DigitsHaveNoComma(s: string)
    requires IsDigits(s)
    ensures NoComma(s) && NoOws(s)
  {
  }

  lemma FixedDecimalDigits(n: nat, width: nat)
    ensures IsDigits(FixedDecimal(n, width))
  {
    hide Decimal;
  }

  lemma ClockHasNoComma(secondsOfDay: nat)
    ensures NoComma(FormatClock(secondsOfDay))
  {
    hide FixedDecimal;
    FixedDecimalDigits(secondsOfDay / 3600, 2);
    FixedDecimalDigits(secondsOfDay / 60 % 60, 2);
    FixedDecimalDigits(secondsOfDay % 60, 2);
  }

  lemma AsctimeHasNoComma(w: string, m: string, day: nat, t: string, y: string)
    requires |w| == 3 && NoOws(w) && NoComma(w) && NoComma(m) && NoComma(t) && NoComma(y)
    requires y != [] && NoOws(y)
    ensures var v := w + (" " + m + (AsctimeDay(day) + (" " + t + (" " + y))));
            TrimOws(v) == v && v != [] && Find(v, ',') == |v|
  {
    hide Decimal, TrimOws;
    DigitsHaveNoComma(Decimal(day));
    assert NoComma(AsctimeDay(day));
    var v := w + (" " + m + (AsctimeDay(day) + (" " + t + (" " + y))));
    assert v[|v| - 1] == y[|y| - 1];
    Trimmed(v);
    assert NoComma(v);
  }

  lemma NamesHaveNoComma(i: nat)
    ensures i < 12 ==> NoComma(MONTHS[i])
    ensures i < 7 ==> NoComma(SHORT_WEEKDAYS[i])
  {
  }

  /** The asctime form of every printable instant reads back as that instant. */
  lemma AsctimeRoundTrip(seconds: nat, reference: Option<nat>)
    requires seconds <= MAX_DATE_SECONDS
    ensures var days := seconds / SECONDS_PER_DAY;
            Valid(CivilFromDays(days)) && CivilFromDays(days).year >= 0 &&
            ParseHttpDate(RenderAsctime(days, seconds % SECONDS_PER_DAY), reference) == Some(seconds)
  {
    hide CivilFromDays, ValidWeekday, ParseNumber, ParseTime, MonthNumber, FixedDecimal, FormatClock,
         MakeTimestamp, SplitClock, Fields, TrimOws, Find, NoOws, NoComma, AsctimeDay, Decimal;
    var days, secondsOfDay := seconds / SECONDS_PER_DAY, seconds % SECONDS_PER_DAY;
    PrintableDays(days);
    var d := CivilFromDays(days);
    var w, m := SHORT_WEEKDAYS[(days + 4) % 7], MONTHS[d.month - 1];
    var t, y := FormatClock(secondsOfDay), FixedDecimal(d.year, 4);
    NamesHaveNoOws((days + 4) % 7);
    NamesHaveNoOws(d.month - 1);
    NamesHaveNoComma((days + 4) % 7);
    NamesHaveNoComma(d.month - 1);
    ClockReadsBack(secondsOfDay);
    ClockHasNoComma(secondsOfDay);
    NumberReadsBack(d.year, 4);
    FixedDecimalDigits(d.year, 4);
    DigitsHaveNoComma(y);
    DayReadsBack(d.day);
    MonthReadsBack(d.month);
    WeekdayReadsBack((days + 4) % 7, false);
    TimestampOf(days, secondsOfDay);
    AsctimeHasNoComma(w, m, d.day, t, y);
    FieldsOfAsctime(w, m, d.day, t, y);
    assert Date(d.year, d.month, d.day) == d;
  }

  // ---------------------------------------------------------------- RFC 850

  function RenderRfc850(days: nat, secondsOfDay: nat): string
    requires Valid(CivilFromDays(days)) && CivilFromDays(days).year >= 0
  {
    LONG_WEEKDAYS[(days + 4) % 7] + "," + Spaced([Rfc850Day(CivilFromDays(days)), FormatClock(secondsOfDay), "GMT"])
  }

  function Rfc850Day(d: Date): string
    requires Valid(d) && d.year >= 0
  {
    FixedDecimal(d.day, 2) + "-" + MONTHS[d.month - 1] + "-" + FixedDecimal(d.year % 100, 2)
  }

  lemma Rfc850DayParts(d: Date)
    requires Valid(d) && d.year >= 0
    ensures var f := Rfc850Day(d);
            && NoOws(f) && |f| == 9 && Find(f, '-') == 2 && f[..2] == FixedDecimal(d.day, 2)
            && Find(f[3..], '-') == 3 && f[3..][..3] == MONTHS[d.month - 1]
            && f[3..][4..] == FixedDecimal(d.year % 100, 2) && '-' !in f[3..][4..]
  {
    hide FixedDecimal, Find;
    var dd, m, yy := FixedDecimal(d.day, 2), MONTHS[d.month - 1], FixedDecimal(d.year % 100, 2);
    NumberReadsBack(d.day, 2);
    NumberReadsBack(d.year % 100, 2);
    FixedDecimalDigits(d.day, 2);
    FixedDecimalDigits(d.year % 100, 2);
    NamesHaveNoOws(d.month - 1);
    MonthsHaveNoDash(d.month - 1);
    var f := Rfc850Day(d);
    FindIs(f, '-', 2);
    FindIs(f[3..], '-', 3);
  }

  lemma MonthsHaveNoDash(i: nat)
    requires i < 12
    ensures '-' !in MONTHS[i]
  {
  }

  lemma LongWeekdays(i: nat)
    requires i < 7
    ensures NoOws(LONG_WEEKDAYS[i]) && LONG_WEEKDAYS[i] != [] && ',' !in LONG_WEEKDAYS[i]
  {
  }

  /** What the parser makes of a rendered RFC 850 date: the date in the rolling year. */
  lemma Rfc850Parses(days: nat, secondsOfDay: nat, reference: nat)
    requires days <= 2932896 && secondsOfDay < SECONDS_PER_DAY && reference <= MAX_DATE_SECONDS
    ensures Valid(CivilFromDays(days)) && CivilFromDays(days).year >= 0
    ensures var d := CivilFromDays(days);
            var time := SplitClock(secondsOfDay);
            ParseHttpDate(RenderRfc850(days, secondsOfDay), Some(reference)) ==
            MakeTimestamp(Date(RollingYear(d.year % 100, d.month, d.day, time, reference), d.month, d.day), time)
  {
    hide CivilFromDays, ValidWeekday, ParseNumber, ParseTime, MonthNumber, FixedDecimal, FormatClock,
         MakeTimestamp, SplitClock, Fields, TrimOws, Find, NoOws, Rfc850Day, Spaced, RollingYear, IEquals;
    PrintableDays(days);
    var d := CivilFromDays(days);
    var w := LONG_WEEKDAYS[(days + 4) % 7];
    var words := [Rfc850Day(d), FormatClock(secondsOfDay), "GMT"];
    LongWeekdays((days + 4) % 7);
    WeekdayReadsBack((days + 4) % 7, true);
    Rfc850DayParts(d);
    ClockReadsBack(secondsOfDay);
    NumberReadsBack(d.day, 2);
    NumberReadsBack(d.year % 100, 2);
    MonthReadsBack(d.month);
    IEqualsReflexive("GMT");
    SpacedEnd(words);
    CommaSplits(w, Spaced(words));
    assert TrimOws(w) == w by { LongWeekdayTrimmed((days + 4) % 7); }
    assert NoOws("GMT") by { GmtIsWord(); }
    FieldsOfSpaced(words);
  }

  lemma GmtIsWord()
    ensures NoOws("GMT")
  {
  }

  lemma LongWeekdayTrimmed(i: nat)
    requires i < 7
    ensures TrimOws(LONG_WEEKDAYS[i]) == LONG_WEEKDAYS[i]
  {
    LongWeekdays(i);
    Trimmed(LONG_WEEKDAYS[i]);
  }

  /** Timestamps separate distinct dates. */
  lemma TimestampInjective(a: Date, b: Date, time: Clock)
    requires MakeTimestamp(a, time).Some? && MakeTimestamp(a, time) == MakeTimestamp(b, time)
    ensures a == b
  {
    hide DaysFromCivil, CivilFromDays, Valid;
    CivilOfDays(a);
    CivilOfDays(b);
  }

  /** The RFC 850 form of an instant reads back as that instant exactly when the
      instant lies in the hundred-year window that ends fifty years after the
      reference clock. */
  lemma Rfc850RoundTrip(seconds: nat, reference: nat)
    requires seconds <= MAX_DATE_SECONDS && reference <= MAX_DATE_SECONDS
    ensures var days := seconds / SECONDS_PER_DAY;
            var d := CivilFromDays(days);
            Valid(d) && d.year >= 0 &&
            (ParseHttpDate(RenderRfc850(days, seconds % SECONDS_PER_DAY), Some(reference)) == Some(seconds) <==>
             InWindow(d.year, d.month, d.day, SplitClock(seconds % SECONDS_PER_DAY), reference))
  {
    hide CivilFromDays, MakeTimestamp, SplitClock, RollingYear, InWindow, ParseHttpDate, RenderRfc850;
    var days, secondsOfDay := seconds / SECONDS_PER_DAY, seconds % SECONDS_PER_DAY;
    PrintableDays(days);
    var d := CivilFromDays(days);
    var time := SplitClock(secondsOfDay);
    Rfc850Parses(days, secondsOfDay, reference);
    TimestampOf(days, secondsOfDay);
    assert Date(d.year, d.month, d.day) == d;
    var year := RollingYear(d.year % 100, d.month, d.day, time, reference);
    RollingYearInWindow(d.year % 100, d.month, d.day, time, reference);
    if InWindow(d.year, d.month, d.day, time, reference) {
      RollingYearUnique(d.year, d.month, d.day, time, reference);
    } else if MakeTimestamp(Date(year, d.month, d.day), time) == Some(seconds) {
      TimestampInjective(d, Date(year, d.month, d.day), time);
    }
  }
}
