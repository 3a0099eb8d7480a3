/** HTTP-dates from the outside: the exact text that is printed, the range of what is
    accepted, and the fifty-year window, none of it through the parser's own helpers. */
module DateLaws {
  import opened Text
  import opened Calendar
  import opened HttpDate

  // ---------------------------------------------------------------- names

  lemma MonthNamed(month: int, name: string)
    requires 1 <= month <= 12 && MONTHS[month - 1] == name
    ensures MonthNumber(name) == month
  {
    MonthReadsBack(month);
  }

  lemma MonthNames()
    ensures MonthNumber("Jan") == 1 && MonthNumber("Feb") == 2 && MonthNumber("Mar") == 3
    ensures MonthNumber("Apr") == 4 && MonthNumber("May") == 5 && MonthNumber("Jun") == 6
    ensures MonthNumber("Jul") == 7 && MonthNumber("Aug") == 8 && MonthNumber("Sep") == 9
    ensures MonthNumber("Oct") == 10 && MonthNumber("Nov") == 11 && MonthNumber("Dec") == 12
  {
    hide MonthNumber;
    MonthNamed(1, "Jan"); MonthNamed(2, "Feb"); MonthNamed(3, "Mar");
    MonthNamed(4, "Apr"); MonthNamed(5, "May"); MonthNamed(6, "Jun");
    MonthNamed(7, "Jul"); MonthNamed(8, "Aug"); MonthNamed(9, "Sep");
    MonthNamed(10, "Oct"); MonthNamed(11, "Nov"); MonthNamed(12, "Dec");
  }

  // ---------------------------------------------------------------- what is printed

  /** Weekdays from 1970-01-01 on. */
  const FROM_THURSDAY := ["Thu", "Fri", "Sat", "Sun", "Mon", "Tue", "Wed"]

  lemma WeekdayAt(days: nat)
    ensures SHORT_WEEKDAYS[(days + 4) % 7] == FROM_THURSDAY[days % 7]
  {
    var i := days % 7;
    assert (days + 4) % 7 == (i + 4) % 7;
  }

  lemma PiecesOf(w: string, day: string, month: string, year: string, clock: string)
    requires |w| == 3 && |day| == 2 && |month| == 3 && |year| == 4 && |clock| == 8
    ensures var text := w + ", " + day + " " + month + " " + year + " " + clock + " GMT";
            && |text| == 29 && text[..3] == w && text[3..5] == ", " && text[5..7] == day && text[7] == ' '
            && text[8..11] == month && text[11] == ' ' && text[12..16] == year && text[16] == ' '
            && text[17..25] == clock && text[25..] == " GMT"
  {
  }

  /** A printed date is the 29-character IMF-fixdate of section 5.6.7 of RFC 9110: the
      weekday counted from Thursday 1970-01-01, the day, the month name, the year and
      the time of day, each in its own columns. */
  lemma PrintedIsFixdate(seconds: nat)
    requires seconds <= MAX_DATE_SECONDS
    ensures var text, d := FormatHttpDate(seconds), CivilFromDays(seconds / 86400);
            && |text| == 29 && Valid(d) && 1970 <= d.year <= 9999
            && text[..3] == FROM_THURSDAY[seconds / 86400 % 7] && text[3..5] == ", "
            && ParseNumber(text[5..7], 2, 2) == Some(d.day) && text[7] == ' '
            && text[8..11] == MONTHS[d.month - 1] && MonthNumber(text[8..11]) == d.month && text[11] == ' '
            && ParseNumber(text[12..16], 4, 4) == Some(d.year) && text[16] == ' '
            && ParseTime(text[17..25]) ==
               Some(Clock(seconds % 86400 / 3600, seconds % 86400 / 60 % 60, seconds % 60))
            && text[25..] == " GMT"
  {
    hide CivilFromDays, FixedDecimal, FormatClock, ParseNumber, ParseTime, MonthNumber;
    var days, secondsOfDay := seconds / 86400, seconds % 86400;
    PrintableDays(days);
    var d := CivilFromDays(days);
    WeekdayAt(days);
    NumberReadsBack(d.day, 2);
    NumberReadsBack(d.year, 4);
    MonthReadsBack(d.month);
    NamesHaveNoOws(d.month - 1);
    ClockReadsBack(secondsOfDay);
    PiecesOf(SHORT_WEEKDAYS[(days + 4) % 7], FixedDecimal(d.day, 2), MONTHS[d.month - 1],
             FixedDecimal(d.year, 4), FormatClock(secondsOfDay));
    assert secondsOfDay % 60 == seconds % 60;
  }

  // ---------------------------------------------------------------- what is accepted

  /** `t` is the instant of a date no earlier than 1601 (and no later than fifty years past
      the last reference clock) and of a time of day that may name the leap second. */
  predicate IsInstant(t: int, d: Date, c: Clock) {
    && Valid(d) && 1601 <= d.year <= 10049
    && 0 <= c.hour <= 23 && 0 <= c.minute <= 59 && 0 <= c.second <= 60
    && t == DaysFromCivil(d) * 86400 + c.hour * 3600 + c.minute * 60 + c.second
  }

  lemma DecimalStep(s: string)
    requires IsDigits(s) && s != []
    ensures DecimalValue(s) == 10 * DecimalValue(s[..|s| - 1]) + DigitValue(s[|s| - 1])
    ensures DecimalValue(s[..|s| - 1]) <= DecimalValue(s) <= 10 * DecimalValue(s[..|s| - 1]) + 9
  {
  }

  // ---------------------------------------------------------------- two-digit years

  /** Position of a date and time among all calendar dates and times, counting every
      month as 31 days and every minute as 61 seconds. */
  function Rank(d: Date, c: Clock): int {
    ((((d.year * 12 + d.month) * 31 + d.day) * 24 + c.hour) * 60 + c.minute) * 61 + c.second
  }

  predicate Ordinary(d: Date, c: Clock) {
    1 <= d.month <= 12 && 1 <= d.day <= 31 && 0 <= c.hour <= 23 && 0 <= c.minute <= 59 && 0 <= c.second <= 60
  }

  lemma RankOrders(a: Stamp, b: Stamp)
    requires Ordinary(a.date, a.time) && Ordinary(b.date, b.time)
    ensures Earlier(a, b) <==> Rank(a.date, a.time) < Rank(b.date, b.time)
  {
  }

  /** The date and time lie at most fifty calendar years after the reference clock, and a
      century later they would lie beyond. */
  predicate WithinFifty(d: Date, c: Clock, reference: nat) {
    var now, time := CivilFromDays(reference / 86400), reference % 86400;
    var ahead := Rank(Date(now.year + 50, now.month, now.day), Clock(time / 3600, time / 60 % 60, time % 60));
    Rank(d, c) <= ahead < Rank(Date(d.year + 100, d.month, d.day), c)
  }

  lemma YearOrders(a: Stamp, b: Stamp)
    ensures !Earlier(a, b) ==> b.date.year <= a.date.year
  {
  }

  // ---------------------------------------------------------------- the example of the standard

  lemma ExampleDay()
    ensures CivilFromDays(9075) == Date(1994, 11, 6) && 784111777 / 86400 == 9075
    ensures 784111777 % 86400 == 31777 && 9075 % 7 == 3
  {
  }

  lemma Padded(value: nat, width: nat, digits: string)
    requires Decimal(value) == digits && |digits| <= width <= |digits| + 1
    ensures FixedDecimal(value, width) == if width > |digits| then "0" + digits else digits
  {
    assert Zeros(1) == "0";
  }

  lemma ClockOf(secondsOfDay: nat, h: nat, m: nat, s: nat)
    requires secondsOfDay / 3600 == h && secondsOfDay / 60 % 60 == m && secondsOfDay % 60 == s
    ensures FormatClock(secondsOfDay) == FixedDecimal(h, 2) + ":" + FixedDecimal(m, 2) + ":" + FixedDecimal(s, 2)
  {
    hide FixedDecimal;
  }

  lemma ExampleClock()
    ensures FormatClock(31777) == "08:49:37"
  {
    hide Decimal, FixedDecimal, FormatClock, DecimalValue, IsDigits;
    Numerals();
    Padded(8, 2, "8");
    Padded(49, 2, "49");
    Padded(37, 2, "37");
    assert 31777 / 3600 == 8 && 31777 / 60 % 60 == 49 && 31777 % 60 == 37;
    ClockOf(31777, 8, 49, 37);
  }

  lemma Numerals()
    ensures Decimal(6) == "6" && Decimal(8) == "8" && Decimal(49) == "49" && Decimal(37) == "37"
    ensures Decimal(1994) == "1994"
  {
    assert Decimal(4) == "4" && Decimal(3) == "3" && Decimal(1) == "1";
    assert Decimal(19) == "19";
    assert Decimal(199) == "199";
  }

  lemma TextOf(w: string, day: string, month: string, year: string, clock: string)
    requires w == "Sun" && day == "06" && month == "Nov" && year == "1994" && clock == "08:49:37"
    ensures w + ", " + day + " " + month + " " + year + " " + clock + " GMT" == "Sun, 06 Nov 1994 08:49:37 GMT"
  {
  }

  lemma ExampleNumbers()
    ensures FixedDecimal(6, 2) == "06" && FixedDecimal(1994, 4) == "1994"
  {
    hide Decimal, DecimalValue, IsDigits, FixedDecimal;
    Numerals();
    Padded(6, 2, "6");
    Padded(1994, 4, "1994");
  }

  /** The instant that section 5.6.7 of RFC 9110 gives as its example, character by character. */
  lemma StandardExample()
    ensures FormatHttpDate(784111777) == "Sun, 06 Nov 1994 08:49:37 GMT"
  {
    hide CivilFromDays, Decimal, FixedDecimal, FormatClock;
    ExampleDay();
    ExampleClock();
    ExampleNumbers();
    WeekdayAt(9075);
    TextOf(SHORT_WEEKDAYS[(9075 + 4) % 7], FixedDecimal(6, 2), MONTHS[10], FixedDecimal(1994, 4), FormatClock(31777));
  }

  lemma StandardExampleReadsBack(reference: Option<nat>)
    ensures ParseHttpDate("Sun, 06 Nov 1994 08:49:37 GMT", reference) == Some(784111777)
  {
    hide FormatHttpDate, ParseHttpDate;
    StandardExample();
    RoundTrip(784111777, reference);
  }

  // ---------------------------------------------------------------- exactly what is accepted

  predicate TwoDigits(s: string, n: int) {
    |s| == 2 && IsDigit(s[0]) && IsDigit(s[1]) && n == 10 * DigitValue(s[0]) + DigitValue(s[1])
  }

  predicate FourDigits(s: string, n: int) {
    && |s| == 4 && IsDigit(s[0]) && IsDigit(s[1]) && IsDigit(s[2]) && IsDigit(s[3])
    && n == 1000 * DigitValue(s[0]) + 100 * DigitValue(s[1]) + 10 * DigitValue(s[2]) + DigitValue(s[3])
  }

  /** One digit or two: an asctime day may be padded with a blank. */
  predicate DayDigits(s: string, n: int) {
    (|s| == 1 && IsDigit(s[0]) && n == DigitValue(s[0])) || TwoDigits(s, n)
  }

  predicate TimeText(s: string, c: Clock) {
    && |s| == 8 && s[2] == ':' && s[5] == ':'
    && TwoDigits(s[..2], c.hour) && TwoDigits(s[3..5], c.minute) && TwoDigits(s[6..], c.second)
  }

  const MONTH_NAMES := ["JAN", "FEB", "MAR", "APR", "MAY", "JUN", "JUL", "AUG", "SEP", "OCT", "NOV", "DEC"]

  predicate MonthText(s: string, m: int) { 1 <= m <= 12 && IEquals(s, MONTH_NAMES[m - 1]) }

  predicate ShortWeekday(s: string) {
    || IEquals(s, "Mon") || IEquals(s, "Tue") || IEquals(s, "Wed") || IEquals(s, "Thu") || IEquals(s, "Fri")
    || IEquals(s, "Sat") || IEquals(s, "Sun")
  }

  predicate LongWeekday(s: string) {
    || IEquals(s, "Monday") || IEquals(s, "Tuesday") || IEquals(s, "Wednesday") || IEquals(s, "Thursday")
    || IEquals(s, "Friday") || IEquals(s, "Saturday") || IEquals(s, "Sunday")
  }

  lemma TwoDigitsParse(s: string)
    ensures ParseNumber(s, 2, 2).Some? ==> TwoDigits(s, ParseNumber(s, 2, 2).value)
    ensures forall n :: TwoDigits(s, n) ==> ParseNumber(s, 2, 2) == Some(n)
  {
    if |s| == 2 && IsDigits(s) {
      DecimalStep(s);
      DecimalStep(s[..1]);
      assert s[..1][..0] == "";
    }
  }

  lemma FourDigitsParse(s: string)
    ensures ParseNumber(s, 4, 4).Some? ==> FourDigits(s, ParseNumber(s, 4, 4).value)
    ensures forall n :: FourDigits(s, n) ==> ParseNumber(s, 4, 4) == Some(n)
  {
    if |s| == 4 && IsDigits(s) {
      DecimalStep(s);
      DecimalStep(s[..3]);
      DecimalStep(s[..3][..2]);
      DecimalStep(s[..3][..2][..1]);
      assert s[..3][..2][..1][..0] == "";
    }
  }

  lemma DayDigitsParse(s: string)
    ensures ParseNumber(s, 1, 2).Some? ==> DayDigits(s, ParseNumber(s, 1, 2).value)
    ensures forall n :: DayDigits(s, n) ==> ParseNumber(s, 1, 2) == Some(n)
  {
    TwoDigitsParse(s);
    if |s| == 1 && IsDigits(s) {
      DecimalStep(s);
      assert s[..0] == "";
    }
  }

  lemma TimeParse(s: string)
    ensures ParseTime(s).Some? ==> TimeText(s, ParseTime(s).value)
    ensures forall c :: TimeText(s, c) ==> ParseTime(s) == Some(c)
  {
    hide ParseNumber, TwoDigits;
    if |s| == 8 {
      assert s[0..2] == s[..2] && s[6..8] == s[6..];
      TwoDigitsParse(s[0..2]);
      TwoDigitsParse(s[3..5]);
      TwoDigitsParse(s[6..8]);
    }
  }

  lemma SameName(i: nat)
    requires i < 12
    ensures |MONTHS[i]| == |MONTH_NAMES[i]| == 3
    ensures forall k :: 0 <= k < 3 ==> Lower(MONTHS[i][k]) == Lower(MONTH_NAMES[i][k])
  {
  }

  lemma MonthParse(s: string)
    ensures MonthNumber(s) != 0 ==> MonthText(s, MonthNumber(s))
    ensures forall m :: MonthText(s, m) ==> MonthNumber(s) == m
  {
    hide MonthIndex;
    var n := MonthNumber(s);
    if n != 0 { SameName(n - 1); }
    forall m | MonthText(s, m) ensures MonthNumber(s) == m {
      SameName(m - 1);
      assert IEquals(s, MONTHS[m - 1]);
      MonthFound(s, m, 0);
    }
  }

  lemma MonthFound(s: string, m: int, from: nat)
    requires from < m <= 12 && IEquals(s, MONTHS[m - 1])
    ensures MonthIndex(s, from) == m
    decreases m - from
  {
    if from + 1 < m {
      MonthsDiffer(from, m - 1);
      NotBothNames(s, MONTHS[m - 1], MONTHS[from]);
      MonthFound(s, m, from + 1);
    }
  }

  lemma NotBothNames(s: string, a: string, b: string)
    requires IEquals(s, a) && !IEquals(a, b)
    ensures !IEquals(s, b)
  {
  }

  lemma WeekdayParse(s: string)
    ensures ValidWeekday(s, false) <==> ShortWeekday(s)
    ensures ValidWeekday(s, true) <==> LongWeekday(s)
  {
    hide IEquals;
    ShortNames();
    LongNames();
    if ShortWeekday(s) { assert exists i :: 0 <= i < 7 && IEquals(s, SHORT_WEEKDAYS[i]); }
    if LongWeekday(s) { assert exists i :: 0 <= i < 7 && IEquals(s, LONG_WEEKDAYS[i]); }
  }

  lemma ShortNames()
    ensures SHORT_WEEKDAYS[0] == "Sun" && SHORT_WEEKDAYS[1] == "Mon" && SHORT_WEEKDAYS[2] == "Tue"
    ensures SHORT_WEEKDAYS[3] == "Wed" && SHORT_WEEKDAYS[4] == "Thu" && SHORT_WEEKDAYS[5] == "Fri"
    ensures SHORT_WEEKDAYS[6] == "Sat"
  {
  }

  lemma LongNames()
    ensures LONG_WEEKDAYS[0] == "Sunday" && LONG_WEEKDAYS[1] == "Monday" && LONG_WEEKDAYS[2] == "Tuesday"
    ensures LONG_WEEKDAYS[3] == "Wednesday" && LONG_WEEKDAYS[4] == "Thursday" && LONG_WEEKDAYS[5] == "Friday"
    ensures LONG_WEEKDAYS[6] == "Saturday"
  {
  }

  /** The overflow checks of the source never fire for a year a parser can produce. */
  lemma TimestampExactly(d: Date, c: Clock, t: int)
    requires d.year <= 10049
    ensures MakeTimestamp(d, c) == Some(t) <==> IsInstant(t, d, c)
  {
    hide DaysFromCivil, Valid;
    if Valid(d) && 1601 <= d.year { DaysInRange(d); }
  }

  lemma DaysInRange(d: Date)
    requires Valid(d) && 1601 <= d.year <= 10049
    ensures -1000000 <= DaysFromCivil(d) <= 4000000
  {
    hide DaysFromCivil;
    DaysMonotone(Date(1600, 1, 1), d);
    DaysMonotone(d, Date(10050, 1, 1));
    assert -1000000 <= DaysFromCivil(Date(1600, 1, 1)) && DaysFromCivil(Date(10050, 1, 1)) <= 4000000 by { Ends(); }
  }

  lemma Ends()
    ensures Valid(Date(1600, 1, 1)) && Valid(Date(10050, 1, 1))
    ensures -1000000 <= DaysFromCivil(Date(1600, 1, 1)) && DaysFromCivil(Date(10050, 1, 1)) <= 4000000
  {
  }

  predicate FixdateText(weekday: string, fields: seq<string>, d: Date, c: Clock) {
    && |fields| == 5 && ShortWeekday(weekday) && TwoDigits(fields[0], d.day) && MonthText(fields[1], d.month)
    && FourDigits(fields[2], d.year) && TimeText(fields[3], c) && IEquals(fields[4], "GMT")
  }

  predicate AsctimeText(fields: seq<string>, d: Date, c: Clock) {
    && |fields| == 5 && ShortWeekday(fields[0]) && MonthText(fields[1], d.month) && DayDigits(fields[2], d.day)
    && TimeText(fields[3], c) && FourDigits(fields[4], d.year)
  }

  predicate DashedDate(text: string, day: int, month: int, year: int) {
    && |text| == 9 && text[2] == '-' && text[6] == '-'
    && TwoDigits(text[..2], day) && MonthText(text[3..6], month) && TwoDigits(text[7..], year)
  }

  predicate Rfc850Text(weekday: string, fields: seq<string>, reference: Option<nat>, d: Date, c: Clock) {
    && |fields| == 3 && LongWeekday(weekday) && DashedDate(fields[0], d.day, d.month, d.year % 100)
    && TimeText(fields[1], c) && IEquals(fields[2], "GMT")
    && reference.Some? && reference.value <= 253402300799 && WithinFifty(d, c, reference.value)
  }

  lemma FixdateExactly(weekday: string, fields: seq<string>, t: int)
    requires |fields| == 5
    ensures ParseFixdate(weekday, fields) == Some(t) <==>
            exists d, c :: FixdateText(weekday, fields, d, c) && IsInstant(t, d, c)
  {
    hide ParseNumber, ParseTime, ValidWeekday, MonthNumber, IEquals, MakeTimestamp, IsInstant, ShortWeekday,
         TwoDigits, FourDigits, TimeText, MonthText;
    WeekdayParse(weekday);
    TwoDigitsParse(fields[0]);
    MonthParse(fields[1]);
    FourDigitsParse(fields[2]);
    TimeParse(fields[3]);
    forall d, c | FixdateText(weekday, fields, d, c)
      ensures ParseFixdate(weekday, fields) == MakeTimestamp(d, c)
      ensures MakeTimestamp(d, c) == Some(t) <==> IsInstant(t, d, c)
    {
      MonthIsPositive(fields[1], d.month);
      FourDigitsBound(fields[2], d.year);
      TimestampExactly(d, c, t);
      assert Date(d.year, d.month, d.day) == d;
    }
    if ParseFixdate(weekday, fields) == Some(t) {
      var d := Date(ParseNumber(fields[2], 4, 4).value, MonthNumber(fields[1]), ParseNumber(fields[0], 2, 2).value);
      assert FixdateText(weekday, fields, d, ParseTime(fields[3]).value);
    }
  }

  lemma MonthIsPositive(s: string, m: int)
    requires MonthText(s, m)
    ensures m != 0
  {
  }

  lemma FourDigitsBound(s: string, n: int)
    requires FourDigits(s, n)
    ensures 0 <= n <= 9999
  {
  }

  lemma AsctimeExactly(fields: seq<string>, t: int)
    requires |fields| == 5
    ensures ParseAsctime(fields) == Some(t) <==> exists d, c :: AsctimeText(fields, d, c) && IsInstant(t, d, c)
  {
    hide ParseNumber, ParseTime, ValidWeekday, MonthNumber, IEquals, MakeTimestamp, IsInstant, ShortWeekday,
         DayDigits, FourDigits, TimeText, MonthText;
    WeekdayParse(fields[0]);
    MonthParse(fields[1]);
    DayDigitsParse(fields[2]);
    TimeParse(fields[3]);
    FourDigitsParse(fields[4]);
    forall d, c | AsctimeText(fields, d, c)
      ensures ParseAsctime(fields) == MakeTimestamp(d, c)
      ensures MakeTimestamp(d, c) == Some(t) <==> IsInstant(t, d, c)
    {
      MonthIsPositive(fields[1], d.month);
      FourDigitsBound(fields[4], d.year);
      TimestampExactly(d, c, t);
      assert Date(d.year, d.month, d.day) == d;
    }
    if ParseAsctime(fields) == Some(t) {
      var d := Date(ParseNumber(fields[4], 4, 4).value, MonthNumber(fields[1]), ParseNumber(fields[2], 1, 2).value);
      assert AsctimeText(fields, d, ParseTime(fields[3]).value);
    }
  }

  /** The dashes of a two-digit-year date, found as the parser finds them. */
  lemma Dashes(text: string)
    requires |text| == 9 && text[2] == '-' && text[6] == '-' && '-' !in text[..2] && '-' !in text[3..6]
    ensures Find(text, '-') == 2 && text[2 + 1..] == text[3..] && Find(text[3..], '-') == 3
    ensures text[3..][..3] == text[3..6] && text[3..][3 + 1..] == text[7..]
  {
    hide Find;
    assert forall i :: 0 <= i < 2 ==> text[..2][i] == text[i];
    assert forall i :: 0 <= i < 3 ==> text[3..6][i] == text[3..][i];
    FindIs(text, '-', 2);
    FindIs(text[3..], '-', 3);
  }

  lemma NoDash(s: string, n: int, m: int)
    ensures TwoDigits(s, n) ==> '-' !in s
    ensures MonthText(s, m) ==> '-' !in s && |s| == 3
  {
    if MonthText(s, m) {
      SameName(m - 1);
      UpperNames(m - 1);
      forall i | 0 <= i < 3 ensures s[i] != '-' { assert Lower(s[i]) == Lower(MONTH_NAMES[m - 1][i]); }
    }
  }

  lemma UpperNames(i: nat)
    requires i < 12
    ensures |MONTH_NAMES[i]| == 3 && forall k :: 0 <= k < 3 ==> 'A' <= MONTH_NAMES[i][k] <= 'Z'
  {
  }

  /** What the parser reads as day, month and two-digit year. */
  predicate DashedParse(text: string, day: int, month: int, year: int) {
    var first := Find(text, '-');
    first < |text| && var tail := text[first + 1..];
    var second := Find(tail, '-');
    && second < |tail| && '-' !in tail[second + 1..]
    && ParseNumber(text[..first], 2, 2) == Some(day) && month != 0 && MonthNumber(tail[..second]) == month
    && ParseNumber(tail[second + 1..], 2, 2) == Some(year)
  }

  lemma DashedExactly(text: string, day: int, month: int, year: int)
    ensures DashedParse(text, day, month, year) <==> DashedDate(text, day, month, year)
  {
    hide ParseNumber, MonthNumber, TwoDigits, MonthText, Find;
    if DashedDate(text, day, month, year) {
      NoDash(text[..2], day, month);
      NoDash(text[3..6], day, month);
      NoDash(text[7..], year, month);
      Dashes(text);
      TwoDigitsParse(text[..2]);
      TwoDigitsParse(text[7..]);
      MonthParse(text[3..6]);
      MonthIsPositive(text[3..6], month);
    }
    if DashedParse(text, day, month, year) {
      var first := Find(text, '-');
      var tail := text[first + 1..];
      var second := Find(tail, '-');
      TwoDigitsParse(text[..first]);
      MonthParse(tail[..second]);
      TwoDigitsParse(tail[second + 1..]);
      NoDash(tail[..second], day, month);
      TwoLong(text[..first], day);
      TwoLong(tail[second + 1..], year);
      assert text[..2] == text[..first] && text[3..6] == tail[..second] && text[7..] == tail[second + 1..];
    }
  }

  lemma TwoLong(s: string, n: int)
    requires TwoDigits(s, n)
    ensures |s| == 2 && 0 <= n < 100
  {
  }

  lemma Rfc850Unfold(weekday: string, fields: seq<string>, reference: Option<nat>, day: int, month: int, year: int)
    requires |fields| == 3 && DashedParse(fields[0], day, month, year)
    ensures var time := ParseTime(fields[1]);
            ParseRfc850(weekday, fields, reference) ==
            if ValidWeekday(weekday, true) && IEquals(fields[2], "GMT") && time.Some? &&
               reference.Some? && reference.value <= MAX_DATE_SECONDS
            then MakeTimestamp(Date(RollingYear(year, month, day, time.value, reference.value), month, day), time.value)
            else None
  {
    hide ParseNumber, ParseTime, ValidWeekday, MonthNumber, IEquals, MakeTimestamp, Find, RollingYear;
  }

  lemma Rfc850NeedsDashes(weekday: string, fields: seq<string>, reference: Option<nat>)
    requires |fields| == 3 && ParseRfc850(weekday, fields, reference).Some?
    ensures exists day, month, year :: DashedParse(fields[0], day, month, year)
  {
    hide ParseNumber, ParseTime, ValidWeekday, MonthNumber, IEquals, MakeTimestamp, Find, RollingYear;
    var first := Find(fields[0], '-');
    var tail := fields[0][first + 1..];
    var second := Find(tail, '-');
    assert DashedParse(fields[0], ParseNumber(fields[0][..first], 2, 2).value, MonthNumber(tail[..second]),
                       ParseNumber(tail[second + 1..], 2, 2).value);
  }

  lemma WindowIsRank(d: Date, c: Clock, reference: nat)
    requires Ordinary(d, c) && reference <= MAX_DATE_SECONDS
    ensures WithinFifty(d, c, reference) <==> InWindow(d.year, d.month, d.day, c, reference)
  {
    hide CivilFromDays, Earlier, Rank;
    PrintableDays(reference / 86400);
    var limit := FutureLimit(reference);
    RankOrders(limit, Stamp(d, c));
    RankOrders(limit, Stamp(Date(d.year + 100, d.month, d.day), c));
    assert limit.date == Date(limit.date.year, limit.date.month, limit.date.day);
    assert d == Date(d.year, d.month, d.day);
  }

  lemma InstantIsOrdinary(t: int, d: Date, c: Clock)
    requires IsInstant(t, d, c)
    ensures Ordinary(d, c) && 1601 <= d.year <= 10049
  {
    hide DaysFromCivil;
  }

  lemma Rfc850Means(weekday: string, fields: seq<string>, reference: Option<nat>, d: Date, c: Clock, t: int)
    requires |fields| == 3 && Rfc850Text(weekday, fields, reference, d, c) && IsInstant(t, d, c)
    ensures ParseRfc850(weekday, fields, reference) == Some(t)
  {
    hide ParseRfc850, ParseTime, ValidWeekday, IEquals, MakeTimestamp, IsInstant, RollingYear, InWindow, WithinFifty,
         DashedParse, DashedDate, LongWeekday, TimeText;
    WeekdayParse(weekday);
    TimeParse(fields[1]);
    DashedExactly(fields[0], d.day, d.month, d.year % 100);
    Rfc850Unfold(weekday, fields, reference, d.day, d.month, d.year % 100);
    InstantIsOrdinary(t, d, c);
    WindowIsRank(d, c, reference.value);
    RollingYearUnique(d.year, d.month, d.day, c, reference.value);
    TimestampExactly(d, c, t);
    assert Date(d.year, d.month, d.day) == d;
  }

  lemma Rfc850Only(weekday: string, fields: seq<string>, reference: Option<nat>, t: int)
    requires |fields| == 3 && ParseRfc850(weekday, fields, reference) == Some(t)
    ensures exists d, c :: Rfc850Text(weekday, fields, reference, d, c) && IsInstant(t, d, c)
  {
    hide ParseRfc850, ParseTime, ValidWeekday, IEquals, MakeTimestamp, IsInstant, RollingYear, InWindow, WithinFifty,
         DashedParse, DashedDate, LongWeekday, TimeText, Ordinary;
    WeekdayParse(weekday);
    TimeParse(fields[1]);
    Rfc850NeedsDashes(weekday, fields, reference);
    var day, month, digits :| DashedParse(fields[0], day, month, digits);
    Rfc850Unfold(weekday, fields, reference, day, month, digits);
    DashedExactly(fields[0], day, month, digits);
    DashedBounds(fields[0], day, month, digits);
    var c := ParseTime(fields[1]).value;
    var d := Date(RollingYear(digits, month, day, c, reference.value), month, day);
    RollingYearInWindow(digits, month, day, c, reference.value);
    WindowIsInstant(d, c, reference.value, t);
  }

  lemma WindowIsInstant(d: Date, c: Clock, reference: nat, t: int)
    requires MakeTimestamp(d, c) == Some(t) && reference <= MAX_DATE_SECONDS
    requires InWindow(d.year, d.month, d.day, c, reference)
    ensures IsInstant(t, d, c) && WithinFifty(d, c, reference)
  {
    hide CivilFromDays, Earlier, Rank, DaysFromCivil, WithinFifty;
    PrintableDays(reference / 86400);
    YearOrders(FutureLimit(reference), Stamp(d, c));
    TimestampExactly(d, c, t);
    WindowIsRank(d, c, reference);
  }

  lemma DashedBounds(text: string, day: int, month: int, year: int)
    requires DashedDate(text, day, month, year)
    ensures 0 <= year < 100
  {
    hide MonthText;
  }

  /** The text, outer blanks aside, is a date in one of the three formats: after a comma
      five fields or three, without a comma five. */
  predicate DateText(raw: string, reference: Option<nat>, d: Date, c: Clock) {
    var value := TrimOws(raw);
    var comma := Find(value, ',');
    if comma < |value| then
      FixdateText(TrimOws(value[..comma]), Fields(value[comma + 1..]), d, c) ||
      Rfc850Text(TrimOws(value[..comma]), Fields(value[comma + 1..]), reference, d, c)
    else AsctimeText(Fields(value), d, c)
  }

  /** The whole parser: an instant is returned exactly when the text is one of the three
      formats, spelled with the literal names and digits, and names a date and time that
      exist; the two-digit form further needs a reference clock up to the year 9999 and
      means the year of its fifty-year window. */
  lemma AcceptedExactly(raw: string, reference: Option<nat>, t: int)
    ensures ParseHttpDate(raw, reference) == Some(t) <==>
            exists d, c :: DateText(raw, reference, d, c) && IsInstant(t, d, c)
  {
    hide ParseFixdate, ParseRfc850, ParseAsctime, Fields, TrimOws, Find, IsInstant, ShortWeekday, LongWeekday,
         TwoDigits, FourDigits, DayDigits, TimeText, MonthText, DashedDate, IEquals, WithinFifty;
    var value := TrimOws(raw);
    var comma := Find(value, ',');
    if comma < |value| {
      var weekday, fields := TrimOws(value[..comma]), Fields(value[comma + 1..]);
      if |fields| == 5 {
        FixdateExactly(weekday, fields, t);
      } else if |fields| == 3 {
        if ParseRfc850(weekday, fields, reference) == Some(t) { Rfc850Only(weekday, fields, reference, t); }
        forall d, c | Rfc850Text(weekday, fields, reference, d, c) && IsInstant(t, d, c)
          ensures ParseRfc850(weekday, fields, reference) == Some(t)
        {
          Rfc850Means(weekday, fields, reference, d, c, t);
        }
      }
    } else {
      if value == [] { EmptyFields(); }
      if |Fields(value)| == 5 { AsctimeExactly(Fields(value), t); }
    }
  }
}
