/** HTTP-date (section 5.6.7 of RFC 9110): the IMF-fixdate printer and the parser
    of the three accepted formats. */
module HttpDate {
  import opened Text
  import opened Calendar

  const UINT64_MAX: nat := 0xFFFF_FFFF_FFFF_FFFF
  const INT64_MAX: int := 0x7FFF_FFFF_FFFF_FFFF
  const INT64_MIN: int := -0x8000_0000_0000_0000
  const SECONDS_PER_DAY := 86400

  /** 9999-12-31T23:59:59, the last instant the printer can show. */
  const MAX_DATE_SECONDS := 253402300799

  const SHORT_WEEKDAYS := ["Sun", "Mon", "Tue", "Wed", "Thu", "Fri", "Sat"]
  const LONG_WEEKDAYS := ["Sunday", "Monday", "Tuesday", "Wednesday", "Thursday", "Friday", "Saturday"]
  const MONTHS := ["Jan", "Feb", "Mar", "Apr", "May", "Jun", "Jul", "Aug", "Sep", "Oct", "Nov", "Dec"]

  // ---------------------------------------------------------------- fields

  /** Length of the leading run of `s` without optional whitespace. */
  function WordLength(s: string): (k: nat)
    ensures k <= |s|
    ensures forall i :: 0 <= i < k ==> !IsOws(s[i])
    ensures k < |s| ==> IsOws(s[k])
  {
    if s == [] || IsOws(s[0]) then 0 else 1 + WordLength(s[1..])
  }

  lemma EmptyWord(s: string)
    requires WordLength(s) == 0 && (s == [] || !IsOws(s[0]))
    ensures s == []
  {
  }

  /** The maximal whitespace-free runs of `s`, in order. */
  function Fields(s: string): seq<string>
    decreases |s|
  {
    var t := TrimLeft(s);
    if t == [] then [] else
      var k := WordLength(t);
      [t[..k]] + Fields(t[k..])
  }

  method SkipOws(value: string, start: nat) returns (pos: nat)
    requires start <= |value|
    ensures start <= pos <= |value| && value[pos..] == TrimLeft(value[start..])
  {
    pos := start;
    while pos < |value| && IsOws(value[pos])
      invariant start <= pos <= |value|
      invariant TrimLeft(value[pos..]) == TrimLeft(value[start..])
    {
      assert value[pos..][1..] == value[pos + 1..];
      pos := pos + 1;
    }
  }

  method SkipWord(value: string, start: nat) returns (pos: nat)
    requires start <= |value|
    ensures start <= pos <= |value| && pos - start == WordLength(value[start..])
  {
    pos := start;
    while pos < |value| && !IsOws(value[pos])
      invariant start <= pos <= |value|
      invariant WordLength(value[start..]) == pos - start + WordLength(value[pos..])
    {
      assert value[pos..][1..] == value[pos + 1..];
      pos := pos + 1;
    }
  }

  lemma FieldsStep(s: string, t: string, k: nat)
    requires t == TrimLeft(s) && k == WordLength(t)
    ensures Fields(s) == (if k > 0 then [t[..k]] else []) + Fields(t[k..])
  {
  }

  method SplitSpaces(value: string) returns (out: seq<string>)
    ensures out == Fields(value)
  {
    hide Fields, TrimLeft, WordLength;
    out := [];
    var pos := 0;
    assert value[0..] == value;
    while pos < |value|
      invariant 0 <= pos <= |value|
      invariant Fields(value) == out + Fields(value[pos..])
    {
      var begin := SkipOws(value, pos);
      var end := SkipWord(value, begin);
      FieldsStep(value[pos..], value[begin..], end - begin);
      assert value[begin..][end - begin..] == value[end..];
      if begin != end {
        assert value[begin..][..end - begin] == value[begin..end];
        calc {
          Fields(value);
          out + Fields(value[pos..]);
          out + ([value[begin..end]] + Fields(value[end..]));
          (out + [value[begin..end]]) + Fields(value[end..]);
        }
        out := out + [value[begin..end]];
      } else {
        EmptyWord(value[begin..]);
        assert Fields(value) == out + Fields(value[end..]);
      }
      pos := end;
    }
    EmptyFields();
    assert value[pos..] == [];
  }

  lemma EmptyFields()
    ensures Fields([]) == []
  {
  }

  predicate ValidWeekday(value: string, longForm: bool) {
    exists i :: 0 <= i < 7 && IEquals(value, if longForm then LONG_WEEKDAYS[i] else SHORT_WEEKDAYS[i])
  }

  function ParseNumber(value: string, minDigits: nat, maxDigits: nat): Option<int> {
    if minDigits <= |value| <= maxDigits && IsDigits(value) then Some(DecimalValue(value)) else None
  }

  function MonthIndex(value: string, from: nat): (r: nat)
    requires from <= 12
    ensures r == 0 || (from < r <= 12 && IEquals(value, MONTHS[r - 1]))
    decreases 12 - from
  {
    if from == 12 then 0
    else if IEquals(value, MONTHS[from]) then from + 1
    else MonthIndex(value, from + 1)
  }

  /** 1 to 12, or 0 when `value` is no month name. */
  function MonthNumber(value: string): nat { MonthIndex(value, 0) }

  datatype Clock = Clock(hour: int, minute: int, second: int)

  function ParseTime(value: string): Option<Clock> {
    if |value| != 8 || value[2] != ':' || value[5] != ':' then None else
      var h, m, s := ParseNumber(value[0..2], 2, 2), ParseNumber(value[3..5], 2, 2), ParseNumber(value[6..8], 2, 2);
      if h.Some? && m.Some? && s.Some? then Some(Clock(h.value, m.value, s.value)) else None
  }

  function MakeTimestamp(d: Date, t: Clock): Option<int> {
    if d.year < 1601 || !Valid(d) ||
       !(0 <= t.hour <= 23) || !(0 <= t.minute <= 59) || !(0 <= t.second <= 60) then None
    else
      var days := DaysFromCivil(d);
      if days > INT64_MAX / SECONDS_PER_DAY || days < TruncDiv(INT64_MIN, SECONDS_PER_DAY) then None
      else
        var daySeconds := days * SECONDS_PER_DAY;
        var secondsOfDay := t.hour * 3600 + t.minute * 60 + t.second;
        if daySeconds > INT64_MAX - secondsOfDay || daySeconds < INT64_MIN + secondsOfDay then None
        else Some(daySeconds + secondsOfDay)
  }

  // ---------------------------------------------------------------- two-digit years

  datatype Stamp = Stamp(date: Date, time: Clock)

  /** Lexicographic order on year, month, day, hour, minute, second. */
  predicate Earlier(a: Stamp, b: Stamp) {
    Before(a.date, b.date) ||
    (a.date == b.date &&
     (a.time.hour < b.time.hour ||
      (a.time.hour == b.time.hour &&
       (a.time.minute < b.time.minute ||
        (a.time.minute == b.time.minute && a.time.second < b.time.second)))))
  }

  /** The reference instant moved fifty calendar years ahead. */
  function FutureLimit(reference: nat): Stamp {
    var d := CivilFromDays(reference / SECONDS_PER_DAY);
    var t := reference % SECONDS_PER_DAY;
    Stamp(Date(d.year + 50, d.month, d.day), Clock(t / 3600, t / 60 % 60, t % 60))
  }

  function RollingYear(twoDigits: int, month: int, day: int, time: Clock, reference: nat): int {
    var limit := FutureLimit(reference);
    var year := twoDigits + TruncDiv(limit.date.year, 100) * 100;
    if Earlier(limit, Stamp(Date(year, month, day), time)) then year - 100 else year
  }

  // ---------------------------------------------------------------- the parser

  function ParseFixdate(weekday: string, fields: seq<string>): Option<int>
    requires |fields| == 5
  {
    var day := ParseNumber(fields[0], 2, 2);
    var year := ParseNumber(fields[2], 4, 4);
    var time := ParseTime(fields[3]);
    if ValidWeekday(weekday, false) && day.Some? && MonthNumber(fields[1]) != 0 && year.Some? &&
       time.Some? && IEquals(fields[4], "GMT")
    then MakeTimestamp(Date(year.value, MonthNumber(fields[1]), day.value), time.value)
    else None
  }

  function ParseRfc850(weekday: string, fields: seq<string>, reference: Option<nat>): Option<int>
    requires |fields| == 3
  {
    var first := Find(fields[0], '-');
    if first == |fields[0]| then None else
      var tail := fields[0][first + 1..];
      var second := Find(tail, '-');
      if !ValidWeekday(weekday, true) || second == |tail| || '-' in tail[second + 1..] ||
         !IEquals(fields[2], "GMT") then None
      else
        var day := ParseNumber(fields[0][..first], 2, 2);
        var month := MonthNumber(tail[..second]);
        var year := ParseNumber(tail[second + 1..], 2, 2);
        var time := ParseTime(fields[1]);
        if day.None? || month == 0 || year.None? || time.None? then None
        else if reference.None? || reference.value > MAX_DATE_SECONDS then None
        else MakeTimestamp(
               Date(RollingYear(year.value, month, day.value, time.value, reference.value), month, day.value),
               time.value)
  }

  function ParseAsctime(fields: seq<string>): Option<int>
    requires |fields| == 5
  {
    var month := MonthNumber(fields[1]);
    var day := ParseNumber(fields[2], 1, 2);
    var time := ParseTime(fields[3]);
    var year := ParseNumber(fields[4], 4, 4);
    if ValidWeekday(fields[0], false) && month != 0 && day.Some? && time.Some? && year.Some?
    then MakeTimestamp(Date(year.value, month, day.value), time.value)
    else None
  }

  function ParseHttpDate(raw: string, reference: Option<nat>): Option<int> {
    var value := TrimOws(raw);
    if value == [] then None else
      var comma := Find(value, ',');
      if comma < |value| then
        var weekday := TrimOws(value[..comma]);
        var fields := Fields(value[comma + 1..]);
        if |fields| == 5 then ParseFixdate(weekday, fields)
        else if |fields| == 3 then ParseRfc850(weekday, fields, reference)
        else None
      else
        var fields := Fields(value);
        if |fields| == 5 then ParseAsctime(fields) else None
  }

  // ---------------------------------------------------------------- the printer

  function Zeros(n: nat): (s: string)
    ensures |s| == n && IsDigits(s)
  {
    seq(n, _ => '0')
  }

  /** Decimal numeral padded with zeros to `width`. */
  function FixedDecimal(value: nat, width: nat): string {
    var digits := Decimal(value);
    (if width > |digits| then Zeros(width - |digits|) else []) + digits
  }

  function FormatClock(secondsOfDay: nat): string {
    FixedDecimal(secondsOfDay / 3600, 2) + ":" + FixedDecimal(secondsOfDay / 60 % 60, 2) + ":" +
    FixedDecimal(secondsOfDay % 60, 2)
  }

  function FormatDate(days: nat, secondsOfDay: nat): string
    requires Valid(CivilFromDays(days)) && CivilFromDays(days).year >= 0
  {
    var d := CivilFromDays(days);
    SHORT_WEEKDAYS[(days + 4) % 7] + ", " + FixedDecimal(d.day, 2) + " " + MONTHS[d.month - 1] + " " +
    FixedDecimal(d.year, 4) + " " + FormatClock(secondsOfDay) + " GMT"
  }

  function Saturated(seconds: nat): nat { if seconds > MAX_DATE_SECONDS then MAX_DATE_SECONDS else seconds }

  function FormatHttpDate(seconds: nat): string {
    var s := Saturated(seconds);
    PrintableDays(s / SECONDS_PER_DAY);
    FormatDate(s / SECONDS_PER_DAY, s % SECONDS_PER_DAY)
  }

  // ---------------------------------------------------------------- range of the printer

  lemma LastDay()
    ensures DaysFromCivil(Date(9999, 12, 31)) == 2932896
    ensures DaysFromCivil(Date(9999, 12, 31)) * SECONDS_PER_DAY + (SECONDS_PER_DAY - 1) == MAX_DATE_SECONDS
  {
  }

  lemma PrintableDays(days: nat)
    requires days <= 2932896
    ensures Valid(CivilFromDays(days)) && 1970 <= CivilFromDays(days).year <= 9999
  {
    hide CivilFromDays, DaysFromCivil;
    LastDay();
    EpochIsZero();
    DaysOfCivil(days);
    DaysMonotone(CivilFromDays(days), EPOCH);
    DaysMonotone(Date(9999, 12, 31), CivilFromDays(days));
  }

  // ---------------------------------------------------------------- printed numerals read back

  predicate NoOws(s: string) { forall i :: 0 <= i < |s| ==> !IsOws(s[i]) }

  lemma {:induction false} LeadingZeros(n: nat, s: string)
    requires IsDigits(s)
    ensures IsDigits(Zeros(n) + s) && DecimalValue(Zeros(n) + s) == DecimalValue(s)
  {
    if n == 0 {
      assert Zeros(0) + s == s;
    } else {
      LeadingZeros(n - 1, s);
      LeadingZero(Zeros(n - 1) + s);
      assert Zeros(n) + s == "0" + (Zeros(n - 1) + s);
    }
  }

  lemma NumberReadsBack(n: nat, width: nat)
    requires (width == 2 && n < 100) || (width == 4 && n < 10000)
    ensures |FixedDecimal(n, width)| == width && NoOws(FixedDecimal(n, width))
    ensures ParseNumber(FixedDecimal(n, width), width, width) == Some(n)
  {
    hide Decimal, DecimalValue, Zeros;
    var digits := Decimal(n);
    var pad := width - |digits|;
    LeadingZeros(pad, digits);
    assert FixedDecimal(n, width) == Zeros(pad) + digits;
  }

  function SplitClock(secondsOfDay: nat): Clock {
    Clock(secondsOfDay / 3600, secondsOfDay / 60 % 60, secondsOfDay % 60)
  }

  lemma ClockReadsBack(secondsOfDay: nat)
    requires secondsOfDay < SECONDS_PER_DAY
    ensures |FormatClock(secondsOfDay)| == 8 && NoOws(FormatClock(secondsOfDay))
    ensures ParseTime(FormatClock(secondsOfDay)) == Some(SplitClock(secondsOfDay))
  {
    hide FixedDecimal, ParseNumber;
    var h, m, s := secondsOfDay / 3600, secondsOfDay / 60 % 60, secondsOfDay % 60;
    NumberReadsBack(h, 2);
    NumberReadsBack(m, 2);
    NumberReadsBack(s, 2);
    var value := FormatClock(secondsOfDay);
    assert value[0..2] == FixedDecimal(h, 2);
    assert value[3..5] == FixedDecimal(m, 2);
    assert value[6..8] == FixedDecimal(s, 2);
  }

  lemma TimestampOf(days: nat, secondsOfDay: nat)
    requires days <= 2932896 && secondsOfDay < SECONDS_PER_DAY
    ensures MakeTimestamp(CivilFromDays(days), SplitClock(secondsOfDay)) ==
            Some(days * SECONDS_PER_DAY + secondsOfDay)
  {
    hide CivilFromDays, DaysFromCivil, Valid;
    PrintableDays(days);
    DaysOfCivil(days);
  }

  lemma MonthReadsBack(month: int)
    requires 1 <= month <= 12
    ensures MonthNumber(MONTHS[month - 1]) == month
  {
    MonthFrom(month, 0);
  }

  lemma MonthFrom(month: int, from: nat)
    requires 0 <= from < month <= 12
    ensures MonthIndex(MONTHS[month - 1], from) == month
    decreases month - from
  {
    hide IEquals;
    if from + 1 < month {
      MonthsDiffer(from, month - 1);
      MonthFrom(month, from + 1);
    } else {
      IEqualsReflexive(MONTHS[from]);
    }
  }

  lemma IEqualsReflexive(s: string)
    ensures IEquals(s, s)
  {
  }

  lemma MonthsDiffer(i: nat, j: nat)
    requires i < j < 12
    ensures !IEquals(MONTHS[j], MONTHS[i])
  {
    var a, b := MONTHS[j], MONTHS[i];
    assert Lower(a[0]) != Lower(b[0]) || Lower(a[1]) != Lower(b[1]) || Lower(a[2]) != Lower(b[2]);
  }

  // ---------------------------------------------------------------- fields of a printed date

  lemma TrimLeftSpace(s: string)
    requires s != [] && !IsOws(s[0])
    ensures TrimLeft(" " + s) == s
  {
    assert (" " + s)[1..] == s;
  }

  lemma {:induction false} WordLengthOf(word: string, rest: string)
    requires NoOws(word) && (rest == [] || IsOws(rest[0]))
    ensures WordLength(word + rest) == |word|
  {
    if word != [] {
      assert (word + rest)[1..] == word[1..] + rest;
      WordLengthOf(word[1..], rest);
    } else {
      assert word + rest == rest;
    }
  }

  /** Splitting is the inverse of joining words with single spaces. */
  lemma FieldsOfWord(word: string, rest: string)
    requires word != [] && NoOws(word) && (rest == [] || IsOws(rest[0]))
    ensures Fields(" " + word + rest) == [word] + Fields(rest)
  {
    var t := word + rest;
    assert " " + word + rest == " " + t;
    TrimLeftSpace(t);
    WordLengthOf(word, rest);
    FieldsStep(" " + t, t, |word|);
    assert t[..|word|] == word && t[|word|..] == rest;
  }

  function Spaced(words: seq<string>): string {
    if words == [] then [] else " " + words[0] + Spaced(words[1..])
  }

  lemma {:induction false} FieldsOfSpaced(words: seq<string>)
    requires forall i :: 0 <= i < |words| ==> words[i] != [] && NoOws(words[i])
    ensures Fields(Spaced(words)) == words
  {
    if words == [] {
      EmptyFields();
    } else {
      FieldsOfSpaced(words[1..]);
      FieldsOfWord(words[0], Spaced(words[1..]));
    }
  }

  lemma Trimmed(s: string)
    requires s != [] && !IsOws(s[0]) && !IsOws(s[|s| - 1])
    ensures TrimOws(s) == s
  {
  }

  lemma CommaSplits(weekday: string, rest: string)
    requires weekday != [] && NoOws(weekday) && ',' !in weekday
    requires rest != [] && !IsOws(rest[|rest| - 1])
    ensures var v := weekday + "," + rest;
            && TrimOws(v) == v && Find(v, ',') == |weekday|
            && v[..|weekday|] == weekday && v[|weekday| + 1..] == rest
  {
    hide TrimOws, Find;
    var v := weekday + "," + rest;
    assert v[|v| - 1] == rest[|rest| - 1];
    Trimmed(v);
    assert forall i :: 0 <= i < |weekday| ==> v[i] == weekday[i];
    FindIs(v, ',', |weekday|);
  }

  function DateWords(days: nat, secondsOfDay: nat): seq<string>
    requires Valid(CivilFromDays(days)) && CivilFromDays(days).year >= 0
  {
    var d := CivilFromDays(days);
    [FixedDecimal(d.day, 2), MONTHS[d.month - 1], FixedDecimal(d.year, 4), FormatClock(secondsOfDay), "GMT"]
  }

  lemma SpacedFive(a: string, b: string, c: string, d: string, e: string)
    ensures Spaced([a, b, c, d, e]) == " " + a + " " + b + " " + c + " " + d + " " + e
  {
    calc {
      Spaced([a, b, c, d, e]);
      { assert [a, b, c, d, e][1..] == [b, c, d, e]; }
      " " + a + Spaced([b, c, d, e]);
      { assert [b, c, d, e][1..] == [c, d, e]; }
      " " + a + (" " + b + Spaced([c, d, e]));
      { assert [c, d, e][1..] == [d, e]; }
      " " + a + (" " + b + (" " + c + Spaced([d, e])));
      { assert [d, e][1..] == [e]; assert [e][1..] == []; assert Spaced([e]) == " " + e; }
      " " + a + (" " + b + (" " + c + (" " + d + (" " + e))));
      " " + a + " " + b + " " + c + " " + d + " " + e;
    }
  }

  lemma FormatIsSpaced(days: nat, secondsOfDay: nat)
    requires days <= 2932896
    ensures Valid(CivilFromDays(days)) && CivilFromDays(days).year >= 0
    ensures FormatDate(days, secondsOfDay) ==
            SHORT_WEEKDAYS[(days + 4) % 7] + "," + Spaced(DateWords(days, secondsOfDay))
  {
    hide CivilFromDays, FixedDecimal, FormatClock, Spaced, Valid;
    PrintableDays(days);
    var d := CivilFromDays(days);
    var w := DateWords(days, secondsOfDay);
    SpacedFive(w[0], w[1], w[2], w[3], w[4]);
  }

  // ---------------------------------------------------------------- round trip

  lemma WeekdayReadsBack(i: nat, longForm: bool)
    requires i < 7
    ensures ValidWeekday(if longForm then LONG_WEEKDAYS[i] else SHORT_WEEKDAYS[i], longForm)
  {
    hide IEquals;
    IEqualsReflexive(if longForm then LONG_WEEKDAYS[i] else SHORT_WEEKDAYS[i]);
  }

  lemma NamesHaveNoOws(i: nat)
    ensures i < 7 ==> NoOws(SHORT_WEEKDAYS[i]) && |SHORT_WEEKDAYS[i]| == 3 && ',' !in SHORT_WEEKDAYS[i]
    ensures i < 12 ==> NoOws(MONTHS[i]) && |MONTHS[i]| == 3
  {
  }

  lemma FixdateReadsBack(days: nat, secondsOfDay: nat, weekday: nat)
    requires days <= 2932896 && secondsOfDay < SECONDS_PER_DAY && weekday < 7
    ensures Valid(CivilFromDays(days)) && CivilFromDays(days).year >= 0
    ensures ParseFixdate(SHORT_WEEKDAYS[weekday], DateWords(days, secondsOfDay)) ==
            Some(days * SECONDS_PER_DAY + secondsOfDay)
  {
    hide CivilFromDays, ValidWeekday, ParseNumber, ParseTime, MonthNumber, FixedDecimal, FormatClock,
         MakeTimestamp, IEquals, SplitClock;
    PrintableDays(days);
    var d := CivilFromDays(days);
    WeekdayReadsBack(weekday, false);
    NumberReadsBack(d.day, 2);
    NumberReadsBack(d.year, 4);
    MonthReadsBack(d.month);
    ClockReadsBack(secondsOfDay);
    TimestampOf(days, secondsOfDay);
    IEqualsReflexive("GMT");
    assert Date(d.year, d.month, d.day) == d;
  }

  lemma DateWordsAreWords(days: nat, secondsOfDay: nat)
    requires days <= 2932896 && secondsOfDay < SECONDS_PER_DAY
    ensures Valid(CivilFromDays(days)) && CivilFromDays(days).year >= 0
    ensures forall i :: 0 <= i < 5 ==>
              DateWords(days, secondsOfDay)[i] != [] && NoOws(DateWords(days, secondsOfDay)[i])
  {
    hide CivilFromDays, FixedDecimal, FormatClock;
    PrintableDays(days);
    var d := CivilFromDays(days);
    NumberReadsBack(d.day, 2);
    NumberReadsBack(d.year, 4);
    ClockReadsBack(secondsOfDay);
    NamesHaveNoOws(d.month - 1);
  }

  lemma SpacedEnd(words: seq<string>)
    requires words != [] && words[|words| - 1] == "GMT"
    ensures Spaced(words) != [] && Spaced(words)[|Spaced(words)| - 1] == 'T'
  {
    if |words| > 1 { SpacedEnd(words[1..]); }
  }

  /** An IMF-fixdate reads back as its instant whichever weekday it names: the parser only
      asks for one of the seven names. */
  lemma AnyWeekdayReadsBack(seconds: nat, weekday: nat, reference: Option<nat>)
    requires seconds <= MAX_DATE_SECONDS && weekday < 7
    ensures var days := seconds / SECONDS_PER_DAY;
            Valid(CivilFromDays(days)) && CivilFromDays(days).year >= 0 &&
            ParseHttpDate(SHORT_WEEKDAYS[weekday] + "," + Spaced(DateWords(days, seconds % SECONDS_PER_DAY)),
                          reference) == Some(seconds)
  {
    hide CivilFromDays, ParseFixdate, DateWords, Spaced, Fields, TrimOws, Find;
    var days, secondsOfDay := seconds / SECONDS_PER_DAY, seconds % SECONDS_PER_DAY;
    PrintableDays(days);
    var words, name := DateWords(days, secondsOfDay), SHORT_WEEKDAYS[weekday];
    WordsShape(days, secondsOfDay);
    SpacedEnd(words);
    NamesHaveNoOws(weekday);
    CommaSplits(name, Spaced(words));
    Trimmed(name);
    DateWordsAreWords(days, secondsOfDay);
    FieldsOfSpaced(words);
    FixdateReadsBack(days, secondsOfDay, weekday);
  }

  /** Every printed date reads back as the instant that was printed, whatever the
      reference clock: instants after the year 9999 as the last printable one. */
  lemma RoundTrip(seconds: nat, reference: Option<nat>)
    requires seconds <= UINT64_MAX
    ensures ParseHttpDate(FormatHttpDate(seconds), reference) ==
            Some(if seconds <= MAX_DATE_SECONDS then seconds else MAX_DATE_SECONDS)
  {
    hide FormatDate, CivilFromDays, DateWords, Spaced, ParseHttpDate;
    var s := Saturated(seconds);
    var days, secondsOfDay := s / SECONDS_PER_DAY, s % SECONDS_PER_DAY;
    PrintableDays(days);
    FormatIsSpaced(days, secondsOfDay);
    AnyWeekdayReadsBack(s, (days + 4) % 7, reference);
  }

  lemma WordsShape(days: nat, secondsOfDay: nat)
    requires days <= 2932896
    ensures Valid(CivilFromDays(days)) && CivilFromDays(days).year >= 0
    ensures |DateWords(days, secondsOfDay)| == 5 && DateWords(days, secondsOfDay)[4] == "GMT"
  {
    hide CivilFromDays, FixedDecimal, FormatClock;
    PrintableDays(days);
  }

  // ---------------------------------------------------------------- rolling two-digit year

  /** `year` puts the date at most fifty years after the reference, and no later
      year with the same last two digits does. */
  predicate InWindow(year: int, month: int, day: int, time: Clock, reference: nat) {
    var limit := FutureLimit(reference);
    && !Earlier(limit, Stamp(Date(year, month, day), time))
    && Earlier(limit, Stamp(Date(year + 100, month, day), time))
  }

  lemma RollingYearInWindow(twoDigits: int, month: int, day: int, time: Clock, reference: nat)
    requires 0 <= twoDigits < 100 && reference <= MAX_DATE_SECONDS
    ensures var year := RollingYear(twoDigits, month, day, time, reference);
            year % 100 == twoDigits && InWindow(year, month, day, time, reference)
  {
    hide CivilFromDays;
    PrintableDays(reference / SECONDS_PER_DAY);
    var limitYear := FutureLimit(reference).date.year;
    assert limitYear / 100 * 100 <= limitYear < limitYear / 100 * 100 + 100;
  }

  /** The window holds exactly one year for each pair of last digits. */
  lemma RollingYearUnique(year: int, month: int, day: int, time: Clock, reference: nat)
    requires reference <= MAX_DATE_SECONDS
    ensures InWindow(year, month, day, time, reference) ==>
              RollingYear(year % 100, month, day, time, reference) == year
  {
    hide RollingYear, FutureLimit;
    RollingYearInWindow(year % 100, month, day, time, reference);
    var chosen := RollingYear(year % 100, month, day, time, reference);
    assert chosen <= year - 100 || chosen == year || chosen >= year + 100;
  }
}
