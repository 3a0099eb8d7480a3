/** Proleptic Gregorian calendar arithmetic behind HTTP-date. */
module Calendar {

  datatype Date = Date(year: int, month: int, day: int)

  /** C++ integer division: rounds toward zero. */
  function TruncDiv(a: int, b: int): int
    requires b > 0
  {
    if a >= 0 then a / b else -((-a) / b)
  }

  predicate LeapYear(year: int) {
    year % 4 == 0 && (year % 100 != 0 || year % 400 == 0)
  }

  function DaysInMonth(year: int, month: int): (n: int)
    requires 1 <= month <= 12
    ensures 28 <= n <= 31
  {
    if month == 2 && LeapYear(year) then 29
    else [31, 28, 31, 30, 31, 30, 31, 31, 30, 31, 30, 31][month - 1]
  }

  predicate Valid(d: Date) {
    1 <= d.month <= 12 && 1 <= d.day <= DaysInMonth(d.year, d.month)
  }

  /** The day after `d`, by the calendar rules alone. */
  function Next(d: Date): (r: Date)
    requires Valid(d)
    ensures Valid(r)
  {
    if d.day < DaysInMonth(d.year, d.month) then Date(d.year, d.month, d.day + 1)
    else if d.month < 12 then Date(d.year, d.month + 1, 1)
    else Date(d.year + 1, 1, 1)
  }

  const EPOCH := Date(1970, 1, 1)

  function DayOfYear(adjustedMonth: int, day: int): int {
    (153 * adjustedMonth + 2) / 5 + day - 1
  }

  /** Days of an era before its March-based year `yearOfEra`. */
  function DaysBefore(yearOfEra: int): int { yearOfEra * 365 + yearOfEra / 4 - yearOfEra / 100 }

  function DaysFromCivil(d: Date): int
    requires Valid(d)
  {
    var year := if d.month <= 2 then d.year - 1 else d.year;
    var era := TruncDiv(if year >= 0 then year else year - 399, 400);
    var yearOfEra := year - era * 400;
    var adjustedMonth := if d.month > 2 then d.month - 3 else d.month + 9;
    var dayOfEra := DaysBefore(yearOfEra) + DayOfYear(adjustedMonth, d.day);
    era * 146097 + dayOfEra - 719468
  }

  function YearOfEra(dayOfEra: int): int {
    (dayOfEra - dayOfEra / 1460 + dayOfEra / 36524 - dayOfEra / 146096) / 365
  }

  function CivilFromDays(days: int): Date {
    var shifted := days + 719468;
    var era := TruncDiv(if shifted >= 0 then shifted else shifted - 146096, 146097);
    var dayOfEra := shifted - era * 146097;
    var yearOfEra := YearOfEra(dayOfEra);
    var year := yearOfEra + era * 400;
    var dayOfYear := dayOfEra - DaysBefore(yearOfEra);
    var adjustedMonth := (5 * dayOfYear + 2) / 153;
    var day := dayOfYear - (153 * adjustedMonth + 2) / 5 + 1;
    var month := if adjustedMonth < 10 then adjustedMonth + 3 else adjustedMonth - 9;
    Date(if month <= 2 then year + 1 else year, month, day)
  }

  // ---------------------------------------------------------------- eras

  /** Shifted truncating division is floor division. */
  lemma EraIsFloor(x: int, n: int)
    requires n > 0
    ensures TruncDiv(if x >= 0 then x else x - (n - 1), n) == x / n
  {
    if x < 0 {
      var q := x / n;
      assert x == n * q + x % n;
      assert -(x - (n - 1)) == n * (-q) + (n - 1 - x % n);
      assert (-(x - (n - 1))) / n == -q by { DivUnique(-(x - (n - 1)), n, -q, n - 1 - x % n); }
    }
  }

  lemma DivUnique(a: int, n: int, q: int, r: int)
    requires n > 0 && 0 <= r < n && a == n * q + r
    ensures a / n == q && a % n == r
  {
    var d := a / n - q;
    assert n * d == r - a % n;
    assert -n < n * d < n;
    assert d == 0;
  }

  // ---------------------------------------------------------------- within one year (March based)

  /** Length of the March-based year that starts in March of `y`. */
  function YearLength(y: int): int { if LeapYear(y + 1) then 366 else 365 }

  lemma YearLengthBound(y: int)
    ensures 365 <= YearLength(y) <= 366
  {
  }

  lemma MonthOfDay(am: int, day: int)
    requires 0 <= am <= 11
    requires 1 <= day <= 31
    requires DayOfYear(am, day) < DayOfYear(am + 1, 1)
    ensures (5 * DayOfYear(am, day) + 2) / 153 == am
  {
  }

  lemma DayOfMonth(doy: int)
    requires 0 <= doy <= 365
    ensures var am := (5 * doy + 2) / 153;
            0 <= am <= 11 && DayOfYear(am, 1) <= doy < DayOfYear(am + 1, 1)
  {
  }

  // ---------------------------------------------------------------- within one era

  /** Year `100 c + 4 q + r` of an era, by century, four-year cycle and year. */
  lemma DaysBeforeParts(c: int, q: int, r: int)
    requires 0 <= c < 4 && 0 <= q < 25 && 0 <= r < 4
    ensures DaysBefore(100 * c + 4 * q + r) == 36524 * c + 1461 * q + 365 * r
    ensures YearLength(100 * c + 4 * q + r) == if r == 3 && (q == 24 ==> c == 3) then 366 else 365
  {
    var yoe := 100 * c + 4 * q + r;
    assert yoe / 4 == 25 * c + q && yoe / 100 == c;
    assert (yoe + 1) % 4 == (r + 1) % 4;
    assert (yoe + 1) % 100 == if q == 24 && r == 3 then 0 else 4 * q + r + 1;
  }

  lemma YearOfEraParts(c: int, q: int, r: int, doy: int)
    requires 0 <= c < 4 && 0 <= q < 25 && 0 <= r < 4
    requires 0 <= doy < if r == 3 && (q == 24 ==> c == 3) then 366 else 365
    ensures YearOfEra(36524 * c + 1461 * q + 365 * r + doy) == 100 * c + 4 * q + r
    ensures 0 <= 36524 * c + 1461 * q + 365 * r + doy < 146097
  {
    var t := 1461 * q + 365 * r + doy;
    var doe := 36524 * c + t;
    assert doe / 36524 - doe / 146096 == c;
    var u := 24 * c + q + 365 * r + doy;
    assert doe == 1460 * (25 * c + q) + u;
    var carry := if u >= 1460 then 1 else 0;
    assert doe / 1460 == 25 * c + q + carry;
    assert doe - doe / 1460 + c == 365 * (100 * c + 4 * q + r) + (doy - carry);
  }

  lemma YearOfEraInverse(yoe: int, doy: int)
    requires 0 <= yoe < 400 && 0 <= doy < YearLength(yoe)
    ensures YearOfEra(DaysBefore(yoe) + doy) == yoe
    ensures 0 <= DaysBefore(yoe) + doy < 146097
  {
    hide YearOfEra, DaysBefore, YearLength;
    var c, q, r := yoe / 100, yoe % 100 / 4, yoe % 100 % 4;
    DaysBeforeParts(c, q, r);
    YearOfEraParts(c, q, r, doy);
  }

  lemma YearOfEraBounds(doe: int)
    requires 0 <= doe < 146097
    ensures var yoe := YearOfEra(doe);
            0 <= yoe < 400 && 0 <= doe - DaysBefore(yoe) < YearLength(yoe)
  {
    var c := if doe < 109572 then doe / 36524 else 3;
    var t := doe - 36524 * c;
    var q := t / 1461;
    var s := t - 1461 * q;
    var r := if s < 1095 then s / 365 else 3;
    DaysBeforeParts(c, q, r);
    YearOfEraParts(c, q, r, s - 365 * r);
  }

  // ---------------------------------------------------------------- the two conversions

  function MarchYear(d: Date): int { if d.month <= 2 then d.year - 1 else d.year }

  function AdjustedMonth(d: Date): int { if d.month > 2 then d.month - 3 else d.month + 9 }

  lemma DayOfYearBounds(d: Date)
    requires Valid(d)
    ensures 0 <= DayOfYear(AdjustedMonth(d), d.day) < YearLength(MarchYear(d) % 400)
    ensures DayOfYear(AdjustedMonth(d), d.day) < DayOfYear(AdjustedMonth(d) + 1, 1)
  {
    var y := MarchYear(d);
    LeapYearPeriod(y % 400 + 1, y / 400);
    hide LeapYear;
    assert DayOfYear(AdjustedMonth(d), 1) ==
           [306, 337, 0, 31, 61, 92, 122, 153, 184, 214, 245, 275][d.month - 1];
  }

  /** The day number as era, year of era and day of year. */
  lemma DaysFromCivilParts(d: Date)
    requires Valid(d)
    ensures var y := MarchYear(d);
            DaysFromCivil(d) ==
            y / 400 * 146097 + DaysBefore(y % 400) + DayOfYear(AdjustedMonth(d), d.day) - 719468
  {
    hide TruncDiv, DaysBefore, DayOfYear, Valid;
    var y := MarchYear(d);
    EraIsFloor(y, 400);
    assert y - y / 400 * 400 == y % 400;
  }

  function FromParts(era: int, yoe: int, am: int, day: int): Date {
    if am < 10 then Date(yoe + era * 400, am + 3, day) else Date(yoe + era * 400 + 1, am - 9, day)
  }

  lemma CivilFromDaysParts(n: int)
    ensures var era := (n + 719468) / 146097;
            var doe := (n + 719468) % 146097;
            var yoe := YearOfEra(doe);
            var doy := doe - DaysBefore(yoe);
            var am := (5 * doy + 2) / 153;
            && 0 <= yoe < 400 && 0 <= doy < YearLength(yoe)
            && 0 <= am <= 11 && DayOfYear(am, 1) <= doy < DayOfYear(am + 1, 1)
            && CivilFromDays(n) == FromParts(era, yoe, am, doy - DayOfYear(am, 1) + 1)
  {
    hide TruncDiv, DaysBefore, YearOfEra, YearLength;
    var x := n + 719468;
    EraIsFloor(x, 146097);
    assert x - x / 146097 * 146097 == x % 146097;
    YearOfEraBounds(x % 146097);
    var doy := x % 146097 - DaysBefore(YearOfEra(x % 146097));
    YearLengthBound(YearOfEra(x % 146097));
    DayOfMonth(doy);
  }

  /** Every valid date survives the trip through its day number. */
  lemma CivilOfDays(d: Date)
    requires Valid(d)
    ensures CivilFromDays(DaysFromCivil(d)) == d
  {
    hide CivilFromDays, DaysFromCivil, YearOfEra, DaysBefore, YearLength, Valid;
    var y, am := MarchYear(d), AdjustedMonth(d);
    var doy := DayOfYear(am, d.day);
    DaysFromCivilParts(d);
    DayOfYearBounds(d);
    YearOfEraInverse(y % 400, doy);
    ValidBounds(d);
    MonthOfDay(am, d.day);
    var n := DaysFromCivil(d);
    DivUnique(n + 719468, 146097, y / 400, DaysBefore(y % 400) + doy);
    CivilFromDaysParts(n);
  }

  lemma ValidBounds(d: Date)
    requires Valid(d)
    ensures 1 <= d.month <= 12 && 1 <= d.day <= 31
  {
  }

  lemma LeapYearPeriod(y: int, era: int)
    ensures LeapYear(y + era * 400) == LeapYear(y)
  {
    ModShift(y, 4, 100 * era);
    ModShift(y, 100, 4 * era);
    ModShift(y, 400, era);
  }

  lemma ModShift(a: int, n: int, k: int)
    requires n > 0
    ensures (a + n * k) % n == a % n
  {
    DivUnique(a + n * k, n, a / n + k, a % n);
  }

  lemma DaysOfParts(era: int, yoe: int, am: int, doy: int)
    requires 0 <= yoe < 400 && 0 <= doy < YearLength(yoe)
    requires 0 <= am <= 11 && DayOfYear(am, 1) <= doy < DayOfYear(am + 1, 1)
    ensures var d := FromParts(era, yoe, am, doy - DayOfYear(am, 1) + 1);
            Valid(d) && DaysFromCivil(d) == era * 146097 + DaysBefore(yoe) + doy - 719468
  {
    hide DaysFromCivil, DaysBefore;
    LeapYearPeriod(yoe + 1, era);
    var d := FromParts(era, yoe, am, doy - DayOfYear(am, 1) + 1);
    assert Valid(d);
    DivUnique(yoe + era * 400, 400, era, yoe);
    DaysFromCivilParts(d);
    hide LeapYear;
  }

  /** Every day number is the number of exactly the date it is mapped to. */
  lemma DaysOfCivil(n: int)
    ensures Valid(CivilFromDays(n))
    ensures DaysFromCivil(CivilFromDays(n)) == n
  {
    hide CivilFromDays, DaysFromCivil, YearOfEra, DaysBefore, Valid, DayOfYear, YearLength;
    CivilFromDaysParts(n);
    var doe := (n + 719468) % 146097;
    var yoe := YearOfEra(doe);
    var doy := doe - DaysBefore(yoe);
    DaysOfParts((n + 719468) / 146097, yoe, (5 * doy + 2) / 153, doy);
  }

  // ---------------------------------------------------------------- day-by-day counting

  lemma DaysBeforeNext(c: int, q: int, r: int)
    requires 0 <= c < 4 && 0 <= q < 25 && 0 <= r < 4 && 100 * c + 4 * q + r < 399
    ensures var yoe := 100 * c + 4 * q + r;
            DaysBefore(yoe + 1) == DaysBefore(yoe) + YearLength(yoe)
  {
    hide DaysBefore, YearLength;
    DaysBeforeParts(c, q, r);
    if r < 3 { DaysBeforeParts(c, q, r + 1); }
    else if q < 24 { DaysBeforeParts(c, q + 1, 0); }
    else { DaysBeforeParts(c + 1, 0, 0); }
  }

  lemma LastYearOfEra()
    ensures DaysBefore(399) + YearLength(399) == 146097 && DaysBefore(0) == 0
  {
  }

  /** Consecutive March-based years abut. */
  lemma YearsAbut(y: int)
    ensures (y + 1) / 400 * 146097 + DaysBefore((y + 1) % 400) ==
            y / 400 * 146097 + DaysBefore(y % 400) + YearLength(y % 400)
  {
    hide DaysBefore, YearLength;
    var era, yoe := y / 400, y % 400;
    if yoe < 399 {
      DivUnique(y + 1, 400, era, yoe + 1);
      DaysBeforeNext(yoe / 100, yoe % 100 / 4, yoe % 4);
    } else {
      DivUnique(y + 1, 400, era + 1, 0);
      LastYearOfEra();
    }
  }

  /** The day numbers of consecutive calendar days differ by exactly one. */
  lemma Successor(d: Date)
    requires Valid(d)
    ensures DaysFromCivil(Next(d)) == DaysFromCivil(d) + 1
  {
    hide DaysFromCivil, DaysBefore;
    DaysFromCivilParts(d);
    DaysFromCivilParts(Next(d));
    var y := MarchYear(d);
    if d.month == 2 && d.day == DaysInMonth(d.year, 2) {
      YearsAbut(y);
      LeapYearPeriod(y % 400 + 1, y / 400);
    }
  }

  lemma EpochIsZero()
    ensures DaysFromCivil(EPOCH) == 0
  {
  }

  /** `CivilFromDays` starts at 1970-01-01 and steps one calendar day at a time,
      in both directions, so it is day-by-day counting. */
  lemma CivilCounts(n: int)
    ensures CivilFromDays(0) == EPOCH && DaysFromCivil(EPOCH) == 0
    ensures Valid(CivilFromDays(n)) && CivilFromDays(n + 1) == Next(CivilFromDays(n))
  {
    hide DaysFromCivil, CivilFromDays;
    EpochIsZero();
    CivilOfDays(EPOCH);
    DaysOfCivil(n);
    Successor(CivilFromDays(n));
    CivilOfDays(Next(CivilFromDays(n)));
  }

  /** Chronological order on dates. */
  predicate Before(a: Date, b: Date) {
    a.year < b.year || (a.year == b.year && (a.month < b.month || (a.month == b.month && a.day < b.day)))
  }

  lemma NextIsLater(d: Date)
    requires Valid(d)
    ensures Before(d, Next(d))
  {
  }

  lemma {:induction false} DaysOrdered(m: int, n: int)
    requires m < n
    ensures Before(CivilFromDays(m), CivilFromDays(n))
    decreases n - m
  {
    hide CivilFromDays;
    CivilCounts(n - 1);
    NextIsLater(CivilFromDays(n - 1));
    if m < n - 1 { DaysOrdered(m, n - 1); }
  }

  /** Day numbers order dates chronologically. */
  lemma DaysMonotone(a: Date, b: Date)
    requires Valid(a) && Valid(b)
    ensures DaysFromCivil(a) < DaysFromCivil(b) <==> Before(a, b)
  {
    hide CivilFromDays, DaysFromCivil;
    CivilOfDays(a);
    CivilOfDays(b);
    var m, n := DaysFromCivil(a), DaysFromCivil(b);
    if m < n { DaysOrdered(m, n); } else if n < m { DaysOrdered(n, m); }
  }
}
