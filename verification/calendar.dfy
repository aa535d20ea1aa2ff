/** Machine integers as Rust computes with them. */
module RustInt {
  const I64_MIN: int := -0x8000_0000_0000_0000
  const I64_MAX: int := 0x7fff_ffff_ffff_ffff
  const U64_MAX: int := 0xffff_ffff_ffff_ffff

  predicate IsI64(n: int) {
    I64_MIN <= n <= I64_MAX
  }

  /** Division of signed integers, which drops the fraction toward zero. */
  function Quotient(a: int, b: int): int
    requires b > 0
  {
    if a >= 0 then a / b else -((-a) / b)
  }

  function Saturated(n: int): int {
    if n < I64_MIN then I64_MIN else if n > I64_MAX then I64_MAX else n
  }

  /** Saturating gives the representable number nearest to the exact one. */
  lemma SaturatedIsNearest(n: int, m: int)
    requires IsI64(m)
    ensures IsI64(Saturated(n))
    ensures n <= m ==> n <= Saturated(n) <= m
    ensures m <= n ==> m <= Saturated(n) <= n
  {
  }
}

/** Conversion between days since 1970-01-01 and proleptic Gregorian dates. */
module Calendar {
  import opened RustInt

  datatype Date = Date(year: int, month: int, day: int)

  const DAYS_TO_CIVIL_EPOCH := 719_468
  const DAYS_PER_ERA := 146_097

  /** The year within a 400-year era, years running from March. */
  function YearOfEra(dayOfEra: int): int {
    Quotient(dayOfEra - Quotient(dayOfEra, 1_460) + Quotient(dayOfEra, 36_524)
             - Quotient(dayOfEra, 146_096), 365)
  }

  /** The date of a day counted from March 1 of `year`. */
  function DateInMarchYear(year: int, dayOfYear: int): Date {
    var monthPosition := Quotient(5 * dayOfYear + 2, 153);
    var day := dayOfYear - Quotient(153 * monthPosition + 2, 5) + 1;
    var month := if monthPosition < 10 then monthPosition + 3 else monthPosition - 9;
    Date(if month <= 2 then year + 1 else year, month, day)
  }

  function DateInEra(era: int, dayOfEra: int): Date {
    var yearOfEra := YearOfEra(dayOfEra);
    var dayOfYear := dayOfEra - (365 * yearOfEra + Quotient(yearOfEra, 4) - Quotient(yearOfEra, 100));
    DateInMarchYear(yearOfEra + era * 400, dayOfYear)
  }

  function EraOf(shifted: int): int {
    if shifted >= 0 then Quotient(shifted, DAYS_PER_ERA)
    else Quotient(shifted - (DAYS_PER_ERA - 1), DAYS_PER_ERA)
  }

  function CivilDate(daysSinceEpoch: int): Date {
    var shifted := Saturated(daysSinceEpoch + DAYS_TO_CIVIL_EPOCH);
    DateInEra(EraOf(shifted), shifted - EraOf(shifted) * DAYS_PER_ERA)
  }

  function UnixDays(date: Date): int {
    var year := date.year - if date.month <= 2 then 1 else 0;
    var era := Quotient(if year >= 0 then year else year - 399, 400);
    var yearOfEra := year - era * 400;
    var shiftedMonth := date.month + if date.month > 2 then -3 else 9;
    var dayOfYear := Quotient(153 * shiftedMonth + 2, 5) + date.day - 1;
    var dayOfEra := yearOfEra * 365 + Quotient(yearOfEra, 4) - Quotient(yearOfEra, 100) + dayOfYear;
    era * DAYS_PER_ERA + dayOfEra - DAYS_TO_CIVIL_EPOCH
  }

  // The Gregorian calendar itself.

  predicate IsLeap(year: int) {
    year % 4 == 0 && (year % 100 != 0 || year % 400 == 0)
  }

  function DaysInMonth(year: int, month: int): int {
    if month == 2 then (if IsLeap(year) then 29 else 28)
    else if month in {4, 6, 9, 11} then 30
    else 31
  }

  predicate IsDate(date: Date) {
    1 <= date.month <= 12 && 1 <= date.day <= DaysInMonth(date.year, date.month)
  }

  function NextDate(date: Date): Date {
    if date.day < DaysInMonth(date.year, date.month) then date.(day := date.day + 1)
    else if date.month < 12 then Date(date.year, date.month + 1, 1)
    else Date(date.year + 1, 1, 1)
  }

  predicate Before(a: Date, b: Date) {
    || a.year < b.year
    || (a.year == b.year && (a.month < b.month || (a.month == b.month && a.day < b.day)))
  }

  // Days counted without eras: the same count, written with floor division.

  /** Days from March 1 of year 0 to March 1 of `year`. */
  function MarchDays(year: int): int {
    365 * year + year / 4 - year / 100 + year / 400
  }

  function MarchYear(date: Date): int {
    if date.month <= 2 then date.year - 1 else date.year
  }

  /** Days from March 1 to the first of a month. */
  function MonthOffset(month: int): int {
    match month
    case 3 => 0 case 4 => 31 case 5 => 61 case 6 => 92 case 7 => 122 case 8 => 153
    case 9 => 184 case 10 => 214 case 11 => 245 case 12 => 275 case 1 => 306 case _ => 337
  }

  function DayNumber(date: Date): int {
    MarchDays(MarchYear(date)) + MonthOffset(date.month) + date.day - 1 - DAYS_TO_CIVIL_EPOCH
  }

  lemma UnixDaysByMarch(date: Date)
    requires 1 <= date.month <= 12
    ensures UnixDays(date) == DayNumber(date)
  {
    var year := MarchYear(date);
    var era := Quotient(if year >= 0 then year else year - 399, 400);
    EraIsFloor(year);
    assert era == year / 400;
    var yearOfEra := year - era * 400;
    assert year / 4 == 100 * era + yearOfEra / 4;
    assert year / 100 == 4 * era + yearOfEra / 100;
  }

  lemma EraIsFloor(year: int)
    ensures Quotient(if year >= 0 then year else year - 399, 400) == year / 400
  {
  }

  /** The day after any date has the next day number. */
  lemma NextDateIsNextDay(date: Date)
    requires IsDate(date)
    ensures IsDate(NextDate(date)) && UnixDays(NextDate(date)) == UnixDays(date) + 1
  {
    UnixDaysByMarch(date);
    NextDayNumber(date);
    UnixDaysByMarch(NextDate(date));
  }

  lemma NextDayNumber(date: Date)
    requires IsDate(date)
    ensures IsDate(NextDate(date)) && DayNumber(NextDate(date)) == DayNumber(date) + 1
  {
    var next := NextDate(date);
    if date.month == 2 {
      MarchDaysStep(date.year - 1);
    }
    assert MarchYear(next) == MarchYear(date) + if date.month == 2 && next.month == 3 then 1 else 0;
  }

  /** A March year has the length of the calendar year it ends in. */
  lemma MarchDaysStep(year: int)
    ensures MarchDays(year + 1) - MarchDays(year) == if IsLeap(year + 1) then 366 else 365
  {
    FloorStep4(year);
    FloorStep100(year);
    FloorStep400(year);
  }

  lemma FloorStep4(year: int)
    ensures (year + 1) / 4 - year / 4 == if (year + 1) % 4 == 0 then 1 else 0
  {
  }

  lemma FloorStep100(year: int)
    ensures (year + 1) / 100 - year / 100 == if (year + 1) % 100 == 0 then 1 else 0
    ensures (year + 1) % 100 == 0 ==> (year + 1) % 4 == 0
  {
  }

  lemma FloorStep400(year: int)
    ensures (year + 1) / 400 - year / 400 == if (year + 1) % 400 == 0 then 1 else 0
    ensures (year + 1) % 400 == 0 ==> (year + 1) % 100 == 0
  {
    if (year + 1) % 400 == 0 {
      assert year + 1 == 100 * (4 * ((year + 1) / 400));
    }
  }

  // Dates in order have day numbers in order.

  lemma {:induction false} MarchDaysGrow(a: int, b: int)
    requires a <= b
    ensures MarchDays(a) + 365 * (b - a) <= MarchDays(b)
    decreases b - a
  {
    if a < b {
      MarchDaysStep(b - 1);
      MarchDaysGrow(a, b - 1);
    }
  }

  function DayOfYear(date: Date): int {
    DayNumber(date) - DayNumber(Date(date.year, 1, 1))
  }

  lemma DayOfYearByMonth(date: Date)
    requires IsDate(date)
    ensures DayOfYear(date) ==
            if date.month <= 2 then MonthOffset(date.month) - 306 + date.day - 1
            else MonthOffset(date.month) + date.day - 1 + if IsLeap(date.year) then 60 else 59
  {
    if date.month > 2 {
      MarchDaysStep(date.year - 1);
    }
  }

  lemma DayOfYearBounds(date: Date)
    requires IsDate(date)
    ensures 0 <= DayOfYear(date) < if IsLeap(date.year) then 366 else 365
  {
    DayOfYearByMonth(date);
  }

  lemma YearStartsGrow(a: int, b: int)
    requires a < b
    ensures DayNumber(Date(a, 1, 1)) + (if IsLeap(a) then 366 else 365) <= DayNumber(Date(b, 1, 1))
  {
    MarchDaysStep(a - 1);
    MarchDaysGrow(a, b - 1);
  }

  lemma SameYearDaysGrow(a: Date, b: Date)
    requires IsDate(a) && IsDate(b) && a.year == b.year && Before(a, b)
    ensures DayOfYear(a) < DayOfYear(b)
  {
    DayOfYearByMonth(a);
    DayOfYearByMonth(b);
  }

  lemma DatesInOrder(a: Date, b: Date)
    requires IsDate(a) && IsDate(b) && Before(a, b)
    ensures UnixDays(a) < UnixDays(b)
  {
    UnixDaysByMarch(a);
    UnixDaysByMarch(b);
    if a.year < b.year {
      DayOfYearBounds(a);
      DayOfYearBounds(b);
      YearStartsGrow(a.year, b.year);
    } else {
      SameYearDaysGrow(a, b);
    }
  }

  /** A date's year is told by its day number. */
  lemma YearByDay(date: Date, year: int)
    requires IsDate(date)
    ensures date.year < year <==> UnixDays(date) < UnixDays(Date(year, 1, 1))
  {
    if date.year < year {
      DatesInOrder(date, Date(year, 1, 1));
    } else if date != Date(year, 1, 1) {
      DatesInOrder(Date(year, 1, 1), date);
    }
  }

  // The era formulas find the year and month of a day.

  function EraYearStart(yearOfEra: int): int {
    365 * yearOfEra + yearOfEra / 4 - yearOfEra / 100
  }

  /** A day of an era in centuries, four-year cycles, years and days, each counted from zero. */
  lemma EraDecomposition(dayOfEra: int) returns (century: int, cycle: int, year: int, day: int)
    requires 0 <= dayOfEra < DAYS_PER_ERA
    ensures 0 <= century <= 3 && 0 <= cycle <= 24 && 0 <= year <= 3 && 0 <= day <= 365
    ensures dayOfEra == 36_524 * century + 1_461 * cycle + 365 * year + day
    ensures day == 365 ==> year == 3 && (cycle == 24 ==> century == 3)
  {
    century := if dayOfEra / 36_524 < 3 then dayOfEra / 36_524 else 3;
    var inCentury := dayOfEra - 36_524 * century;
    cycle := inCentury / 1_461;
    var inCycle := inCentury - 1_461 * cycle;
    year := if inCycle / 365 < 3 then inCycle / 365 else 3;
    day := inCycle - 365 * year;
  }

  lemma YearOfEraFormula(century: int, cycle: int, year: int, day: int)
    requires 0 <= century <= 3 && 0 <= cycle <= 24 && 0 <= year <= 3 && 0 <= day <= 365
    requires day == 365 ==> year == 3 && (cycle == 24 ==> century == 3)
    ensures YearOfEra(36_524 * century + 1_461 * cycle + 365 * year + day)
            == 100 * century + 4 * cycle + year
  {
    var dayOfEra := 36_524 * century + 1_461 * cycle + 365 * year + day;
    var y := 100 * century + 4 * cycle + year;
    var inYear := 24 * century + cycle + 365 * year + day;
    var carry := if inYear >= 1_460 then 1 else 0;
    assert dayOfEra == 1_460 * (25 * century + cycle + carry) + (inYear - 1_460 * carry);
    QuotientOf(dayOfEra, 1_460, 25 * century + cycle + carry, inYear - 1_460 * carry);
    CenturyQuotient(century, dayOfEra - 36_524 * century);
    QuotientOf(365 * y + day - carry, 365, y, day - carry);
  }

  lemma CenturyQuotient(century: int, rest: int)
    requires 0 <= century <= 3 && 0 <= rest <= 36_524 && (rest == 36_524 ==> century == 3)
    ensures (36_524 * century + rest) / 36_524 - (36_524 * century + rest) / 146_096 == century
  {
  }

  lemma QuotientOf(a: int, b: int, q: int, r: int)
    requires b > 0 && 0 <= r < b && a == b * q + r
    ensures a / b == q && a % b == r
  {
    DivisionUnique(b, a / b, a % b, q, r);
  }

  lemma DivisionUnique(b: int, q0: int, r0: int, q1: int, r1: int)
    requires 0 <= r0 < b && 0 <= r1 < b && b * q0 + r0 == b * q1 + r1
    ensures q0 == q1
  {
    var d := q0 - q1;
    assert b * d == b * q0 - b * q1 == r1 - r0;
  }

  lemma YearOfEraFindsYear(dayOfEra: int)
    requires 0 <= dayOfEra < DAYS_PER_ERA
    ensures 0 <= YearOfEra(dayOfEra) <= 399
    ensures 0 <= dayOfEra - EraYearStart(YearOfEra(dayOfEra)) <= 365
    ensures dayOfEra - EraYearStart(YearOfEra(dayOfEra)) == 365 ==> IsLeap(YearOfEra(dayOfEra) + 1)
  {
    var century, cycle, year, day := EraDecomposition(dayOfEra);
    YearOfEraFormula(century, cycle, year, day);
    hide YearOfEra;
    var y := 100 * century + 4 * cycle + year;
    QuotientOf(y, 4, 25 * century + cycle, year);
    QuotientOf(y, 100, century, 4 * cycle + year);
    if day == 365 {
      LastYearOfCycleIsLeap(century, cycle);
    }
  }

  lemma LastYearOfCycleIsLeap(century: int, cycle: int)
    requires 0 <= century <= 3 && 0 <= cycle <= 24 && (cycle == 24 ==> century == 3)
    ensures IsLeap(100 * century + 4 * cycle + 4)
  {
    var year := 100 * century + 4 * cycle + 4;
    assert year % 4 == 0;
    if cycle < 24 {
      QuotientOf(year, 100, century, 4 * cycle + 4);
    }
  }

  lemma MonthFindsDay(year: int, dayOfYear: int)
    requires 0 <= dayOfYear <= 365 && (dayOfYear == 365 ==> IsLeap(year + 1))
    ensures
      var date := DateInMarchYear(year, dayOfYear);
      && IsDate(date) && MarchYear(date) == year
      && MonthOffset(date.month) + date.day - 1 == dayOfYear
  {
    var date := DateInMarchYear(year, dayOfYear);
    assert 1 <= date.month <= 12;
    assert 1 <= date.day <= if date.month == 2 then (if dayOfYear == 365 then 29 else 28)
                            else if date.month in {4, 6, 9, 11} then 30 else 31;
  }

  lemma MarchDaysOfEra(era: int, yearOfEra: int)
    requires 0 <= yearOfEra <= 399
    ensures MarchDays(yearOfEra + era * 400) == EraYearStart(yearOfEra) + era * DAYS_PER_ERA
    ensures IsLeap(yearOfEra + era * 400 + 1) <==> IsLeap(yearOfEra + 1)
  {
    var year := yearOfEra + era * 400;
    QuotientOf(year, 4, 100 * era + yearOfEra / 4, yearOfEra % 4);
    QuotientOf(year, 100, 4 * era + yearOfEra / 100, yearOfEra % 100);
    QuotientOf(year, 400, era, yearOfEra);
    LeapYearsRecur(yearOfEra + 1, era);
  }

  lemma LeapYearsRecur(year: int, eras: int)
    ensures IsLeap(year + 400 * eras) <==> IsLeap(year)
  {
    QuotientOf(year + 400 * eras, 4, year / 4 + 100 * eras, year % 4);
    QuotientOf(year + 400 * eras, 100, year / 100 + 4 * eras, year % 100);
    QuotientOf(year + 400 * eras, 400, year / 400 + eras, year % 400);
  }

  lemma EraFindsDate(era: int, dayOfEra: int)
    requires 0 <= dayOfEra < DAYS_PER_ERA
    ensures IsDate(DateInEra(era, dayOfEra))
    ensures DayNumber(DateInEra(era, dayOfEra)) == era * DAYS_PER_ERA + dayOfEra - DAYS_TO_CIVIL_EPOCH
  {
    YearOfEraFindsYear(dayOfEra);
    var yearOfEra := YearOfEra(dayOfEra);
    MarchDaysOfEra(era, yearOfEra);
    MonthFindsDay(yearOfEra + era * 400, dayOfEra - EraYearStart(yearOfEra));
  }

  /** The era of a day is its floor, whichever the day's sign. */
  lemma EraIsFloorOfDay(shifted: int)
    ensures 0 <= shifted - EraOf(shifted) * DAYS_PER_ERA < DAYS_PER_ERA
  {
  }

  // Round trips.

  /** The last day that the shift to the civil epoch can represent. */
  const LAST_DAY: int := I64_MAX - DAYS_TO_CIVIL_EPOCH

  lemma CivilDateOfDay(n: int)
    requires I64_MIN - DAYS_TO_CIVIL_EPOCH <= n
    ensures IsDate(CivilDate(n))
    ensures UnixDays(CivilDate(n)) == if n <= LAST_DAY then n else LAST_DAY
  {
    var shifted := Saturated(n + DAYS_TO_CIVIL_EPOCH);
    EraIsFloorOfDay(shifted);
    EraFindsDate(EraOf(shifted), shifted - EraOf(shifted) * DAYS_PER_ERA);
    UnixDaysByMarch(CivilDate(n));
  }

  /** Converting a day to a date and back gives the day, exactly up to the last day the shift can
      represent; every later day is given that day's date. */
  lemma DayRoundTrip(n: int)
    requires IsI64(n)
    ensures IsDate(CivilDate(n))
    ensures UnixDays(CivilDate(n)) == n <==> n <= LAST_DAY
    ensures n > LAST_DAY ==> CivilDate(n) == CivilDate(LAST_DAY)
  {
    CivilDateOfDay(n);
  }

  /** Converting a date to a day and back gives the date. */
  lemma DateRoundTrip(date: Date)
    requires IsDate(date) && I64_MIN <= UnixDays(date) <= LAST_DAY
    ensures CivilDate(UnixDays(date)) == date
  {
    var found := CivilDate(UnixDays(date));
    CivilDateOfDay(UnixDays(date));
    if Before(found, date) {
      DatesInOrder(found, date);
    } else if Before(date, found) {
      DatesInOrder(date, found);
    }
  }

  lemma EpochDay()
    ensures UnixDays(Date(1970, 1, 1)) == 0
  {
  }

  /** Day 0 is 1970-01-01, and each day's date is the calendar's successor of the day before. */
  lemma DaysFollowCalendar(n: int)
    requires I64_MIN <= n < LAST_DAY
    ensures CivilDate(0) == Date(1970, 1, 1)
    ensures CivilDate(n + 1) == NextDate(CivilDate(n))
  {
    EpochDay();
    hide CivilDate, UnixDays;
    DateRoundTrip(Date(1970, 1, 1));
    CivilDateOfDay(n);
    NextDateIsNextDay(CivilDate(n));
    DateRoundTrip(NextDate(CivilDate(n)));
  }
}
