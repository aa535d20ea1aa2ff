/** Timestamps round trip through their text, and text order against time order. */
module TimestampOrder {
  import opened RustInt
  import opened Calendar
  import opened DecimalText
  import opened Timestamps

  /** Seconds from 1970 to the first instant with a five-digit year. */
  const YEAR_10000 := 253_402_300_800

  /** 0000-01-01T00:00:00.000Z and 9999-12-31T23:59:59.999Z. */
  const FIRST_FIELDS: Fields := [0, 1, 1, 0, 0, 0, 0]
  const LAST_FIELDS: Fields := [9999, 12, 31, 23, 59, 59, 999]
  const FIRST: string := FieldsText(FIRST_FIELDS, LAYOUT)
  const LAST: string := FieldsText(LAST_FIELDS, LAYOUT)

  function InstantFields(date: Date, millisecondOfDay: nat): Fields
    requires date.year >= 0 && date.month >= 0 && date.day >= 0
  {
    var second := millisecondOfDay / 1_000;
    [date.year, date.month, date.day, second / 3_600, second % 3_600 / 60, second % 60, millisecondOfDay % 1_000]
  }

  lemma InstantFieldsAreReal(date: Date, millisecondOfDay: nat)
    requires IsDate(date) && 0 <= date.year <= 9999 && millisecondOfDay < 86_400_000
    ensures IsReal(InstantFields(date, millisecondOfDay))
    ensures TimeOfDay(InstantFields(date, millisecondOfDay)) == millisecondOfDay
  {
    var second := millisecondOfDay / 1_000;
    assert second == 3_600 * (second / 3_600) + second % 3_600;
    assert second % 3_600 == 60 * (second % 3_600 / 60) + second % 60;
  }

  lemma RealFieldsFit(f: Fields)
    requires IsReal(f)
    ensures Fits(f, LAYOUT) && 0 <= TimeOfDay(f) < 86_400_000
  {
    FieldBounds(f);
  }

  lemma InstantTextIsFields(date: Date, second: nat, millisecond: nat)
    requires IsDate(date) && 0 <= date.year <= 9999 && second < 86_400 && millisecond < 1_000
    ensures InstantText(date, second, millisecond) ==
            FieldsText(InstantFields(date, second * 1_000 + millisecond), LAYOUT)
  {
    hide Padded, Fixed, FieldsText, Power10;
    var f := InstantFields(date, second * 1_000 + millisecond);
    Powers();
    assert f[3] == second / 3_600 && f[4] == second % 3_600 / 60 && f[5] == second % 60 && f[6] == millisecond;
    PaddedIsFixed(f[0], 4);
    PaddedIsFixed(f[1], 2);
    PaddedIsFixed(f[2], 2);
    PaddedIsFixed(f[3], 2);
    PaddedIsFixed(f[4], 2);
    PaddedIsFixed(f[5], 2);
    PaddedIsFixed(f[6], 3);
    FieldsTextWritten(f);
  }

  lemma LongYearIsLongText(date: Date, second: nat, millisecond: nat)
    requires IsDate(date) && date.year > 9999
    ensures |InstantText(date, second, millisecond)| > 24
  {
    Powers();
    PaddedIsFixed(date.year, 4);
  }

  /** A clock reading's text is accepted exactly before year 10000, and then reads back as the
      same millisecond. */
  lemma RecordedRoundTrip(seconds: nat, millisecond: nat)
    requires seconds <= U64_MAX && millisecond < 1_000
    ensures IsRfc3339(RecordedText(seconds, millisecond)) <==> seconds < YEAR_10000
    ensures seconds < YEAR_10000 ==>
              && IsRealText(RecordedText(seconds, millisecond))
              && UnixMilliseconds(RecordedText(seconds, millisecond)) == seconds * 1_000 + millisecond
  {
    ClockDate(seconds);
    var date, second := CivilDate(seconds / 86_400), seconds % 86_400;
    YearByDay(date, 10_000);
    DayOf10000();
    if date.year > 9999 {
      LongYearIsLongText(date, second, millisecond);
    } else {
      InstantTextIsFields(date, second, millisecond);
      var f := InstantFields(date, second * 1_000 + millisecond);
      InstantFieldsAreReal(date, second * 1_000 + millisecond);
      RealFieldsFit(f);
      FieldsOfText(f);
      MillisecondsOfText(FieldsText(f, LAYOUT));
    }
  }

  lemma DayOf10000()
    ensures UnixDays(Date(10_000, 1, 1)) * 86_400 == YEAR_10000
  {
  }

  // Text order and time order.

  predicate FieldsLess(a: seq<nat>, b: seq<nat>) {
    b != [] && (a == [] || a[0] < b[0] || (a[0] == b[0] && FieldsLess(a[1..], b[1..])))
  }

  lemma {:induction false} FieldsTextOrder(a: seq<nat>, b: seq<nat>, layout: seq<(nat, char)>)
    requires Fits(a, layout) && Fits(b, layout)
    ensures TextLess(FieldsText(a, layout), FieldsText(b, layout)) <==> FieldsLess(a, b)
  {
    if layout != [] {
      FieldsTextOrder(a[1..], b[1..], layout[1..]);
      FixedOrder(a[0], b[0], layout[0].0);
      var restA, restB := FieldsText(a[1..], layout[1..]), FieldsText(b[1..], layout[1..]);
      TextLessByPrefix(Fixed(a[0], layout[0].0), Fixed(b[0], layout[0].0), [layout[0].1] + restA, [layout[0].1] + restB);
      TextLessByPrefix([layout[0].1], [layout[0].1], restA, restB);
      assert Fixed(a[0], layout[0].0) + ([layout[0].1] + restA) == FieldsText(a, layout);
      assert Fixed(b[0], layout[0].0) + ([layout[0].1] + restB) == FieldsText(b, layout);
    }
  }

  lemma FieldsLessByDate(a: Fields, b: Fields)
    ensures FieldsLess(a, b) <==>
            || Before(DateOf(a), DateOf(b))
            || (DateOf(a) == DateOf(b) && FieldsLess(a[3..], b[3..]))
  {
    assert a[1..][1..] == a[2..] && b[1..][1..] == b[2..];
    assert a[2..][1..] == a[3..] && b[2..][1..] == b[3..];
    assert FieldsLess(a, b) <==> a[0] < b[0] || (a[0] == b[0] && FieldsLess(a[1..], b[1..]));
    assert FieldsLess(a[1..], b[1..]) <==> a[1] < b[1] || (a[1] == b[1] && FieldsLess(a[2..], b[2..]));
    assert FieldsLess(a[2..], b[2..]) <==> a[2] < b[2] || (a[2] == b[2] && FieldsLess(a[3..], b[3..]));
  }

  lemma FieldsLessByClock(a: Fields, b: Fields)
    ensures FieldsLess(a[3..], b[3..]) <==>
            a[3] < b[3] || (a[3] == b[3] && (a[4] < b[4] || (a[4] == b[4] && (a[5] < b[5] || (a[5] == b[5] && a[6] < b[6])))))
  {
    assert a[3..][1..] == a[4..] && b[3..][1..] == b[4..];
    assert a[4..][1..] == a[5..] && b[4..][1..] == b[5..];
    assert a[5..][1..] == a[6..] && b[5..][1..] == b[6..];
    assert a[6..][1..] == [] && b[6..][1..] == [];
    assert FieldsLess(a[3..], b[3..]) <==> a[3] < b[3] || (a[3] == b[3] && FieldsLess(a[4..], b[4..]));
    assert FieldsLess(a[4..], b[4..]) <==> a[4] < b[4] || (a[4] == b[4] && FieldsLess(a[5..], b[5..]));
    assert FieldsLess(a[5..], b[5..]) <==> a[5] < b[5] || (a[5] == b[5] && FieldsLess(a[6..], b[6..]));
    assert FieldsLess(a[6..], b[6..]) <==> a[6] < b[6];
  }

  lemma FieldsLessByTime(a: Fields, b: Fields)
    requires IsReal(a) && IsReal(b)
    ensures FieldsLess(a[3..], b[3..]) <==> TimeOfDay(a) < TimeOfDay(b)
  {
    FieldsLessByClock(a, b);
  }

  lemma RealFieldsOrder(a: Fields, b: Fields)
    requires IsReal(a) && IsReal(b)
    ensures FieldsLess(a, b) <==> Milliseconds(a) < Milliseconds(b)
  {
    FieldsLessByDate(a, b);
    FieldsLessByTime(a, b);
    RealFieldsFit(a);
    RealFieldsFit(b);
    if Before(DateOf(a), DateOf(b)) {
      DatesInOrder(DateOf(a), DateOf(b));
    } else if Before(DateOf(b), DateOf(a)) {
      DatesInOrder(DateOf(b), DateOf(a));
    }
  }

  /** For two timestamps that name real instants, text order is time order. */
  lemma RealTextOrder(a: string, b: string)
    requires IsRealText(a) && IsRealText(b)
    ensures TextLess(a, b) <==> UnixMilliseconds(a) < UnixMilliseconds(b)
    ensures a == b <==> UnixMilliseconds(a) == UnixMilliseconds(b)
  {
    TextOfFields(a);
    TextOfFields(b);
    MillisecondsOfText(a);
    MillisecondsOfText(b);
    FieldsTextOrder(FieldsOf(a), FieldsOf(b), LAYOUT);
    FieldsTextOrder(FieldsOf(b), FieldsOf(a), LAYOUT);
    RealFieldsOrder(FieldsOf(a), FieldsOf(b));
    RealFieldsOrder(FieldsOf(b), FieldsOf(a));
    TextOrderIsTotal(a, b);
  }

  // Accepted texts that name no real instant.

  lemma TextOfRealFields(f: Fields)
    requires IsReal(f)
    ensures IsRealText(FieldsText(f, LAYOUT)) && UnixMilliseconds(FieldsText(f, LAYOUT)) == Milliseconds(f)
  {
    RealFieldsFit(f);
    FieldsOfText(f);
    MillisecondsOfText(FieldsText(f, LAYOUT));
  }

  lemma EndsAreReal()
    ensures IsRealText(FIRST) && IsRealText(LAST)
    ensures UnixMilliseconds(FIRST) == UnixDays(Date(0, 1, 1)) * 86_400_000
    ensures UnixMilliseconds(LAST) == YEAR_10000 * 1_000 - 1
  {
    EndFields();
    TextOfRealFields(FIRST_FIELDS);
    TextOfRealFields(LAST_FIELDS);
  }

  lemma EndFields()
    ensures IsReal(FIRST_FIELDS) && Milliseconds(FIRST_FIELDS) == UnixDays(Date(0, 1, 1)) * 86_400_000
    ensures IsReal(LAST_FIELDS) && Milliseconds(LAST_FIELDS) == YEAR_10000 * 1_000 - 1
  {
    LastDay();
  }

  lemma LastDay()
    ensures UnixDays(Date(9999, 12, 31)) * 86_400 == YEAR_10000 - 86_400
  {
  }

  /** Every millisecond of the four-digit years has a text. */
  lemma TextOfMilliseconds(ms: int) returns (text: string)
    requires UnixDays(Date(0, 1, 1)) * 86_400_000 <= ms < YEAR_10000 * 1_000
    ensures IsRealText(text) && UnixMilliseconds(text) == ms
  {
    var f := FieldsOfMilliseconds(ms);
    TextOfRealFields(f);
    text := FieldsText(f, LAYOUT);
  }

  lemma FieldsOfMilliseconds(ms: int) returns (f: Fields)
    requires UnixDays(Date(0, 1, 1)) * 86_400_000 <= ms < YEAR_10000 * 1_000
    ensures IsReal(f) && Milliseconds(f) == ms
  {
    var day, rest := ms / 86_400_000, ms % 86_400_000;
    YearZeroIsEarly();
    CivilDateOfDay(day);
    YearByDay(CivilDate(day), 0);
    YearByDay(CivilDate(day), 10_000);
    DayOf10000();
    InstantFieldsAreReal(CivilDate(day), rest);
    f := InstantFields(CivilDate(day), rest);
  }

  lemma YearZeroIsEarly()
    ensures UnixDays(Date(0, 1, 1)) == -719_528
  {
  }

  lemma RealTextIsBetween(u: string)
    requires IsRealText(u)
    ensures UnixMilliseconds(FIRST) <= UnixMilliseconds(u) <= UnixMilliseconds(LAST)
  {
    EndsAreReal();
    var f := FieldsOf(u);
    MillisecondsOfText(u);
    RealFieldsFit(f);
    YearByDay(DateOf(f), 0);
    YearByDay(DateOf(f), 10_000);
    DayOf10000();
  }

  ghost predicate OrderedAlike(t: string, u: string)
    requires |t| >= 23 && |u| >= 23
  {
    && (TextLess(t, u) <==> UnixMilliseconds(t) < UnixMilliseconds(u))
    && (TextLess(u, t) <==> UnixMilliseconds(u) < UnixMilliseconds(t))
  }

  const DAY_MS := 86_400_000

  /** Fields that name a time after the year 9999 although their year is 9999. A day 0 of month 13
      is the last of December, so it takes hours past midnight to leave the year. */
  predicate IsBeyondLast(f: Fields) {
    f[0] == 9999 &&
    (|| f[1] >= 14
     || (f[1] == 13 && (f[2] > 0 || TimeOfDay(f) >= DAY_MS))
     || (f[1] == 12 && f[2] > 31)
     || (f[1] == 12 && f[2] == 31 && (f[3] > 23 || (f[3] == 23 && (f[4] > 59 || (f[4] == 59 && f[5] > 59))))))
  }

  /** Fields that name a time before the year 0 although their year is 0. Month 0 is the December
      before it, which ends with its day 31, and day 0 of January is that day too. */
  predicate IsBeforeFirst(f: Fields) {
    f[0] == 0 &&
    (|| (f[1] == 0 && f[2] * DAY_MS + TimeOfDay(f) < 32 * DAY_MS)
     || (f[1] == 1 && f[2] == 0 && TimeOfDay(f) < DAY_MS))
  }

  /** How many days after the end of the year 9999 a day of its month 12 or later begins. */
  function DaysPastEnd(month: int, day: int): int {
    (153 * (month - 3) + 2) / 5 + day - 307
  }

  lemma LateDays(month: int, day: int)
    requires 12 <= month <= 99
    ensures UnixDays(Date(9999, month, day)) * DAY_MS == YEAR_10000 * 1_000 + DaysPastEnd(month, day) * DAY_MS
    ensures month == 12 ==> DaysPastEnd(month, day) == day - 32
    ensures month == 13 ==> DaysPastEnd(month, day) == day - 1
    ensures month >= 14 ==> DaysPastEnd(month, day) >= day + 30
  {
  }

  lemma EarlyDays(month: int, day: int)
    requires 0 <= month <= 1
    ensures UnixDays(Date(0, month, day)) == -719_528 + day - (if month == 0 then 32 else 1)
  {
  }

  lemma LateFields(f: Fields)
    requires Fits(f, LAYOUT)
    ensures FieldsLess(LAST_FIELDS, f) && Milliseconds(f) >= YEAR_10000 * 1_000 <==> IsBeyondLast(f)
  {
    hide UnixDays, FieldsLess, Fits;
    FieldBounds(f);
    LastLess(f);
    if f[0] == 9999 && f[1] >= 12 {
      LateDays(f[1], f[2]);
    }
  }

  lemma EarlyFields(f: Fields)
    requires Fits(f, LAYOUT)
    ensures FieldsLess(f, FIRST_FIELDS) && Milliseconds(f) < -719_528 * DAY_MS <==> IsBeforeFirst(f)
  {
    hide UnixDays, FieldsLess, Fits;
    FieldBounds(f);
    FirstLess(f);
    if f[0] == 0 && f[1] <= 1 {
      EarlyDays(f[1], f[2]);
    }
  }

  lemma BeyondLastByFields(t: string)
    requires IsRfc3339(t)
    ensures TextLess(LAST, t) && UnixMilliseconds(t) > UnixMilliseconds(LAST) <==> IsBeyondLast(FieldsOf(t))
  {
    EndsAreReal();
    EndFields();
    TextOfFields(t);
    MillisecondsOfText(t);
    hide *;
    RealFieldsFit(LAST_FIELDS);
    FieldsTextOrder(LAST_FIELDS, FieldsOf(t), LAYOUT);
    LateFields(FieldsOf(t));
  }

  lemma FirstLess(f: Fields)
    requires Fits(f, LAYOUT)
    ensures FieldsLess(f, FIRST_FIELDS) <==> f[0] == 0 && (f[1] < 1 || (f[1] == 1 && f[2] < 1))
  {
    FieldsLessByDate(f, FIRST_FIELDS);
    FieldsLessByClock(f, FIRST_FIELDS);
  }

  lemma LastLess(f: Fields)
    requires Fits(f, LAYOUT)
    ensures FieldsLess(LAST_FIELDS, f) <==>
            && f[0] == 9999
            && (|| f[1] > 12
                || (f[1] == 12 && f[2] > 31)
                || (f[1] == 12 && f[2] == 31 && (f[3] > 23 || (f[3] == 23 && (f[4] > 59 || (f[4] == 59 && f[5] > 59))))))
  {
    FieldBounds(f);
    FieldsLessByDate(LAST_FIELDS, f);
    FieldsLessByClock(LAST_FIELDS, f);
  }

  lemma BeforeFirstByFields(t: string)
    requires IsRfc3339(t)
    ensures TextLess(t, FIRST) && UnixMilliseconds(t) < UnixMilliseconds(FIRST) <==> IsBeforeFirst(FieldsOf(t))
  {
    EndsAreReal();
    EndFields();
    TextOfFields(t);
    MillisecondsOfText(t);
    YearZeroIsEarly();
    hide *;
    RealFieldsFit(FIRST_FIELDS);
    FieldsTextOrder(FieldsOf(t), FIRST_FIELDS, LAYOUT);
    EarlyFields(FieldsOf(t));
  }

  /** An accepted text sorts against the real timestamps as its time does exactly when it is real
      itself, or its fields carry it out of the four-digit years on the side its text is on. */
  lemma AcceptedTextOrder(t: string)
    requires IsRfc3339(t)
    ensures (forall u | IsRealText(u) :: OrderedAlike(t, u)) <==>
            IsRealText(t) || IsBeyondLast(FieldsOf(t)) || IsBeforeFirst(FieldsOf(t))
  {
    EndsAreReal();
    BeyondLastByFields(t);
    BeforeFirstByFields(t);
    if IsRealText(t) || IsBeyondLast(FieldsOf(t)) || IsBeforeFirst(FieldsOf(t)) {
      forall u | IsRealText(u)
        ensures OrderedAlike(t, u)
      {
        AcceptedTextSorts(t, u);
      }
    } else if forall u | IsRealText(u) :: OrderedAlike(t, u) {
      assert OrderedAlike(t, FIRST) && OrderedAlike(t, LAST);
      var u := TextOfMilliseconds(UnixMilliseconds(t));
      assert OrderedAlike(t, u);
      TextOrderIsTotal(t, u);
      assert false;
    }
  }

  lemma AcceptedTextSorts(t: string, u: string)
    requires IsRfc3339(t) && IsRealText(u)
    requires IsRealText(t) || IsBeyondLast(FieldsOf(t)) || IsBeforeFirst(FieldsOf(t))
    ensures OrderedAlike(t, u)
  {
    EndsAreReal();
    BeyondLastByFields(t);
    BeforeFirstByFields(t);
    TextOrderIsTotal(t, u);
    RealTextIsBetween(u);
    if IsRealText(t) {
      RealTextOrder(t, u);
      RealTextOrder(u, t);
    } else if IsBeyondLast(FieldsOf(t)) {
      RealTextOrder(u, LAST);
      TextLessTransitive(u, LAST, t);
    } else {
      RealTextOrder(FIRST, u);
      TextLessTransitive(t, FIRST, u);
    }
  }

  /** Texts that agree with the real ones on opposite sides agree with each other. */
  lemma OppositeSidesAgree(t: string, u: string)
    requires IsRfc3339(t) && IsRfc3339(u)
    requires IsBeforeFirst(FieldsOf(t)) && IsBeyondLast(FieldsOf(u))
    ensures OrderedAlike(t, u)
  {
    EndsAreReal();
    AcceptedTextSorts(t, LAST);
    BeforeFirstByFields(t);
    BeyondLastByFields(u);
    RealTextIsBetween(LAST);
    TextLessTransitive(t, LAST, u);
    TextOrderIsTotal(t, u);
  }

  /** On the same side they need not: the 99th of December sorts before the first of
      a thirteenth month, and is later. */
  lemma TwoTextsBeyondLastDisagree()
    ensures var t := FieldsText([9999, 12, 99, 0, 0, 0, 0], LAYOUT);
            var u := FieldsText([9999, 13, 1, 0, 0, 0, 0], LAYOUT);
            && IsRfc3339(t) && IsRfc3339(u)
            && IsBeyondLast(FieldsOf(t)) && IsBeyondLast(FieldsOf(u))
            && TextLess(t, u) && UnixMilliseconds(u) < UnixMilliseconds(t)
  {
    var f: Fields := [9999, 12, 99, 0, 0, 0, 0];
    var g: Fields := [9999, 13, 1, 0, 0, 0, 0];
    FieldBounds(f);
    FieldBounds(g);
    FieldsOfText(f);
    FieldsOfText(g);
    MillisecondsOfText(FieldsText(f, LAYOUT));
    MillisecondsOfText(FieldsText(g, LAYOUT));
    FieldsTextOrder(f, g, LAYOUT);
    FieldsLessByDate(f, g);
    LateDays(12, 99);
    LateDays(13, 1);
  }

  lemma {:induction false} TextLessTransitive(a: string, b: string, c: string)
    ensures (TextLess(a, b) || a == b) && TextLess(b, c) ==> TextLess(a, c)
    ensures TextLess(a, b) && (TextLess(b, c) || b == c) ==> TextLess(a, c)
  {
    if a != [] && b != [] && c != [] {
      TextLessTransitive(a[1..], b[1..], c[1..]);
      TextOrderIsTotal(a, b);
    }
  }

  function LeapSecondFields(date: Date): Fields
    requires date.year >= 0 && date.month >= 0 && date.day >= 0
  {
    [date.year, date.month, date.day, 23, 59, 60, 0]
  }

  lemma LeapSecondFieldsTie(date: Date)
    requires IsDate(date) && date.year >= 0 && NextDate(date).year <= 9999
    ensures var leap, next := LeapSecondFields(date), InstantFields(NextDate(date), 0);
            Fits(leap, LAYOUT) && IsReal(next) && FieldsLess(leap, next) && Milliseconds(leap) == Milliseconds(next)
  {
    var leap, next := LeapSecondFields(date), InstantFields(NextDate(date), 0);
    FieldBounds(leap);
    NextDateIsNextDay(date);
    InstantFieldsAreReal(NextDate(date), 0);
    assert Before(date, NextDate(date));
    FieldsLessByDate(leap, next);
  }

  /** A leap second, which RFC 3339 allows, is the same instant as the start of the next day
      although its text sorts first. */
  lemma LeapSecondTies(date: Date)
    requires IsDate(date) && date.year >= 0 && NextDate(date).year <= 9999
    ensures var leap := FieldsText(LeapSecondFields(date), LAYOUT);
            var next := FieldsText(InstantFields(NextDate(date), 0), LAYOUT);
            && IsRfc3339(leap) && IsRealText(next) && TextLess(leap, next)
            && UnixMilliseconds(leap) == UnixMilliseconds(next)
  {
    var leap, next := LeapSecondFields(date), InstantFields(NextDate(date), 0);
    LeapSecondFieldsTie(date);
    FieldsOfText(leap);
    MillisecondsOfText(FieldsText(leap, LAYOUT));
    TextOfRealFields(next);
    RealFieldsFit(next);
    FieldsTextOrder(leap, next, LAYOUT);
  }

  // Elapsed time.

  /** Elapsed times add along three timestamps exactly when they are in time order, or one of the
      two steps spans no time at all. */
  lemma ElapsedAdds(a: string, b: string, c: string)
    requires IsRfc3339(a) && IsRfc3339(b) && IsRfc3339(c)
    ensures ElapsedMilliseconds(a, c) == ElapsedMilliseconds(a, b) + ElapsedMilliseconds(b, c) <==>
            || UnixMilliseconds(a) <= UnixMilliseconds(b) <= UnixMilliseconds(c)
            || UnixMilliseconds(a) == UnixMilliseconds(b)
            || UnixMilliseconds(b) == UnixMilliseconds(c)
  {
    AcceptedMillisecondsAreSmall(a);
    AcceptedMillisecondsAreSmall(b);
    AcceptedMillisecondsAreSmall(c);
    ElapsedSums(UnixMilliseconds(a), UnixMilliseconds(b), UnixMilliseconds(c));
  }

  lemma AcceptedMillisecondsAreSmall(t: string)
    requires IsRfc3339(t)
    ensures -100_000_000_000_000 <= UnixMilliseconds(t) <= 400_000_000_000_000
  {
    MillisecondsOfText(t);
    FieldsOfBounds(t);
    NothingSaturates(FieldsOf(t));
  }

  lemma ElapsedSums(a: int, b: int, c: int)
    requires -100_000_000_000_000 <= a <= 400_000_000_000_000
    requires -100_000_000_000_000 <= b <= 400_000_000_000_000
    requires -100_000_000_000_000 <= c <= 400_000_000_000_000
    ensures Elapsed(a, c) == Elapsed(a, b) + Elapsed(b, c) <==> a <= b <= c || a == b || b == c
  {
  }

  /** Along three real timestamps in text order, elapsed times add. */
  lemma ElapsedAddsInTextOrder(a: string, b: string, c: string)
    requires IsRealText(a) && IsRealText(b) && IsRealText(c)
    requires !TextLess(b, a) && !TextLess(c, b)
    ensures ElapsedMilliseconds(a, c) == ElapsedMilliseconds(a, b) + ElapsedMilliseconds(b, c)
  {
    RealTextOrder(b, a);
    RealTextOrder(c, b);
    ElapsedAdds(a, b, c);
  }

  /** A record follows a commit exactly when its text does not sort before the next whole second's. */
  lemma FollowsByText(record: string, committedAt: int)
    requires IsRealText(record)
    ensures forall next | IsRealText(next) && UnixMilliseconds(next) == (committedAt + 1) * 1_000 ::
              Follows(record, committedAt) <==> !TextLess(record, next)
  {
    forall next | IsRealText(next) && UnixMilliseconds(next) == (committedAt + 1) * 1_000
      ensures Follows(record, committedAt) <==> !TextLess(record, next)
    {
      RealTextOrder(record, next);
    }
  }

  /** Where the next second has no text, every record is on one side of it. */
  lemma FollowsOutsideTheYears(record: string, committedAt: int)
    requires IsRealText(record)
    ensures (forall next | IsRealText(next) :: UnixMilliseconds(next) != (committedAt + 1) * 1_000) ==>
              (Follows(record, committedAt) <==> committedAt < 0)
  {
    RealTextIsBetween(record);
    EndsAreReal();
    YearZeroIsEarly();
    if UnixMilliseconds(FIRST) <= (committedAt + 1) * 1_000 <= UnixMilliseconds(LAST) {
      var next := TextOfMilliseconds((committedAt + 1) * 1_000);
    }
  }

  /** Between two accepted texts the elapsed time is the milliseconds between their times, or the
      longest duration when the second is earlier. */
  lemma ElapsedIsDifference(a: string, b: string)
    requires IsRfc3339(a) && IsRfc3339(b)
    ensures var between := UnixMilliseconds(b) - UnixMilliseconds(a);
            ElapsedMilliseconds(a, b) == if between >= 0 then between else 0xffff_ffff_ffff_ffff
  {
    AcceptedMillisecondsAreSmall(a);
    AcceptedMillisecondsAreSmall(b);
    hide UnixMilliseconds, IsRfc3339;
  }

  /** So the texts of two clock readings give the time between the readings. */
  lemma ElapsedBetweenReadings(a: string, seconds: nat, millisecond: nat, b: string, laterSeconds: nat, laterMillisecond: nat)
    requires seconds <= U64_MAX && laterSeconds <= U64_MAX && millisecond < 1_000 && laterMillisecond < 1_000
    requires a == RecordedText(seconds, millisecond) && b == RecordedText(laterSeconds, laterMillisecond)
    requires IsRfc3339(a) && IsRfc3339(b)
    ensures var between := (laterSeconds * 1_000 + laterMillisecond) - (seconds * 1_000 + millisecond);
            ElapsedMilliseconds(a, b) == if between >= 0 then between else 0xffff_ffff_ffff_ffff
  {
    hide UnixMilliseconds, IsRfc3339, RecordedText, ElapsedMilliseconds;
    RecordedRoundTrip(seconds, millisecond);
    RecordedRoundTrip(laterSeconds, laterMillisecond);
    ElapsedIsDifference(a, b);
  }

  /** A reading follows a commit exactly when it was taken in a later second. */
  lemma ReadingFollows(a: string, seconds: nat, millisecond: nat, committedAt: int)
    requires seconds <= U64_MAX && millisecond < 1_000 && a == RecordedText(seconds, millisecond) && IsRfc3339(a)
    ensures Follows(a, committedAt) <==> seconds > committedAt
  {
    hide UnixMilliseconds, IsRfc3339, RecordedText;
    RecordedRoundTrip(seconds, millisecond);
  }
}
