/** RFC 3339 UTC timestamps with millisecond precision, as the journal records them. */
module Timestamps {
  import opened RustInt
  import opened Calendar
  import opened DecimalText

  // Writing.

  function Written(y: string, mo: string, d: string, h: string, mi: string, s: string, ms: string): string {
    y + "-" + mo + "-" + d + "T" + h + ":" + mi + ":" + s + "." + ms + "Z"
  }

  /** The text of one instant: the date of a day, and a second and millisecond of it. */
  function InstantText(date: Date, secondOfDay: nat, millisecond: nat): string
    requires date.year >= 0 && date.month >= 0 && date.day >= 0
  {
    Written(Padded(date.year, 4), Padded(date.month, 2), Padded(date.day, 2), Padded(secondOfDay / 3_600, 2),
            Padded(secondOfDay % 3_600 / 60, 2), Padded(secondOfDay % 60, 2), Padded(millisecond, 3))
  }

  /** The text recorded for a clock reading, in whole seconds and milliseconds since 1970. */
  function RecordedText(seconds: nat, millisecond: nat): string
    requires seconds <= U64_MAX
  {
    ClockDate(seconds);
    InstantText(CivilDate(seconds / 86_400), seconds % 86_400, millisecond)
  }

  lemma ClockDate(seconds: nat)
    requires seconds <= U64_MAX
    ensures IsDate(CivilDate(seconds / 86_400)) && CivilDate(seconds / 86_400).year >= 1970
    ensures UnixDays(CivilDate(seconds / 86_400)) == seconds / 86_400
  {
    CivilDateOfDay(seconds / 86_400);
    EpochDay();
    YearByDay(CivilDate(seconds / 86_400), 1970);
  }

  // Reading.

  predicate IsRfc3339(text: string) {
    && |text| == 24
    && text[4] == '-' && text[7] == '-' && text[10] == 'T' && text[13] == ':' && text[16] == ':'
    && text[19] == '.' && text[23] == 'Z'
    && forall i | 0 <= i < 24 :: i in {4, 7, 10, 13, 16, 19, 23} || IsDigit(text[i])
  }

  /** Rust's signed parse, with zero standing for every text it rejects. */
  function ParsedOrZero(text: string): int {
    var negative := |text| > 0 && text[0] == '-';
    var digits := if |text| > 0 && text[0] in {'-', '+'} then text[1..] else text;
    if digits == [] || !AllDigits(digits) then 0
    else
      var n: int := if negative then 0 - DigitsValue(digits) else DigitsValue(digits);
      if IsI64(n) then n else 0
  }

  function SatAdd(a: int, b: int): int { Saturated(a + b) }

  function SatMul(a: int, b: int): int { Saturated(a * b) }

  function UnixMilliseconds(text: string): int
    requires |text| >= 23
  {
    var date := Date(ParsedOrZero(text[0..4]), ParsedOrZero(text[5..7]), ParsedOrZero(text[8..10]));
    SatAdd(SatAdd(SatAdd(SatAdd(SatMul(UnixDays(date), 86_400_000),
                                SatMul(ParsedOrZero(text[11..13]), 3_600_000)),
                         SatMul(ParsedOrZero(text[14..16]), 60_000)),
                  SatMul(ParsedOrZero(text[17..19]), 1_000)),
           ParsedOrZero(text[20..23]))
  }

  /** Milliseconds between two times; a clock that moved backwards gives the longest duration. */
  function Elapsed(earlier: int, later: int): int {
    var elapsed := Saturated(later - earlier);
    if elapsed < 0 then U64_MAX else elapsed
  }

  function ElapsedMilliseconds(earlier: string, later: string): int
    requires |earlier| >= 23 && |later| >= 23
  {
    Elapsed(UnixMilliseconds(earlier), UnixMilliseconds(later))
  }

  /** Whether a record falls in a later whole second than a commit. */
  predicate Follows(record: string, committedAt: int)
    requires |record| >= 23
  {
    UnixMilliseconds(record) / 1_000 > committedAt
  }

  // The seven numbers of a timestamp.

  /** The width of each field and the separator after it. */
  const LAYOUT: seq<(nat, char)> := [(4, '-'), (2, '-'), (2, 'T'), (2, ':'), (2, ':'), (2, '.'), (3, 'Z')]

  type Fields = f: seq<nat> | |f| == 7 witness [0, 1, 1, 0, 0, 0, 0]

  predicate Fits(fields: seq<nat>, layout: seq<(nat, char)>) {
    |fields| == |layout| && forall i | 0 <= i < |fields| :: fields[i] < Power10(layout[i].0)
  }

  function FieldsText(fields: seq<nat>, layout: seq<(nat, char)>): string
    requires |fields| == |layout|
  {
    if layout == [] then []
    else Fixed(fields[0], layout[0].0) + [layout[0].1] + FieldsText(fields[1..], layout[1..])
  }

  function FieldsOf(text: string): Fields
    requires IsRfc3339(text)
  {
    [DigitsValue(text[0..4]), DigitsValue(text[5..7]), DigitsValue(text[8..10]), DigitsValue(text[11..13]),
     DigitsValue(text[14..16]), DigitsValue(text[17..19]), DigitsValue(text[20..23])]
  }

  function DateOf(f: Fields): Date { Date(f[0], f[1], f[2]) }

  function TimeOfDay(f: Fields): int { f[3] * 3_600_000 + f[4] * 60_000 + f[5] * 1_000 + f[6] }

  function Milliseconds(f: Fields): int { UnixDays(DateOf(f)) * 86_400_000 + TimeOfDay(f) }

  /** The fields name a day of the calendar and a time of that day. */
  predicate IsReal(f: Fields) {
    f[0] <= 9999 && IsDate(DateOf(f)) && f[3] <= 23 && f[4] <= 59 && f[5] <= 59 && f[6] <= 999
  }

  predicate IsRealText(text: string) {
    IsRfc3339(text) && IsReal(FieldsOf(text))
  }

  lemma WrittenSlices(y: string, mo: string, d: string, h: string, mi: string, s: string, ms: string)
    requires |y| == 4 && |mo| == |d| == |h| == |mi| == |s| == 2 && |ms| == 3
    ensures var t := Written(y, mo, d, h, mi, s, ms);
            && |t| == 24
            && t[4] == '-' && t[7] == '-' && t[10] == 'T' && t[13] == ':' && t[16] == ':' && t[19] == '.'
            && t[23] == 'Z'
            && t[0..4] == y && t[5..7] == mo && t[8..10] == d && t[11..13] == h && t[14..16] == mi
            && t[17..19] == s && t[20..23] == ms
  {
    var t := Written(y, mo, d, h, mi, s, ms);
    assert t[0..4] == y && t[5..7] == mo;
    assert t[8..10] == d && t[11..13] == h;
    assert t[14..16] == mi && t[17..19] == s;
    assert t[20..23] == ms;
  }

  lemma FieldsTextWritten(f: Fields)
    ensures FieldsText(f, LAYOUT) ==
            Written(Fixed(f[0], 4), Fixed(f[1], 2), Fixed(f[2], 2), Fixed(f[3], 2), Fixed(f[4], 2),
                    Fixed(f[5], 2), Fixed(f[6], 3))
  {
    hide FieldsText, Fixed, Written;
    FieldsTextStep(f, 0); FieldsTextStep(f, 1); FieldsTextStep(f, 2); FieldsTextStep(f, 3);
    FieldsTextStep(f, 4); FieldsTextStep(f, 5); FieldsTextStep(f, 6);
    assert f[0..] == f && LAYOUT[0..] == LAYOUT;
    NoFieldsNoText(f[7..], LAYOUT[7..]);
    WrittenGrouped(Fixed(f[0], 4), Fixed(f[1], 2), Fixed(f[2], 2), Fixed(f[3], 2), Fixed(f[4], 2),
                   Fixed(f[5], 2), Fixed(f[6], 3));
  }

  lemma FieldsTextStep(f: Fields, i: nat)
    requires i < 7
    ensures FieldsText(f[i..], LAYOUT[i..])
            == Fixed(f[i], LAYOUT[i].0) + ([LAYOUT[i].1] + FieldsText(f[i + 1..], LAYOUT[i + 1..]))
  {
    assert f[i..][1..] == f[i + 1..] && LAYOUT[i..][1..] == LAYOUT[i + 1..];
    var field, rest := Fixed(f[i], LAYOUT[i].0), FieldsText(f[i + 1..], LAYOUT[i + 1..]);
    assert field + [LAYOUT[i].1] + rest == field + ([LAYOUT[i].1] + rest);
  }

  lemma NoFieldsNoText(fields: seq<nat>, layout: seq<(nat, char)>)
    requires |fields| == |layout| == 0
    ensures FieldsText(fields, layout) == ""
  {
  }

  lemma WrittenGrouped(y: string, mo: string, d: string, h: string, mi: string, s: string, ms: string)
    ensures Written(y, mo, d, h, mi, s, ms) ==
            y + ("-" + (mo + ("-" + (d + ("T" + (h + (":" + (mi + (":" + (s + ("." + (ms + ("Z" + "")))))))))))))
  {
  }

  lemma FieldBounds(f: Fields)
    ensures Fits(f, LAYOUT) <==>
            && f[0] < 10_000 && f[1] < 100 && f[2] < 100 && f[3] < 100 && f[4] < 100 && f[5] < 100 && f[6] < 1_000
  {
    Powers();
    if f[0] < 10_000 && f[1] < 100 && f[2] < 100 && f[3] < 100 && f[4] < 100 && f[5] < 100 && f[6] < 1_000 {
      forall i | 0 <= i < 7
        ensures f[i] < Power10(LAYOUT[i].0)
      {
        assert i in {0, 1, 2, 3, 4, 5, 6};
      }
    }
  }

  lemma Powers()
    ensures Power10(2) == 100 && Power10(3) == 1_000 && Power10(4) == 10_000
  {
  }

  lemma AcceptedIsWritten(t: string)
    requires IsRfc3339(t)
    ensures t == Written(t[0..4], t[5..7], t[8..10], t[11..13], t[14..16], t[17..19], t[20..23])
  {
  }

  /** A text in the recorded form is what its fields print as. */
  lemma TextOfFields(text: string)
    requires IsRfc3339(text)
    ensures Fits(FieldsOf(text), LAYOUT) && text == FieldsText(FieldsOf(text), LAYOUT)
  {
    hide Power10, DigitsValue, Fits, IsRfc3339, Fixed, FieldsText, Written;
    AcceptedIsWritten(text);
    FieldsTextWritten(FieldsOf(text));
    SliceValue(text, 0, 4); SliceValue(text, 5, 7); SliceValue(text, 8, 10); SliceValue(text, 11, 13);
    SliceValue(text, 14, 16); SliceValue(text, 17, 19); SliceValue(text, 20, 23);
    FieldsOfBounds(text);
  }

  lemma FieldsOfBounds(text: string)
    requires IsRfc3339(text)
    ensures Fits(FieldsOf(text), LAYOUT)
  {
    hide Power10, DigitsValue, Fits, IsRfc3339;
    Powers();
    SliceValue(text, 0, 4); SliceValue(text, 5, 7); SliceValue(text, 8, 10); SliceValue(text, 11, 13);
    SliceValue(text, 14, 16); SliceValue(text, 17, 19); SliceValue(text, 20, 23);
    FieldBounds(FieldsOf(text));
  }

  /** One of the digit fields of an accepted text. */
  lemma SliceValue(text: string, from: nat, to: nat)
    requires IsRfc3339(text)
    requires (from, to) in {(0, 4), (5, 7), (8, 10), (11, 13), (14, 16), (17, 19), (20, 23)}
    ensures to <= |text| && AllDigits(text[from..to])
    ensures DigitsValue(text[from..to]) < Power10(to - from)
    ensures Fixed(DigitsValue(text[from..to]), to - from) == text[from..to]
  {
    hide Power10, DigitsValue;
    FixedOfValue(text[from..to]);
  }

  /** Printed fields are accepted and read back. */
  lemma FieldsOfText(f: Fields)
    requires Fits(f, LAYOUT)
    ensures IsRfc3339(FieldsText(f, LAYOUT)) && FieldsOf(FieldsText(f, LAYOUT)) == f
  {
    FieldsTextWritten(f);
    WrittenSlices(Fixed(f[0], 4), Fixed(f[1], 2), Fixed(f[2], 2), Fixed(f[3], 2), Fixed(f[4], 2),
                  Fixed(f[5], 2), Fixed(f[6], 3));
    WrittenIsAccepted(FieldsText(f, LAYOUT));
    FixedFieldValues(f);
  }

  lemma FixedFieldValues(f: Fields)
    requires Fits(f, LAYOUT)
    ensures f == [DigitsValue(Fixed(f[0], 4)), DigitsValue(Fixed(f[1], 2)), DigitsValue(Fixed(f[2], 2)),
                  DigitsValue(Fixed(f[3], 2)), DigitsValue(Fixed(f[4], 2)), DigitsValue(Fixed(f[5], 2)),
                  DigitsValue(Fixed(f[6], 3))]
  {
    FieldBounds(f);
    Powers();
    FixedValue(f[0], 4); FixedValue(f[1], 2); FixedValue(f[2], 2); FixedValue(f[3], 2);
    FixedValue(f[4], 2); FixedValue(f[5], 2); FixedValue(f[6], 3);
  }

  lemma WrittenIsAccepted(t: string)
    requires |t| == 24
    requires t[4] == '-' && t[7] == '-' && t[10] == 'T' && t[13] == ':' && t[16] == ':' && t[19] == '.' && t[23] == 'Z'
    requires AllDigits(t[0..4]) && AllDigits(t[5..7]) && AllDigits(t[8..10]) && AllDigits(t[11..13])
    requires AllDigits(t[14..16]) && AllDigits(t[17..19]) && AllDigits(t[20..23])
    ensures IsRfc3339(t)
  {
    assert forall i | 0 <= i < 4 :: t[i] == t[0..4][i];
    assert forall i | 5 <= i < 7 :: t[i] == t[5..7][i - 5];
    assert forall i | 8 <= i < 10 :: t[i] == t[8..10][i - 8];
    assert forall i | 11 <= i < 13 :: t[i] == t[11..13][i - 11];
    assert forall i | 14 <= i < 16 :: t[i] == t[14..16][i - 14];
    assert forall i | 17 <= i < 19 :: t[i] == t[17..19][i - 17];
    assert forall i | 20 <= i < 23 :: t[i] == t[20..23][i - 20];
  }

  // Reading never saturates.

  lemma ParsedDigits(digits: string)
    requires digits != [] && AllDigits(digits) && |digits| <= 4
    ensures ParsedOrZero(digits) == DigitsValue(digits)
  {
    FixedOfValue(digits);
    Power10Grows(|digits|, 4);
    Powers();
    assert IsDigit(digits[0]);
    hide DigitsValue, Power10, AllDigits;
  }

  /** Digits with or without a sign read as the number they print, and as zero when it does not fit;
      so does every other text. */
  lemma ReadsSignedNumbers(digits: string)
    requires digits != [] && AllDigits(digits)
    ensures var n: int := DigitsValue(digits);
            && ParsedOrZero(digits) == (if n <= 0x7fff_ffff_ffff_ffff then n else 0)
            && ParsedOrZero("+" + digits) == (if n <= 0x7fff_ffff_ffff_ffff then n else 0)
            && ParsedOrZero("-" + digits) == (if n <= 0x8000_0000_0000_0000 then -n else 0)
  {
    assert IsDigit(digits[0]);
    assert ("+" + digits)[1..] == digits && ("-" + digits)[1..] == digits;
  }

  lemma ReadsOthersAsZero(text: string)
    requires forall digits | digits != [] && AllDigits(digits) ::
               text != digits && text != "+" + digits && text != "-" + digits
    ensures ParsedOrZero(text) == 0
  {
    if text != [] {
      assert text == [text[0]] + text[1..];
    }
  }

  lemma DayNumbersAreSmall(date: Date)
    requires 0 <= date.year <= 9999 && 0 <= date.month <= 99 && 0 <= date.day <= 99
    ensures -1_000_000 <= UnixDays(date) <= 4_000_000
  {
  }

  lemma NothingSaturates(f: Fields)
    requires Fits(f, LAYOUT)
    ensures SatAdd(SatAdd(SatAdd(SatAdd(SatMul(UnixDays(DateOf(f)), 86_400_000), SatMul(f[3], 3_600_000)),
                                 SatMul(f[4], 60_000)), SatMul(f[5], 1_000)), f[6])
            == Milliseconds(f)
    ensures -100_000_000_000_000 <= Milliseconds(f) <= 400_000_000_000_000
  {
    FieldBounds(f);
    DayNumbersAreSmall(DateOf(f));
  }

  lemma MillisecondsOfText(text: string)
    requires IsRfc3339(text)
    ensures UnixMilliseconds(text) == Milliseconds(FieldsOf(text))
  {
    ParsedDigits(text[0..4]); ParsedDigits(text[5..7]); ParsedDigits(text[8..10]); ParsedDigits(text[11..13]);
    ParsedDigits(text[14..16]); ParsedDigits(text[17..19]); ParsedDigits(text[20..23]);
    FieldsOfBounds(text);
    NothingSaturates(FieldsOf(text));
  }
}
