/** Printing a configuration and parsing it again, and the order of lines. */
module ConfigRoundTrip {
  import opened RustText
  import opened Wrappers
  import opened DecimalText
  import opened Config

  predicate IsQuotable(text: string) {
    '"' !in text && '\n' !in text
  }

  /** What the parser guarantees of every configuration it yields. */
  predicate IsPrintable(c: BerthConfig) {
    && IsQuotable(c.trunk)
    && c.maximumReservations <= U32_MAX && c.maximumOrderingEdges <= U32_MAX
    && (c.approver.Some? ==> c.approver.value != "" && c.approver.value[0] == '/' && IsQuotable(c.approver.value))
  }

  predicate IsPrintableSetting(setting: Setting) {
    match setting
    case Trunk(trunk) => IsQuotable(trunk)
    case MaximumReservations(count) => count <= U32_MAX
    case MaximumOrderingEdges(count) => count <= U32_MAX
    case Approver(path) => path != "" && path[0] == '/' && IsQuotable(path)
    case _ => true
  }

  lemma TrimKeepsCharacters(text: string)
    ensures forall c | c in Trim(text) :: c in text
  {
    TrimIsSlice(text);
  }

  lemma ParsedStringIsQuotable(value: string)
    requires '\n' !in value && ParseTomlString(value).Ok?
    ensures IsQuotable(ParseTomlString(value).value)
  {
    assert forall c | c in ParseTomlString(value).value :: c in value;
  }

  lemma ParsedSettingIsPrintable(key: string, value: string)
    requires '\n' !in value && ParseSetting(key, value).Ok?
    ensures IsPrintableSetting(ParseSetting(key, value).value)
  {
    if ParseTomlString(value).Ok? {
      ParsedStringIsQuotable(value);
    }
  }

  lemma LineSettingIsPrintable(line: string)
    requires '\n' !in line && LineSetting(line).Ok? && LineSetting(line).value.Some?
    ensures IsPrintableSetting(LineSetting(line).value.value)
  {
    var kept := WithoutComment(line).value;
    assert forall c | c in kept :: c in line;
    var stripped := Trim(kept);
    TrimKeepsCharacters(kept);
    FindMeaning(stripped, '=');
    var i := Find(stripped, '=').value;
    var tail := stripped[i + 1..];
    TrimKeepsCharacters(tail);
    assert forall c | c in tail :: c in stripped;
    ParsedSettingIsPrintable(Trim(stripped[..i]), Trim(tail));
  }

  lemma {:induction false} AddLinesArePrintable(slots: Slots, lines: seq<string>)
    requires IsPrintable(Finished(slots)) && AddLines(slots, lines).Ok?
    requires forall i | 0 <= i < |lines| :: '\n' !in lines[i]
    ensures IsPrintable(Finished(AddLines(slots, lines).value))
    decreases |lines|
  {
    if lines != [] {
      if LineSetting(lines[0]).value.Some? {
        LineSettingIsPrintable(lines[0]);
      }
      AddLinesArePrintable(AddLine(slots, lines[0]).value, lines[1..]);
    }
  }

  /** The parser only yields strings free of quotes and newlines, and numbers that fit. */
  lemma ParsedIsPrintable(contents: string)
    requires Parsed(contents).Ok?
    ensures IsPrintable(Parsed(contents).value)
  {
    LinesHoldNoNewline(contents);
    AddLinesArePrintable(EMPTY, Lines(contents));
  }

  // One printed line reads back as its setting.

  lemma {:induction false} CommentScanSkips(line: string, from: nat, to: nat, quoted: bool)
    requires from <= to <= |line|
    requires forall i | from <= i < to :: line[i] != '"' && (quoted || line[i] != '#')
    ensures CommentStart(line, from, quoted) == CommentStart(line, to, quoted)
    decreases |line| - from
  {
    if from < to {
      CommentScanSkips(line, from + 1, to, quoted);
    }
  }

  predicate IsKey(key: string) {
    key in {"trunk", "maximum_reservations", "maximum_ordering_edges", "gate_mode", "approver", "default_answer"}
  }

  predicate IsKeyLetter(c: char) {
    'a' <= c <= 'z' || c == '_'
  }

  lemma KeyLetters(key: string)
    requires IsKey(key)
    ensures key != "" && forall i | 0 <= i < |key| :: IsKeyLetter(key[i])
  {
    if key == "trunk" {
    } else if key == "maximum_reservations" {
    } else if key == "maximum_ordering_edges" {
    } else if key == "gate_mode" {
    } else if key == "approver" {
    }
  }

  lemma KeyCharacters(key: string)
    requires IsKey(key)
    ensures IsTrimmed(key) && '=' !in key && '"' !in key && '#' !in key && '\n' !in key
  {
    KeyLetters(key);
  }

  lemma EntrySplits(key: string, value: string)
    requires IsTrimmed(key) && '=' !in key && IsTrimmed(value)
    ensures var line := Entry(key, value);
            && Trim(line) == line && line != ""
            && Find(line, '=') == Some(|key| + 1)
            && Trim(line[..|key| + 1]) == key && Trim(line[|key| + 2..]) == value
  {
    var line := Entry(key, value);
    assert line[0] == key[0] && line[|line| - 1] == value[|value| - 1];
    TrimTrimmed(line);
    assert line == (key + " ") + ['='] + (" " + value);
    FindAfter(key + " ", '=', " " + value);
    assert line[..|key| + 1] == key + " " && line[|key| + 2..] == " " + value;
    TrimTrimmed(key);
    TrimTrimmed(value);
  }

  function Present(setting: Outcome<Setting>): Outcome<Option<Setting>> {
    match setting case Err(error) => Err(error) case Ok(value) => Ok(Some(value))
  }

  lemma EntryReads(key: string, value: string)
    requires IsTrimmed(key) && '=' !in key && IsTrimmed(value)
    requires WithoutComment(Entry(key, value)) == Ok(Entry(key, value))
    ensures LineSetting(Entry(key, value)) == Present(ParseSetting(key, value))
  {
    EntrySplits(key, value);
  }

  /** Anything quotable survives in quotes, comment signs and equals signs included. */
  lemma QuotedEntryReads(key: string, text: string)
    requires IsKey(key) && '"' !in text
    ensures ParseTomlString(Quoted(text)) == Ok(text)
    ensures LineSetting(Entry(key, Quoted(text))) == Present(ParseSetting(key, Quoted(text)))
  {
    KeyCharacters(key);
    QuotedEntryHasNoComment(key, text);
    assert Quoted(text)[1..] == text + "\"" && (text + "\"")[..|text|] == text;
    EntryReads(key, Quoted(text));
  }

  lemma QuotedEntryHasNoComment(key: string, text: string)
    requires '"' !in key && '#' !in key && '"' !in text
    ensures WithoutComment(Entry(key, Quoted(text))) == Ok(Entry(key, Quoted(text)))
  {
    var front := key + " = ";
    var line := front + "\"" + text + "\"";
    assert line == Entry(key, Quoted(text));
    var open, close := |front|, |front| + 1 + |text|;
    assert |line| == close + 1 && line[open] == '"' && line[close] == '"';
    assert forall i | 0 <= i < open :: line[i] == front[i];
    assert forall i | open < i < close :: line[i] == text[i - open - 1];
    CommentScanSkips(line, 0, open, false);
    CommentScanSkips(line, open + 1, close, true);
    assert CommentStart(line, 0, false) == Some(|line|);
    assert line[..|line|] == line;
  }

  lemma DecimalParses(key: string, n: nat)
    requires n <= U32_MAX
    ensures ParseUnsigned(key, Decimal(n)) == Ok(n) && IsTrimmed(Decimal(n))
  {
    DecimalRoundTrip(n);
    DecimalIsFixed(n);
    var digits := Decimal(n);
    assert IsDigit(digits[0]) && IsDigit(digits[|digits| - 1]);
  }

  lemma NumberEntryReads(key: string, n: nat)
    requires IsKey(key) && n <= U32_MAX
    ensures ParseUnsigned(key, Decimal(n)) == Ok(n)
    ensures LineSetting(Entry(key, Decimal(n))) == Present(ParseSetting(key, Decimal(n)))
  {
    KeyCharacters(key);
    DecimalParses(key, n);
    DecimalIsFixed(n);
    DigitsEntryHasNoComment(key, Decimal(n));
    EntryReads(key, Decimal(n));
  }

  lemma DigitsEntryHasNoComment(key: string, digits: string)
    requires '"' !in key && '#' !in key && AllDigits(digits)
    ensures WithoutComment(Entry(key, digits)) == Ok(Entry(key, digits))
  {
    var line := Entry(key, digits);
    var front := key + " = ";
    assert forall i | 0 <= i < |front| :: line[i] == front[i];
    assert forall i | |front| <= i < |line| :: line[i] == digits[i - |front|];
    CommentScanSkips(line, 0, |line|, false);
    assert line[..|line|] == line;
  }

  // A whole printed text.

  lemma AddLinesStep(slots: Slots, line: string, rest: seq<string>, setting: Setting)
    requires LineSetting(line) == Ok(Some(setting)) && !Taken(slots, setting)
    ensures AddLines(slots, [line] + rest) == AddLines(Filled(slots, setting), rest)
  {
    assert ([line] + rest)[0] == line && ([line] + rest)[1..] == rest;
  }

  lemma TrunkReads(trunk: string)
    requires '"' !in trunk
    ensures LineSetting(Entry("trunk", Quoted(trunk))) == Ok(Some(Trunk(trunk)))
  {
    QuotedEntryReads("trunk", trunk);
  }

  lemma NumbersRead(n: nat)
    requires n <= U32_MAX
    ensures LineSetting(Entry("maximum_reservations", Decimal(n))) == Ok(Some(MaximumReservations(n)))
    ensures LineSetting(Entry("maximum_ordering_edges", Decimal(n))) == Ok(Some(MaximumOrderingEdges(n)))
  {
    NumberEntryReads("maximum_reservations", n);
    NumberEntryReads("maximum_ordering_edges", n);
  }

  lemma GateModeReads(mode: GateMode)
    ensures LineSetting(Entry("gate_mode", Quoted(GateModeName(mode)))) == Ok(Some(Gate(mode)))
  {
    QuotedEntryReads("gate_mode", GateModeName(mode));
  }

  lemma ApproverReads(path: string)
    requires path != "" && path[0] == '/' && '"' !in path
    ensures LineSetting(Entry("approver", Quoted(path))) == Ok(Some(Approver(path)))
  {
    QuotedEntryReads("approver", path);
  }

  lemma DefaultAnswerReads(name: string)
    requires name == "first_ready"
    ensures LineSetting(Entry("default_answer", Quoted(name))) == Ok(Some(Answer(FirstReady)))
  {
    var key := "default_answer";
    assert IsKey(key);
    assert '"' !in name;
    QuotedEntryReads(key, name);
  }

  /** The optional lines fill their slots when they are there. */
  lemma OptionalLinesFill(slots: Slots, c: BerthConfig)
    requires IsPrintable(c) && slots.approver.None? && slots.defaultAnswer.None?
    ensures AddLines(slots, ApproverLines(c) + AnswerLines(c)) ==
            Ok(slots.(approver := c.approver, defaultAnswer := c.defaultAnswer))
  {
    hide LineSetting;
    var next := slots.(approver := c.approver);
    if c.approver.Some? {
      ApproverReads(c.approver.value);
      AddLinesStep(slots, Entry("approver", Quoted(c.approver.value)), AnswerLines(c), Approver(c.approver.value));
    } else {
      assert ApproverLines(c) + AnswerLines(c) == AnswerLines(c);
    }
    if c.defaultAnswer.Some? {
      DefaultAnswerReads("first_ready");
      AddLinesStep(next, Entry("default_answer", Quoted("first_ready")), [], Answer(FirstReady));
      assert AnswerLines(c) == [Entry("default_answer", Quoted("first_ready"))] + [];
      assert c.defaultAnswer.value.FirstReady?;
    }
  }

  /** Printed lines fill every slot with the value they were printed from. */
  lemma PrintedLinesFill(c: BerthConfig)
    requires IsPrintable(c)
    ensures AddLines(EMPTY, PrintedLines(c)) ==
            Ok(Slots(Some(c.trunk), Some(c.maximumReservations), Some(c.maximumOrderingEdges), Some(c.gateMode),
                     c.approver, c.defaultAnswer))
  {
    hide LineSetting;
    var optional := ApproverLines(c) + AnswerLines(c);
    var gate := Entry("gate_mode", Quoted(GateModeName(c.gateMode)));
    var edges := Entry("maximum_ordering_edges", Decimal(c.maximumOrderingEdges));
    var reservations := Entry("maximum_reservations", Decimal(c.maximumReservations));
    var trunk := Entry("trunk", Quoted(c.trunk));
    assert PrintedLines(c) == [trunk] + ([reservations] + ([edges] + ([gate] + optional)));
    TrunkReads(c.trunk);
    NumbersRead(c.maximumReservations);
    NumbersRead(c.maximumOrderingEdges);
    GateModeReads(c.gateMode);
    var s1 := EMPTY.(trunk := Some(c.trunk));
    var s2 := s1.(maximumReservations := Some(c.maximumReservations));
    var s3 := s2.(maximumOrderingEdges := Some(c.maximumOrderingEdges));
    var s4 := s3.(gateMode := Some(c.gateMode));
    AddLinesStep(EMPTY, trunk, [reservations] + ([edges] + ([gate] + optional)), Trunk(c.trunk));
    AddLinesStep(s1, reservations, [edges] + ([gate] + optional), MaximumReservations(c.maximumReservations));
    AddLinesStep(s2, edges, [gate] + optional, MaximumOrderingEdges(c.maximumOrderingEdges));
    AddLinesStep(s3, gate, optional, Gate(c.gateMode));
    OptionalLinesFill(s4, c);
  }

  lemma {:induction false} LinesOfUnlines(lines: seq<string>)
    requires forall i | 0 <= i < |lines| ::
               '\n' !in lines[i] && lines[i] != "" && lines[i][|lines[i]| - 1] != '\r'
    ensures Lines(Unlines(lines)) == lines
    decreases |lines|
  {
    if lines != [] {
      LinesOfUnlines(lines[1..]);
      LinesOfFirst(lines[0], Unlines(lines[1..]));
    }
  }

  lemma PrintedLinesAreLines(c: BerthConfig)
    requires IsPrintable(c)
    ensures Lines(ToToml(c)) == PrintedLines(c)
  {
    QuotedEntryIsLine("trunk", c.trunk);
    NumberEntryIsLine("maximum_reservations", c.maximumReservations);
    NumberEntryIsLine("maximum_ordering_edges", c.maximumOrderingEdges);
    QuotedEntryIsLine("gate_mode", GateModeName(c.gateMode));
    if c.approver.Some? {
      QuotedEntryIsLine("approver", c.approver.value);
    }
    QuotedEntryIsLine("default_answer", "first_ready");
    LinesOfUnlines(PrintedLines(c));
  }

  lemma QuotedEntryIsLine(key: string, text: string)
    requires IsKey(key) && '\n' !in text
    ensures var line := Entry(key, Quoted(text)); '\n' !in line && line != "" && line[|line| - 1] != '\r'
  {
    KeyCharacters(key);
  }

  lemma NumberEntryIsLine(key: string, n: nat)
    requires IsKey(key)
    ensures var line := Entry(key, Decimal(n)); '\n' !in line && line != "" && line[|line| - 1] != '\r'
  {
    KeyCharacters(key);
    DecimalIsFixed(n);
    assert forall c | c in Decimal(n) :: IsDigit(c);
    var line := Entry(key, Decimal(n));
    assert line[|line| - 1] == Decimal(n)[|Decimal(n)| - 1];
  }

  /** Printing a configuration and parsing the text gives the configuration back. */
  lemma PrintedReadsBack(c: BerthConfig)
    requires IsPrintable(c)
    ensures Parsed(ToToml(c)) == Ok(c)
  {
    PrintedLinesAreLines(c);
    PrintedLinesFill(c);
  }

  /** Whatever text the parser accepts, printing what it configures and parsing again agrees. */
  lemma ParsedReprints(contents: string)
    requires Parsed(contents).Ok?
    ensures Parsed(ToToml(Parsed(contents).value)) == Parsed(contents)
  {
    ParsedIsPrintable(contents);
    PrintedReadsBack(Parsed(contents).value);
  }

  // The order of lines.

  function AddReadings(slots: Slots, readings: seq<Outcome<Option<Setting>>>): Outcome<Slots>
    decreases |readings|
  {
    if readings == [] then Ok(slots)
    else match AddReading(slots, readings[0])
      case Err(error) => Err(error)
      case Ok(next) => AddReadings(next, readings[1..])
  }

  function Map<T, U>(f: T -> U, xs: seq<T>): seq<U>
    decreases |xs|
  {
    if xs == [] then [] else [f(xs[0])] + Map(f, xs[1..])
  }

  function Readings(lines: seq<string>): seq<Outcome<Option<Setting>>> {
    Map(LineSetting, lines)
  }

  lemma {:induction false} AddLinesReads(slots: Slots, lines: seq<string>)
    ensures AddLines(slots, lines) == AddReadings(slots, Readings(lines))
    decreases |lines|
  {
    if lines != [] && AddLine(slots, lines[0]).Ok? {
      AddLinesReads(AddLine(slots, lines[0]).value, lines[1..]);
    }
  }

  lemma {:induction false} MapConcat<T, U>(f: T -> U, a: seq<T>, b: seq<T>)
    ensures Map(f, a + b) == Map(f, a) + Map(f, b)
    decreases |a|
  {
    if a == [] {
      assert a + b == b;
    } else {
      assert (a + b)[0] == a[0] && (a + b)[1..] == a[1..] + b;
      MapConcat(f, a[1..], b);
    }
  }

  /** Mapping the same elements in another order gives the same results in another order. */
  lemma {:induction false} MapPermutes<T(!new), U>(f: T -> U, a: seq<T>, b: seq<T>)
    requires multiset(a) == multiset(b)
    ensures multiset(Map(f, a)) == multiset(Map(f, b))
    decreases |b|
  {
    if b == [] {
      assert |a| == |multiset(a)| == |multiset(b)| == 0;
    } else {
      var i := Located(a, b);
      var before, after := a[..i], a[i + 1..];
      MapPermutes(f, before + after, b[1..]);
      MapConcat(f, before, after);
      MapConcat(f, before, [b[0]] + after);
      assert a == before + ([b[0]] + after);
      assert ([b[0]] + after)[1..] == after;
      assert Map(f, [b[0]] + after) == [f(b[0])] + Map(f, after);
    }
  }

  /** Where a permutation keeps the other's first element, and that the rests are permutations. */
  lemma Located<T(!new)>(a: seq<T>, b: seq<T>) returns (i: nat)
    requires multiset(a) == multiset(b) && b != []
    ensures i < |a| && a[i] == b[0] && a == a[..i] + [b[0]] + a[i + 1..]
    ensures multiset(a[..i] + a[i + 1..]) == multiset(b[1..])
  {
    assert b[0] in multiset(b);
    i :| 0 <= i < |a| && a[i] == b[0];
    assert a == a[..i] + [b[0]] + a[i + 1..];
    assert multiset(a) == multiset(a[..i]) + multiset{b[0]} + multiset(a[i + 1..]);
    assert b == [b[0]] + b[1..];
    assert multiset(b) == multiset{b[0]} + multiset(b[1..]);
    assert multiset(a[..i] + a[i + 1..]) == multiset(a[..i]) + multiset(a[i + 1..]);
    var before, after, rest := multiset(a[..i]), multiset(a[i + 1..]), multiset(b[1..]);
    assert before + multiset{b[0]} + after == multiset{b[0]} + rest;
    forall x
      ensures (before + after)[x] == rest[x]
    {
      assert (before + multiset{b[0]} + after)[x] == (multiset{b[0]} + rest)[x];
    }
  }

  lemma FilledCommutes(slots: Slots, a: Setting, b: Setting)
    requires !Taken(slots, a) && !Taken(Filled(slots, a), b)
    ensures !Taken(slots, b) && !Taken(Filled(slots, b), a)
    ensures Filled(Filled(slots, a), b) == Filled(Filled(slots, b), a)
  {
  }

  lemma AddReadingCommutes(slots: Slots, a: Outcome<Option<Setting>>, b: Outcome<Option<Setting>>)
    requires AddReading(slots, a).Ok? && AddReading(AddReading(slots, a).value, b).Ok?
    ensures AddReading(slots, b).Ok?
    ensures AddReading(AddReading(slots, b).value, a) == AddReading(AddReading(slots, a).value, b)
  {
    if a.value.Some? && b.value.Some? {
      FilledCommutes(slots, a.value.value, b.value.value);
    }
  }

  lemma {:induction false} ReadingMovesToFront(
    slots: Slots, before: seq<Outcome<Option<Setting>>>, reading: Outcome<Option<Setting>>, after: seq<Outcome<Option<Setting>>>)
    requires AddReadings(slots, before + [reading] + after).Ok?
    ensures AddReadings(slots, [reading] + before + after) == AddReadings(slots, before + [reading] + after)
    decreases |before|
  {
    var readings := before + [reading] + after;
    if before == [] {
      assert [reading] + before + after == readings;
    } else {
      var first, rest := before[0], before[1..];
      assert readings[0] == first && readings[1..] == rest + [reading] + after;
      var next := AddReading(slots, first).value;
      ReadingMovesToFront(next, rest, reading, after);
      var nextMoved := [reading] + rest + after;
      assert nextMoved[0] == reading && nextMoved[1..] == rest + after;
      AddReadingCommutes(slots, first, reading);
      var moved := [reading] + before + after;
      assert moved[0] == reading && moved[1..] == before + after;
      assert (before + after)[0] == first && (before + after)[1..] == rest + after;
    }
  }

  lemma {:induction false} PermutedReadingsAgree(
    slots: Slots, a: seq<Outcome<Option<Setting>>>, b: seq<Outcome<Option<Setting>>>)
    requires multiset(a) == multiset(b) && AddReadings(slots, a).Ok?
    ensures AddReadings(slots, b) == AddReadings(slots, a)
    decreases |b|
  {
    if b == [] {
      assert |a| == |multiset(a)| == |multiset(b)| == 0;
    } else {
      var i := Located(a, b);
      ReadingMovesToFront(slots, a[..i], b[0], a[i + 1..]);
      var moved := [b[0]] + a[..i] + a[i + 1..];
      assert moved[0] == b[0] && moved[1..] == a[..i] + a[i + 1..];
      PermutedReadingsAgree(AddReading(slots, b[0]).value, a[..i] + a[i + 1..], b[1..]);
    }
  }

  lemma PermutedLinesAgree(a: seq<string>, b: seq<string>)
    requires multiset(a) == multiset(b) && AddLines(EMPTY, a).Ok?
    ensures AddLines(EMPTY, b) == AddLines(EMPTY, a)
  {
    MapPermutes(LineSetting, a, b);
    AddLinesReads(EMPTY, a);
    AddLinesReads(EMPTY, b);
    PermutedReadingsAgree(EMPTY, Readings(a), Readings(b));
  }

  /** Two texts with the same lines in any order configure the same, when either is accepted. */
  lemma LineOrderIsIrrelevant(a: string, b: string)
    requires multiset(Lines(a)) == multiset(Lines(b))
    ensures Parsed(a).Ok? <==> Parsed(b).Ok?
    ensures Parsed(a).Ok? ==> Parsed(a) == Parsed(b)
  {
    if Parsed(a).Ok? {
      PermutedLinesAgree(Lines(a), Lines(b));
    } else if Parsed(b).Ok? {
      PermutedLinesAgree(Lines(b), Lines(a));
    }
  }
}
