/** The repository configuration: its printer, its hand-written line parser, and their round trip. */
module Config {
  import opened RustText
  import opened Wrappers
  import opened DecimalText

  const U32_MAX := 0xffff_ffff

  type Outcome<+T> = Result<T, ConfigError>

  datatype ConfigError =
    | Io
    | InvalidSyntax(text: string)
    | InvalidValue(key: string, text: string)
    | UnterminatedString(text: string)
    | DuplicateKey(key: string)
    | UnknownKey(key: string)

  datatype GateMode = Observe | Enforce

  datatype DefaultAnswer = FirstReady

  datatype BerthConfig = BerthConfig(
    trunk: string,
    maximumReservations: nat,
    maximumOrderingEdges: nat,
    gateMode: GateMode,
    approver: Option<string>,
    defaultAnswer: Option<DefaultAnswer>)

  const DEFAULT: BerthConfig := BerthConfig("main", 128, 512, Observe, None, None)

  // Printing.

  function GateModeName(mode: GateMode): string {
    match mode case Observe => "observe" case Enforce => "enforce"
  }

  function Quoted(text: string): string {
    "\"" + text + "\""
  }

  function Entry(key: string, value: string): string {
    key + " = " + value
  }

  /** The lines a configuration prints as, without their line endings. */
  function PrintedLines(c: BerthConfig): seq<string> {
    [Entry("trunk", Quoted(c.trunk)),
     Entry("maximum_reservations", Decimal(c.maximumReservations)),
     Entry("maximum_ordering_edges", Decimal(c.maximumOrderingEdges)),
     Entry("gate_mode", Quoted(GateModeName(c.gateMode)))]
    + ApproverLines(c) + AnswerLines(c)
  }

  function ApproverLines(c: BerthConfig): seq<string> {
    match c.approver case None => [] case Some(path) => [Entry("approver", Quoted(path))]
  }

  function AnswerLines(c: BerthConfig): seq<string> {
    match c.defaultAnswer case None => [] case Some(FirstReady) => [Entry("default_answer", Quoted("first_ready"))]
  }

  function Unlines(lines: seq<string>): string {
    if lines == [] then "" else lines[0] + "\n" + Unlines(lines[1..])
  }

  function ToToml(c: BerthConfig): string {
    Unlines(PrintedLines(c))
  }

  // Parsing one line.

  /** Where a line's comment starts, or its length; `None` when a quotation is left open. */
  function CommentStart(line: string, from: nat, quoted: bool): Option<nat>
    requires from <= |line|
    decreases |line| - from
  {
    if from == |line| then (if quoted then None else Some(|line|))
    else if line[from] == '#' && !quoted then Some(from)
    else CommentStart(line, from + 1, if line[from] == '"' then !quoted else quoted)
  }

  function WithoutComment(line: string): Outcome<string> {
    match CommentStart(line, 0, false)
    case None => Err(UnterminatedString(line))
    case Some(end) => CommentStartBound(line, 0, false); Ok(line[..end])
  }

  lemma {:induction false} CommentStartBound(line: string, from: nat, quoted: bool)
    requires from <= |line|
    ensures CommentStart(line, from, quoted).Some? ==> CommentStart(line, from, quoted).value <= |line|
    decreases |line| - from
  {
    if from < |line| {
      CommentStartBound(line, from + 1, if line[from] == '"' then !quoted else quoted);
    }
  }

  /** Whether an odd number of quotation marks precedes an index, so that it is inside quotes. */
  predicate InsideQuotes(line: string, i: nat)
    requires i <= |line|
  {
    i > 0 && (line[i - 1] == '"') != InsideQuotes(line, i - 1)
  }

  predicate OpensComment(line: string, i: nat) {
    i < |line| && line[i] == '#' && !InsideQuotes(line, i)
  }

  /** The scan finds the first `#` outside quotes, and without one it keeps the line exactly when
      its quotes are closed. */
  lemma {:induction false} CommentStartMeaning(line: string, from: nat)
    requires from <= |line|
    ensures var found := CommentStart(line, from, InsideQuotes(line, from));
            && (forall i: nat :: found == Some(i) && i < |line| <==>
                  from <= i && OpensComment(line, i) && forall j | from <= j < i :: !OpensComment(line, j))
            && (found == Some(|line|) <==> !InsideQuotes(line, |line|) && forall j: nat | from <= j :: !OpensComment(line, j))
            && (found == None <==> InsideQuotes(line, |line|) && forall j: nat | from <= j :: !OpensComment(line, j))
    decreases |line| - from
  {
    if from < |line| && !OpensComment(line, from) {
      CommentStartMeaning(line, from + 1);
      assert InsideQuotes(line, from + 1) == ((line[from] == '"') != InsideQuotes(line, from));
    }
  }

  /** The text before the first `#` outside quotes, or the whole line; a quotation left open where
      no comment starts is an error. */
  method StripComment(line: string) returns (r: Outcome<string>)
    ensures r == WithoutComment(line)
    ensures forall i: nat | OpensComment(line, i) && forall j | 0 <= j < i :: !OpensComment(line, j) ::
              r == Ok(line[..i])
    ensures (forall j: nat :: !OpensComment(line, j)) ==>
              r == if InsideQuotes(line, |line|) then Err(UnterminatedString(line)) else Ok(line)
  {
    CommentStartMeaning(line, 0);
    CommentStartBound(line, 0, false);
    var quotedString := false;
    for index := 0 to |line|
      invariant quotedString == InsideQuotes(line, index)
      invariant forall j | 0 <= j < index :: !OpensComment(line, j)
    {
      if line[index] == '"' {
        quotedString := !quotedString;
      } else if line[index] == '#' && !quotedString {
        assert OpensComment(line, index);
        return Ok(line[..index]);
      }
    }
    if quotedString {
      return Err(UnterminatedString(line));
    }
    assert line[..|line|] == line;
    assert forall j: nat :: !OpensComment(line, j);
    return Ok(line);
  }

  function ParseTomlString(value: string): Outcome<string> {
    if value == "" || value[0] != '"' then Err(InvalidSyntax(value))
    else
      var rest := value[1..];
      if rest == "" || rest[|rest| - 1] != '"' then Err(UnterminatedString(value))
      else
        var contents := rest[..|rest| - 1];
        if '"' in contents then Err(InvalidSyntax(value)) else Ok(contents)
  }

  /** Rust's `u32` parse: an optional plus sign, digits, and a value that fits. */
  function ParseUnsigned(key: string, value: string): Outcome<nat> {
    var digits := if value != "" && value[0] == '+' then value[1..] else value;
    if digits == "" || !AllDigits(digits) || DigitsValue(digits) > U32_MAX then Err(InvalidValue(key, value))
    else Ok(DigitsValue(digits))
  }

  function ParseGateMode(value: string): Outcome<GateMode> {
    match ParseTomlString(value)
    case Err(error) => Err(error)
    case Ok(name) =>
      if name == "observe" then Ok(Observe)
      else if name == "enforce" then Ok(Enforce)
      else Err(InvalidValue("gate_mode", value))
  }

  function ParseDefaultAnswer(value: string): Outcome<DefaultAnswer> {
    match ParseTomlString(value)
    case Err(error) => Err(error)
    case Ok(name) => if name == "first_ready" then Ok(FirstReady) else Err(InvalidValue("default_answer", value))
  }

  function ParseApprover(value: string): Outcome<string> {
    match ParseTomlString(value)
    case Err(error) => Err(error)
    case Ok(path) => if path != "" && path[0] == '/' then Ok(path) else Err(InvalidValue("approver", value))
  }

  /** One validated key with its value. */
  datatype Setting =
    | Trunk(trunk: string)
    | MaximumReservations(count: nat)
    | MaximumOrderingEdges(count: nat)
    | Gate(mode: GateMode)
    | Approver(path: string)
    | Answer(answer: DefaultAnswer)
  {
    function Key(): string {
      match this
      case Trunk(_) => "trunk"
      case MaximumReservations(_) => "maximum_reservations"
      case MaximumOrderingEdges(_) => "maximum_ordering_edges"
      case Gate(_) => "gate_mode"
      case Approver(_) => "approver"
      case Answer(_) => "default_answer"
    }
  }

  function ParseSetting(key: string, value: string): Outcome<Setting> {
    match key
    case "trunk" => (match ParseTomlString(value) case Ok(s) => Ok(Trunk(s)) case Err(e) => Err(e))
    case "maximum_reservations" =>
      (match ParseUnsigned(key, value) case Ok(n) => Ok(MaximumReservations(n)) case Err(e) => Err(e))
    case "maximum_ordering_edges" =>
      (match ParseUnsigned(key, value) case Ok(n) => Ok(MaximumOrderingEdges(n)) case Err(e) => Err(e))
    case "gate_mode" => (match ParseGateMode(value) case Ok(m) => Ok(Gate(m)) case Err(e) => Err(e))
    case "approver" => (match ParseApprover(value) case Ok(p) => Ok(Approver(p)) case Err(e) => Err(e))
    case "default_answer" => (match ParseDefaultAnswer(value) case Ok(a) => Ok(Answer(a)) case Err(e) => Err(e))
    case _ => Err(UnknownKey(key))
  }

  /** The setting a line makes, or `None` for a line that is blank or only a comment. */
  function LineSetting(line: string): Outcome<Option<Setting>> {
    match WithoutComment(line)
    case Err(error) => Err(error)
    case Ok(kept) =>
      var stripped := Trim(kept);
      if stripped == "" then Ok(None)
      else
        FindMeaning(stripped, '=');
        match Find(stripped, '=')
        case None => Err(InvalidSyntax(stripped))
        case Some(i) =>
          match ParseSetting(Trim(stripped[..i]), Trim(stripped[i + 1..]))
          case Err(error) => Err(error)
          case Ok(setting) => Ok(Some(setting))
  }

  // Collecting settings, each key at most once.

  datatype Slots = Slots(
    trunk: Option<string>,
    maximumReservations: Option<nat>,
    maximumOrderingEdges: Option<nat>,
    gateMode: Option<GateMode>,
    approver: Option<string>,
    defaultAnswer: Option<DefaultAnswer>)

  const EMPTY: Slots := Slots(None, None, None, None, None, None)

  predicate Taken(slots: Slots, setting: Setting) {
    match setting
    case Trunk(_) => slots.trunk.Some?
    case MaximumReservations(_) => slots.maximumReservations.Some?
    case MaximumOrderingEdges(_) => slots.maximumOrderingEdges.Some?
    case Gate(_) => slots.gateMode.Some?
    case Approver(_) => slots.approver.Some?
    case Answer(_) => slots.defaultAnswer.Some?
  }

  function Filled(slots: Slots, setting: Setting): Slots {
    match setting
    case Trunk(trunk) => slots.(trunk := Some(trunk))
    case MaximumReservations(count) => slots.(maximumReservations := Some(count))
    case MaximumOrderingEdges(count) => slots.(maximumOrderingEdges := Some(count))
    case Gate(mode) => slots.(gateMode := Some(mode))
    case Approver(path) => slots.(approver := Some(path))
    case Answer(answer) => slots.(defaultAnswer := Some(answer))
  }

  function Or<T>(slot: Option<T>, default: T): T {
    match slot case None => default case Some(value) => value
  }

  function Finished(slots: Slots): BerthConfig {
    BerthConfig(Or(slots.trunk, DEFAULT.trunk),
                Or(slots.maximumReservations, DEFAULT.maximumReservations),
                Or(slots.maximumOrderingEdges, DEFAULT.maximumOrderingEdges),
                Or(slots.gateMode, DEFAULT.gateMode),
                slots.approver,
                slots.defaultAnswer)
  }

  /** What one line's reading does to the slots. */
  function AddReading(slots: Slots, reading: Outcome<Option<Setting>>): Outcome<Slots> {
    match reading
    case Err(error) => Err(error)
    case Ok(None) => Ok(slots)
    case Ok(Some(setting)) =>
      if Taken(slots, setting) then Err(DuplicateKey(setting.Key())) else Ok(Filled(slots, setting))
  }

  function AddLine(slots: Slots, line: string): Outcome<Slots> {
    AddReading(slots, LineSetting(line))
  }

  function AddLines(slots: Slots, lines: seq<string>): Outcome<Slots>
    decreases |lines|
  {
    if lines == [] then Ok(slots)
    else match AddLine(slots, lines[0])
      case Err(error) => Err(error)
      case Ok(next) => AddLines(next, lines[1..])
  }

  function ParsedLines(lines: seq<string>): Outcome<BerthConfig> {
    match AddLines(EMPTY, lines) case Err(error) => Err(error) case Ok(slots) => Ok(Finished(slots))
  }

  /** What a text configures. */
  function Parsed(contents: string): Outcome<BerthConfig> {
    ParsedLines(Lines(contents))
  }

  /** The parser's slots, filled in place as lines are read. */
  class ParsedConfigValues {
    var trunk: Option<string>
    var maximumReservations: Option<nat>
    var maximumOrderingEdges: Option<nat>
    var gateMode: Option<GateMode>
    var approver: Option<string>
    var defaultAnswer: Option<DefaultAnswer>

    ghost function Values(): Slots
      reads this
    {
      Slots(trunk, maximumReservations, maximumOrderingEdges, gateMode, approver, defaultAnswer)
    }

    constructor ()
      ensures Values() == EMPTY
    {
      trunk, maximumReservations, maximumOrderingEdges := None, None, None;
      gateMode, approver, defaultAnswer := None, None, None;
    }

    /** Validate the value first, then refuse a key already set. */
    method Set(key: string, value: string) returns (r: Outcome<()>)
      modifies this
      ensures match ParseSetting(key, value)
              case Err(error) => r == Err(error) && Values() == old(Values())
              case Ok(setting) =>
                if Taken(old(Values()), setting)
                then r == Err(DuplicateKey(key)) && Values() == old(Values())
                else r == Ok(()) && Values() == Filled(old(Values()), setting)
    {
      var setting := ParseSetting(key, value);
      match setting {
        case Err(error) => return Err(error);
        case Ok(Trunk(name)) =>
          if trunk.Some? { return Err(DuplicateKey(key)); }
          trunk := Some(name);
        case Ok(MaximumReservations(count)) =>
          if maximumReservations.Some? { return Err(DuplicateKey(key)); }
          maximumReservations := Some(count);
        case Ok(MaximumOrderingEdges(count)) =>
          if maximumOrderingEdges.Some? { return Err(DuplicateKey(key)); }
          maximumOrderingEdges := Some(count);
        case Ok(Gate(mode)) =>
          if gateMode.Some? { return Err(DuplicateKey(key)); }
          gateMode := Some(mode);
        case Ok(Approver(path)) =>
          if approver.Some? { return Err(DuplicateKey(key)); }
          approver := Some(path);
        case Ok(Answer(answer)) =>
          if defaultAnswer.Some? { return Err(DuplicateKey(key)); }
          defaultAnswer := Some(answer);
      }
      return Ok(());
    }

    method Finish() returns (c: BerthConfig)
      ensures c.trunk == if trunk.Some? then trunk.value else "main"
      ensures c.maximumReservations == if maximumReservations.Some? then maximumReservations.value else 128
      ensures c.maximumOrderingEdges == if maximumOrderingEdges.Some? then maximumOrderingEdges.value else 512
      ensures c.gateMode == if gateMode.Some? then gateMode.value else Observe
      ensures c.approver == approver && c.defaultAnswer == defaultAnswer
    {
      c := BerthConfig(Or(trunk, DEFAULT.trunk), Or(maximumReservations, DEFAULT.maximumReservations),
                       Or(maximumOrderingEdges, DEFAULT.maximumOrderingEdges), Or(gateMode, DEFAULT.gateMode),
                       approver, defaultAnswer);
    }
  }

  lemma SettingKey(key: string, value: string)
    requires ParseSetting(key, value).Ok?
    ensures ParseSetting(key, value).value.Key() == key
  {
  }

  /** Read one line into the slots. */
  method ReadLine(values: ParsedConfigValues, line: string) returns (r: Outcome<()>)
    modifies values
    ensures match AddLine(old(values.Values()), line)
            case Err(error) => r == Err(error)
            case Ok(next) => r == Ok(()) && values.Values() == next
  {
    var kept := StripComment(line);
    if kept.Err? {
      return Err(kept.error);
    }
    var stripped := Trim(kept.value);
    if stripped == "" {
      return Ok(());
    }
    FindMeaning(stripped, '=');
    var equals := Find(stripped, '=');
    if equals.None? {
      return Err(InvalidSyntax(stripped));
    }
    var key, value := Trim(stripped[..equals.value]), Trim(stripped[equals.value + 1..]);
    if ParseSetting(key, value).Ok? {
      SettingKey(key, value);
    }
    r := values.Set(key, value);
  }

  method FromToml(contents: string) returns (r: Outcome<BerthConfig>)
    ensures r == Parsed(contents)
  {
    var values := new ParsedConfigValues();
    var lines := Lines(contents);
    for i := 0 to |lines|
      invariant AddLines(values.Values(), lines[i..]) == AddLines(EMPTY, lines)
    {
      assert lines[i..][0] == lines[i] && lines[i..][1..] == lines[i + 1..];
      var read := ReadLine(values, lines[i]);
      if read.Err? {
        return Err(read.error);
      }
    }
    assert lines[|lines|..] == [];
    var config := values.Finish();
    return Ok(config);
  }
}
