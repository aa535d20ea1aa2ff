/** What the lines of a text say about the configuration it parses to. */
module ConfigLines {
  import opened RustText
  import opened Wrappers
  import opened DecimalText
  import opened Config

  /** Some line gives this setting. */
  ghost predicate Gives(lines: seq<string>, setting: Setting) {
    exists i | 0 <= i < |lines| :: LineSetting(lines[i]) == Ok(Some(setting))
  }

  /** Some line gives a setting of this kind. */
  ghost predicate GivesKey(lines: seq<string>, key: string) {
    exists i | 0 <= i < |lines| :: HasKey(lines[i], key)
  }

  predicate HasKey(line: string, key: string) {
    LineSetting(line).Ok? && LineSetting(line).value.Some? && LineSetting(line).value.value.Key() == key
  }

  /** Every line reads as a setting or as nothing, and no two of them set the same key. */
  ghost predicate AreConsistent(lines: seq<string>) {
    && (forall i | 0 <= i < |lines| :: LineSetting(lines[i]).Ok?)
    && (forall i, j, key | 0 <= i < j < |lines| && HasKey(lines[i], key) :: !HasKey(lines[j], key))
  }

  predicate SlotHolds(slots: Slots, setting: Setting) {
    match setting
    case Trunk(trunk) => slots.trunk == Some(trunk)
    case MaximumReservations(count) => slots.maximumReservations == Some(count)
    case MaximumOrderingEdges(count) => slots.maximumOrderingEdges == Some(count)
    case Gate(mode) => slots.gateMode == Some(mode)
    case Approver(path) => slots.approver == Some(path)
    case Answer(answer) => slots.defaultAnswer == Some(answer)
  }

  predicate Holds(c: BerthConfig, setting: Setting) {
    match setting
    case Trunk(trunk) => c.trunk == trunk
    case MaximumReservations(count) => c.maximumReservations == count
    case MaximumOrderingEdges(count) => c.maximumOrderingEdges == count
    case Gate(mode) => c.gateMode == mode
    case Approver(path) => c.approver == Some(path)
    case Answer(answer) => c.defaultAnswer == Some(answer)
  }

  /** Only settings of one kind share a key. */
  lemma KeyTellsKind(a: Setting, b: Setting)
    requires a.Key() == b.Key()
    ensures forall slots :: Taken(slots, a) <==> Taken(slots, b)
  {
    assert |a.Key()| == |b.Key()|;
  }

  lemma FilledSlot(slots: Slots, filled: Setting, setting: Setting)
    requires !Taken(slots, filled)
    ensures SlotHolds(Filled(slots, filled), setting) <==> SlotHolds(slots, setting) || setting == filled
    ensures Taken(Filled(slots, filled), setting) <==> Taken(slots, setting) || setting.Key() == filled.Key()
  {
    if Taken(Filled(slots, filled), setting) && !Taken(slots, setting) {
      assert setting.Key() == filled.Key();
    }
    if setting.Key() == filled.Key() {
      KeyTellsKind(setting, filled);
    }
  }

  lemma GivesFirst(lines: seq<string>, setting: Setting)
    requires lines != []
    ensures Gives(lines, setting) <==> LineSetting(lines[0]) == Ok(Some(setting)) || Gives(lines[1..], setting)
    ensures GivesKey(lines, setting.Key()) <==> HasKey(lines[0], setting.Key()) || GivesKey(lines[1..], setting.Key())
  {
    hide LineSetting, HasKey;
    assert forall i | 0 < i < |lines| :: lines[i] == lines[1..][i - 1];
    assert forall i | 0 <= i < |lines[1..]| :: lines[1..][i] == lines[i + 1];
  }

  lemma ConsistentFirst(lines: seq<string>)
    requires lines != []
    ensures AreConsistent(lines) <==>
            && LineSetting(lines[0]).Ok? && AreConsistent(lines[1..])
            && forall key | HasKey(lines[0], key) :: !GivesKey(lines[1..], key)
  {
    hide LineSetting, HasKey;
    var rest := lines[1..];
    assert forall i | 0 < i < |lines| :: lines[i] == rest[i - 1];
    assert forall i | 0 <= i < |rest| :: rest[i] == lines[i + 1];
    if AreConsistent(lines) {
      forall i, j, key | 0 <= i < j < |rest| && HasKey(rest[i], key)
        ensures !HasKey(rest[j], key)
      {
        assert HasKey(lines[i + 1], key) && rest[j] == lines[j + 1];
      }
    }
  }

  /** Reading lines one after another into slots: when it succeeds, and what it fills. */
  lemma {:induction false} AddLinesGathers(slots: Slots, lines: seq<string>)
    ensures AddLines(slots, lines).Ok? <==>
            AreConsistent(lines) && forall setting | Gives(lines, setting) :: !Taken(slots, setting)
    ensures AddLines(slots, lines).Ok? ==> forall setting ::
              && (SlotHolds(AddLines(slots, lines).value, setting) <==> SlotHolds(slots, setting) || Gives(lines, setting))
              && (Taken(AddLines(slots, lines).value, setting) <==>
                    Taken(slots, setting) || GivesKey(lines, setting.Key()))
    decreases |lines|
  {
    hide LineSetting, Taken, Filled, SlotHolds, AreConsistent, Gives, GivesKey;
    if lines == [] {
      NoLines(slots);
    } else {
      forall setting
        ensures Gives(lines, setting) <==> LineSetting(lines[0]) == Ok(Some(setting)) || Gives(lines[1..], setting)
        ensures GivesKey(lines, setting.Key()) <==> HasKey(lines[0], setting.Key()) || GivesKey(lines[1..], setting.Key())
      {
        GivesFirst(lines, setting);
      }
      ConsistentFirst(lines);
      var reading := LineSetting(lines[0]);
      if reading == Ok(None) {
        AddLinesGathers(slots, lines[1..]);
      } else if reading.Ok? {
        var given := reading.value.value;
        assert Gives(lines, given);
        if !Taken(slots, given) {
          forall setting
            ensures SlotHolds(Filled(slots, given), setting) <==> SlotHolds(slots, setting) || setting == given
            ensures Taken(Filled(slots, given), setting) <==> Taken(slots, setting) || setting.Key() == given.Key()
          {
            FilledSlot(slots, given, setting);
          }
          AddLinesGathers(Filled(slots, given), lines[1..]);
          KeyIsGiven(lines[1..], given.Key());
          assert AreConsistent(lines) <==> AreConsistent(lines[1..]) && !GivesKey(lines[1..], given.Key());
        }
      }
    }
  }

  lemma NoLines(slots: Slots)
    ensures AreConsistent([]) && forall setting :: !Gives([], setting) && !GivesKey([], setting.Key())
  {
  }

  lemma KeyIsGiven(lines: seq<string>, key: string)
    ensures GivesKey(lines, key) <==> exists setting :: Gives(lines, setting) && setting.Key() == key
  {
    hide LineSetting;
    if i :| 0 <= i < |lines| && HasKey(lines[i], key) {
      assert Gives(lines, LineSetting(lines[i]).value.value);
    }
    if setting :| Gives(lines, setting) && setting.Key() == key {
      var i :| 0 <= i < |lines| && LineSetting(lines[i]) == Ok(Some(setting));
      assert HasKey(lines[i], key);
    }
  }

  /** A text is accepted exactly when each line can be read and no key is set twice. */
  lemma AcceptedExactly(contents: string)
    ensures Parsed(contents).Ok? <==> AreConsistent(Lines(contents))
  {
    AddLinesGathers(EMPTY, Lines(contents));
    hide LineSetting, AreConsistent, Gives;
  }

  /** A setting holds in an accepted configuration exactly when a line gives it, or no line sets its
      key and it is the default. */
  lemma ConfiguredByLines(contents: string, setting: Setting)
    requires Parsed(contents).Ok?
    ensures var lines := Lines(contents);
            Holds(Parsed(contents).value, setting) <==>
            if GivesKey(lines, setting.Key()) then Gives(lines, setting) else Holds(DEFAULT, setting)
  {
    AddLinesGathers(EMPTY, Lines(contents));
    hide LineSetting, AreConsistent, Gives, GivesKey, AddLines;
    FinishedHolds(AddLines(EMPTY, Lines(contents)).value, setting);
  }

  lemma FinishedHolds(slots: Slots, setting: Setting)
    ensures Holds(Finished(slots), setting) <==>
            if Taken(slots, setting) then SlotHolds(slots, setting) else Holds(DEFAULT, setting)
  {
  }

  // Which lines give which settings.

  /** A number as it may be written: digits, with or without a plus sign, that fit 32 bits. */
  ghost predicate IsNumber(value: string, n: nat) {
    n <= 0xffff_ffff &&
    exists digits :: digits != "" && AllDigits(digits) && DigitsValue(digits) == n && (value == digits || value == "+" + digits)
  }

  /** The text that gives a key its value. */
  ghost predicate IsValueOf(key: string, value: string, setting: Setting) {
    match setting
    case Trunk(trunk) => key == "trunk" && '"' !in trunk && value == Quoted(trunk)
    case MaximumReservations(count) => key == "maximum_reservations" && IsNumber(value, count)
    case MaximumOrderingEdges(count) => key == "maximum_ordering_edges" && IsNumber(value, count)
    case Gate(Observe) => key == "gate_mode" && value == Quoted("observe")
    case Gate(Enforce) => key == "gate_mode" && value == Quoted("enforce")
    case Approver(path) => key == "approver" && '"' !in path && path != "" && path[0] == '/' && value == Quoted(path)
    case Answer(FirstReady) => key == "default_answer" && value == Quoted("first_ready")
  }

  lemma StringExactly(value: string)
    ensures forall text :: ParseTomlString(value) == Ok(text) <==> '"' !in text && value == Quoted(text)
  {
    forall text | '"' !in text && value == Quoted(text)
      ensures ParseTomlString(value) == Ok(text)
    {
      assert value[1..] == text + "\"";
      assert value[1..][..|value[1..]| - 1] == text;
    }
    if ParseTomlString(value).Ok? {
      var text := ParseTomlString(value).value;
      assert value == "\"" + text + "\"";
    }
  }

  lemma NumberExactly(key: string, value: string)
    ensures forall n: nat :: ParseUnsigned(key, value) == Ok(n) <==> IsNumber(value, n)
  {
    var digits := if value != "" && value[0] == '+' then value[1..] else value;
    assert value == digits || value == "+" + digits;
    forall n: nat | IsNumber(value, n)
      ensures ParseUnsigned(key, value) == Ok(n)
    {
      var others :| others != "" && AllDigits(others) && DigitsValue(others) == n && (value == others || value == "+" + others);
      assert IsDigit(others[0]);
      assert others == digits;
    }
  }

  lemma GateModeExactly(value: string)
    ensures ParseGateMode(value) == Ok(Observe) <==> value == Quoted("observe")
    ensures ParseGateMode(value) == Ok(Enforce) <==> value == Quoted("enforce")
  {
    StringExactly(value);
    ModeNames();
  }

  lemma DefaultAnswerExactly(value: string)
    ensures ParseDefaultAnswer(value) == Ok(FirstReady) <==> value == Quoted("first_ready")
  {
    StringExactly(value);
    ModeNames();
  }

  lemma ApproverExactly(value: string, path: string)
    ensures ParseApprover(value) == Ok(path) <==>
            '"' !in path && path != "" && path[0] == '/' && value == Quoted(path)
  {
    StringExactly(value);
    hide ParseTomlString, Quoted;
  }

  lemma ModeNames()
    ensures '"' !in "observe" && '"' !in "enforce" && '"' !in "first_ready" && Quoted("observe") != Quoted("enforce")
  {
    assert Quoted("observe")[1] != Quoted("enforce")[1];
  }

  /** A key and a value are accepted exactly when the value is written as the key demands. */
  lemma SettingExactly(key: string, value: string, setting: Setting)
    ensures ParseSetting(key, value) == Ok(setting) <==> IsValueOf(key, value, setting)
  {
    hide ParseTomlString, ParseUnsigned, ParseGateMode, ParseDefaultAnswer, ParseApprover, IsNumber, Quoted;
    match setting
    case Trunk(_) => StringExactly(value);
    case MaximumReservations(_) => NumberExactly(key, value);
    case MaximumOrderingEdges(_) => NumberExactly(key, value);
    case Gate(_) => GateModeExactly(value);
    case Approver(path) => ApproverExactly(value, path);
    case Answer(answer) =>
      DefaultAnswerExactly(value);
      assert answer == FirstReady;
  }

  lemma {:induction false} TrimmedAway(text: string)
    ensures TrimStart(text) == "" <==> forall c | c in text :: IsWhitespace(c)
  {
    if text != "" {
      assert text[0] in text && text == [text[0]] + text[1..];
      if IsWhitespace(text[0]) {
        TrimmedAway(text[1..]);
      }
    }
  }

  lemma {:induction false} TrimEndKeeps(text: string)
    requires text != "" && !IsWhitespace(text[0])
    ensures TrimEnd(text) != ""
  {
    if IsWhitespace(text[|text| - 1]) {
      TrimEndKeeps(text[..|text| - 1]);
    }
  }

  lemma {:induction false} TrimStartStops(text: string)
    ensures TrimStart(text) == "" || !IsWhitespace(TrimStart(text)[0])
  {
    if text != "" && IsWhitespace(text[0]) {
      TrimStartStops(text[1..]);
    }
  }

  lemma NoneBefore(text: string, c: char, i: nat)
    requires i <= |text| && c !in text[..i]
    ensures forall k | 0 <= k < i :: text[k] != c
  {
    forall k | 0 <= k < i
      ensures text[k] != c
    {
      assert text[..i][k] == text[k];
    }
  }

  /** A line gives a setting exactly when, before any comment, the text around its first `=` is a key
      and a value written as the key demands. */
  lemma LineGivesExactly(line: string, setting: Setting)
    ensures LineSetting(line) == Ok(Some(setting)) <==>
            exists kept, i: nat | WithoutComment(line) == Ok(kept) && i < |Trim(kept)| ::
              && Trim(kept)[i] == '=' && '=' !in Trim(kept)[..i]
              && IsValueOf(Trim(Trim(kept)[..i]), Trim(Trim(kept)[i + 1..]), setting)
  {
    hide WithoutComment, Trim, ParseSetting, IsValueOf;
    if WithoutComment(line).Ok? {
      var kept := WithoutComment(line).value;
      var stripped := Trim(kept);
      FindMeaning(stripped, '=');
      if Find(stripped, '=').Some? {
        var i := Find(stripped, '=').value;
        SettingExactly(Trim(stripped[..i]), Trim(stripped[i + 1..]), setting);
        forall j: nat | j < |stripped| && stripped[j] == '=' && '=' !in stripped[..j]
          ensures j == i
        {
          NoneBefore(stripped, '=', i);
          NoneBefore(stripped, '=', j);
        }
      }
    }
  }

  /** A line gives nothing, and is no error, exactly when it is blank up to any comment. */
  lemma LineIsBlankExactly(line: string)
    ensures LineSetting(line) == Ok(None) <==>
            WithoutComment(line).Ok? && forall c | c in WithoutComment(line).value :: IsWhitespace(c)
  {
    hide WithoutComment, ParseSetting;
    if WithoutComment(line).Ok? {
      var kept := WithoutComment(line).value;
      TrimmedAway(kept);
      TrimStartStops(kept);
      if TrimStart(kept) != "" {
        TrimEndKeeps(TrimStart(kept));
      }
    }
  }

  // How the others are refused.

  const KEYS: set<string> :=
    {"trunk", "maximum_reservations", "maximum_ordering_edges", "gate_mode", "approver", "default_answer"}

  /** A quoted key's value that is no string is unterminated when only its closing quote is missing,
      and a syntax error when its opening one is, or when it holds a third. */
  lemma StringRefusals(value: string)
    requires ParseTomlString(value).Err?
    ensures ParseTomlString(value) ==
            if value != "" && value[0] == '"' && (|value| == 1 || value[|value| - 1] != '"')
            then Err(UnterminatedString(value))
            else Err(InvalidSyntax(value))
  {
  }

  /** Only a key that is none of the six is unknown, whatever its value; a string that the key does
      not allow, and a number that does not read, are invalid values of that key. */
  lemma SettingRefusals(key: string, value: string)
    ensures ParseSetting(key, value) == Err(UnknownKey(key)) <==> key !in KEYS
    ensures ParseSetting(key, value).Err? && key in {"maximum_reservations", "maximum_ordering_edges"} ==>
              ParseSetting(key, value) == Err(InvalidValue(key, value))
    ensures ParseSetting(key, value).Err? && key in {"trunk", "gate_mode", "approver", "default_answer"} ==>
              ParseSetting(key, value) ==
              if ParseTomlString(value).Ok? then Err(InvalidValue(key, value)) else Err(ParseTomlString(value).error)
  {
    if ParseTomlString(value).Err? {
      StringRefusals(value);
    }
  }
}
