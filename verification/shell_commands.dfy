/** Recovery commands printed for `sh`, and how a shell reads them back. */
module ShellCommands {

  // Printing.

  predicate IsPlainCharacter(c: char) {
    'a' <= c <= 'z' || 'A' <= c <= 'Z' || '0' <= c <= '9'
    || c in {'-', '_', '/', '.', ':', '=', '@', '%', '+'}
  }

  predicate IsPlain(argument: string) {
    argument != "" && forall c | c in argument :: IsPlainCharacter(c)
  }

  /** Every apostrophe closes the quotes, is escaped outside them, and opens them again. */
  function EscapedApostrophes(argument: string): string {
    if argument == "" then ""
    else (if argument[0] == '\'' then "'\\''" else [argument[0]]) + EscapedApostrophes(argument[1..])
  }

  function ShellQuote(argument: string): string {
    if IsPlain(argument) then argument else "'" + EscapedApostrophes(argument) + "'"
  }

  /** A complete command; it always has a first word. */
  type CommandLine = argv: seq<string> | argv != [] witness ["cargo-berth"]

  function Render(argv: seq<string>): string
    requires argv != []
  {
    if |argv| == 1 then ShellQuote(argv[0]) else ShellQuote(argv[0]) + " " + Render(argv[1..])
  }

  datatype RecoveryAction =
    | ClearSessionMapping(argv: CommandLine, cwd: string)
    | ReconcileAndSweepMarker(argv: CommandLine, cwd: string)
    | ReleaseIncumbentReservation(argv: CommandLine, cwd: string)
    | RerunFromHoldingWorktree(argv: CommandLine, cwd: string)
    | ClaimSeparatelyHere(argv: CommandLine, cwd: string)
  {
    function Display(): string {
      "cd " + ShellQuote(cwd) + " && " + Render(argv)
    }
  }

  // Reading: token recognition and quote removal (IEEE 1003.1, XCU sections 2.2.1, 2.2.2, 2.3).

  /** A word after quote removal, and whether any of it was quoted; or the `&&` operator. */
  datatype Token = Word(text: string, quoted: bool) | AndIf

  datatype Mode =
    | Gap
    | InWord(text: string, quoted: bool)
    | InSingleQuotes(text: string)
    | AfterBackslash(text: string, quoted: bool, inWord: bool)
    | AfterAmpersand

  /** `Refused` stands for everything that would make the text more than words and `&&`: another
      operator, an expansion, a comment, double quotes, or an unfinished quotation. */
  datatype Scan = Scanning(tokens: seq<Token>, mode: Mode) | Refused

  predicate StartsOtherSyntax(c: char) {
    c in {'|', ';', '<', '>', '(', ')', '$', '`', '"', '\n', '*', '?', '[', '#', '~'}
  }

  function Step(scan: Scan, c: char): Scan {
    match scan
    case Refused => Refused
    case Scanning(tokens, Gap) =>
      if c == ' ' || c == '\t' then scan
      else if c == '&' then Scanning(tokens, AfterAmpersand)
      else if c == '\'' then Scanning(tokens, InSingleQuotes(""))
      else if c == '\\' then Scanning(tokens, AfterBackslash("", false, false))
      else if StartsOtherSyntax(c) then Refused
      else Scanning(tokens, InWord([c], false))
    case Scanning(tokens, InWord(text, quoted)) =>
      if c == ' ' || c == '\t' then Scanning(tokens + [Word(text, quoted)], Gap)
      else if c == '&' then Scanning(tokens + [Word(text, quoted)], AfterAmpersand)
      else if c == '\'' then Scanning(tokens, InSingleQuotes(text))
      else if c == '\\' then Scanning(tokens, AfterBackslash(text, quoted, true))
      else if StartsOtherSyntax(c) then Refused
      else Scanning(tokens, InWord(text + [c], quoted))
    case Scanning(tokens, InSingleQuotes(text)) =>
      if c == '\'' then Scanning(tokens, InWord(text, true)) else Scanning(tokens, InSingleQuotes(text + [c]))
    case Scanning(tokens, AfterBackslash(text, quoted, inWord)) =>
      if c != '\n' then Scanning(tokens, InWord(text + [c], true))
      else if inWord then Scanning(tokens, InWord(text, quoted))
      else Scanning(tokens, Gap)
    case Scanning(tokens, AfterAmpersand) =>
      if c == '&' then Scanning(tokens + [AndIf], Gap) else Refused
  }

  function Run(scan: Scan, text: string): Scan
    decreases |text|
  {
    if text == "" then scan else Run(Step(scan, text[0]), text[1..])
  }

  datatype Reading = Tokens(tokens: seq<Token>) | NotACommand

  function Tokenize(text: string): Reading {
    match Run(Scanning([], Gap), text)
    case Scanning(tokens, Gap) => Tokens(tokens)
    case Scanning(tokens, InWord(word, quoted)) => Tokens(tokens + [Word(word, quoted)])
    case _ => NotACommand
  }

  // Printing then reading.

  function WordOf(argument: string): Token {
    Word(argument, !IsPlain(argument))
  }

  function WordsOf(arguments: seq<string>): (words: seq<Token>)
    ensures |words| == |arguments|
    ensures forall i | 0 <= i < |arguments| :: words[i] == WordOf(arguments[i])
  {
    seq(|arguments|, i requires 0 <= i < |arguments| => WordOf(arguments[i]))
  }

  lemma {:induction false} RunConcat(scan: Scan, a: string, b: string)
    ensures Run(scan, a + b) == Run(Run(scan, a), b)
    decreases |a|
  {
    if a == "" {
      assert a + b == b;
    } else {
      assert (a + b)[0] == a[0] && (a + b)[1..] == a[1..] + b;
      RunConcat(Step(scan, a[0]), a[1..], b);
    }
  }

  lemma {:induction false} PlainRun(tokens: seq<Token>, text: string, rest: string)
    requires text != "" && forall c | c in rest :: IsPlainCharacter(c)
    ensures Run(Scanning(tokens, InWord(text, false)), rest) == Scanning(tokens, InWord(text + rest, false))
    decreases |rest|
  {
    if rest == "" {
      assert text + rest == text;
    } else {
      assert rest[0] in rest && forall c | c in rest[1..] :: c in rest;
      PlainRun(tokens, text + [rest[0]], rest[1..]);
      assert text + [rest[0]] + rest[1..] == text + rest;
    }
  }

  lemma {:induction false} EscapedRun(tokens: seq<Token>, text: string, argument: string)
    ensures Run(Scanning(tokens, InSingleQuotes(text)), EscapedApostrophes(argument))
            == Scanning(tokens, InSingleQuotes(text + argument))
    decreases |argument|
  {
    if argument == "" {
      assert text + argument == text;
    } else {
      var front := if argument[0] == '\'' then "'\\''" else [argument[0]];
      var scan := Scanning(tokens, InSingleQuotes(text));
      RunConcat(scan, front, EscapedApostrophes(argument[1..]));
      if argument[0] == '\'' {
        ApostropheRun(tokens, text);
      } else {
        assert front[1..] == "";
      }
      EscapedRun(tokens, text + [argument[0]], argument[1..]);
      assert text + [argument[0]] + argument[1..] == text + argument;
    }
  }

  lemma ApostropheRun(tokens: seq<Token>, text: string)
    ensures Run(Scanning(tokens, InSingleQuotes(text)), "'\\''") == Scanning(tokens, InSingleQuotes(text + "'"))
  {
    var s0 := Scanning(tokens, InSingleQuotes(text));
    var s1 := Step(s0, '\'');
    var s2 := Step(s1, '\\');
    var s3 := Step(s2, '\'');
    var s4 := Step(s3, '\'');
    assert "'\\''"[1..] == "\\''" && "\\''"[1..] == "''" && "''"[1..] == "'" && "'"[1..] == "";
    assert Run(s4, "") == s4;
    assert Run(s3, "'") == s4 && Run(s2, "''") == s4 && Run(s1, "\\''") == s4;
  }

  /** Reading a printed word leaves the scanner inside exactly that word. */
  lemma QuotedRun(tokens: seq<Token>, argument: string)
    ensures Run(Scanning(tokens, Gap), ShellQuote(argument))
            == Scanning(tokens, InWord(argument, !IsPlain(argument)))
  {
    var gap := Scanning(tokens, Gap);
    if IsPlain(argument) {
      assert argument[0] in argument && forall c | c in argument[1..] :: c in argument;
      PlainRun(tokens, [argument[0]], argument[1..]);
      assert [argument[0]] + argument[1..] == argument;
    } else {
      var body := EscapedApostrophes(argument);
      assert ShellQuote(argument) == "'" + (body + "'");
      RunConcat(gap, "'", body + "'");
      assert "'"[1..] == "";
      assert Run(gap, "'") == Scanning(tokens, InSingleQuotes(""));
      RunConcat(Scanning(tokens, InSingleQuotes("")), body, "'");
      EscapedRun(tokens, "", argument);
      assert "" + argument == argument;
      assert Run(Scanning(tokens, InSingleQuotes(argument)), "'") == Scanning(tokens, InWord(argument, true));
    }
  }

  lemma WordRun(tokens: seq<Token>, argument: string, rest: string)
    ensures Run(Scanning(tokens, Gap), ShellQuote(argument) + " " + rest)
            == Run(Scanning(tokens + [WordOf(argument)], Gap), rest)
  {
    var gap, inWord := Scanning(tokens, Gap), Scanning(tokens, InWord(argument, !IsPlain(argument)));
    RunConcat(gap, ShellQuote(argument) + " ", rest);
    RunConcat(gap, ShellQuote(argument), " ");
    QuotedRun(tokens, argument);
    assert " "[1..] == "";
    assert Run(inWord, " ") == Run(Step(inWord, ' '), "");
  }

  lemma {:induction false} RenderRun(tokens: seq<Token>, argv: seq<string>)
    requires argv != []
    ensures var last := |argv| - 1;
            Run(Scanning(tokens, Gap), Render(argv))
            == Scanning(tokens + WordsOf(argv[..last]), InWord(argv[last], !IsPlain(argv[last])))
    decreases |argv|
  {
    if |argv| == 1 {
      QuotedRun(tokens, argv[0]);
      assert tokens + WordsOf(argv[..0]) == tokens;
    } else {
      var rest := argv[1..];
      var next := tokens + [WordOf(argv[0])];
      WordRun(tokens, argv[0], Render(rest));
      RenderRun(next, rest);
      assert next + WordsOf(rest[..|rest| - 1]) == tokens + WordsOf(argv[..|argv| - 1]);
    }
  }

  /** A printed recovery action reads as `cd`, the directory, one `&&`, and the argument vector,
      word for word, whatever characters they hold. */
  lemma DisplayReadsBack(action: RecoveryAction)
    ensures Tokenize(action.Display()) ==
            Tokens([Word("cd", false), WordOf(action.cwd), AndIf] + WordsOf(action.argv))
  {
    hide Run, Step, ShellQuote, Render, IsPlain;
    var front := "cd " + ShellQuote(action.cwd) + " && ";
    var read := [Word("cd", false), WordOf(action.cwd), AndIf];
    assert action.Display() == front + Render(action.argv);
    RunConcat(Scanning([], Gap), front, Render(action.argv));
    FrontRun(action.cwd);
    RenderRun(read, action.argv);
    var last := |action.argv| - 1;
    assert WordsOf(action.argv) == WordsOf(action.argv[..last]) + [WordOf(action.argv[last])];
    assert read + WordsOf(action.argv[..last]) + [WordOf(action.argv[last])] == read + WordsOf(action.argv);
  }

  lemma FrontRun(cwd: string)
    ensures Run(Scanning([], Gap), "cd " + ShellQuote(cwd) + " && ")
            == Scanning([Word("cd", false), WordOf(cwd), AndIf], Gap)
  {
    var start, cd := Scanning([], Gap), [Word("cd", false)];
    RunConcat(start, "cd " + ShellQuote(cwd), " && ");
    RunConcat(start, "cd ", ShellQuote(cwd));
    CdRun();
    QuotedRun(cd, cwd);
    AndRun(cd, cwd, !IsPlain(cwd));
    assert cd + [WordOf(cwd)] + [AndIf] == [Word("cd", false), WordOf(cwd), AndIf];
  }

  lemma CdRun()
    ensures Run(Scanning([], Gap), "cd ") == Scanning([Word("cd", false)], Gap)
  {
    assert "cd "[1..] == "d " && "d "[1..] == " " && " "[1..] == "";
    assert Run(Scanning([], InWord("cd", false)), " ") == Scanning([Word("cd", false)], Gap);
    assert "c" + "d" == "cd";
  }

  lemma AndRun(tokens: seq<Token>, text: string, quoted: bool)
    ensures Run(Scanning(tokens, InWord(text, quoted)), " && ")
            == Scanning(tokens + [Word(text, quoted)] + [AndIf], Gap)
  {
    var after := tokens + [Word(text, quoted)];
    assert " && "[1..] == "&& " && "&& "[1..] == "& " && "& "[1..] == " " && " "[1..] == "";
    assert Run(Scanning(after + [AndIf], Gap), " ") == Scanning(after + [AndIf], Gap);
    assert Run(Scanning(after, AfterAmpersand), "& ") == Scanning(after + [AndIf], Gap);
    assert Run(Scanning(after, Gap), "&& ") == Scanning(after + [AndIf], Gap);
  }

  /** Two actions print alike only when they name the same directory and argument vector. */
  lemma DisplayIsInjective(a: RecoveryAction, b: RecoveryAction)
    requires a.Display() == b.Display()
    ensures a.cwd == b.cwd && a.argv == b.argv
  {
    DisplayReadsBack(a);
    DisplayReadsBack(b);
    var tokensA := [Word("cd", false), WordOf(a.cwd), AndIf] + WordsOf(a.argv);
    var tokensB := [Word("cd", false), WordOf(b.cwd), AndIf] + WordsOf(b.argv);
    assert tokensA == tokensB && tokensA[1] == tokensB[1];
    assert |a.argv| == |b.argv|;
    forall i | 0 <= i < |a.argv|
      ensures a.argv[i] == b.argv[i]
    {
      assert tokensA[3 + i] == WordOf(a.argv[i]) && tokensB[3 + i] == WordOf(b.argv[i]);
    }
  }

  // What the shell takes the first word of the command for (XCU sections 2.4 and 2.10.2).

  const RESERVED_WORDS: set<string> :=
    {"!", "{", "}", "case", "do", "done", "elif", "else", "esac", "fi", "for", "if", "in", "then", "until", "while"}

  predicate IsName(text: string) {
    && text != ""
    && !('0' <= text[0] <= '9')
    && forall c | c in text :: 'a' <= c <= 'z' || 'A' <= c <= 'Z' || '0' <= c <= '9' || c == '_'
  }

  predicate AssignsVariable(text: string) {
    exists i | 0 <= i < |text| :: text[i] == '=' && IsName(text[..i])
  }

  predicate IsCommandName(token: Token) {
    token.Word? && (token.quoted || (token.text !in RESERVED_WORDS && !AssignsVariable(token.text)))
  }

  /** What follows `cd`, the directory and `&&` is a command with the first argument for its name. */
  predicate RunsFirstWord(action: RecoveryAction) {
    match Tokenize(action.Display())
    case Tokens(tokens) => |tokens| > 3 && tokens[3].Word? && tokens[3].text == action.argv[0] && IsCommandName(tokens[3])
    case NotACommand => false
  }

  /** The shell runs the argument vector itself exactly when its first word is neither a reserved
      word printed bare nor a bare assignment. The brace and bang words are always quoted. */
  lemma FirstWordIsCommand(action: RecoveryAction)
    ensures RunsFirstWord(action) <==>
            || action.argv[0] in {"!", "{", "}"}
            || (action.argv[0] !in RESERVED_WORDS
                && !(IsPlain(action.argv[0]) && AssignsVariable(action.argv[0])))
  {
    DisplayReadsBack(action);
    var read := [Word("cd", false), WordOf(action.cwd), AndIf] + WordsOf(action.argv);
    assert read[3] == WordOf(action.argv[0]);
    if action.argv[0] in RESERVED_WORDS {
      ReservedWordIsPlain(action.argv[0]);
    }
  }

  /** `if` and `A=b` print bare, so the shell takes neither for a command. */
  lemma SomeFirstWordsAreNotCommands(cwd: string)
    ensures !RunsFirstWord(ClearSessionMapping(["if"], cwd))
    ensures !RunsFirstWord(ClearSessionMapping(["A=b"], cwd))
  {
    FirstWordIsCommand(ClearSessionMapping(["if"], cwd));
    FirstWordIsCommand(ClearSessionMapping(["A=b"], cwd));
    assert "A=b"[..1] == "A" && IsName("A");
    assert "A=b"[1] == '=' && AssignsVariable("A=b");
  }

  lemma ReservedWordIsPlain(word: string)
    requires word in RESERVED_WORDS
    ensures IsPlain(word) <==> word !in {"!", "{", "}"}
  {
    if word in {"!", "{", "}"} {
      assert word[0] in word && !IsPlainCharacter(word[0]);
    }
  }
}
