/** String operations as Rust defines them on `str`. */
module RustText {
  import opened Wrappers

  /** Unicode `White_Space`, which `trim` removes. */
  predicate IsWhitespace(c: char) {
    '\U{0009}' <= c <= '\U{000D}' || c in {' ', '\U{0085}', '\U{00A0}', '\U{1680}'}
    || '\U{2000}' <= c <= '\U{200A}' || c in {'\U{2028}', '\U{2029}', '\U{202F}', '\U{205F}', '\U{3000}'}
  }

  function TrimStart(text: string): string {
    if text != "" && IsWhitespace(text[0]) then TrimStart(text[1..]) else text
  }

  function TrimEnd(text: string): string {
    if text != "" && IsWhitespace(text[|text| - 1]) then TrimEnd(text[..|text| - 1]) else text
  }

  function Trim(text: string): string {
    TrimEnd(TrimStart(text))
  }

  function Find(text: string, c: char): Option<nat> {
    if text == "" then None
    else if text[0] == c then Some(0)
    else match Find(text[1..], c) case None => None case Some(i) => Some(i + 1)
  }

  lemma {:induction false} FindMeaning(text: string, c: char)
    ensures Find(text, c).None? <==> c !in text
    ensures Find(text, c).Some? ==>
              var i := Find(text, c).value;
              i < |text| && text[i] == c && c !in text[..i]
  {
    if text != "" && text[0] != c {
      FindMeaning(text[1..], c);
      assert text == [text[0]] + text[1..];
      if Find(text, c).Some? {
        var i := Find(text, c).value;
        assert text[..i] == [text[0]] + text[1..][..i - 1];
      }
    }
  }

  lemma {:induction false} FindAfter(before: string, c: char, after: string)
    requires c !in before
    ensures Find(before + [c] + after, c) == Some(|before|)
  {
    var text := before + [c] + after;
    if before != "" {
      assert text[0] == before[0] && text[1..] == before[1..] + [c] + after;
      assert before[0] in before && forall d | d in before[1..] :: d in before;
      FindAfter(before[1..], c, after);
    }
  }

  /** A line without the carriage return of a `\r\n` ending. */
  function StripReturn(line: string): string {
    if line != "" && line[|line| - 1] == '\r' then line[..|line| - 1] else line
  }

  /** The lines of a text; the last one may go without a line ending. */
  function Lines(text: string): seq<string>
    decreases |text|
  {
    if text == "" then []
    else
      FindMeaning(text, '\n');
      match Find(text, '\n')
      case None => [text]
      case Some(i) => [StripReturn(text[..i])] + Lines(text[i + 1..])
  }

  lemma {:induction false} LinesHoldNoNewline(text: string)
    ensures forall i | 0 <= i < |Lines(text)| :: '\n' !in Lines(text)[i]
    decreases |text|
  {
    FindMeaning(text, '\n');
    if Find(text, '\n').Some? {
      var i := Find(text, '\n').value;
      LinesHoldNoNewline(text[i + 1..]);
      assert forall c | c in StripReturn(text[..i]) :: c in text[..i];
    }
  }

  lemma LinesOfFirst(line: string, rest: string)
    requires '\n' !in line && (line != "" ==> line[|line| - 1] != '\r')
    ensures Lines(line + "\n" + rest) == [line] + Lines(rest)
  {
    var text := line + "\n" + rest;
    FindAfter(line, '\n', rest);
    assert text[..|line|] == line && text[|line| + 1..] == rest;
  }

  /** A carriage return before the line ending is no part of the line. */
  lemma LinesOfReturned(line: string, rest: string)
    requires '\n' !in line
    ensures Lines(line + "\r\n" + rest) == [line] + Lines(rest)
  {
    var text := line + "\r\n" + rest;
    assert text == (line + "\r") + "\n" + rest;
    FindAfter(line + "\r", '\n', rest);
    assert text[..|line| + 1] == line + "\r" && (line + "\r")[..|line|] == line && text[|line| + 2..] == rest;
  }

  // Trimming.

  predicate IsTrimmed(text: string) {
    text != "" && !IsWhitespace(text[0]) && !IsWhitespace(text[|text| - 1])
  }

  lemma TrimTrimmed(text: string)
    requires IsTrimmed(text)
    ensures Trim(text) == text && Trim(" " + text) == text && Trim(text + " ") == text
  {
    assert (" " + text)[1..] == text;
    assert (text + " ")[..|text|] == text;
    assert TrimStart(text + " ") == text + " ";
  }

  lemma {:induction false} TrimIsSlice(text: string)
    ensures exists i, j | 0 <= i <= j <= |text| :: Trim(text) == text[i..j]
  {
    var i := TrimStartIsSlice(text);
    var j := TrimEndIsSlice(text[i..]);
    assert Trim(text) == text[i..][..j] == text[i..i + j];
  }

  lemma {:induction false} TrimStartIsSlice(text: string) returns (i: nat)
    ensures i <= |text| && TrimStart(text) == text[i..]
  {
    i := 0;
    if text != "" && IsWhitespace(text[0]) {
      var k := TrimStartIsSlice(text[1..]);
      i := k + 1;
    }
  }

  lemma {:induction false} TrimEndIsSlice(text: string) returns (j: nat)
    ensures j <= |text| && TrimEnd(text) == text[..j]
  {
    j := |text|;
    if text != "" && IsWhitespace(text[|text| - 1]) {
      j := TrimEndIsSlice(text[..|text| - 1]);
      assert text[..|text| - 1][..j] == text[..j];
    }
  }
}
