/** Replacing every occurrence of a text in a file's bytes. */
module TextRewriting {

  type Bytes = seq<bv8>

  predicate OccursAt(contents: Bytes, from: Bytes, i: int) {
    0 <= i <= |contents| - |from| && contents[i..i + |from|] == from
  }

  predicate Contains(contents: Bytes, from: Bytes) {
    exists i | 0 <= i <= |contents| :: OccursAt(contents, from, i)
  }

  /** Every occurrence replaced, left to right and without overlap. */
  function Replaced(contents: Bytes, from: Bytes, to: Bytes): Bytes
    requires from != []
    decreases |contents|
  {
    if |contents| < |from| then contents
    else if contents[..|from|] == from then to + Replaced(contents[|from|..], from, to)
    else [contents[0]] + Replaced(contents[1..], from, to)
  }

  function Joined(pieces: seq<Bytes>, separator: Bytes): Bytes
    requires pieces != []
  {
    if |pieces| == 1 then pieces[0] else pieces[0] + separator + Joined(pieces[1..], separator)
  }

  /** Read up to the end of `piece + from`, the text occurs there and nowhere earlier. */
  ghost predicate EndsAtFirst(piece: Bytes, from: Bytes) {
    forall k | 0 <= k < |piece| :: !OccursAt(piece + from, from, k)
  }

  /** What lies between the occurrences of a text, each found from the end of the one before. */
  ghost predicate IsSplit(contents: Bytes, from: Bytes, pieces: seq<Bytes>) {
    && pieces != [] && contents == Joined(pieces, from)
    && (forall i | 0 <= i < |pieces| - 1 :: EndsAtFirst(pieces[i], from))
    && !Contains(pieces[|pieces| - 1], from)
  }

  /** Each occurrence of one text gives way to the other, and all between them stays. */
  ghost predicate Replaces(before: Bytes, after: Bytes, from: Bytes, to: Bytes) {
    exists pieces :: IsSplit(before, from, pieces) && after == Joined(pieces, to)
  }

  lemma {:induction false} WithoutOccurrence(contents: Bytes, from: Bytes, to: Bytes)
    requires from != [] && !Contains(contents, from)
    ensures Replaced(contents, from, to) == contents
    decreases |contents|
  {
    if |from| <= |contents| {
      assert !OccursAt(contents, from, 0);
      NoneInTail(contents, from);
      WithoutOccurrence(contents[1..], from, to);
    }
  }

  lemma OccursInTail(contents: Bytes, from: Bytes, k: nat)
    requires contents != []
    ensures OccursAt(contents[1..], from, k) <==> OccursAt(contents, from, k + 1)
  {
    if k + 1 + |from| <= |contents| {
      assert contents[1..][k..k + |from|] == contents[k + 1..k + 1 + |from|];
    }
  }

  lemma NoneInTail(contents: Bytes, from: Bytes)
    requires contents != [] && !Contains(contents, from)
    ensures !Contains(contents[1..], from)
  {
    if i :| 0 <= i <= |contents[1..]| && OccursAt(contents[1..], from, i) {
      OccursInTail(contents, from, i);
    }
  }

  lemma FirstIsLater(piece: Bytes, from: Bytes)
    requires piece != [] && EndsAtFirst(piece, from)
    ensures EndsAtFirst(piece[1..], from)
    ensures (piece + from)[..|from|] != from
  {
    assert !OccursAt(piece + from, from, 0);
    assert (piece + from)[1..] == piece[1..] + from;
    forall k | 0 <= k < |piece[1..]|
      ensures !OccursAt(piece[1..] + from, from, k)
    {
      assert !OccursAt(piece + from, from, k + 1);
      OccursInTail(piece + from, from, k);
    }
  }

  /** After the first piece and the occurrence that ends it, the other pieces split the rest. */
  lemma SplitAfterFirst(contents: Bytes, from: Bytes, pieces: seq<Bytes>)
    requires IsSplit(contents, from, pieces) && |pieces| > 1
    ensures contents == pieces[0] + from + Joined(pieces[1..], from)
    ensures IsSplit(Joined(pieces[1..], from), from, pieces[1..]) && EndsAtFirst(pieces[0], from)
  {
    assert forall i | 0 <= i < |pieces[1..]| :: pieces[1..][i] == pieces[i + 1];
  }

  lemma SplitInFirst(contents: Bytes, from: Bytes, pieces: seq<Bytes>)
    requires from != [] && IsSplit(contents, from, pieces) && |pieces| > 1 && pieces[0] != []
    ensures |from| <= |contents| && contents[..|from|] != from
    ensures IsSplit(contents[1..], from, [pieces[0][1..]] + pieces[1..])
  {
    var piece, tail := pieces[0], Joined(pieces[1..], from);
    SplitAfterFirst(contents, from, pieces);
    FirstIsLater(piece, from);
    assert contents[..|from|] == (piece + from)[..|from|];
    var shorter := [piece[1..]] + pieces[1..];
    assert shorter[1..] == pieces[1..];
    assert contents[1..] == piece[1..] + from + tail == Joined(shorter, from);
    assert forall i | 1 <= i < |shorter| :: shorter[i] == pieces[i];
  }

  lemma JoinedFirst(pieces: seq<Bytes>, separator: Bytes)
    requires pieces != []
    ensures |pieces| == 1 ==> Joined(pieces, separator) == pieces[0]
    ensures |pieces| > 1 ==> Joined(pieces, separator) == pieces[0] + separator + Joined(pieces[1..], separator)
  {
  }

  lemma SplitIsNotEmpty(contents: Bytes, from: Bytes, pieces: seq<Bytes>)
    requires IsSplit(contents, from, pieces)
    ensures pieces != []
    ensures |pieces| == 1 ==> contents == pieces[0] && !Contains(contents, from)
  {
  }

  /** However a text is split at the occurrences, replacing joins the pieces by the new text. */
  lemma {:induction false} ReplacedJoins(contents: Bytes, from: Bytes, to: Bytes, pieces: seq<Bytes>)
    requires from != [] && IsSplit(contents, from, pieces)
    ensures Replaced(contents, from, to) == Joined(pieces, to)
    decreases |contents|
  {
    hide IsSplit, EndsAtFirst, Contains, Joined;
    SplitIsNotEmpty(contents, from, pieces);
    JoinedFirst(pieces, to);
    if |pieces| == 1 {
      WithoutOccurrence(contents, from, to);
    } else {
      var piece, rest := pieces[0], pieces[1..];
      SplitAfterFirst(contents, from, pieces);
      if piece == [] {
        var tail := Joined(rest, from);
        assert contents[..|from|] == from && contents[|from|..] == tail;
        ReplacedJoins(tail, from, to, rest);
        assert piece + to + Joined(rest, to) == to + Joined(rest, to);
      } else {
        SplitInFirst(contents, from, pieces);
        var shorter := [piece[1..]] + rest;
        ReplacedJoins(contents[1..], from, to, shorter);
        JoinedFirst(shorter, to);
        assert shorter[1..] == rest && contents[0] == piece[0];
        assert [piece[0]] + (piece[1..] + to + Joined(rest, to)) == piece + to + Joined(rest, to);
      }
    }
  }

  /** Every text can be split so. */
  lemma {:induction false} SplitExists(contents: Bytes, from: Bytes) returns (pieces: seq<Bytes>)
    requires from != []
    ensures IsSplit(contents, from, pieces)
    decreases |contents|
  {
    if |contents| < |from| {
      pieces := [contents];
    } else if contents[..|from|] == from {
      var rest := SplitExists(contents[|from|..], from);
      pieces := [[]] + rest;
      assert pieces[1..] == rest;
      assert contents == [] + from + contents[|from|..];
    } else {
      var rest := SplitExists(contents[1..], from);
      pieces := LongerFirst(contents, from, rest);
    }
  }

  lemma LongerFirst(contents: Bytes, from: Bytes, rest: seq<Bytes>) returns (pieces: seq<Bytes>)
    requires 0 < |from| <= |contents| && contents[..|from|] != from && IsSplit(contents[1..], from, rest)
    ensures IsSplit(contents, from, pieces)
  {
    var first := [contents[0]] + rest[0];
    pieces := [first] + rest[1..];
    assert first[1..] == rest[0];
    if |rest| == 1 {
      assert contents == first;
      forall i | 0 <= i <= |contents|
        ensures !OccursAt(contents, from, i)
      {
        if i > 0 {
          OccursInTail(contents, from, i - 1);
        }
      }
    } else {
      var tail := Joined(rest[1..], from);
      assert contents[1..] == rest[0] + from + tail;
      assert contents == first + from + tail;
      assert EndsAtFirst(rest[0], from);
      forall k | 0 <= k < |first|
        ensures !OccursAt(first + from, from, k)
      {
        if k == 0 {
          assert (first + from)[..|from|] == contents[..|from|];
        } else {
          assert !OccursAt(rest[0] + from, from, k - 1);
          assert (first + from)[1..] == rest[0] + from;
          OccursInTail(first + from, from, k - 1);
        }
      }
      assert forall i | 1 <= i < |pieces| :: pieces[i] == rest[i];
    }
  }

  /** Replacing is the only way to exchange exactly the occurrences. */
  lemma ReplacedExactly(contents: Bytes, from: Bytes, to: Bytes)
    requires from != []
    ensures forall after :: Replaces(contents, after, from, to) <==> after == Replaced(contents, from, to)
  {
    var pieces := SplitExists(contents, from);
    ReplacedJoins(contents, from, to, pieces);
    forall after | Replaces(contents, after, from, to)
      ensures after == Replaced(contents, from, to)
    {
      var others :| IsSplit(contents, from, others) && after == Joined(others, to);
      ReplacedJoins(contents, from, to, others);
    }
  }
}
