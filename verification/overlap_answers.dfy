/** Pairing each holder named on the command line with the order its flag chose. */
module OverlapAnswers {
  import opened Selections
  import opened Wrappers

  type Id = nat

  datatype Direction = RequesterBeforeHolder | HolderBeforeRequester

  datatype SequencedBlocker = SequencedBlocker(blocker: Id, direction: Direction)

  datatype Refusal = NamedBothWays(holder: Id)

  function Flagged(ids: seq<Id>, direction: Direction): (named: seq<SequencedBlocker>)
    ensures |named| == |ids|
    ensures forall i | 0 <= i < |ids| :: named[i] == SequencedBlocker(ids[i], direction)
  {
    seq(|ids|, i requires 0 <= i < |ids| => SequencedBlocker(ids[i], direction))
  }

  /** Every mention in the order the pairing reads them: all `--before` holders, then `--after`. */
  function Mentions(before: seq<Id>, after: seq<Id>): seq<SequencedBlocker> {
    Flagged(before, RequesterBeforeHolder) + Flagged(after, HolderBeforeRequester)
  }

  /** The first mention of each holder, in order. */
  function FirstMentions(mentions: seq<SequencedBlocker>): seq<SequencedBlocker> {
    if mentions == [] then []
    else
      var front, last := mentions[..|mentions| - 1], mentions[|mentions| - 1];
      FirstMentions(front) + if Names(front, last.blocker) then [] else [last]
  }

  predicate Names(mentions: seq<SequencedBlocker>, holder: Id) {
    exists i | 0 <= i < |mentions| :: mentions[i].blocker == holder
  }

  /** `i` is where its holder is first named. */
  ghost predicate IsFirst(mentions: seq<SequencedBlocker>, i: nat) {
    i < |mentions| && forall j | 0 <= j < i :: mentions[j].blocker != mentions[i].blocker
  }

  /** The first mentions are exactly those, in order and once each. */
  lemma {:induction false} FirstMentionsInOrder(mentions: seq<SequencedBlocker>) returns (positions: seq<nat>)
    ensures Picks(mentions, positions, FirstMentions(mentions))
    ensures forall n: nat :: n in positions <==> IsFirst(mentions, n)
  {
    positions := [];
    if mentions != [] {
      var front, last := mentions[..|mentions| - 1], mentions[|mentions| - 1];
      var earlier := FirstMentionsInOrder(front);
      assert mentions == front + [last];
      PicksLonger(front, earlier, FirstMentions(front), last);
      FirstOfLonger(front, last);
      positions := if Names(front, last.blocker) then earlier else earlier + [|front|];
    }
  }

  lemma FirstOfLonger(front: seq<SequencedBlocker>, last: SequencedBlocker)
    ensures forall n: nat :: n != |front| ==> (IsFirst(front + [last], n) <==> IsFirst(front, n))
    ensures IsFirst(front + [last], |front|) <==> !Names(front, last.blocker)
  {
    var mentions := front + [last];
    forall n: nat | n != |front|
      ensures IsFirst(mentions, n) <==> IsFirst(front, n)
    {
      if n < |front| {
        assert mentions[n] == front[n];
        assert forall j | 0 <= j < n :: mentions[j] == front[j];
      }
    }
    assert mentions[|front|] == last;
    assert forall j | 0 <= j < |front| :: mentions[j] == front[j];
  }

  lemma {:induction false} FirstMentionsName(mentions: seq<SequencedBlocker>, holder: Id)
    ensures Names(FirstMentions(mentions), holder) <==> Names(mentions, holder)
  {
    if mentions != [] {
      var front, last := mentions[..|mentions| - 1], mentions[|mentions| - 1];
      var firsts := FirstMentions(front);
      FirstMentionsName(front, holder);
      FirstMentionsName(front, last.blocker);
      if i :| 0 <= i < |mentions| && mentions[i].blocker == holder {
        assert i < |front| ==> front[i].blocker == holder;
      }
      if i :| 0 <= i < |firsts| && firsts[i].blocker == holder {
        assert FirstMentions(mentions)[i].blocker == holder;
        var k :| 0 <= k < |front| && front[k].blocker == holder;
        assert mentions[k].blocker == holder;
      }
      if !Names(front, last.blocker) {
        assert FirstMentions(mentions)[|firsts|] == last;
      }
    }
  }

  /** Pair every named holder with its flag's order, once per holder; a holder named by both flags
      is refused. */
  method SequencedBlockers(before: seq<Id>, after: seq<Id>) returns (r: Result<seq<SequencedBlocker>, Refusal>)
    ensures r.Ok? <==> forall id | id in before :: id !in after
    ensures r.Ok? ==> r.value == FirstMentions(Mentions(before, after))
    ensures r.Err? ==> r.error.holder in before && r.error.holder in after
  {
    var named := Mentions(before, after);
    var blockers: seq<SequencedBlocker> := [];
    for n := 0 to |named|
      invariant blockers == FirstMentions(named[..n])
      invariant forall i, j | 0 <= i < n && 0 <= j < n && named[i].blocker == named[j].blocker :: named[i] == named[j]
    {
      assert named[..n + 1][..n] == named[..n];
      FirstMentionsName(named[..n], named[n].blocker);
      ghost var positions := FirstMentionsInOrder(named[..n]);
      var found := Recorded(blockers, named[n].blocker);
      if found < |blockers| {
        assert named[..n][positions[found]] == named[positions[found]] == blockers[found];
        if blockers[found].direction != named[n].direction {
          BothWays(before, after, positions[found], n);
          return Err(NamedBothWays(named[n].blocker));
        }
      } else {
        blockers := blockers + [named[n]];
        assert forall i | 0 <= i < n :: named[..n][i] == named[i];
      }
    }
    assert named[..|named|] == named;
    forall id | id in before
      ensures id !in after
    {
      if id in after {
        NamedBothWaysDisagrees(before, after, id);
      }
    }
    return Ok(blockers);
  }

  /** Where a holder is already recorded, or the length when it is not. */
  method Recorded(blockers: seq<SequencedBlocker>, holder: Id) returns (i: nat)
    ensures i <= |blockers|
    ensures i < |blockers| ==> blockers[i].blocker == holder
    ensures i == |blockers| <==> !Names(blockers, holder)
  {
    i := 0;
    while i < |blockers|
      invariant i <= |blockers|
      invariant forall k | 0 <= k < i :: blockers[k].blocker != holder
    {
      if blockers[i].blocker == holder {
        return;
      }
      i := i + 1;
    }
  }

  lemma BothWays(before: seq<Id>, after: seq<Id>, i: nat, j: nat)
    requires i < |Mentions(before, after)| && j < |Mentions(before, after)|
    requires Mentions(before, after)[i].blocker == Mentions(before, after)[j].blocker
    requires Mentions(before, after)[i].direction != Mentions(before, after)[j].direction
    ensures Mentions(before, after)[i].blocker in before && Mentions(before, after)[i].blocker in after
  {
  }

  lemma NamedBothWaysDisagrees(before: seq<Id>, after: seq<Id>, id: Id)
    requires id in before && id in after
    ensures var named := Mentions(before, after);
            exists i, j | 0 <= i < j < |named| :: named[i].blocker == named[j].blocker && named[i] != named[j]
  {
    var i :| 0 <= i < |before| && before[i] == id;
    var j :| 0 <= j < |after| && after[j] == id;
    var named := Mentions(before, after);
    assert named[i].blocker == named[|before| + j].blocker;
  }

  /** When no holder is named both ways, the answer holds exactly what the flags said, each holder
      once. */
  lemma AnswerIsWhatWasNamed(before: seq<Id>, after: seq<Id>)
    requires forall id | id in before :: id !in after
    ensures var answer := FirstMentions(Mentions(before, after));
            && (forall i, j | 0 <= i < j < |answer| :: answer[i].blocker != answer[j].blocker)
            && (forall id :: SequencedBlocker(id, RequesterBeforeHolder) in answer <==> id in before)
            && (forall id :: SequencedBlocker(id, HolderBeforeRequester) in answer <==> id in after)
  {
    var named := Mentions(before, after);
    var answer := FirstMentions(named);
    var positions := FirstMentionsInOrder(named);
    forall i, j | 0 <= i < j < |answer|
      ensures answer[i].blocker != answer[j].blocker
    {
      assert IsFirst(named, positions[j]);
    }
    forall id, direction
      ensures SequencedBlocker(id, direction) in answer <==> SequencedBlocker(id, direction) in named
    {
      MentionedOneWay(before, after, id, direction);
    }
    MentionsAreTheFlags(before, after);
  }

  lemma MentionsAreTheFlags(before: seq<Id>, after: seq<Id>)
    ensures forall id :: SequencedBlocker(id, RequesterBeforeHolder) in Mentions(before, after) <==> id in before
    ensures forall id :: SequencedBlocker(id, HolderBeforeRequester) in Mentions(before, after) <==> id in after
  {
    var named := Mentions(before, after);
    forall i | 0 <= i < |before|
      ensures SequencedBlocker(before[i], RequesterBeforeHolder) in named
    {
      assert named[i] == SequencedBlocker(before[i], RequesterBeforeHolder);
    }
    forall i | 0 <= i < |after|
      ensures SequencedBlocker(after[i], HolderBeforeRequester) in named
    {
      assert named[|before| + i] == SequencedBlocker(after[i], HolderBeforeRequester);
    }
  }

  lemma MentionedOneWay(before: seq<Id>, after: seq<Id>, id: Id, direction: Direction)
    requires forall id | id in before :: id !in after
    ensures var blocker := SequencedBlocker(id, direction);
            blocker in FirstMentions(Mentions(before, after)) <==> blocker in Mentions(before, after)
  {
    var named := Mentions(before, after);
    var answer := FirstMentions(named);
    var blocker := SequencedBlocker(id, direction);
    var positions := FirstMentionsInOrder(named);
    FirstMentionsName(named, id);
    if blocker in answer {
      var i :| 0 <= i < |answer| && answer[i] == blocker;
      assert named[positions[i]] == blocker;
    }
    if blocker in named {
      var k :| 0 <= k < |named| && named[k] == blocker;
      var i :| 0 <= i < |answer| && answer[i].blocker == id;
      assert named[positions[i]] == answer[i];
      MentionsAreTheFlags(before, after);
      assert named[k] in named && named[positions[i]] in named;
    }
  }

  /** The answer is read off the flags' own lists, `--before` first: each place where a holder has not
      been named before, with the order that place's flag chose. */
  lemma AnswerFollowsTheFlags(before: seq<Id>, after: seq<Id>) returns (positions: seq<nat>)
    ensures var answer, ids := FirstMentions(Mentions(before, after)), before + after;
            && |positions| == |answer|
            && (forall i, j | 0 <= i < j < |positions| :: positions[i] < positions[j])
            && (forall n: nat :: n in positions <==> n < |ids| && ids[n] !in ids[..n])
            && (forall i | 0 <= i < |positions| ::
                  && positions[i] < |ids|
                  && answer[i] == SequencedBlocker(ids[positions[i]], if positions[i] < |before| then RequesterBeforeHolder
                                                                      else HolderBeforeRequester))
  {
    var named, ids := Mentions(before, after), before + after;
    positions := FirstMentionsInOrder(named);
    assert forall n | 0 <= n < |ids| :: named[n] == SequencedBlocker(ids[n], if n < |before| then RequesterBeforeHolder
                                                                          else HolderBeforeRequester);
    forall n: nat | n < |ids|
      ensures IsFirst(named, n) <==> ids[n] !in ids[..n]
    {
      assert forall j | 0 <= j < n :: ids[..n][j] == ids[j] == named[j].blocker;
    }
  }
}
