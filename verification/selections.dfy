/** A sequence read off another at increasing positions. */
module Selections {

  /** `picked` is what `source` holds at `positions`, in order. */
  ghost predicate Picks<T>(source: seq<T>, positions: seq<nat>, picked: seq<T>) {
    && |positions| == |picked|
    && (forall i, j | 0 <= i < j < |positions| :: positions[i] < positions[j])
    && (forall i | 0 <= i < |positions| :: positions[i] < |source| && picked[i] == source[positions[i]])
  }

  lemma PicksLonger<T>(source: seq<T>, positions: seq<nat>, picked: seq<T>, last: T)
    requires Picks(source, positions, picked)
    ensures Picks(source + [last], positions, picked)
    ensures Picks(source + [last], positions + [|source|], picked + [last])
    ensures forall n: nat :: n in positions + [|source|] <==> n in positions || n == |source|
  {
  }
}
