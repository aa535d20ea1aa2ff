/** The once-only template build: processes share a build directory, check a completion mark
    without the build lock, and take the lock to build. Any of them may crash at any step. */
module BuildProtocol {
  import opened Wrappers

  /** Names one build: what was built by which binaries. */
  type Key = nat

  /** One build's directory: absent, built so far, or partly deleted. */
  datatype Root = Absent | Built(steps: nat) | Damaged

  /** The entries of the build directory besides the lock file. */
  datatype Entry = RootOf(key: Key) | MarkOf(key: Key)

  /** Where a process stands in `built_root`. */
  datatype Pc =
    | Unchecked
    | AwaitingLock
    | Locked
    | Sweeping(doomed: set<Entry>)
    | Creating
    | Building
    | Marking
    | Releasing
    | Returned
    | Crashed

  /** The key each process wants, and how many steps a whole build takes. */
  datatype Setting = Setting(keys: seq<Key>, steps: nat)

  /** `finished` counts builds run to their end, `marked` those recorded complete, and `lost` those
      whose process crashed in between. */
  datatype State = State(
    pcs: seq<Pc>,
    lock: Option<nat>,
    roots: map<Key, Root>,
    marks: set<Key>,
    finished: nat,
    marked: nat,
    lost: nat)

  datatype Action =
    | Check(p: nat)
    | TakeLock(p: nat)
    | Recheck(p: nat)
    | Damage(p: nat, key: Key)
    | Remove(p: nat, entry: Entry)
    | EndSweep(p: nat)
    | Create(p: nat)
    | BuildStep(p: nat)
    | Finish(p: nat)
    | Mark(p: nat)
    | Release(p: nat)
    | Crash(p: nat)

  function RootAt(s: State, key: Key): Root {
    if key in s.roots then s.roots[key] else Absent
  }

  function Entries(s: State): set<Entry> {
    (set key | key in s.roots && s.roots[key] != Absent :: RootOf(key)) + (set key | key in s.marks :: MarkOf(key))
  }

  predicate Enabled(c: Setting, s: State, a: Action) {
    && a.p < |c.keys| == |s.pcs|
    && var pc := s.pcs[a.p];
       match a
       case Check(_) => pc == Unchecked
       case TakeLock(_) => pc == AwaitingLock && s.lock.None?
       case Recheck(_) => pc == Locked
       case Damage(_, key) => pc.Sweeping? && RootOf(key) in pc.doomed && RootAt(s, key) != Absent
       case Remove(_, entry) => pc.Sweeping? && entry in pc.doomed
       case EndSweep(_) => pc == Sweeping({})
       case Create(_) => pc == Creating
       case BuildStep(_) =>
         pc == Building && RootAt(s, c.keys[a.p]).Built? && RootAt(s, c.keys[a.p]).steps < c.steps
       case Finish(_) => pc == Building && RootAt(s, c.keys[a.p]) == Built(c.steps)
       case Mark(_) => pc == Marking
       case Release(_) => pc == Releasing
       case Crash(_) => pc !in {Returned, Crashed}
  }

  function To(s: State, p: nat, pc: Pc): State
    requires p < |s.pcs|
  {
    s.(pcs := s.pcs[p := pc])
  }

  /** A panic or a kill: the operating system drops the lock. */
  function Crashes(s: State, p: nat): State
    requires p < |s.pcs|
  {
    var lock := if s.lock == Some(p) then None else s.lock;
    var lost := if s.pcs[p] == Marking then s.lost + 1 else s.lost;
    To(s, p, Crashed).(lock := lock, lost := lost)
  }

  function Apply(c: Setting, s: State, a: Action): State
    requires Enabled(c, s, a)
  {
    var p := a.p;
    var key := c.keys[p];
    match a
    case Check(_) => To(s, p, if key in s.marks then Returned else AwaitingLock)
    case TakeLock(_) => To(s, p, Locked).(lock := Some(p))
    case Recheck(_) => To(s, p, if key in s.marks then Releasing else Sweeping(Entries(s)))
    case Damage(_, doomed) => s.(roots := s.roots[doomed := Damaged])
    case Remove(_, entry) =>
      var swept := To(s, p, Sweeping(s.pcs[p].doomed - {entry}));
      if entry.RootOf? then swept.(roots := s.roots - {entry.key}) else swept.(marks := s.marks - {entry.key})
    case EndSweep(_) => To(s, p, Creating)
    case Create(_) =>
      // `create_dir` panics on an existing directory.
      if RootAt(s, key) != Absent then Crashes(s, p)
      else To(s, p, Building).(roots := s.roots[key := Built(0)])
    case BuildStep(_) => s.(roots := s.roots[key := Built(RootAt(s, key).steps + 1)])
    case Finish(_) => To(s, p, Marking).(finished := s.finished + 1)
    case Mark(_) => To(s, p, Releasing).(marks := s.marks + {key}, marked := s.marked + 1)
    case Release(_) => To(s, p, Returned).(lock := None)
    case Crash(_) => Crashes(s, p)
  }

  /** A fresh set of processes over whatever earlier runs left behind, complete builds intact. */
  ghost predicate Initial(c: Setting, s: State) {
    && |s.pcs| == |c.keys| && (forall p | 0 <= p < |s.pcs| :: s.pcs[p] == Unchecked)
    && s.lock.None?
    && (forall key | key in s.marks :: RootAt(s, key) == Built(c.steps))
    && s.finished == s.marked == s.lost == 0
  }

  ghost predicate Runs(c: Setting, s: State, actions: seq<Action>)
    decreases |actions|
  {
    actions == [] || (Enabled(c, s, actions[0]) && Runs(c, Apply(c, s, actions[0]), actions[1..]))
  }

  ghost function After(c: Setting, s: State, actions: seq<Action>): State
    requires Runs(c, s, actions)
    decreases |actions|
  {
    if actions == [] then s else After(c, Apply(c, s, actions[0]), actions[1..])
  }

  /** Every process that has returned still finds its root whole. */
  ghost predicate Safe(c: Setting, s: State) {
    |s.pcs| == |c.keys| &&
    forall p | 0 <= p < |s.pcs| && s.pcs[p] == Returned :: RootAt(s, c.keys[p]) == Built(c.steps)
  }

  ghost predicate OneKey(c: Setting, key: Key) {
    forall p | 0 <= p < |c.keys| :: c.keys[p] == key
  }

  predicate HoldsLock(pc: Pc) {
    pc.Locked? || pc.Sweeping? || pc.Creating? || pc.Building? || pc.Marking? || pc.Releasing?
  }

  /** What a lock holder's position says about the build directory. */
  ghost predicate HolderInv(c: Setting, s: State, key: Key, pc: Pc) {
    match pc
    case Sweeping(doomed) =>
      key !in s.marks && MarkOf(key) !in doomed && (RootAt(s, key) != Absent ==> RootOf(key) in doomed)
    case Creating => key !in s.marks && RootAt(s, key) == Absent
    case Building => key !in s.marks && RootAt(s, key).Built? && RootAt(s, key).steps <= c.steps
    case Marking => key !in s.marks && RootAt(s, key) == Built(c.steps)
    case Releasing => key in s.marks
    case _ => true
  }

  function InMarking(s: State): nat {
    if s.lock.Some? && s.lock.value < |s.pcs| && s.pcs[s.lock.value] == Marking then 1 else 0
  }

  ghost predicate Inv(c: Setting, s: State, key: Key) {
    && |s.pcs| == |c.keys| && OneKey(c, key)
    && (s.lock.Some? ==> s.lock.value < |s.pcs| && HoldsLock(s.pcs[s.lock.value]))
    && (forall p | 0 <= p < |s.pcs| && HoldsLock(s.pcs[p]) :: s.lock == Some(p))
    && (forall p | 0 <= p < |s.pcs| :: HolderInv(c, s, key, s.pcs[p]))
    && (key in s.marks ==> RootAt(s, key) == Built(c.steps))
    && (forall p | 0 <= p < |s.pcs| && s.pcs[p] == Returned :: key in s.marks)
    && (s.marked > 0 ==> key in s.marks)
    && s.marked <= 1
    && s.finished == s.marked + s.lost + InMarking(s)
  }

  lemma InitialInv(c: Setting, s: State, key: Key)
    requires Initial(c, s) && OneKey(c, key)
    ensures Inv(c, s, key)
  {
  }

  /** Every step keeps the invariant, never removes the mark, and never finds a leftover root to
      create over. */
  lemma StepKeepsInv(c: Setting, s: State, a: Action, key: Key)
    requires Inv(c, s, key) && Enabled(c, s, a)
    ensures Inv(c, Apply(c, s, a), key)
    ensures key in s.marks ==> key in Apply(c, s, a).marks
    ensures a.Create? ==> RootAt(s, key) == Absent
  {
    assert c.keys[a.p] == key && HolderInv(c, s, key, s.pcs[a.p]);
    if a.Recheck? {
      assert RootAt(s, key) != Absent ==> RootOf(key) in Entries(s);
    } else if a.Damage? || a.Remove? {
      SweepKeepsInv(c, s, a, key);
    }
  }

  lemma SweepKeepsInv(c: Setting, s: State, a: Action, key: Key)
    requires Inv(c, s, key) && Enabled(c, s, a) && (a.Damage? || a.Remove?)
    ensures Inv(c, Apply(c, s, a), key) && (key in s.marks <==> key in Apply(c, s, a).marks)
  {
  }

  lemma {:induction false} RunKeepsInv(c: Setting, s: State, actions: seq<Action>, key: Key)
    requires Inv(c, s, key) && Runs(c, s, actions)
    ensures Inv(c, After(c, s, actions), key)
    ensures key in s.marks ==> key in After(c, s, actions).marks
    decreases |actions|
  {
    if actions != [] {
      StepKeepsInv(c, s, actions[0], key);
      RunKeepsInv(c, Apply(c, s, actions[0]), actions[1..], key);
    }
  }

  /** When every process wants the same build, every returned root stays whole through every run,
      a written mark is never removed, and at most one build is recorded complete. A build is run
      to its end again only after a process that had finished one crashed before recording it. */
  lemma OnceOnly(c: Setting, key: Key, s: State, actions: seq<Action>, more: seq<Action>)
    requires OneKey(c, key) && Initial(c, s) && Runs(c, s, actions)
    requires Runs(c, After(c, s, actions), more)
    ensures var t := After(c, s, actions);
            var u := After(c, t, more);
            && Safe(c, t) && Safe(c, u)
            && (key in t.marks ==> key in u.marks)
            && u.marked <= 1
            && u.marked + u.lost <= u.finished <= 1 + u.lost
  {
    InitialInv(c, s, key);
    RunKeepsInv(c, s, actions, key);
    RunKeepsInv(c, After(c, s, actions), more, key);
  }

  // Processes that want different builds.

  ghost predicate Reaches(c: Setting, s: State, t: State) {
    exists actions :: Runs(c, s, actions) && After(c, s, actions) == t
  }

  lemma {:induction false} RunExtends(c: Setting, s: State, actions: seq<Action>, a: Action)
    requires Runs(c, s, actions) && Enabled(c, After(c, s, actions), a)
    ensures Runs(c, s, actions + [a])
    ensures After(c, s, actions + [a]) == Apply(c, After(c, s, actions), a)
    decreases |actions|
  {
    var longer := actions + [a];
    if actions == [] {
      assert longer == [a] && longer[1..] == [];
    } else {
      assert longer[0] == actions[0] && longer[1..] == actions[1..] + [a];
      RunExtends(c, Apply(c, s, actions[0]), actions[1..], a);
    }
  }

  lemma ReachesNext(c: Setting, s: State, t: State, a: Action)
    requires Reaches(c, s, t) && Enabled(c, t, a)
    ensures Reaches(c, s, Apply(c, t, a))
  {
    var actions :| Runs(c, s, actions) && After(c, s, actions) == t;
    RunExtends(c, s, actions, a);
  }

  /** The lock holder can carry its build from any step to the end. */
  lemma {:induction false} BuildRunsToEnd(c: Setting, s: State, t: State, p: nat) returns (end: State)
    requires Reaches(c, s, t) && p < |c.keys| == |t.pcs| && t.pcs[p] == Building
    requires RootAt(t, c.keys[p]).Built? && RootAt(t, c.keys[p]).steps <= c.steps
    ensures Reaches(c, s, end)
    ensures end == t.(roots := t.roots[c.keys[p] := Built(c.steps)])
    decreases c.steps - RootAt(t, c.keys[p]).steps
  {
    hide Reaches, Runs, After;
    if RootAt(t, c.keys[p]).steps == c.steps {
      end := t;
      assert t.roots == t.roots[c.keys[p] := Built(c.steps)];
    } else {
      ReachesNext(c, s, t, BuildStep(p));
      var next := Apply(c, t, BuildStep(p));
      end := BuildRunsToEnd(c, s, next, p);
      assert next.roots[c.keys[p] := Built(c.steps)] == t.roots[c.keys[p] := Built(c.steps)];
    }
  }

  function Fresh(c: Setting): State {
    State(seq(|c.keys|, i => Unchecked), None, map[], {}, 0, 0, 0)
  }

  /** What one build left behind, if anything: its root, with or without a mark. */
  ghost predicate Leftover(t: State, key: Key) {
    && t.roots.Keys <= {key} && t.marks <= {key}
    && (key in t.roots ==> t.roots[key] != Absent)
    && (key in t.marks ==> key in t.roots)
  }

  /** A process alone with a leftover sweeps it away, unless it is its own build complete. */
  lemma SweepsLeftover(c: Setting, s: State, t: State, p: nat, key: Key) returns (u: State)
    requires Reaches(c, s, t) && p < |c.keys| == |t.pcs| && t.pcs[p] == Unchecked && t.lock.None?
    requires Leftover(t, key) && c.keys[p] !in t.marks
    ensures Reaches(c, s, u)
    ensures u == t.(pcs := t.pcs[p := Creating], lock := Some(p), roots := map[], marks := {})
  {
    hide Reaches, Runs, After;
    ReachesNext(c, s, t, Check(p));
    u := Apply(c, t, Check(p));
    ReachesNext(c, s, u, TakeLock(p));
    u := Apply(c, u, TakeLock(p));
    assert u == t.(pcs := t.pcs[p := Locked], lock := Some(p));
    u := SweepsEntries(c, s, t, u, p, key);
    ReachesNext(c, s, u, EndSweep(p));
    u := Apply(c, u, EndSweep(p));
    assert u.pcs == t.pcs[p := Creating];
  }

  lemma SweepsEntries(c: Setting, s: State, t: State, locked: State, p: nat, key: Key) returns (u: State)
    requires Reaches(c, s, locked) && p < |c.keys| == |t.pcs|
    requires locked == t.(pcs := t.pcs[p := Locked], lock := Some(p))
    requires Leftover(t, key) && c.keys[p] !in t.marks
    ensures Reaches(c, s, u)
    ensures u == t.(pcs := t.pcs[p := Sweeping({})], lock := Some(p), roots := map[], marks := {})
  {
    hide Reaches, Runs, After;
    LeftoverEntries(locked, key);
    var root: set<Entry> := if key in t.roots then {RootOf(key)} else {};
    var mark: set<Entry> := if key in t.marks then {MarkOf(key)} else {};
    ReachesNext(c, s, locked, Recheck(p));
    u := Apply(c, locked, Recheck(p));
    assert u.pcs == t.pcs[p := Sweeping(root + mark)];
    if key in t.marks {
      assert root + mark - {MarkOf(key)} == root && t.marks - {key} == {};
      ReachesNext(c, s, u, Remove(p, MarkOf(key)));
      u := Apply(c, u, Remove(p, MarkOf(key)));
    } else {
      assert root + mark == root && t.marks == {};
    }
    assert u.pcs == t.pcs[p := Sweeping(root)] && u.marks == {} && u.roots == t.roots;
    if key in t.roots {
      assert root - {RootOf(key)} == {} && t.roots - {key} == map[];
      ReachesNext(c, s, u, Remove(p, RootOf(key)));
      u := Apply(c, u, Remove(p, RootOf(key)));
    } else {
      assert t.roots == map[];
    }
    assert u.pcs == t.pcs[p := Sweeping({})];
  }

  lemma LeftoverEntries(t: State, key: Key)
    requires Leftover(t, key)
    ensures Entries(t) == (if key in t.roots then {RootOf(key)} else {}) + (if key in t.marks then {MarkOf(key)} else {})
  {
  }

  /** It then creates its root. */
  lemma ReachesBuilding(c: Setting, s: State, t: State, p: nat, key: Key) returns (u: State)
    requires Reaches(c, s, t) && p < |c.keys| == |t.pcs| && t.pcs[p] == Unchecked && t.lock.None?
    requires Leftover(t, key) && c.keys[p] !in t.marks
    ensures Reaches(c, s, u)
    ensures u == t.(pcs := t.pcs[p := Building], lock := Some(p), roots := map[c.keys[p] := Built(0)], marks := {})
  {
    hide Reaches, Runs, After;
    u := SweepsLeftover(c, s, t, p, key);
    ReachesNext(c, s, u, Create(p));
    assert u.pcs[p := Building] == t.pcs[p := Building];
    assert u.roots[c.keys[p] := Built(0)] == map[c.keys[p] := Built(0)];
    u := Apply(c, u, Create(p));
  }

  /** And runs its build to the end. */
  lemma ReachesMarking(c: Setting, s: State, t: State, p: nat, key: Key) returns (u: State)
    requires Reaches(c, s, t) && p < |c.keys| == |t.pcs| && t.pcs[p] == Unchecked && t.lock.None?
    requires Leftover(t, key) && c.keys[p] !in t.marks
    ensures Reaches(c, s, u)
    ensures u == t.(pcs := t.pcs[p := Marking], lock := Some(p), finished := t.finished + 1,
                    roots := map[c.keys[p] := Built(c.steps)], marks := {})
  {
    hide Reaches, Runs, After;
    u := ReachesBuilding(c, s, t, p, key);
    u := BuildRunsToEnd(c, s, u, p);
    assert u.roots == map[c.keys[p] := Built(c.steps)];
    ReachesNext(c, s, u, Finish(p));
    assert u.pcs[p := Marking] == t.pcs[p := Marking];
    u := Apply(c, u, Finish(p));
  }

  /** From an empty directory one process builds and returns its root. */
  lemma OneProcessBuilds(c: Setting, p: nat) returns (t: State)
    requires p < |c.keys|
    ensures Reaches(c, Fresh(c), t)
    ensures |t.pcs| == |c.keys| && t.lock.None? && t.pcs[p] == Returned
    ensures forall q | 0 <= q < |c.keys| && q != p :: t.pcs[q] == Unchecked
    ensures t.roots == map[c.keys[p] := Built(c.steps)] && t.marks == {c.keys[p]}
    ensures t.finished == 1 && t.lost == 0
  {
    var s := Fresh(c);
    assert Runs(c, s, []) && After(c, s, []) == s;
    t := ReachesMarking(c, s, s, p, c.keys[p]);
    ReachesNext(c, s, t, Mark(p));
    t := Apply(c, t, Mark(p));
    ReachesNext(c, s, t, Release(p));
    t := Apply(c, t, Release(p));
  }

  /** A process that wants another build in the same directory sweeps a returned root away, and
      runs a second build to its end although nothing crashed. */
  lemma OtherKeySweepsReturnedRoot(c: Setting, p: nat, q: nat) returns (t: State)
    requires p < |c.keys| && q < |c.keys| && c.keys[p] != c.keys[q]
    ensures Reaches(c, Fresh(c), t) && !Safe(c, t)
    ensures t.finished == 2 && t.lost == 0
  {
    var s := Fresh(c);
    t := OneProcessBuilds(c, p);
    t := ReachesMarking(c, s, t, q, c.keys[p]);
    assert t.pcs[p] == Returned && RootAt(t, c.keys[p]) == Absent;
  }

  // How often a build runs to its end.

  /** Marking is the step that keeps a finished build: a crash before it makes another process run
      a build to its end again, whichever build that process wants. */
  lemma FinishedTwice(c: Setting, p: nat, q: nat) returns (t: State)
    requires p < |c.keys| && q < |c.keys| && p != q
    ensures Reaches(c, Fresh(c), t) && t.finished == 2 && t.marked == 0 && t.lost == 1
  {
    var s := Fresh(c);
    assert Runs(c, s, []) && After(c, s, []) == s;
    t := ReachesMarking(c, s, s, p, c.keys[p]);
    ReachesNext(c, s, t, Crash(p));
    t := Apply(c, t, Crash(p));
    t := ReachesMarking(c, s, t, q, c.keys[p]);
  }

  /** A process builds at most once, so one alone finishes at most one build. */
  ghost predicate AloneInv(s: State) {
    && |s.pcs| <= 1
    && s.finished <= 1
    && (|s.pcs| == 0 || !(s.pcs[0].Marking? || s.pcs[0].Releasing? || s.pcs[0].Returned? || s.pcs[0].Crashed?) ==>
          s.finished == 0)
  }

  lemma {:induction false} AloneFinishesOnce(c: Setting, s: State, actions: seq<Action>)
    requires AloneInv(s) && Runs(c, s, actions)
    ensures AloneInv(After(c, s, actions))
    decreases |actions|
  {
    if actions != [] {
      AloneFinishesOnce(c, Apply(c, s, actions[0]), actions[1..]);
    }
  }

  /** Whatever they want, no build is ever finished after another in any run exactly when there is
      at most one process. */
  lemma FinishesOnceExactlyAlone(c: Setting)
    ensures (forall s, t :: Initial(c, s) && Reaches(c, s, t) ==> t.finished <= 1) <==> |c.keys| <= 1
  {
    if |c.keys| <= 1 {
      forall s, t | Initial(c, s) && Reaches(c, s, t)
        ensures t.finished <= 1
      {
        var actions :| Runs(c, s, actions) && After(c, s, actions) == t;
        AloneFinishesOnce(c, s, actions);
      }
    } else {
      var t := FinishedTwice(c, 0, 1);
      assert Initial(c, Fresh(c));
    }
  }

  /** As long as no process crashes between finishing and marking, at most one build is finished,
      exactly when all processes want the same build. */
  lemma FinishesOnceExactlyForOneKey(c: Setting)
    ensures (forall s, t :: Initial(c, s) && Reaches(c, s, t) && t.lost == 0 ==> t.finished <= 1) <==>
            forall p, q | 0 <= p < |c.keys| && 0 <= q < |c.keys| :: c.keys[p] == c.keys[q]
  {
    if forall p, q | 0 <= p < |c.keys| && 0 <= q < |c.keys| :: c.keys[p] == c.keys[q] {
      var key := if |c.keys| > 0 then c.keys[0] else 0;
      forall s, t | Initial(c, s) && Reaches(c, s, t) && t.lost == 0
        ensures t.finished <= 1
      {
        var actions :| Runs(c, s, actions) && After(c, s, actions) == t;
        InitialInv(c, s, key);
        RunKeepsInv(c, s, actions, key);
      }
    } else {
      var p, q :| 0 <= p < |c.keys| && 0 <= q < |c.keys| && c.keys[p] != c.keys[q];
      var t := OtherKeySweepsReturnedRoot(c, p, q);
      assert Initial(c, Fresh(c));
    }
  }

  /** Returned roots stay whole in every run exactly when all processes want the same build. */
  lemma SafeExactlyForOneKey(c: Setting)
    ensures (forall s, t :: Initial(c, s) && Reaches(c, s, t) ==> Safe(c, t)) <==>
            forall p, q | 0 <= p < |c.keys| && 0 <= q < |c.keys| :: c.keys[p] == c.keys[q]
  {
    if forall p, q | 0 <= p < |c.keys| && 0 <= q < |c.keys| :: c.keys[p] == c.keys[q] {
      var key := if |c.keys| > 0 then c.keys[0] else 0;
      forall s, t | Initial(c, s) && Reaches(c, s, t)
        ensures Safe(c, t)
      {
        var actions :| Runs(c, s, actions) && After(c, s, actions) == t;
        InitialInv(c, s, key);
        RunKeepsInv(c, s, actions, key);
      }
    } else {
      var p, q :| 0 <= p < |c.keys| && 0 <= q < |c.keys| && c.keys[p] != c.keys[q];
      var t := OtherKeySweepsReturnedRoot(c, p, q);
      assert Initial(c, Fresh(c));
    }
  }

  // Returning.

  /** A process that finds its build marked returns by its check alone. */
  lemma MarkedIsReturnedByCheck(c: Setting, s: State, p: nat)
    requires p < |c.keys| == |s.pcs| && s.pcs[p] == Unchecked && c.keys[p] in s.marks
    ensures Enabled(c, s, Check(p)) && Apply(c, s, Check(p)) == s.(pcs := s.pcs[p := Returned])
  {
  }

  /** One that finds it marked only under the lock releases the lock and returns, and builds and
      removes nothing. */
  lemma MarkedIsReturnedUnderLock(c: Setting, s: State, p: nat)
    requires p < |c.keys| == |s.pcs| && s.pcs[p] == Locked && c.keys[p] in s.marks
    ensures Enabled(c, s, Recheck(p)) && Enabled(c, Apply(c, s, Recheck(p)), Release(p))
    ensures Apply(c, Apply(c, s, Recheck(p)), Release(p)) == s.(pcs := s.pcs[p := Returned], lock := None)
  {
    assert s.pcs[p := Releasing][p := Returned] == s.pcs[p := Returned];
  }

  /** When all want the same build, no process fails of itself: none is crashed after a run in which
      nothing from outside crashed one. */
  lemma {:induction false} OnlyCrashesCrash(c: Setting, s: State, actions: seq<Action>, key: Key)
    requires Inv(c, s, key) && Runs(c, s, actions)
    requires forall i | 0 <= i < |actions| :: !actions[i].Crash?
    requires forall p | 0 <= p < |s.pcs| :: s.pcs[p] != Crashed
    ensures Inv(c, After(c, s, actions), key)
    ensures forall p | 0 <= p < |c.keys| :: After(c, s, actions).pcs[p] != Crashed
    decreases |actions|
  {
    if actions != [] {
      var next := Apply(c, s, actions[0]);
      StepKeepsInv(c, s, actions[0], key);
      assert c.keys[actions[0].p] == key;
      assert forall p | 0 <= p < |next.pcs| :: next.pcs[p] != Crashed;
      OnlyCrashesCrash(c, next, actions[1..], key);
    }
  }

  lemma ReachesOn(c: Setting, s: State, t: State, a: Action, key: Key)
    requires Reaches(c, s, t) && Inv(c, t, key) && Enabled(c, t, a)
    ensures Reaches(c, s, Apply(c, t, a)) && Inv(c, Apply(c, t, a), key)
  {
    ReachesNext(c, s, t, a);
    StepKeepsInv(c, t, a, key);
  }

  /** How far a lock holder is from returning. */
  function StagesLeft(pc: Pc): nat {
    match pc
    case Locked => 6
    case Sweeping(_) => 5
    case Creating => 4
    case Building => 3
    case Marking => 2
    case Releasing => 1
    case _ => 0
  }

  /** What is left of the present stage. */
  function WorkLeft(c: Setting, t: State, p: nat): nat
    requires p < |c.keys| == |t.pcs|
  {
    match t.pcs[p]
    case Sweeping(doomed) => |doomed|
    case Building => if RootAt(t, c.keys[p]).Built? && RootAt(t, c.keys[p]).steps <= c.steps
                     then c.steps - RootAt(t, c.keys[p]).steps else 0
    case _ => 0
  }

  /** The next step of a lock holder that nothing disturbs. */
  lemma HolderSteps(c: Setting, t: State, p: nat, key: Key) returns (a: Action)
    requires Inv(c, t, key) && p < |t.pcs| && HoldsLock(t.pcs[p])
    ensures Enabled(c, t, a)
    ensures var u := Apply(c, t, a);
            && p < |u.pcs| && u.pcs == t.pcs[p := u.pcs[p]]
            && (|| (u.pcs[p] == Returned && u.lock.None?)
                || (HoldsLock(u.pcs[p])
                    && (StagesLeft(u.pcs[p]) < StagesLeft(t.pcs[p])
                        || (StagesLeft(u.pcs[p]) == StagesLeft(t.pcs[p]) && WorkLeft(c, u, p) < WorkLeft(c, t, p)))))
  {
    assert c.keys[p] == key && HolderInv(c, t, key, t.pcs[p]);
    match t.pcs[p]
    case Locked => a := Recheck(p);
    case Sweeping(doomed) =>
      if doomed == {} {
        a := EndSweep(p);
      } else {
        var entry :| entry in doomed;
        a := Remove(p, entry);
        assert |doomed - {entry}| < |doomed|;
      }
    case Creating => a := Create(p);
    case Building => a := if RootAt(t, key).steps < c.steps then BuildStep(p) else Finish(p);
    case Marking => a := Mark(p);
    case Releasing => a := Release(p);
  }

  /** The lock holder can go on to return, wherever it stands. */
  lemma {:induction false} HolderReturns(c: Setting, s: State, t: State, p: nat, key: Key) returns (u: State)
    requires Reaches(c, s, t) && Inv(c, t, key) && p < |t.pcs| && HoldsLock(t.pcs[p])
    ensures Reaches(c, s, u) && Inv(c, u, key)
    ensures u.pcs == t.pcs[p := Returned] && u.lock.None?
    decreases StagesLeft(t.pcs[p]), WorkLeft(c, t, p)
  {
    hide Reaches, Inv;
    var a := HolderSteps(c, t, p, key);
    ReachesOn(c, s, t, a, key);
    var next := Apply(c, t, a);
    SameProcesses(c, t, key);
    SameProcesses(c, next, key);
    if next.pcs[p] == Returned {
      u := next;
    } else {
      u := HolderReturns(c, s, next, p, key);
    }
  }

  lemma SameProcesses(c: Setting, t: State, key: Key)
    requires Inv(c, t, key)
    ensures |t.pcs| == |c.keys|
    ensures t.lock.Some? ==> t.lock.value < |t.pcs| && HoldsLock(t.pcs[t.lock.value])
  {
  }

  /** When all want the same build, every process that has not crashed can return, whichever
      processes crashed and wherever the others stand; none of them is disturbed. */
  lemma ProcessCanReturn(c: Setting, s: State, t: State, p: nat, key: Key) returns (u: State)
    requires Reaches(c, s, t) && Inv(c, t, key) && p < |t.pcs| && t.pcs[p] != Crashed
    ensures Reaches(c, s, u) && Inv(c, u, key)
    ensures |u.pcs| == |t.pcs| && u.pcs[p] == Returned
    ensures forall q | 0 <= q < |t.pcs| :: u.pcs[q] == Returned || (q != p && u.pcs[q] == t.pcs[q])
  {
    hide Reaches, Inv;
    u := t;
    SameProcesses(c, u, key);
    if HoldsLock(u.pcs[p]) {
      u := HolderReturns(c, s, u, p, key);
    } else if u.pcs[p] != Returned {
      if u.lock.Some? {
        u := HolderReturns(c, s, u, u.lock.value, key);
      }
      if u.pcs[p] == Unchecked {
        ReachesOn(c, s, u, Check(p), key);
        u := Apply(c, u, Check(p));
      }
      if u.pcs[p] == AwaitingLock {
        ReachesOn(c, s, u, TakeLock(p), key);
        u := Apply(c, u, TakeLock(p));
        u := HolderReturns(c, s, u, p, key);
      }
    }
  }

  lemma {:induction false} FirstProcessesCanReturn(c: Setting, s: State, t: State, n: nat, key: Key) returns (u: State)
    requires Reaches(c, s, t) && Inv(c, t, key) && n <= |t.pcs|
    ensures Reaches(c, s, u) && Inv(c, u, key)
    ensures |u.pcs| == |t.pcs|
    ensures forall q | 0 <= q < n :: u.pcs[q] == Returned || t.pcs[q] == Crashed
    ensures forall q | 0 <= q < |t.pcs| :: u.pcs[q] == Returned || u.pcs[q] == t.pcs[q]
  {
    hide Reaches, Inv;
    u := t;
    if n > 0 {
      u := FirstProcessesCanReturn(c, s, t, n - 1, key);
      if u.pcs[n - 1] != Crashed {
        u := ProcessCanReturn(c, s, u, n - 1, key);
      }
    }
  }

  /** When all want the same build, every run can go on until every process that has not crashed has
      returned its whole root; after a run that nothing crashed, that is every process. */
  lemma EveryRunCanReturn(c: Setting, key: Key, s: State, actions: seq<Action>) returns (u: State)
    requires OneKey(c, key) && Initial(c, s) && Runs(c, s, actions)
    ensures Reaches(c, After(c, s, actions), u) && Safe(c, u)
    ensures forall p | 0 <= p < |c.keys| :: u.pcs[p] == Returned || After(c, s, actions).pcs[p] == Crashed
    ensures (forall i | 0 <= i < |actions| :: !actions[i].Crash?) ==>
              forall p | 0 <= p < |c.keys| :: u.pcs[p] == Returned
  {
    InitialInv(c, s, key);
    RunKeepsInv(c, s, actions, key);
    var t := After(c, s, actions);
    assert Runs(c, t, []) && After(c, t, []) == t;
    u := FirstProcessesCanReturn(c, t, t, |t.pcs|, key);
    if forall i | 0 <= i < |actions| :: !actions[i].Crash? {
      OnlyCrashesCrash(c, s, actions, key);
    }
  }

  /** A process that crashes as soon as it has begun to build leaves its root behind. */
  lemma CrashLeavesRoot(c: Setting, p: nat) returns (t: State)
    requires p < |c.keys|
    ensures Reaches(c, Fresh(c), t)
    ensures t == Fresh(c).(pcs := Fresh(c).pcs[p := Crashed], roots := map[c.keys[p] := Built(0)])
  {
    var s := Fresh(c);
    assert Runs(c, s, []) && After(c, s, []) == s;
    hide Reaches, Runs, After;
    t := ReachesBuilding(c, s, s, p, c.keys[p]);
    ReachesNext(c, s, t, Crash(p));
    t := Apply(c, t, Crash(p));
    assert s.pcs[p := Building][p := Crashed] == s.pcs[p := Crashed];
  }

  /** A sweep that crashes midway leaves that root damaged, and unmarked. */
  lemma SweepMayStopHalfway(c: Setting, p: nat, q: nat) returns (t: State)
    requires p < |c.keys| && q < |c.keys| && p != q && c.keys[p] == c.keys[q]
    ensures Reaches(c, Fresh(c), t)
    ensures t == Fresh(c).(pcs := Fresh(c).pcs[p := Crashed][q := Crashed], roots := map[c.keys[p] := Damaged])
  {
    hide Reaches, Runs, After;
    var left := CrashLeavesRoot(c, p);
    t := SweepBegins(c, left, p, q);
    t := SweepIsCutShort(c, left, t, c.keys[p], q);
  }

  lemma SweepBegins(c: Setting, left: State, p: nat, q: nat) returns (t: State)
    requires p < |c.keys| && q < |c.keys| == |left.pcs| && c.keys[p] == c.keys[q]
    requires Reaches(c, Fresh(c), left) && left.pcs[q] == Unchecked && left.lock.None?
    requires left.roots == map[c.keys[p] := Built(0)] && left.marks == {}
    ensures Reaches(c, Fresh(c), t)
    ensures t == left.(pcs := left.pcs[q := Sweeping({RootOf(c.keys[p])})], lock := Some(q))
  {
    hide Reaches, Runs, After;
    var s := Fresh(c);
    ReachesNext(c, s, left, Check(q));
    t := Apply(c, left, Check(q));
    ReachesNext(c, s, t, TakeLock(q));
    t := Apply(c, t, TakeLock(q));
    assert Entries(t) == {RootOf(c.keys[p])};
    ReachesNext(c, s, t, Recheck(q));
    t := Apply(c, t, Recheck(q));
  }

  lemma SweepIsCutShort(c: Setting, left: State, sweeping: State, key: Key, q: nat) returns (t: State)
    requires q < |c.keys| == |left.pcs| && Reaches(c, Fresh(c), sweeping)
    requires left.lock.None? && left.roots == map[key := Built(0)]
    requires sweeping == left.(pcs := left.pcs[q := Sweeping({RootOf(key)})], lock := Some(q))
    ensures Reaches(c, Fresh(c), t)
    ensures t == left.(pcs := left.pcs[q := Crashed], roots := map[key := Damaged])
  {
    hide Reaches, Runs, After;
    ReachesNext(c, Fresh(c), sweeping, Damage(q, key));
    t := Apply(c, sweeping, Damage(q, key));
    ReachesNext(c, Fresh(c), t, Crash(q));
    t := Apply(c, t, Crash(q));
    assert t.roots == map[key := Damaged];
    assert sweeping.pcs[q := Crashed] == left.pcs[q := Crashed];
  }
}
