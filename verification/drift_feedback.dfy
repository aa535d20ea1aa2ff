/** The two renderers of drift feedback: the plain one, and the one that consults a live board. */
module DriftFeedback {
  import opened Selections
  import opened Alerts

  type Paths = seq<string>

  datatype Acquisition = Acquisition(reservation: Id, kind: nat)

  datatype Protection = NotAcquired | Acquired(acquisition: Acquisition, scopes: Paths)

  datatype Attribution =
    | NotNeeded
    | Attributed(reservation: Id)
    | FirstTouchReserved(acquisition: Acquisition, scopes: Paths)
    | IncursionDetected(paths: Paths, conflicts: seq<Id>, protection: Protection)
    | Ambiguous(candidates: seq<Id>, paths: Paths)

  datatype Effect =
    | Widened(addedScopes: Paths)
    | Incursion(incident: nat, foreign: seq<Id>, paths: Paths, commits: seq<string>)
    | Collision(foreign: seq<Id>, paths: Paths)

  /** A changed result always carries some effect. */
  type Effects = e: seq<Effect> | e != [] witness [Widened([])]

  datatype ReservationResult =
    | Unchanged(reservation: Id)
    | PhaseStartObjectUnknown(reservation: Id, phaseStart: string)
    | Changed(reservation: Id, effects: Effects)

  datatype ScopeAcquisition = Permitted | RefusedToSecondRun(rejection: string)

  datatype Report = Report(attribution: Attribution, results: seq<ReservationResult>, scopeAcquisition: ScopeAcquisition)

  /** One line of feedback detail, by what it states. */
  datatype Line =
    | FirstTouchLine(acquisition: Acquisition, scopes: Paths)
    | WideningLine(reservation: Id, scopes: Paths)
    | CollisionLine(reservation: Id, foreign: seq<Id>, paths: Paths)
    | OutstandingLine(reservation: Id, paths: Paths, foreign: seq<Id>, incident: nat, commits: seq<string>)
    | AttributionLine(attribution: Attribution)
    | RefusalLine(rejection: string)
    | EngineMessage(condition: Condition, report: Report)
    | AlertLine(alert: Alert)

  datatype Heading = ImmediateStop | LostEvidence | Stated(notices: seq<Line>, alerts: seq<Alert>)

  datatype Rendering =
    | NoFeedback
    | Feedback(heading: Heading, detail: seq<Line>)
    | UnverifiableIncursionStop
    | DecidedByLiveIncursionState

  predicate IsStop(rendering: Rendering) {
    rendering.UnverifiableIncursionStop? || (rendering.Feedback? && rendering.heading.ImmediateStop?)
  }

  // Assembling feedback.

  predicate IsProtection(alert: Alert) {
    !alert.OrphanedOutstanding?
  }

  function ProtectionAlerts(alerts: seq<Alert>): seq<Alert> {
    if alerts == [] then []
    else
      var front, last := alerts[..|alerts| - 1], alerts[|alerts| - 1];
      ProtectionAlerts(front) + if IsProtection(last) then [last] else []
  }

  function AlertLines(alerts: seq<Alert>): (lines: seq<Line>)
    ensures |lines| == |alerts|
    ensures forall i | 0 <= i < |alerts| :: lines[i] == AlertLine(alerts[i])
  {
    seq(|alerts|, i requires 0 <= i < |alerts| => AlertLine(alerts[i]))
  }

  /** Stops first, then notices, then the protection alerts addressed to this worktree. */
  function Assembled(stops: seq<Line>, notices: seq<Line>, alerts: seq<Alert>): Rendering {
    var protection := ProtectionAlerts(alerts);
    if stops == [] && notices == [] && protection == [] then NoFeedback
    else
      var heading :=
        if stops != [] then ImmediateStop
        else if exists a | a in protection :: a.LostIntegrationEvidence? then LostEvidence
        else Stated(notices, protection);
      Feedback(heading, stops + notices + AlertLines(protection))
  }

  /** The alerts shown to this worktree: all but orphaned reservations, in their order. */
  ghost predicate AreShown(alerts: seq<Alert>, shown: seq<Alert>) {
    exists positions ::
      && Picks(alerts, positions, shown)
      && forall n: nat :: n in positions <==> n < |alerts| && !alerts[n].OrphanedOutstanding?
  }

  /** The stops, then the notices, then one line for each alert shown. */
  ghost predicate IsDetail(detail: seq<Line>, stops: seq<Line>, notices: seq<Line>, shown: seq<Alert>) {
    && |detail| == |stops| + |notices| + |shown|
    && (forall i | 0 <= i < |stops| :: detail[i] == stops[i])
    && (forall i | 0 <= i < |notices| :: detail[|stops| + i] == notices[i])
    && (forall i | 0 <= i < |shown| :: detail[|stops| + |notices| + i] == AlertLine(shown[i]))
  }

  lemma AssembledDetail(stops: seq<Line>, notices: seq<Line>, shown: seq<Alert>)
    ensures IsDetail(stops + notices + AlertLines(shown), stops, notices, shown)
  {
  }

  /** Feedback that holds these stops, then these notices, then the alerts shown, under the heading
      that the first of the three to be present calls for; nothing when none is. */
  ghost predicate PresentsShown(r: Rendering, stops: seq<Line>, notices: seq<Line>, shown: seq<Alert>, evidenceLost: bool) {
    if stops == [] && notices == [] && shown == [] then r == NoFeedback
    else
      && r.Feedback?
      && IsDetail(r.detail, stops, notices, shown)
      && r.heading == if stops != [] then ImmediateStop
                      else if evidenceLost then LostEvidence
                      else Stated(notices, shown)
  }

  ghost predicate Presents(r: Rendering, stops: seq<Line>, notices: seq<Line>, alerts: seq<Alert>) {
    exists shown ::
      && AreShown(alerts, shown)
      && PresentsShown(r, stops, notices, shown, exists n | 0 <= n < |alerts| :: alerts[n].LostIntegrationEvidence?)
  }

  lemma {:induction false} ProtectionInOrder(alerts: seq<Alert>) returns (positions: seq<nat>)
    ensures Picks(alerts, positions, ProtectionAlerts(alerts))
    ensures forall n: nat :: n in positions <==> n < |alerts| && !alerts[n].OrphanedOutstanding?
  {
    positions := [];
    if alerts != [] {
      var front, last := alerts[..|alerts| - 1], alerts[|alerts| - 1];
      var earlier := ProtectionInOrder(front);
      assert alerts == front + [last];
      PicksLonger(front, earlier, ProtectionAlerts(front), last);
      positions := if IsProtection(last) then earlier + [|front|] else earlier;
      assert forall n: nat | n < |front| :: alerts[n] == front[n];
    }
  }

  lemma ShownLostEvidence(alerts: seq<Alert>)
    ensures (exists a | a in ProtectionAlerts(alerts) :: a.LostIntegrationEvidence?) <==>
            exists n | 0 <= n < |alerts| :: alerts[n].LostIntegrationEvidence?
  {
    var positions := ProtectionInOrder(alerts);
    var shown := ProtectionAlerts(alerts);
    if n :| 0 <= n < |alerts| && alerts[n].LostIntegrationEvidence? {
      assert n in positions;
      var i :| 0 <= i < |positions| && positions[i] == n;
      assert shown[i] == alerts[n] && shown[i] in shown;
    }
    if a :| a in shown && a.LostIntegrationEvidence? {
      var i :| 0 <= i < |shown| && shown[i] == a;
      assert alerts[positions[i]] == a;
    }
  }

  lemma AssembledPresents(stops: seq<Line>, notices: seq<Line>, alerts: seq<Alert>)
    ensures Presents(Assembled(stops, notices, alerts), stops, notices, alerts)
  {
    hide ProtectionAlerts, AlertLines, IsDetail, AreShown;
    var shown := ProtectionAlerts(alerts);
    ProtectionIsShown(alerts);
    ShownLostEvidence(alerts);
    AssembledDetail(stops, notices, shown);
    assert PresentsShown(Assembled(stops, notices, alerts), stops, notices, shown,
                         exists n | 0 <= n < |alerts| :: alerts[n].LostIntegrationEvidence?);
  }

  lemma ProtectionIsShown(alerts: seq<Alert>)
    ensures AreShown(alerts, ProtectionAlerts(alerts))
  {
    var positions := ProtectionInOrder(alerts);
  }

  // The plain renderer.

  datatype ObservedEffect = SomeCollision | SomeWidening | Neither

  datatype Condition =
    | FirstTouch(acquisition: Acquisition, scopes: Paths)
    | UnprotectedIncursion
    | ProtectedIncursion
    | AttributionRequired
    | Colliding
    | Widening
    | Unremarkable

  datatype EffectKind = IsWidening | IsIncursion | IsCollision

  predicate IsOf(effect: Effect, kind: EffectKind) {
    match kind
    case IsWidening => effect.Widened?
    case IsIncursion => effect.Incursion?
    case IsCollision => effect.Collision?
  }

  predicate HasEffect(result: ReservationResult, kind: EffectKind) {
    result.Changed? && exists k | 0 <= k < |result.effects| :: IsOf(result.effects[k], kind)
  }

  predicate SomeResult(results: seq<ReservationResult>, kind: EffectKind) {
    exists i | 0 <= i < |results| :: HasEffect(results[i], kind)
  }

  function Observed(results: seq<ReservationResult>): ObservedEffect {
    if SomeResult(results, IsCollision) then SomeCollision
    else if SomeResult(results, IsWidening) then SomeWidening
    else Neither
  }

  function ConditionOf(attribution: Attribution, effect: ObservedEffect): Condition {
    match attribution
    case FirstTouchReserved(acquisition, scopes) => FirstTouch(acquisition, scopes)
    case IncursionDetected(_, _, NotAcquired) => UnprotectedIncursion
    case IncursionDetected(_, _, Acquired(_, _)) => ProtectedIncursion
    case Ambiguous(_, _) => AttributionRequired
    case _ => match effect case SomeCollision => Colliding case SomeWidening => Widening case Neither => Unremarkable
  }

  predicate ConditionStops(condition: Condition) {
    condition in {UnprotectedIncursion, ProtectedIncursion, AttributionRequired, Colliding}
  }

  predicate HasReportableEffect(report: Report) {
    || report.attribution.FirstTouchReserved? || report.attribution.IncursionDetected? || report.attribution.Ambiguous?
    || exists i | 0 <= i < |report.results| :: !report.results[i].Unchanged?
  }

  function FirstEffect(effects: seq<Effect>, kind: EffectKind): seq<Effect> {
    if effects == [] then [] else if IsOf(effects[0], kind) then [effects[0]] else FirstEffect(effects[1..], kind)
  }

  function EffectLine(id: Id, effect: Effect): seq<Line> {
    match effect
    case Widened(scopes) => [WideningLine(id, scopes)]
    case Collision(foreign, paths) => [CollisionLine(id, foreign, paths)]
    case Incursion(_, _, _, _) => []
  }

  function ResultLine(result: ReservationResult, kind: EffectKind): seq<Line> {
    match result
    case Changed(id, effects) =>
      var first := FirstEffect(effects, kind);
      if first == [] then [] else EffectLine(id, first[0])
    case _ => []
  }

  /** One line per result: the first of its effects that is wanted. */
  function FirstLines(results: seq<ReservationResult>, kind: EffectKind): seq<Line> {
    if results == [] then []
    else FirstLines(results[..|results| - 1], kind) + ResultLine(results[|results| - 1], kind)
  }

  function RefusalLines(scopeAcquisition: ScopeAcquisition): seq<Line> {
    match scopeAcquisition case Permitted => [] case RefusedToSecondRun(rejection) => [RefusalLine(rejection)]
  }

  predicate PlainStops(report: Report) {
    || ConditionStops(ConditionOf(report.attribution, Observed(report.results)))
    || report.scopeAcquisition.RefusedToSecondRun?
    || Observed(report.results).SomeCollision?
  }

  function PlainLines(report: Report): seq<Line> {
    var condition := ConditionOf(report.attribution, Observed(report.results));
    var refusal := RefusalLines(report.scopeAcquisition);
    match condition
    case FirstTouch(acquisition, scopes) => [FirstTouchLine(acquisition, scopes)] + refusal
    case Colliding => FirstLines(report.results, IsWidening) + FirstLines(report.results, IsCollision) + refusal
    case Widening => FirstLines(report.results, IsWidening) + refusal
    case _ =>
      if condition.Unremarkable? && !HasReportableEffect(report) && refusal == [] then []
      else [EngineMessage(condition, report)]
  }

  function PlainRendering(report: Report, alerts: seq<Alert>): Rendering {
    if SomeResult(report.results, IsIncursion) then DecidedByLiveIncursionState
    else if PlainStops(report) then Assembled(PlainLines(report), [], alerts)
    else Assembled([], PlainLines(report), alerts)
  }

  // The live-board renderer.

  datatype Board = Board(outstanding: set<nat>, recorded: set<nat>)

  datatype Membership = Outstanding | Recorded | Unverifiable

  function MembershipOf(board: Board, incident: nat): Membership {
    match (incident in board.outstanding, incident in board.recorded)
    case (true, false) => Outstanding
    case (false, true) => Recorded
    case _ => Unverifiable
  }

  function AttributionStops(attribution: Attribution): seq<Line> {
    if attribution.IncursionDetected? || attribution.Ambiguous? then [AttributionLine(attribution)] else []
  }

  function AttributionNotices(attribution: Attribution): seq<Line> {
    match attribution
    case FirstTouchReserved(acquisition, scopes) => [FirstTouchLine(acquisition, scopes)]
    case _ => []
  }

  function ResultEffects(result: ReservationResult): seq<(Id, Effect)> {
    match result case Changed(id, effects) => Tagged(id, effects) case _ => []
  }

  /** Every effect with its reservation, in report order. */
  function AllEffects(results: seq<ReservationResult>): seq<(Id, Effect)> {
    if results == [] then [] else ResultEffects(results[0]) + AllEffects(results[1..])
  }

  function Tagged(id: Id, effects: seq<Effect>): (tagged: seq<(Id, Effect)>)
    ensures |tagged| == |effects|
    ensures forall i | 0 <= i < |effects| :: tagged[i] == (id, effects[i])
  {
    seq(|effects|, i requires 0 <= i < |effects| => (id, effects[i]))
  }

  predicate CannotVerify(board: Board, effect: Effect) {
    effect.Incursion? && MembershipOf(board, effect.incident).Unverifiable?
  }

  /** The stop an effect makes of a run: outstanding incursions and collisions, nothing else. */
  function StopOf(board: Board, id: Id, effect: Effect): seq<Line> {
    match effect
    case Incursion(incident, foreign, paths, commits) =>
      if MembershipOf(board, incident).Outstanding? then [OutstandingLine(id, paths, foreign, incident, commits)] else []
    case Collision(foreign, paths) => [CollisionLine(id, foreign, paths)]
    case Widened(_) => []
  }

  function NoticeOf(id: Id, effect: Effect): seq<Line> {
    match effect case Widened(scopes) => [WideningLine(id, scopes)] case _ => []
  }

  function StopsOf(board: Board, tagged: seq<(Id, Effect)>): seq<Line> {
    if tagged == [] then [] else StopOf(board, tagged[0].0, tagged[0].1) + StopsOf(board, tagged[1..])
  }

  function NoticesOf(tagged: seq<(Id, Effect)>): seq<Line> {
    if tagged == [] then [] else NoticeOf(tagged[0].0, tagged[0].1) + NoticesOf(tagged[1..])
  }

  function LiveStops(report: Report, board: Board): seq<Line> {
    AttributionStops(report.attribution) + RefusalLines(report.scopeAcquisition)
    + StopsOf(board, AllEffects(report.results))
  }

  function LiveNotices(report: Report): seq<Line> {
    AttributionNotices(report.attribution) + NoticesOf(AllEffects(report.results))
  }

  predicate HasUnverifiable(result: ReservationResult, board: Board) {
    result.Changed? && exists k | 0 <= k < |result.effects| :: CannotVerify(board, result.effects[k])
  }

  /** Some incursion anywhere in the report is on neither or on both of the board's lists. */
  predicate SomeUnverifiable(report: Report, board: Board) {
    exists i | 0 <= i < |report.results| :: HasUnverifiable(report.results[i], board)
  }

  lemma {:induction false} StopsAppend(board: Board, a: seq<(Id, Effect)>, b: seq<(Id, Effect)>)
    ensures StopsOf(board, a + b) == StopsOf(board, a) + StopsOf(board, b)
    ensures NoticesOf(a + b) == NoticesOf(a) + NoticesOf(b)
    decreases |a|
  {
    hide StopOf, NoticeOf;
    if a == [] {
      assert a + b == b;
    } else {
      assert (a + b)[0] == a[0] && (a + b)[1..] == a[1..] + b;
      StopsAppend(board, a[1..], b);
    }
  }

  lemma {:induction false} EffectsAppend(results: seq<ReservationResult>, result: ReservationResult)
    ensures AllEffects(results + [result]) == AllEffects(results) + ResultEffects(result)
    decreases |results|
  {
    if results == [] {
      assert results + [result] == [result] && [result][1..] == [];
    } else {
      assert (results + [result])[0] == results[0] && (results + [result])[1..] == results[1..] + [result];
      EffectsAppend(results[1..], result);
    }
  }

  /** The stops and notices of a result's first `i` effects. */
  function StopsOfFirst(board: Board, id: Id, effects: seq<Effect>, i: nat): seq<Line>
    requires i <= |effects|
  {
    StopsOf(board, Tagged(id, effects[..i]))
  }

  function NoticesOfFirst(id: Id, effects: seq<Effect>, i: nat): seq<Line>
    requires i <= |effects|
  {
    NoticesOf(Tagged(id, effects[..i]))
  }

  lemma EffectStep(board: Board, id: Id, effects: seq<Effect>, i: nat)
    requires i < |effects|
    ensures StopsOfFirst(board, id, effects, i + 1) ==
            StopsOfFirst(board, id, effects, i) + StopOf(board, id, effects[i])
    ensures NoticesOfFirst(id, effects, i + 1) == NoticesOfFirst(id, effects, i) + NoticeOf(id, effects[i])
  {
    var tagged := [(id, effects[i])];
    assert Tagged(id, effects[..i + 1]) == Tagged(id, effects[..i]) + tagged;
    StopsAppend(board, Tagged(id, effects[..i]), tagged);
    assert tagged[1..] == [];
  }

  lemma EffectEnds(board: Board, id: Id, effects: seq<Effect>)
    ensures StopsOfFirst(board, id, effects, 0) == [] && NoticesOfFirst(id, effects, 0) == []
    ensures StopsOfFirst(board, id, effects, |effects|) == StopsOf(board, Tagged(id, effects))
    ensures NoticesOfFirst(id, effects, |effects|) == NoticesOf(Tagged(id, effects))
  {
    assert effects[..0] == [] && effects[..|effects|] == effects;
  }

  /** Append one changed result's stops and notices, or stop at an incursion that cannot be verified. */
  method AppendEffects(board: Board, id: Id, effects: seq<Effect>, stops: seq<Line>, notices: seq<Line>)
    returns (verifiable: bool, allStops: seq<Line>, allNotices: seq<Line>)
    ensures verifiable <==> forall i | 0 <= i < |effects| :: !CannotVerify(board, effects[i])
    ensures verifiable ==> allStops == stops + StopsOf(board, Tagged(id, effects))
                           && allNotices == notices + NoticesOf(Tagged(id, effects))
  {
    hide StopsOfFirst, NoticesOfFirst, StopsOf, NoticesOf, Tagged;
    allStops, allNotices := stops, notices;
    EffectEnds(board, id, effects);
    for i := 0 to |effects|
      invariant forall j | 0 <= j < i :: !CannotVerify(board, effects[j])
      invariant allStops == stops + StopsOfFirst(board, id, effects, i)
      invariant allNotices == notices + NoticesOfFirst(id, effects, i)
    {
      EffectStep(board, id, effects, i);
      match effects[i] {
        case Incursion(incident, foreign, paths, commits) =>
          match MembershipOf(board, incident) {
            case Outstanding => allStops := allStops + [OutstandingLine(id, paths, foreign, incident, commits)];
            case Recorded =>
            case Unverifiable => return false, allStops, allNotices;
          }
        case Widened(scopes) => allNotices := allNotices + [WideningLine(id, scopes)];
        case Collision(foreign, paths) => allStops := allStops + [CollisionLine(id, foreign, paths)];
      }
    }
    return true, allStops, allNotices;
  }

  /** The stops and notices of the first `i` results. */
  function StopsBefore(board: Board, results: seq<ReservationResult>, i: nat): seq<Line>
    requires i <= |results|
  {
    StopsOf(board, AllEffects(results[..i]))
  }

  function NoticesBefore(results: seq<ReservationResult>, i: nat): seq<Line>
    requires i <= |results|
  {
    NoticesOf(AllEffects(results[..i]))
  }

  lemma ResultStep(board: Board, results: seq<ReservationResult>, i: nat)
    requires i < |results|
    ensures results[i].Changed? ==>
              var tagged := Tagged(results[i].reservation, results[i].effects);
              && StopsBefore(board, results, i + 1) == StopsBefore(board, results, i) + StopsOf(board, tagged)
              && NoticesBefore(results, i + 1) == NoticesBefore(results, i) + NoticesOf(tagged)
    ensures !results[i].Changed? ==>
              && StopsBefore(board, results, i + 1) == StopsBefore(board, results, i)
              && NoticesBefore(results, i + 1) == NoticesBefore(results, i)
  {
    assert results[..i + 1] == results[..i] + [results[i]];
    EffectsAppend(results[..i], results[i]);
    StopsAppend(board, AllEffects(results[..i]), ResultEffects(results[i]));
  }

  lemma ResultEnds(board: Board, results: seq<ReservationResult>)
    ensures StopsBefore(board, results, 0) == [] && NoticesBefore(results, 0) == []
    ensures StopsBefore(board, results, |results|) == StopsOf(board, AllEffects(results))
    ensures NoticesBefore(results, |results|) == NoticesOf(AllEffects(results))
  {
    assert results[..|results|] == results && results[..0] == [];
  }

  /** An effect of one result is among all the effects. */
  lemma EffectIsListed(results: seq<ReservationResult>, i: nat, k: nat)
    requires i < |results| && results[i].Changed? && k < |results[i].effects|
    ensures exists n | 0 <= n < |AllEffects(results)| :: AllEffects(results)[n] == (results[i].reservation, results[i].effects[k])
  {
    EffectsSplit(results, i);
    var n := |AllEffects(results[..i])| + k;
    assert AllEffects(results)[n] == ResultEffects(results[i])[k];
  }

  /** Render a report against a board read after it. */
  method LiveRendering(report: Report, board: Board, alerts: seq<Alert>) returns (r: Rendering)
    ensures SomeUnverifiable(report, board) ==> r == UnverifiableIncursionStop
    ensures !SomeUnverifiable(report, board) ==>
              r == Assembled(LiveStops(report, board), LiveNotices(report), alerts)
    ensures !SomeUnverifiable(report, board) ==> Presents(r, LiveStops(report, board), LiveNotices(report), alerts)
  {
    hide Assembled, StopsBefore, NoticesBefore, StopsOf, NoticesOf, AllEffects, CannotVerify, Presents;
    var stops := AttributionStops(report.attribution) + RefusalLines(report.scopeAcquisition);
    var notices := AttributionNotices(report.attribution);
    ghost var stops0, notices0 := stops, notices;
    ResultEnds(board, report.results);
    for i := 0 to |report.results|
      invariant stops == stops0 + StopsBefore(board, report.results, i)
      invariant notices == notices0 + NoticesBefore(report.results, i)
      invariant forall j | 0 <= j < i :: !HasUnverifiable(report.results[j], board)
    {
      ResultStep(board, report.results, i);
      if report.results[i].Changed? {
        var verifiable;
        verifiable, stops, notices :=
          AppendEffects(board, report.results[i].reservation, report.results[i].effects, stops, notices);
        if !verifiable {
          assert HasUnverifiable(report.results[i], board);
          return UnverifiableIncursionStop;
        }
      }
    }
    AssembledPresents(stops, notices, alerts);
    return Assembled(stops, notices, alerts);
  }

  lemma {:induction false} EffectsSplit(results: seq<ReservationResult>, i: nat)
    requires i < |results|
    ensures AllEffects(results) == AllEffects(results[..i]) + ResultEffects(results[i]) + AllEffects(results[i + 1..])
    decreases i
  {
    if i > 0 {
      EffectsSplit(results[1..], i - 1);
      assert results[1..][..i - 1] == results[..i][1..] && results[1..][i..] == results[i + 1..];
    }
  }

  // What the two agree on.

  lemma {:induction false} EffectComesFromResult(results: seq<ReservationResult>, n: nat) returns (i: nat, k: nat)
    requires n < |AllEffects(results)|
    ensures i < |results| && results[i].Changed? && k < |results[i].effects|
    ensures AllEffects(results)[n] == (results[i].reservation, results[i].effects[k])
    decreases |results|
  {
    var first := ResultEffects(results[0]);
    if n < |first| {
      i, k := 0, n;
    } else {
      i, k := EffectComesFromResult(results[1..], n - |first|);
      i := i + 1;
    }
  }

  lemma SomeEffect(results: seq<ReservationResult>, kind: EffectKind)
    ensures SomeResult(results, kind) <==>
            exists n | 0 <= n < |AllEffects(results)| :: IsOf(AllEffects(results)[n].1, kind)
  {
    if SomeResult(results, kind) {
      var i :| 0 <= i < |results| && HasEffect(results[i], kind);
      var k :| 0 <= k < |results[i].effects| && IsOf(results[i].effects[k], kind);
      EffectIsListed(results, i, k);
    }
    if n :| 0 <= n < |AllEffects(results)| && IsOf(AllEffects(results)[n].1, kind) {
      var i, k := EffectComesFromResult(results, n);
      assert HasEffect(results[i], kind);
    }
  }

  lemma {:induction false} StopsExist(board: Board, tagged: seq<(Id, Effect)>)
    ensures StopsOf(board, tagged) != [] <==>
            exists i | 0 <= i < |tagged| :: StopOf(board, tagged[i].0, tagged[i].1) != []
  {
    if tagged != [] {
      StopsExist(board, tagged[1..]);
      if StopsOf(board, tagged[1..]) != [] {
        var i :| 0 <= i < |tagged[1..]| && StopOf(board, tagged[1..][i].0, tagged[1..][i].1) != [];
        assert tagged[i + 1] == tagged[1..][i];
      }
      if i :| 0 <= i < |tagged| && StopOf(board, tagged[i].0, tagged[i].1) != [] {
        assert i > 0 ==> tagged[1..][i - 1] == tagged[i];
      }
    }
  }

  /** The conditions under which a run without incursions is told to stop. */
  predicate MustStop(report: Report) {
    || report.attribution.IncursionDetected? || report.attribution.Ambiguous?
    || report.scopeAcquisition.RefusedToSecondRun?
    || SomeResult(report.results, IsCollision)
  }

  lemma AssembledStops(stops: seq<Line>, notices: seq<Line>, alerts: seq<Alert>)
    ensures IsStop(Assembled(stops, notices, alerts)) <==> stops != []
  {
  }

  lemma NoIncursionAmong(results: seq<ReservationResult>, n: nat)
    requires !SomeResult(results, IsIncursion) && n < |AllEffects(results)|
    ensures !AllEffects(results)[n].1.Incursion?
  {
    var i, k := EffectComesFromResult(results, n);
    assert !HasEffect(results[i], IsIncursion);
    assert !IsOf(results[i].effects[k], IsIncursion);
  }

  lemma EffectStopsAreCollisions(results: seq<ReservationResult>, board: Board)
    requires !SomeResult(results, IsIncursion)
    ensures StopsOf(board, AllEffects(results)) != [] <==> SomeResult(results, IsCollision)
  {
    hide SomeResult, AllEffects, StopsOf, StopOf, HasEffect;
    var all := AllEffects(results);
    SomeEffect(results, IsCollision);
    StopsExist(board, all);
    forall n | 0 <= n < |all|
      ensures StopOf(board, all[n].0, all[n].1) != [] <==> IsOf(all[n].1, IsCollision)
    {
      NoIncursionAmong(results, n);
      StopOfCalled(board, all[n].0, all[n].1);
    }
  }

  lemma LiveStopsExactly(report: Report, board: Board)
    requires !SomeResult(report.results, IsIncursion)
    ensures LiveStops(report, board) != [] <==> MustStop(report)
  {
    hide StopsOf, SomeResult;
    EffectStopsAreCollisions(report.results, board);
    var attribution, refusal := AttributionStops(report.attribution), RefusalLines(report.scopeAcquisition);
    assert |LiveStops(report, board)|
           == |attribution| + |refusal| + |StopsOf(board, AllEffects(report.results))|;
  }

  lemma PlainStopsExactly(report: Report, alerts: seq<Alert>)
    requires !SomeResult(report.results, IsIncursion)
    ensures IsStop(PlainRendering(report, alerts)) <==> MustStop(report)
  {
    if PlainStops(report) {
      if SomeResult(report.results, IsCollision) {
        SomeFirstLine(report.results, IsCollision);
      }
      AssembledStops(PlainLines(report), [], alerts);
    } else {
      AssembledStops([], PlainLines(report), alerts);
    }
  }

  /** The plain renderer presents its lines as stops when the run must stop, and as notices when not. */
  lemma PlainPresents(report: Report, alerts: seq<Alert>)
    requires !SomeResult(report.results, IsIncursion)
    ensures MustStop(report) ==> Presents(PlainRendering(report, alerts), PlainLines(report), [], alerts)
    ensures !MustStop(report) ==> Presents(PlainRendering(report, alerts), [], PlainLines(report), alerts)
  {
    hide Presents, Assembled, PlainLines, SomeResult;
    PlainStopsWhenMust(report);
    AssembledPresents(PlainLines(report), [], alerts);
    AssembledPresents([], PlainLines(report), alerts);
  }

  lemma PlainStopsWhenMust(report: Report)
    ensures PlainStops(report) <==> MustStop(report)
  {
  }

  /** On a report without incursions both renderers head their feedback with the stop in exactly
      the same cases, and those are the cases that call for one. */
  lemma StopDecisionsAgree(report: Report, board: Board, alerts: seq<Alert>)
    requires !SomeResult(report.results, IsIncursion)
    ensures !SomeUnverifiable(report, board)
    ensures IsStop(PlainRendering(report, alerts)) <==> MustStop(report)
    ensures IsStop(Assembled(LiveStops(report, board), LiveNotices(report), alerts)) <==> MustStop(report)
  {
    NothingUnverifiable(report, board);
    PlainStopsExactly(report, alerts);
    LiveStopsExactly(report, board);
    AssembledStops(LiveStops(report, board), LiveNotices(report), alerts);
  }

  lemma NothingUnverifiable(report: Report, board: Board)
    requires !SomeResult(report.results, IsIncursion)
    ensures !SomeUnverifiable(report, board)
  {
    forall i | 0 <= i < |report.results|
      ensures !HasUnverifiable(report.results[i], board)
    {
      assert !HasEffect(report.results[i], IsIncursion);
    }
  }

  /** The line of a result's first effect of a kind. */
  ghost predicate IsFirstLine(result: ReservationResult, kind: EffectKind, line: Line) {
    result.Changed? && exists k | 0 <= k < |result.effects| ::
      && IsOf(result.effects[k], kind) && (forall j | 0 <= j < k :: !IsOf(result.effects[j], kind))
      && match result.effects[k]
         case Widened(scopes) => line == WideningLine(result.reservation, scopes)
         case Collision(foreign, paths) => line == CollisionLine(result.reservation, foreign, paths)
         case Incursion(_, _, _, _) => false
  }

  lemma {:induction false} FirstEffectFound(effects: seq<Effect>, kind: EffectKind) returns (k: nat)
    ensures k <= |effects| && forall j | 0 <= j < k :: !IsOf(effects[j], kind)
    ensures k < |effects| ==> IsOf(effects[k], kind) && FirstEffect(effects, kind) == [effects[k]]
    ensures k == |effects| ==> FirstEffect(effects, kind) == []
    decreases |effects|
  {
    k := 0;
    if effects != [] && !IsOf(effects[0], kind) {
      var rest := effects[1..];
      k := FirstEffectFound(rest, kind);
      assert forall j | 0 <= j < |rest| :: effects[j + 1] == rest[j];
      assert forall j | 1 <= j < |effects| :: effects[j] == rest[j - 1];
      k := k + 1;
    }
  }

  lemma ResultLineExists(result: ReservationResult, kind: EffectKind)
    requires kind != IsIncursion
    ensures if HasEffect(result, kind)
            then |ResultLine(result, kind)| == 1 && IsFirstLine(result, kind, ResultLine(result, kind)[0])
            else ResultLine(result, kind) == []
  {
    if result.Changed? {
      var k := FirstEffectFound(result.effects, kind);
    }
  }

  /** The lines of a kind are those of the results that have such an effect, in report order, each
      for the first of its effects. */
  lemma {:induction false} FirstLinesInOrder(results: seq<ReservationResult>, kind: EffectKind)
    returns (positions: seq<nat>, lined: seq<ReservationResult>)
    requires kind != IsIncursion
    ensures Picks(results, positions, lined)
    ensures forall n: nat :: n in positions <==> n < |results| && HasEffect(results[n], kind)
    ensures |FirstLines(results, kind)| == |lined|
    ensures forall i | 0 <= i < |lined| :: IsFirstLine(lined[i], kind, FirstLines(results, kind)[i])
    decreases |results|
  {
    hide HasEffect, ResultLine, IsFirstLine;
    positions, lined := [], [];
    if results != [] {
      var front, last := results[..|results| - 1], results[|results| - 1];
      positions, lined := FirstLinesInOrder(front, kind);
      assert results == front + [last];
      PicksLonger(front, positions, lined, last);
      ResultLineExists(last, kind);
      assert forall n: nat | n < |front| :: results[n] == front[n];
      if HasEffect(last, kind) {
        positions, lined := positions + [|front|], lined + [last];
      }
    }
  }

  lemma SomeFirstLine(results: seq<ReservationResult>, kind: EffectKind)
    requires kind != IsIncursion
    ensures FirstLines(results, kind) != [] <==> SomeResult(results, kind)
  {
    var positions, lined := FirstLinesInOrder(results, kind);
    if i :| 0 <= i < |results| && HasEffect(results[i], kind) {
      assert i in positions;
    }
    if positions != [] {
      assert positions[0] in positions;
      assert HasEffect(results[positions[0]], kind);
    }
  }

  /** Some line tells of the first effect of this kind of each result that has one. */
  ghost predicate TellsEach(lines: seq<Line>, results: seq<ReservationResult>, kind: EffectKind) {
    forall i | 0 <= i < |results| && HasEffect(results[i], kind) ::
      exists n | 0 <= n < |lines| :: IsFirstLine(results[i], kind, lines[n])
  }

  lemma FirstLinesTell(results: seq<ReservationResult>, kind: EffectKind, before: seq<Line>, after: seq<Line>)
    requires kind != IsIncursion
    ensures TellsEach(before + FirstLines(results, kind) + after, results, kind)
  {
    var positions, lined := FirstLinesInOrder(results, kind);
    var own := FirstLines(results, kind);
    var lines := before + own + after;
    forall i | 0 <= i < |results| && HasEffect(results[i], kind)
      ensures exists n | 0 <= n < |lines| :: IsFirstLine(results[i], kind, lines[n])
    {
      assert i in positions;
      var m :| 0 <= m < |positions| && positions[m] == i;
      assert lined[m] == results[i] && lines[|before| + m] == own[m];
    }
  }

  lemma NothingToTell(lines: seq<Line>, results: seq<ReservationResult>, kind: EffectKind)
    requires !SomeResult(results, kind)
    ensures TellsEach(lines, results, kind)
  {
  }

  /** What the plain renderer tells when it tells anything: the whole engine message, or each
      collision, widening and refusal by a line of its own. A first touch is the exception: it tells
      itself and a refusal alone, also when the run must stop for a collision. */
  lemma PlainLinesTell(report: Report)
    requires PlainLines(report) != []
    ensures var lines := PlainLines(report);
            match report.attribution
            case IncursionDetected(_, _, NotAcquired) => lines == [EngineMessage(UnprotectedIncursion, report)]
            case IncursionDetected(_, _, Acquired(_, _)) => lines == [EngineMessage(ProtectedIncursion, report)]
            case Ambiguous(_, _) => lines == [EngineMessage(AttributionRequired, report)]
            case FirstTouchReserved(acquisition, scopes) =>
              lines == [FirstTouchLine(acquisition, scopes)] + RefusalLines(report.scopeAcquisition)
            case _ =>
              if SomeResult(report.results, IsCollision) || SomeResult(report.results, IsWidening)
              then
                && TellsEach(lines, report.results, IsCollision) && TellsEach(lines, report.results, IsWidening)
                && (report.scopeAcquisition.RefusedToSecondRun? ==>
                      lines[|lines| - 1] == RefusalLine(report.scopeAcquisition.rejection))
              else lines == [EngineMessage(Unremarkable, report)]
  {
    hide TellsEach, FirstLines;
    var refusal := RefusalLines(report.scopeAcquisition);
    var widenings, collisions := FirstLines(report.results, IsWidening), FirstLines(report.results, IsCollision);
    match ConditionOf(report.attribution, Observed(report.results))
    case Colliding =>
      FirstLinesTell(report.results, IsCollision, widenings, refusal);
      FirstLinesTell(report.results, IsWidening, [], collisions + refusal);
      assert [] + widenings + (collisions + refusal) == widenings + collisions + refusal;
    case Widening =>
      FirstLinesTell(report.results, IsWidening, [], refusal);
      assert [] + widenings + refusal == widenings + refusal;
      NothingToTell(PlainLines(report), report.results, IsCollision);
    case _ =>
  }

  // What the live detail holds.

  /** An incursion that both lists or neither of them holds cannot be verified. */
  lemma MembershipExactly(board: Board, incident: nat)
    ensures MembershipOf(board, incident).Outstanding? <==> incident in board.outstanding && incident !in board.recorded
    ensures MembershipOf(board, incident).Recorded? <==> incident in board.recorded && incident !in board.outstanding
    ensures MembershipOf(board, incident).Unverifiable? <==> (incident in board.outstanding <==> incident in board.recorded)
  {
  }

  predicate CallsForStop(board: Board, effect: Effect) {
    effect.Collision? || (effect.Incursion? && MembershipOf(board, effect.incident).Outstanding?)
  }

  lemma StopOfCalled(board: Board, id: Id, effect: Effect)
    ensures StopOf(board, id, effect) == [] <==> !CallsForStop(board, effect)
    ensures |StopOf(board, id, effect)| <= 1
  {
  }

  /** The effect stops are the stops of some of the report's effects, each in its place and once:
      every outstanding incursion and every collision, and nothing else. */
  lemma {:induction false} StopsInReportOrder(board: Board, tagged: seq<(Id, Effect)>)
    returns (positions: seq<nat>, stopping: seq<(Id, Effect)>)
    ensures Picks(tagged, positions, stopping)
    ensures forall n: nat :: n in positions <==> n < |tagged| && CallsForStop(board, tagged[n].1)
    ensures |stopping| == |StopsOf(board, tagged)|
    ensures forall i | 0 <= i < |stopping| ::
              StopOf(board, stopping[i].0, stopping[i].1) == [StopsOf(board, tagged)[i]]
    decreases |tagged|
  {
    positions, stopping := [], [];
    if tagged != [] {
      var front, last := tagged[..|tagged| - 1], tagged[|tagged| - 1];
      positions, stopping := StopsInReportOrder(board, front);
      LastStop(board, front, last);
      assert front + [last] == tagged;
      StopOfCalled(board, last.0, last.1);
      PicksLonger(front, positions, stopping, last);
      hide *;
      assert forall n: nat | n < |front| :: tagged[n] == front[n];
      if CallsForStop(board, last.1) {
        positions, stopping := positions + [|front|], stopping + [last];
      }
    }
  }

  lemma LastStop(board: Board, front: seq<(Id, Effect)>, last: (Id, Effect))
    ensures StopsOf(board, front + [last]) == StopsOf(board, front) + StopOf(board, last.0, last.1)
  {
    var end := [last];
    StopsAppend(board, front, end);
    assert end[1..] == [];
  }

  // Where the two differ.

  /** Both renderers are silent in the same cases but one: a reservation that could not be compared
      is reported by the plain renderer, and the live-board renderer says nothing of it. */
  lemma SilenceDiffers(report: Report, board: Board, alerts: seq<Alert>)
    requires !SomeResult(report.results, IsIncursion)
    ensures PlainRendering(report, alerts).NoFeedback? ==>
              Assembled(LiveStops(report, board), LiveNotices(report), alerts).NoFeedback?
    ensures Assembled(LiveStops(report, board), LiveNotices(report), alerts).NoFeedback?
            && !PlainRendering(report, alerts).NoFeedback? <==>
            && !MustStop(report) && !report.attribution.FirstTouchReserved?
            && !SomeResult(report.results, IsWidening)
            && ProtectionAlerts(alerts) == []
            && exists i | 0 <= i < |report.results| :: report.results[i].PhaseStartObjectUnknown?
  {
    LiveStopsExactly(report, board);
    NoticesExist(report.results);
    ReportableResult(report);
    PlainLinesExist(report);
    SilentWhenEmpty(LiveStops(report, board), LiveNotices(report), alerts);
    SilentWhenEmpty(PlainLines(report), [], alerts);
    SilentWhenEmpty([], PlainLines(report), alerts);
    assert LiveNotices(report) == [] <==>
           !report.attribution.FirstTouchReserved? && !SomeResult(report.results, IsWidening);
  }

  lemma SilentWhenEmpty(stops: seq<Line>, notices: seq<Line>, alerts: seq<Alert>)
    ensures Assembled(stops, notices, alerts).NoFeedback? <==>
            stops == [] && notices == [] && ProtectionAlerts(alerts) == []
  {
  }

  lemma PlainLinesExist(report: Report)
    ensures PlainLines(report) != [] <==>
            MustStop(report) || SomeResult(report.results, IsWidening) || HasReportableEffect(report)
  {
    if SomeResult(report.results, IsWidening) {
      SomeFirstLine(report.results, IsWidening);
    }
    if SomeResult(report.results, IsCollision) {
      SomeFirstLine(report.results, IsCollision);
    }
  }

  lemma ReportableResult(report: Report)
    requires !SomeResult(report.results, IsIncursion)
    ensures (exists i | 0 <= i < |report.results| :: !report.results[i].Unchanged?) <==>
            || SomeResult(report.results, IsWidening)
            || SomeResult(report.results, IsCollision)
            || exists i | 0 <= i < |report.results| :: report.results[i].PhaseStartObjectUnknown?
  {
    forall i | 0 <= i < |report.results| && report.results[i].Changed?
      ensures HasEffect(report.results[i], IsWidening) || HasEffect(report.results[i], IsCollision)
    {
      assert !HasEffect(report.results[i], IsIncursion);
      var effect := report.results[i].effects[0];
      assert IsOf(effect, IsWidening) || IsOf(effect, IsCollision) || IsOf(effect, IsIncursion);
    }
  }

  lemma {:induction false} NoticesExistIn(tagged: seq<(Id, Effect)>)
    ensures NoticesOf(tagged) != [] <==> exists n | 0 <= n < |tagged| :: IsOf(tagged[n].1, IsWidening)
  {
    if tagged != [] {
      NoticesExistIn(tagged[1..]);
      if n :| 0 <= n < |tagged[1..]| && IsOf(tagged[1..][n].1, IsWidening) {
        assert tagged[n + 1] == tagged[1..][n];
      }
      if n :| 0 <= n < |tagged| && IsOf(tagged[n].1, IsWidening) {
        assert n > 0 ==> tagged[1..][n - 1] == tagged[n];
      }
    }
  }

  lemma NoticesExist(results: seq<ReservationResult>)
    ensures NoticesOf(AllEffects(results)) != [] <==> SomeResult(results, IsWidening)
  {
    NoticesExistIn(AllEffects(results));
    SomeEffect(results, IsWidening);
  }
}
