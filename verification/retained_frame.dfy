/** The retained body of the terminal frame: when a status-clock frame may copy it. */
module RetainedFrame {
  import opened Wrappers

  /** How often the loop polls, in milliseconds. */
  const FRAME_POLL_MILLIS := 8

  // Toasts: what they show changes only at scheduled instants.

  datatype Phase = Phase(start: int, visual: nat)

  /** A toast schedule, in order of start. */
  type Timeline = seq<Phase>

  predicate Ordered(timeline: Timeline) {
    forall i, j | 0 <= i < j < |timeline| :: timeline[i].start < timeline[j].start
  }

  /** What the toasts show at an instant: the last phase that has started. */
  function VisualAt(timeline: Timeline, now: int): nat {
    if timeline == [] then 0
    else
      var last := timeline[|timeline| - 1];
      if last.start <= now then last.visual else VisualAt(timeline[..|timeline| - 1], now)
  }

  function NextStart(timeline: Timeline, now: int): Option<int> {
    if timeline == [] then None
    else if timeline[0].start > now then Some(timeline[0].start)
    else NextStart(timeline[1..], now)
  }

  /** The earliest instant the toasts may look different, never sooner than the next poll. */
  function Deadline(timeline: Timeline, now: int): Option<int> {
    match NextStart(timeline, now)
    case None => None
    case Some(start) => Some(if start > now + FRAME_POLL_MILLIS then start else now + FRAME_POLL_MILLIS)
  }

  lemma {:induction false} NextStartMeaning(timeline: Timeline, now: int)
    requires Ordered(timeline)
    ensures NextStart(timeline, now).None? <==> forall i | 0 <= i < |timeline| :: timeline[i].start <= now
    ensures NextStart(timeline, now).Some? ==>
              && NextStart(timeline, now).value > now
              && forall i | 0 <= i < |timeline| :: timeline[i].start <= now || timeline[i].start >= NextStart(timeline, now).value
  {
    if timeline != [] && timeline[0].start <= now {
      NextStartMeaning(timeline[1..], now);
      assert forall i | 0 < i < |timeline| :: timeline[i] == timeline[1..][i - 1];
    }
  }

  lemma {:induction false} VisualHolds(timeline: Timeline, earlier: int, later: int)
    requires earlier <= later && forall i | 0 <= i < |timeline| :: !(earlier < timeline[i].start <= later)
    ensures VisualAt(timeline, earlier) == VisualAt(timeline, later)
  {
    if timeline != [] {
      assert timeline[|timeline| - 1].start <= earlier <==> timeline[|timeline| - 1].start <= later;
      VisualHolds(timeline[..|timeline| - 1], earlier, later);
    }
  }

  /** A deadline is a poll away or the next scheduled change, whichever is later; there is none exactly
      when nothing more is scheduled. So it has never passed when it is computed. */
  lemma DeadlineIsAhead(timeline: Timeline, now: int)
    requires Ordered(timeline)
    ensures Deadline(timeline, now).None? <==> forall i | 0 <= i < |timeline| :: timeline[i].start <= now
    ensures Deadline(timeline, now).Some? ==> Deadline(timeline, now).value >= now + 8
    ensures Deadline(timeline, now).Some? ==> forall i | 0 <= i < |timeline| && timeline[i].start > now ::
              Deadline(timeline, now).value <= timeline[i].start || Deadline(timeline, now).value == now + 8
  {
    NextStartMeaning(timeline, now);
  }

  /** Equal deadlines that have not passed mean the toasts have not changed in between. */
  lemma DeadlineProtects(timeline: Timeline, earlier: int, later: int)
    requires Ordered(timeline) && earlier <= later
    requires Deadline(timeline, earlier) == Deadline(timeline, later)
    requires Deadline(timeline, later).Some? ==> later < Deadline(timeline, later).value
    ensures VisualAt(timeline, earlier) == VisualAt(timeline, later)
  {
    NextStartMeaning(timeline, earlier);
    NextStartMeaning(timeline, later);
    VisualHolds(timeline, earlier, later);
  }

  // Painting.

  datatype Cell = Cell(symbol: nat, ink: nat)

  datatype ColorMode = Colored | NoColor

  type Area = (nat, nat)

  /** Everything the body shows besides the tile motion and the clock. `stable` holds when no
      attract screen, favorites modal or overlay is up. */
  datatype Inputs = Inputs(content: nat, toasts: Timeline, stable: bool)

  /** How the body and the status line are painted; the status line overwrites its own row. */
  datatype Painter = Painter(
    body: (nat, nat, nat, bool, Area) -> seq<Cell>,
    status: (nat, Area) -> seq<Cell>,
    mode: ColorMode)

  datatype Buffer = Buffer(area: Area, body: seq<Cell>, status: seq<Cell>)

  function Cleared(mode: ColorMode, cells: seq<Cell>): seq<Cell> {
    if mode == Colored then cells else seq(|cells|, i requires 0 <= i < |cells| => cells[i].(ink := 0))
  }

  lemma ClearedTwice(mode: ColorMode, cells: seq<Cell>)
    ensures Cleared(mode, Cleared(mode, cells)) == Cleared(mode, cells)
  {
  }

  function BodyOf(p: Painter, inputs: Inputs, drawing: nat, area: Area, now: int): seq<Cell> {
    Cleared(p.mode, p.body(inputs.content, drawing, VisualAt(inputs.toasts, now), inputs.stable, area))
  }

  function FullPaint(p: Painter, inputs: Inputs, drawing: nat, status: nat, area: Area, now: int): Buffer {
    Buffer(area, BodyOf(p, inputs, drawing, area, now), Cleared(p.mode, p.status(status, area)))
  }

  // The application's frame state.

  datatype FrameRequest = Full | StatusClock

  datatype PaintedFrame = Absent | Current(buffer: Buffer, toastChange: Option<int>)

  /** `source` and `paintedAt` record, for the specification alone, what the retained body was
      painted from and when; `clock` is the time of the last frame. */
  datatype State = State(
    request: FrameRequest,
    painted: PaintedFrame,
    inputs: Inputs,
    drawing: nat,
    lastPainted: Option<nat>,
    status: nat,
    source: Inputs,
    paintedAt: int,
    clock: int)

  function Started(inputs: Inputs, drawing: nat, status: nat, now: int): State {
    State(Full, Absent, inputs, drawing, None, status, inputs, now, now)
  }

  /** The grid wants repainting when it would not draw what it last painted. */
  predicate TilesMoved(s: State) {
    s.lastPainted.Some? && s.lastPainted.value != s.drawing
  }

  /** The guard of the fast path. */
  predicate Reuses(s: State, area: Area, now: int) {
    && s.request == StatusClock
    && s.inputs.stable
    && !TilesMoved(s)
    && s.painted.Current?
    && s.painted.buffer.area == area
    && s.painted.toastChange == Deadline(s.inputs.toasts, now)
    && !(s.painted.toastChange.Some? && now >= s.painted.toastChange.value)
  }

  function Drawn(p: Painter, s: State, area: Area, now: int): Buffer {
    if Reuses(s, area, now)
    then Buffer(area, Cleared(p.mode, s.painted.buffer.body), Cleared(p.mode, p.status(s.status, area)))
    else FullPaint(p, s.inputs, s.drawing, s.status, area, now)
  }

  function AfterDraw(p: Painter, s: State, area: Area, now: int): State {
    if Reuses(s, area, now) then s.(request := Full, clock := now)
    else if s.inputs.stable then
      s.(request := Full, clock := now, source := s.inputs, paintedAt := now, lastPainted := Some(s.drawing),
         painted := Current(FullPaint(p, s.inputs, s.drawing, s.status, area, now), Deadline(s.inputs.toasts, now)))
    else s.(request := Full, clock := now, painted := Absent)
  }

  function Invalidated(s: State): State {
    s.(painted := Absent, request := Full)
  }

  /** What reaches the application between frames. */
  datatype Event =
    | Key(next: Inputs)
    | Click(next: Inputs)
    | Scroll(next: Inputs)
    | Resized
    | Poll(next: Inputs, changed: bool, uptimeMoved: bool)
    | TilesMove(drawing: nat)
    | ToastsPruned(toasts: Timeline)
    | LayersAnimate(next: Inputs)
    | StatusMoves(status: nat)
    | FullRequest(next: Inputs)
    | ClockRequest
    | Draw(area: Area, now: int)

  function Next(p: Painter, s: State, e: Event): State {
    match e
    case Key(next) => Invalidated(s).(inputs := next)
    case Click(next) => Invalidated(s.(inputs := next))
    case Scroll(next) => Invalidated(s).(inputs := next)
    case Resized => Invalidated(s)
    case Poll(next, changed, uptimeMoved) =>
      var polled := s.(request := Full, inputs := next);
      if changed then Invalidated(polled)
      else if uptimeMoved then polled.(request := StatusClock)
      else polled
    case TilesMove(drawing) => s.(drawing := drawing)
    case ToastsPruned(toasts) => s.(inputs := s.inputs.(toasts := toasts))
    case LayersAnimate(next) => s.(inputs := next)
    case StatusMoves(status) => s.(status := status)
    case FullRequest(next) => s.(request := Full, inputs := next)
    case ClockRequest => s.(request := StatusClock)
    case Draw(area, now) => AfterDraw(p, s, area, now)
  }

  /** Two inputs that show alike from an instant on. */
  ghost predicate Alike(a: Inputs, b: Inputs, from: int) {
    && a.content == b.content && a.stable == b.stable
    && forall t | t >= from ::
         VisualAt(a.toasts, t) == VisualAt(b.toasts, t) && Deadline(a.toasts, t) == Deadline(b.toasts, t)
  }

  /** Schedules are in order, frames never go back in time, a poll reports what it changed, pruned
      toasts show nothing more, and only layers over the body animate it unannounced. */
  ghost predicate Possible(s: State, e: Event) {
    match e
    case Key(next) => Ordered(next.toasts)
    case Click(next) => Ordered(next.toasts)
    case Scroll(next) => Ordered(next.toasts)
    case Poll(next, changed, _) => Ordered(next.toasts) && (next != s.inputs ==> changed)
    case ToastsPruned(toasts) => Ordered(toasts) && Alike(s.inputs, s.inputs.(toasts := toasts), s.clock)
    case LayersAnimate(next) => Ordered(next.toasts) && !s.inputs.stable && !next.stable
    case FullRequest(next) => Ordered(next.toasts)
    case Draw(_, now) => now >= s.clock
    case _ => true
  }

  ghost predicate PossibleRun(p: Painter, s: State, events: seq<Event>)
    decreases |events|
  {
    events == [] || (Possible(s, events[0]) && PossibleRun(p, Next(p, s, events[0]), events[1..]))
  }

  /** Every frame of a run is what painting everything anew would show. */
  ghost predicate FramesAreCurrent(p: Painter, s: State, events: seq<Event>)
    decreases |events|
  {
    events != [] ==>
      && (events[0].Draw? ==>
            Drawn(p, s, events[0].area, events[0].now)
            == FullPaint(p, s.inputs, s.drawing, s.status, events[0].area, events[0].now))
      && FramesAreCurrent(p, Next(p, s, events[0]), events[1..])
  }

  /** A retained body is what its source paints as, at its own size, tiles and instant. */
  ghost predicate Inv(p: Painter, s: State) {
    && Ordered(s.inputs.toasts) && Ordered(s.source.toasts)
    && s.paintedAt <= s.clock
    && (s.painted.Current? ==>
          && s.source.stable && s.lastPainted.Some?
          && s.painted.toastChange == Deadline(s.source.toasts, s.paintedAt)
          && s.painted.buffer.body == BodyOf(p, s.source, s.lastPainted.value, s.painted.buffer.area, s.paintedAt))
  }

  lemma NextKeepsInv(p: Painter, s: State, e: Event)
    requires Inv(p, s) && Possible(s, e)
    ensures Inv(p, Next(p, s, e))
  {
  }

  /** A body that tells its inputs apart: different content or different toasts look different. */
  ghost predicate Shows(p: Painter) {
    forall a, b, visualA, visualB, drawing, stable, area ::
      Cleared(p.mode, p.body(a, drawing, visualA, stable, area)) == Cleared(p.mode, p.body(b, drawing, visualB, stable, area))
      ==> a == b && visualA == visualB
  }

  lemma SomePainterShows()
    ensures exists p :: Shows(p)
  {
    var p := Painter((content: nat, drawing: nat, visual: nat, stable: bool, area: Area) =>
                       [Cell(content, 0), Cell(visual, 0)],
                     (status: nat, area: Area) => [], NoColor);
    forall a, b, visualA, visualB, drawing, stable, area
      | Cleared(p.mode, p.body(a, drawing, visualA, stable, area)) == Cleared(p.mode, p.body(b, drawing, visualB, stable, area))
      ensures a == b && visualA == visualB
    {
      var cellsA, cellsB := p.body(a, drawing, visualA, stable, area), p.body(b, drawing, visualB, stable, area);
      assert Cleared(p.mode, cellsA)[0] == cellsA[0] && Cleared(p.mode, cellsB)[0] == cellsB[0];
      assert Cleared(p.mode, cellsA)[1] == cellsA[1] && Cleared(p.mode, cellsB)[1] == cellsB[1];
    }
    assert Shows(p);
  }

  /** What the retained body was painted from is what the application now has to show. */
  predicate SourceIsPresent(s: State, now: int) {
    && s.source.content == s.inputs.content
    && VisualAt(s.source.toasts, s.paintedAt) == VisualAt(s.inputs.toasts, now)
  }

  /** A frame is current when it is painted anew, or the content and the toasts that were painted
      are those now to be shown; and only then, for a body that tells its inputs apart. */
  lemma FrameIsCurrentExactly(p: Painter, s: State, area: Area, now: int)
    requires Inv(p, s)
    ensures !Reuses(s, area, now) || SourceIsPresent(s, now) ==>
              Drawn(p, s, area, now) == FullPaint(p, s.inputs, s.drawing, s.status, area, now)
    ensures Shows(p) && Drawn(p, s, area, now) == FullPaint(p, s.inputs, s.drawing, s.status, area, now) ==>
              !Reuses(s, area, now) || SourceIsPresent(s, now)
  {
    if Reuses(s, area, now) {
      var painted := p.body(s.source.content, s.drawing, VisualAt(s.source.toasts, s.paintedAt), true, area);
      ClearedTwice(p.mode, painted);
      assert s.painted.buffer.body == Cleared(p.mode, painted);
    }
  }

  /** A frame without colour holds no ink, and one with colour is as painted; symbols always are. */
  lemma FramesFollowTheColorMode(p: Painter, s: State, area: Area, now: int)
    requires Inv(p, s)
    ensures var frame := Drawn(p, s, area, now);
            p.mode == NoColor ==>
              && (forall i | 0 <= i < |frame.body| :: frame.body[i].ink == 0)
              && (forall i | 0 <= i < |frame.status| :: frame.status[i].ink == 0)
    ensures var frame := Drawn(p, s, area, now);
            var body := p.body(s.inputs.content, s.drawing, VisualAt(s.inputs.toasts, now), s.inputs.stable, area);
            !Reuses(s, area, now) ==>
              && |frame.body| == |body| && (forall i | 0 <= i < |body| :: frame.body[i].symbol == body[i].symbol)
              && (p.mode == Colored ==> frame.body == body)
    ensures var status := p.status(s.status, area);
            && |Drawn(p, s, area, now).status| == |status|
            && (forall i | 0 <= i < |status| :: Drawn(p, s, area, now).status[i].symbol == status[i].symbol)
            && (p.mode == Colored ==> Drawn(p, s, area, now).status == status)
  {
  }

  /** No frame of a run reuses a body painted from something other than what is to be shown. */
  ghost predicate NoStaleReuse(p: Painter, s: State, events: seq<Event>)
    decreases |events|
  {
    events != [] ==>
      && (events[0].Draw? && Reuses(s, events[0].area, events[0].now) ==> SourceIsPresent(s, events[0].now))
      && NoStaleReuse(p, Next(p, s, events[0]), events[1..])
  }

  /** Every frame of a run is current if no reuse in it is stale; and only if, for a body that tells
      its inputs apart. */
  lemma {:induction false} RunIsCurrentExactly(p: Painter, s: State, events: seq<Event>)
    requires Inv(p, s) && PossibleRun(p, s, events)
    ensures NoStaleReuse(p, s, events) ==> FramesAreCurrent(p, s, events)
    ensures Shows(p) && FramesAreCurrent(p, s, events) ==> NoStaleReuse(p, s, events)
    decreases |events|
  {
    if events != [] {
      NextKeepsInv(p, s, events[0]);
      if events[0].Draw? {
        FrameIsCurrentExactly(p, s, events[0].area, events[0].now);
      }
      RunIsCurrentExactly(p, Next(p, s, events[0]), events[1..]);
    }
  }

  /** What became of a change that only a full-frame request announced: none is outstanding, the
      request still stands, or a status-clock request has taken its place. */
  datatype Announcement = Settled | Standing | Overridden

  function AnnouncementAfter(announcement: Announcement, e: Event): Announcement {
    match e
    case FullRequest(_) => Standing
    case ClockRequest => if announcement.Settled? then Settled else Overridden
    case Poll(_, changed, uptimeMoved) =>
      if changed || announcement.Settled? then Settled else if uptimeMoved then Overridden else Standing
    case TilesMove(_) => announcement
    case ToastsPruned(_) => announcement
    case LayersAnimate(_) => announcement
    case StatusMoves(_) => announcement
    case _ => Settled
  }

  /** No frame is drawn while the announcement of a change is overridden; every discard settles it. */
  predicate FullRequestsAreHonored(announcement: Announcement, events: seq<Event>)
    decreases |events|
  {
    events != [] ==>
      && !(announcement.Overridden? && events[0].Draw?)
      && FullRequestsAreHonored(AnnouncementAfter(announcement, events[0]), events[1..])
  }

  /** Over a run that honors full requests, no reuse is stale. */
  lemma {:induction false} HonoredRunsAreCurrent(p: Painter, s: State, announcement: Announcement, events: seq<Event>)
    requires Inv(p, s) && PossibleRun(p, s, events) && FullRequestsAreHonored(announcement, events)
    requires s.painted.Current? && announcement.Settled? ==> Alike(s.source, s.inputs, s.clock)
    requires announcement.Standing? ==> s.request == Full
    ensures NoStaleReuse(p, s, events) && FramesAreCurrent(p, s, events)
    decreases |events|
  {
    if events != [] {
      var e := events[0];
      NextKeepsInv(p, s, e);
      if e.Draw? && Reuses(s, e.area, e.now) {
        assert Deadline(s.source.toasts, e.now) == Deadline(s.inputs.toasts, e.now);
        DeadlineProtects(s.source.toasts, s.paintedAt, e.now);
        assert VisualAt(s.source.toasts, e.now) == VisualAt(s.inputs.toasts, e.now);
      }
      HonoredRunsAreCurrent(p, Next(p, s, e), AnnouncementAfter(announcement, e), events[1..]);
    }
    RunIsCurrentExactly(p, s, events);
  }

  /** The application's own events never leave a change to a full request alone: over every run of
      keys, clicks, wheel steps, resizes, polls, tile motion and frames, every frame is current. */
  lemma {:induction false} LoopEventsAreHonored(events: seq<Event>)
    requires forall i | 0 <= i < |events| :: !events[i].FullRequest?
    ensures FullRequestsAreHonored(Settled, events)
    decreases |events|
  {
    if events != [] {
      LoopEventsAreHonored(events[1..]);
    }
  }

  lemma LoopFramesAreCurrent(p: Painter, inputs: Inputs, drawing: nat, status: nat, now: int, events: seq<Event>)
    requires Ordered(inputs.toasts)
    requires PossibleRun(p, Started(inputs, drawing, status, now), events)
    requires forall i | 0 <= i < |events| :: !events[i].FullRequest?
    ensures FramesAreCurrent(p, Started(inputs, drawing, status, now), events)
  {
    LoopEventsAreHonored(events);
    HonoredRunsAreCurrent(p, Started(inputs, drawing, status, now), Settled, events);
  }

  /** The application announces every change by a discard as well, and must: a clock request
      overrides a full request, so a change that the latter alone announced would not be shown. */
  lemma ClockOverridesFullRequest(p: Painter, before: Inputs, after: Inputs, drawing: nat, status: nat, area: Area, now: int)
    requires before.stable && after.stable && before.toasts == after.toasts == []
    requires BodyOf(p, before, drawing, area, now) != BodyOf(p, after, drawing, area, now)
    ensures var events := [Draw(area, now), FullRequest(after), ClockRequest, Draw(area, now)];
            && PossibleRun(p, Started(before, drawing, status, now), events)
            && !FramesAreCurrent(p, Started(before, drawing, status, now), events)
  {
    var s0 := Started(before, drawing, status, now);
    var s1 := Next(p, s0, Draw(area, now));
    var s2 := Next(p, s1, FullRequest(after));
    var s3 := Next(p, s2, ClockRequest);
    var last := [Draw(area, now)];
    var events := [Draw(area, now), FullRequest(after), ClockRequest] + last;
    assert events[1..] == [FullRequest(after), ClockRequest] + last;
    assert events[1..][1..] == [ClockRequest] + last;
    assert events[1..][1..][1..] == last && last[1..] == [];
    FrameIsCurrentExactly(p, s3, area, now);
    assert !FramesAreCurrent(p, s3, last);
    assert !FramesAreCurrent(p, s2, [ClockRequest] + last);
    assert !FramesAreCurrent(p, s1, [FullRequest(after), ClockRequest] + last);
    assert PossibleRun(p, s3, last);
    assert PossibleRun(p, s2, [ClockRequest] + last);
    assert PossibleRun(p, s1, [FullRequest(after), ClockRequest] + last);
    assert events == [Draw(area, now), FullRequest(after), ClockRequest, Draw(area, now)];
  }

  ghost function AfterAll(p: Painter, s: State, events: seq<Event>): State
    decreases |events|
  {
    if events == [] then s else AfterAll(p, Next(p, s, events[0]), events[1..])
  }

  /** Once discarded, a body is not reused whatever happens before the next frame. */
  lemma {:induction false} DiscardedIsNotReused(p: Painter, s: State, events: seq<Event>, area: Area, now: int)
    requires s.painted.Absent? && forall i | 0 <= i < |events| :: !events[i].Draw?
    ensures !Reuses(AfterAll(p, s, events), area, now)
    decreases |events|
  {
    if events != [] {
      DiscardedIsNotReused(p, Next(p, s, events[0]), events[1..], area, now);
    }
  }

  /** The fields the application keeps, updated as its methods do. */
  class App {
    const painter: Painter
    var frameRequest: FrameRequest
    var paintedFrame: PaintedFrame
    var inputs: Inputs
    var drawing: nat
    var lastPainted: Option<nat>
    var status: nat
    ghost var source: Inputs
    ghost var paintedAt: int
    ghost var clock: int

    ghost function Now(): State
      reads this
    {
      State(frameRequest, paintedFrame, inputs, drawing, lastPainted, status, source, paintedAt, clock)
    }

    constructor (painter: Painter, inputs: Inputs, drawing: nat, status: nat, ghost now: int)
      ensures this.painter == painter && Now() == Started(inputs, drawing, status, now)
    {
      this.painter := painter;
      frameRequest, paintedFrame, lastPainted := Full, Absent, None;
      this.inputs, this.drawing, this.status := inputs, drawing, status;
      source, paintedAt, clock := inputs, now, now;
    }

    method RequestClockFrame()
      modifies this
      ensures Now() == Next(painter, old(Now()), ClockRequest)
    {
      frameRequest := StatusClock;
    }

    method InvalidateBody()
      modifies this
      ensures Now() == Invalidated(old(Now()))
    {
      paintedFrame := Absent;
      frameRequest := Full;
    }

    method PrepareFullFrame()
      modifies this
      ensures Now() == old(Now()).(request := Full)
    {
      frameRequest := Full;
    }

    method OnClick(next: Inputs)
      modifies this
      ensures Now() == Next(painter, old(Now()), Click(next))
    {
      inputs := next;
      InvalidateBody();
    }

    method OnScroll(next: Inputs)
      modifies this
      ensures Now() == Next(painter, old(Now()), Scroll(next))
    {
      InvalidateBody();
      inputs := next;
    }

    method OnKey(next: Inputs)
      modifies this
      ensures Now() == Next(painter, old(Now()), Key(next))
    {
      InvalidateBody();
      inputs := next;
    }

    method OnPoll(next: Inputs, changed: bool, uptimeMoved: bool) returns (repaint: bool)
      modifies this
      ensures Now() == Next(painter, old(Now()), Poll(next, changed, uptimeMoved))
      ensures repaint == (changed || uptimeMoved)
    {
      PrepareFullFrame();
      inputs := next;
      if changed {
        InvalidateBody();
        return true;
      } else if uptimeMoved {
        RequestClockFrame();
        return true;
      }
      return false;
    }

    method DrawFrame(area: Area, now: int) returns (frame: Buffer)
      modifies this
      ensures frame == Drawn(painter, old(Now()), area, now)
      ensures Now() == AfterDraw(painter, old(Now()), area, now)
    {
      var toastChange := Deadline(inputs.toasts, now);
      var stableLayers := inputs.stable;
      clock := now;
      if frameRequest == StatusClock && stableLayers && !(lastPainted.Some? && lastPainted.value != drawing)
         && paintedFrame.Current? && paintedFrame.buffer.area == area && paintedFrame.toastChange == toastChange
         && !(toastChange.Some? && now >= toastChange.value)
      {
        frame := Buffer(area, Cleared(painter.mode, paintedFrame.buffer.body),
                        Cleared(painter.mode, painter.status(status, area)));
        frameRequest := Full;
        return;
      }
      frame := FullPaint(painter, inputs, drawing, status, area, now);
      if stableLayers {
        paintedFrame := Current(frame, toastChange);
        lastPainted := Some(drawing);
        source, paintedAt := inputs, now;
      } else {
        paintedFrame := Absent;
      }
      frameRequest := Full;
    }
  }
}
