/** The on-page ruler: a three-phase click cycle that turns cursor events
    into a measured rectangle and a size label. */
module Ruler {
  import opened Wrappers
  import opened Geometry
  import opened Scale

  datatype Phase = Idle | Started | Finished

  /** The ruler's mutable globals: its phase and the two recorded points. */
  datatype Ruler = Ruler(phase: Phase, start: Option<Point>, end: Option<Point>)

  /** Idle with no points, as after Escape or switching the ruler off. */
  const Cleared := Ruler(Idle, None, None)

  /** The rectangle drawn between two points. */
  datatype Rect = Rect(left: int, top: int, width: nat, height: nat)

  /** A drawn rectangle together with the size its label shows. */
  datatype Reading = Reading(rect: Rect, size: Dims)

  /** What an event does to the ruler's rectangle on screen. */
  datatype Screen = Keep | Hide | Show(reading: Reading)

  /** The ruler after an event, and the screen update it causes. */
  datatype Outcome = Outcome(ruler: Ruler, screen: Screen)

  /** The axis-aligned rectangle spanned by two points: on each axis it runs
      from one point's coordinate to the other's. */
  function Measure(a: Point, b: Point): (m: Rect)
    ensures (m.left == a.x && m.left + m.width == b.x) || (m.left == b.x && m.left + m.width == a.x)
    ensures (m.top == a.y && m.top + m.height == b.y) || (m.top == b.y && m.top + m.height == a.y)
  {
    Rect(Min(a.x, b.x), Min(a.y, b.y), Abs(b.x - a.x), Abs(b.y - a.y))
  }

  /** Measuring is symmetric in its two points. */
  lemma MeasureSymmetric(a: Point, b: Point)
    ensures Measure(a, b) == Measure(b, a)
  {
  }

  /** The rectangle is empty exactly when both points coincide, and then it
      sits at that point. */
  lemma MeasureEmptyIffSamePoint(a: Point, b: Point)
    ensures Measure(a, b).width == 0 && Measure(a, b).height == 0 <==> a == b
    ensures a == b ==> Measure(a, b) == Rect(a.x, a.y, 0, 0)
  {
  }

  /** The reading for a rectangle: its label is the zoom-corrected size. */
  function ReadingOf(a: Point, b: Point, viewportWidth: int): Reading {
    var m := Measure(a, b);
    Reading(m, Unscale(m.width, m.height, viewportWidth))
  }

  /** `updateRulerDisplay(current)`: nothing without a start point; the far
      corner is the cursor if given, else the stored end point, else the
      start point itself. */
  function Display(r: Ruler, current: Option<Point>, viewportWidth: int): (o: Option<Reading>)
    ensures r.start.None? <==> o.None?
    ensures r.start.Some? && current.Some? ==> o == Some(ReadingOf(r.start.value, current.value, viewportWidth))
    ensures r.start.Some? && current.None? && r.end.Some? ==>
      o == Some(ReadingOf(r.start.value, r.end.value, viewportWidth))
    ensures r.start.Some? && current.None? && r.end.None? ==>
      o == Some(ReadingOf(r.start.value, r.start.value, viewportWidth))
      && o.value.rect == Rect(r.start.value.x, r.start.value.y, 0, 0)
  {
    match r.start
    case None => None
    case Some(s) =>
      var e := current.GetOr(r.end.GetOr(s));
      MeasureEmptyIffSamePoint(s, e);
      Some(ReadingOf(s, e, viewportWidth))
  }

  function ShowIfAny(o: Option<Reading>): Screen {
    match o
    case Some(reading) => Show(reading)
    case None => Keep
  }

  /** A click or tap: idle records the start, started records the end and
      shows the final measurement, finished clears both points. */
  function Click(r: Ruler, p: Point, viewportWidth: int): (o: Outcome)
    ensures r.phase == Idle ==> o.ruler.phase == Started && o.ruler.start == Some(p) && o.ruler.end == r.end && o.screen == Hide
    ensures r.phase == Started ==> o.ruler.phase == Finished && o.ruler.start == r.start && o.ruler.end == Some(p)
    ensures r.phase == Started && r.start.Some? ==> o.screen == Show(ReadingOf(r.start.value, p, viewportWidth))
    ensures r.phase == Finished ==> o.ruler == Cleared && o.screen == Hide
  {
    match r.phase
    case Idle => Outcome(r.(phase := Started, start := Some(p)), Hide)
    case Started =>
      var next := r.(phase := Finished, end := Some(p));
      Outcome(next, ShowIfAny(Display(next, None, viewportWidth)))
    case Finished => Outcome(Cleared, Hide)
  }

  /** A cursor move: only while started with a start point does it redraw,
      as a preview to the cursor; it never stores anything. */
  function Move(r: Ruler, p: Point, viewportWidth: int): (o: Outcome)
    ensures o.ruler == r
    ensures r.phase == Started && r.start.Some? ==> o.screen == Show(ReadingOf(r.start.value, p, viewportWidth))
    ensures !(r.phase == Started && r.start.Some?) ==> o.screen == Keep
  {
    if r.phase == Started && r.start.Some? then Outcome(r, ShowIfAny(Display(r, Some(p), viewportWidth)))
    else Outcome(r, Keep)
  }

  /** A key press: Escape clears the ruler from any phase; other keys do
      nothing. */
  function KeyPress(r: Ruler, key: string): (o: Outcome)
    ensures key == "Escape" ==> o == Outcome(Cleared, Hide)
    ensures key != "Escape" ==> o == Outcome(r, Keep)
  {
    if key == "Escape" then Outcome(Cleared, Hide) else Outcome(r, Keep)
  }

  /** Switching ruler mode off clears it. */
  function Disable(r: Ruler): (o: Outcome)
    ensures o.ruler.phase == Idle && o.ruler.start.None? && o.ruler.end.None?
    ensures o.screen == Hide
  {
    Outcome(Cleared, Hide)
  }

  /** Switching ruler mode on (re-run on every overlay update while the mode
      is on) returns to idle but keeps whatever points were recorded. */
  function Enable(r: Ruler): (o: Outcome)
    ensures o.ruler.phase == Idle && o.ruler.start == r.start && o.ruler.end == r.end
    ensures o.screen == Keep
  {
    Outcome(r.(phase := Idle), Keep)
  }

  /** The input events the ruler reacts to. */
  datatype Event = ClickAt(p: Point) | MoveTo(p: Point) | Key(key: string) | TurnOn | TurnOff

  function Step(r: Ruler, ev: Event, viewportWidth: int): Outcome {
    match ev
    case ClickAt(p) => Click(r, p, viewportWidth)
    case MoveTo(p) => Move(r, p, viewportWidth)
    case Key(k) => KeyPress(r, k)
    case TurnOn => Enable(r)
    case TurnOff => Disable(r)
  }

  /** The ruler after a sequence of events. */
  function Run(r: Ruler, events: seq<Event>, viewportWidth: int): Ruler
    decreases |events|
  {
    if |events| == 0 then r else Run(Step(r, events[0], viewportWidth).ruler, events[1..], viewportWidth)
  }

  /** The start point is set exactly when a measurement is under way or
      done, and the end point exactly when it is done. */
  predicate Consistent(r: Ruler) {
    (r.start.Some? <==> r.phase != Idle) && (r.end.Some? <==> r.phase == Finished)
  }

  /** The part of `Consistent` that survives re-enabling: a non-idle phase
      has its points, and an end point never exists without a start. */
  predicate Coherent(r: Ruler) {
    (r.phase != Idle ==> r.start.Some?) && (r.phase == Finished ==> r.end.Some?) && (r.end.Some? ==> r.start.Some?)
  }

  lemma ConsistentIsCoherent(r: Ruler)
    requires Consistent(r)
    ensures Coherent(r)
  {
  }

  /** Clicks, moves, key presses and switching off keep the ruler consistent. */
  lemma StepKeepsConsistent(r: Ruler, ev: Event, viewportWidth: int)
    requires Consistent(r) && !ev.TurnOn?
    ensures Consistent(Step(r, ev, viewportWidth).ruler)
  {
  }

  /** Re-enabling does not: a measurement in progress keeps its start point
      while the phase drops back to idle. */
  lemma EnableBreaksConsistent(p: Point)
    ensures Consistent(Ruler(Started, Some(p), None))
    ensures !Consistent(Enable(Ruler(Started, Some(p), None)).ruler)
  {
  }

  /** Every event, re-enabling included, keeps the ruler coherent. */
  lemma StepKeepsCoherent(r: Ruler, ev: Event, viewportWidth: int)
    requires Coherent(r)
    ensures Coherent(Step(r, ev, viewportWidth).ruler)
  {
  }

  /** Along any event sequence without re-enabling, a consistent ruler stays
      consistent; along any sequence at all, a coherent one stays coherent. */
  lemma {:induction false} RunKeepsInvariants(r: Ruler, events: seq<Event>, viewportWidth: int)
    ensures Consistent(r) && (forall i :: 0 <= i < |events| ==> !events[i].TurnOn?) ==>
      Consistent(Run(r, events, viewportWidth))
    ensures Coherent(r) ==> Coherent(Run(r, events, viewportWidth))
    decreases |events|
  {
    if |events| > 0 {
      var next := Step(r, events[0], viewportWidth).ruler;
      if Consistent(r) && !events[0].TurnOn? {
        StepKeepsConsistent(r, events[0], viewportWidth);
      }
      if Coherent(r) {
        StepKeepsCoherent(r, events[0], viewportWidth);
      }
      RunKeepsInvariants(next, events[1..], viewportWidth);
      assert forall i :: 0 <= i < |events[1..]| ==> events[1..][i] == events[i + 1];
    }
  }

  /** On a coherent ruler the second click always shows a measurement, and a
      finished ruler redisplays from its stored end point. */
  lemma FinishedShowsStoredEnd(r: Ruler, p: Point, viewportWidth: int)
    requires Coherent(r)
    ensures r.phase == Started ==> Click(r, p, viewportWidth).screen.Show?
    ensures r.phase == Finished ==>
      Display(r, None, viewportWidth) == Some(ReadingOf(r.start.value, r.end.value, viewportWidth))
  {
  }

  /** Three clicks from a cleared ruler run the full cycle and clear it
      again; Escape clears from every phase. */
  lemma ClickCycle(a: Point, b: Point, c: Point, viewportWidth: int)
    ensures var r1 := Click(Cleared, a, viewportWidth).ruler;
      var r2 := Click(r1, b, viewportWidth).ruler;
      r1 == Ruler(Started, Some(a), None)
      && r2 == Ruler(Finished, Some(a), Some(b))
      && Click(r2, c, viewportWidth).ruler == Cleared
  {
  }

  /** Click at (100, 100), move to (150, 130): a 50 x 30 preview at
      (100, 100); click there: finished, label 50 x 30; click again: cleared
      and hidden. */
  lemma MeasureFiftyByThirty()
    ensures var r1 := Click(Cleared, Point(100, 100), 1920).ruler;
      var want := Reading(Rect(100, 100, 50, 30), Dims(50, 30));
      var o2 := Click(r1, Point(150, 130), 1920);
      && Move(r1, Point(150, 130), 1920).screen == Show(want)
      && o2.ruler.phase == Finished && o2.screen == Show(want)
      && Click(o2.ruler, Point(150, 130), 1920) == Outcome(Cleared, Hide)
  {
  }
}
