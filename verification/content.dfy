/** The content script of `src/content.ts`: the keyboard shortcuts that
    rewrite the stored overlay state, and the decisions `updateOverlay` takes
    for a new state. */
module Content {
  import opened Wrappers
  import opened Settings
  import opened OverlayState
  import Ruler

  /** The content script's shortcut handler. Each shortcut reads the stored
      state and writes back a new one; the result is the state written, or
      `None` when nothing is written. The guards are pairwise exclusive (see
      `GuardsExclusive`), so the handler's independent `if`s act as one
      chain. An event no guard accepts writes nothing. */
  function KeyDown(stored: Option<State>, e: KeyEvent): (w: Option<State>)
    ensures stored.None? ==> w.None?
    ensures !AnyShortcut(e) ==> w.None?
    ensures w.Some? && !AltShift(e, "R") ==> HasImage(stored.value)
    ensures w.Some? ==> SameImage(stored.value, w.value)
  {
    match stored
    case None => None
    case Some(s) =>
      if AltShift(e, "V") then
        if HasImage(s) then Some(ToggleVisible(s)) else None
      else if AltShift(e, "D") then
        if HasImage(s) then Some(ToggleDiff(s)) else None
      else if AltShift(e, "R") then
        Some(ToggleRuler(s))
      else if AltShift(e, "G") then
        if HasImage(s) then Some(ToggleNoColorDiff(s)) else None
      else if OpacityArrow(e) then
        if HasImage(s) then Some(s.(opacity := OpacityStep(s.opacity, e.key))) else None
      else if MoveArrow(e) then
        if HasImage(s) then
          var (x, y) := OffsetStep(s.offsetX, s.offsetY, e.key);
          Some(s.(offsetX := x, offsetY := y))
        else None
      else None
  }

  /** Some shortcut guard accepts the event. */
  predicate AnyShortcut(e: KeyEvent) {
    AltShift(e, "V") || AltShift(e, "D") || AltShift(e, "R") || AltShift(e, "G") || OpacityArrow(e) || MoveArrow(e)
  }

  /** At most one of the six shortcut guards holds for any event. */
  lemma GuardsExclusive(e: KeyEvent)
    ensures Count(AltShift(e, "V")) + Count(AltShift(e, "D")) + Count(AltShift(e, "R"))
          + Count(AltShift(e, "G")) + Count(OpacityArrow(e)) + Count(MoveArrow(e)) <= 1
  {
    if IsArrowKey(e.key) {
      assert e.key[..5] == "Arrow";
    }
  }

  /** The opacity shortcut changes only the opacity: up by 5 capped at 100,
      down by 5 floored at 0, other arrows unchanged, so [0, 100] is kept. */
  lemma OpacityShortcut(s: State, e: KeyEvent)
    requires HasImage(s) && OpacityArrow(e)
    ensures var w := KeyDown(Some(s), e);
      && w.Some? && w.value == s.(opacity := w.value.opacity)
      && (e.key == "ArrowUp" ==> w.value.opacity == Min100(s.opacity + 5))
      && (e.key == "ArrowDown" ==> w.value.opacity == Max0(s.opacity - 5))
      && (e.key != "ArrowUp" && e.key != "ArrowDown" ==> w.value == s)
      && (0 <= s.opacity <= 100 ==> 0 <= w.value.opacity <= 100)
  {
    GuardsExclusive(e);
  }

  /** The move shortcut shifts exactly one offset by one pixel, without
      clamping, and changes nothing else. */
  lemma MoveShortcut(s: State, e: KeyEvent)
    requires HasImage(s) && MoveArrow(e)
    ensures var w := KeyDown(Some(s), e);
      && w.Some? && w.value == s.(offsetX := w.value.offsetX, offsetY := w.value.offsetY)
      && (e.key == "ArrowLeft" ==> w.value.offsetX == s.offsetX - 1 && w.value.offsetY == s.offsetY)
      && (e.key == "ArrowRight" ==> w.value.offsetX == s.offsetX + 1 && w.value.offsetY == s.offsetY)
      && (e.key == "ArrowUp" ==> w.value.offsetY == s.offsetY - 1 && w.value.offsetX == s.offsetX)
      && (e.key == "ArrowDown" ==> w.value.offsetY == s.offsetY + 1 && w.value.offsetX == s.offsetX)
  {
    GuardsExclusive(e);
  }

  /** The diff shortcuts follow the panel's buttons exactly, and the ruler
      shortcut works without an image. */
  lemma ToggleShortcutsMatchPanel(s: State, e: KeyEvent)
    ensures AltShift(e, "D") && HasImage(s) ==> KeyDown(Some(s), e) == Some(ToggleDiff(s))
    ensures AltShift(e, "G") && HasImage(s) ==> KeyDown(Some(s), e) == Some(ToggleNoColorDiff(s))
    ensures AltShift(e, "R") ==> KeyDown(Some(s), e) == Some(ToggleRuler(s))
    ensures AltShift(e, "V") && HasImage(s) ==> KeyDown(Some(s), e) == Some(ToggleVisible(s))
  {
  }

  /** No shortcut writes a state with both diff modes on, starting from one
      without. */
  lemma KeyDownKeepsDiffModesExclusive(s: State, e: KeyEvent)
    requires DiffModesExclusive(s)
    ensures KeyDown(Some(s), e).Some? ==> DiffModesExclusive(KeyDown(Some(s), e).value)
  {
  }

  /** Which filter the overlay is drawn with. */
  datatype Mode = Diff | NoColorDiff | Plain

  /** What `updateOverlay` decides for a state. */
  datatype View = View(displayed: bool, image: Option<ImageStyle>, mode: Mode)

  /** `updateOverlay(state)`: the overlay shows iff it is visible and has an
      image; the image's opacity and transform are refreshed only when
      there is an image; the
      diff filter wins over the no-colour one. */
  function UpdateOverlay(s: State): (v: View)
    ensures v.displayed <==> s.isVisible && HasImage(s)
    ensures v.image.Some? <==> HasImage(s)
    ensures v.image.Some? ==> v.image.value.opacityPercent == s.opacity
    ensures v.image.Some? ==> v.image.value.offsetX == s.offsetX && v.image.value.offsetY == s.offsetY
    ensures v.image.Some? ==> v.image.value.scalePercent == (if s.scale == 0 then DefaultScale else s.scale)
    ensures v.mode != Plain ==> v.displayed
    ensures v.mode == Diff <==> v.displayed && s.diffMode
  {
    var displayed := s.isVisible && HasImage(s);
    View(
      displayed,
      if HasImage(s) then Some(ImageStyle(s.opacity, s.offsetX, s.offsetY, EffectiveScale(s.scale))) else None,
      if s.diffMode && HasImage(s) && s.isVisible then Diff
      else if s.noColorDiff && HasImage(s) && s.isVisible then NoColorDiff
      else Plain)
  }

  /** With the modes kept exclusive (as every action does), the no-colour
      filter is used exactly when that mode is on and the overlay shows. */
  lemma NoColorModeUnderExclusivity(s: State)
    requires DiffModesExclusive(s)
    ensures UpdateOverlay(s).mode == NoColorDiff <==> UpdateOverlay(s).displayed && s.noColorDiff
  {
  }

  /** With both flags set (a state no action produces), diff wins. */
  lemma DiffTakesPrecedence(s: State)
    requires s.diffMode && s.noColorDiff && s.isVisible && HasImage(s)
    ensures UpdateOverlay(s).mode == Diff
  {
  }

  /** The ruler half of `updateOverlay`: every update with ruler mode on
      re-enables it (back to idle, points kept); with it off, disables it. */
  function RulerOnUpdate(s: State, r: Ruler.Ruler): (o: Ruler.Outcome)
    ensures s.rulerMode ==> o.ruler.phase == Ruler.Idle && o.ruler.start == r.start && o.ruler.end == r.end
    ensures !s.rulerMode ==> o.ruler == Ruler.Cleared
  {
    if s.rulerMode then Ruler.Enable(r) else Ruler.Disable(r)
  }

  /** A `clearOverlay` message applies the panel's initial record: nothing
      is displayed and the ruler is switched off. */
  lemma ClearOverlayHidesEverything(r: Ruler.Ruler)
    ensures !UpdateOverlay(Initial).displayed && UpdateOverlay(Initial).mode == Plain
    ensures RulerOnUpdate(Initial, r).ruler == Ruler.Cleared
  {
  }
}
