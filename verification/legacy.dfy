/** The earlier version of the extension (`src-ts/panel.ts`, compiled to
    `src/panel.js`, and `src-ts/content.ts`): a seven-field state with no
    diff or ruler modes, the same clamping updaters, and fewer shortcuts. */
module Legacy {
  import opened Wrappers
  import opened Settings
  import OverlayState
  import Content

  datatype LegacyState = LegacyState(
    imageData: Option<string>,
    opacity: int,
    isVisible: bool,
    fileName: Option<string>,
    offsetX: int,
    offsetY: int,
    scale: int)

  const Initial := LegacyState(None, 50, true, None, 0, 0, 100)

  predicate HasImage(s: LegacyState) {
    OverlayState.Truthy(s.imageData)
  }

  predicate Bounded(s: LegacyState) {
    && MinOpacity <= s.opacity <= MaxOpacity
    && MinOffset <= s.offsetX <= MaxOffset
    && MinOffset <= s.offsetY <= MaxOffset
    && MinScale <= s.scale <= MaxScale
  }

  /** The panel's controls. */
  datatype Action =
    | OpacityInput(parsed: Option<int>)
    | OffsetXInput(parsed: Option<int>)
    | OffsetYInput(parsed: Option<int>)
    | ScaleInput(parsed: Option<int>)
    | VisibilityButton
    | ClearButton
    | ResetPositionButton

  /** The effect of one panel control. The numeric inputs clamp exactly as
      the current panel does; clear forgets only the image; reset restores
      offsets and scale only. */
  function Apply(s: LegacyState, a: Action): (r: LegacyState)
    ensures a.OpacityInput? ==> r == s.(opacity := OpacityFrom(a.parsed))
    ensures a.OffsetXInput? ==> r == s.(offsetX := OffsetFrom(a.parsed))
    ensures a.OffsetYInput? ==> r == s.(offsetY := OffsetFrom(a.parsed))
    ensures a.ScaleInput? ==> r == s.(scale := ScaleFrom(a.parsed))
    ensures a.VisibilityButton? ==> r.isVisible != s.isVisible && r == s.(isVisible := r.isVisible)
    ensures a.ClearButton? ==> !HasImage(r) && r.fileName.None? && r == s.(imageData := None, fileName := None)
    ensures a.ResetPositionButton? ==>
      && r.offsetX == Initial.offsetX && r.offsetY == Initial.offsetY && r.scale == Initial.scale
      && r.opacity == s.opacity && r.isVisible == s.isVisible
      && r.imageData == s.imageData && r.fileName == s.fileName
  {
    match a
    case OpacityInput(p) => s.(opacity := OpacityFrom(p))
    case OffsetXInput(p) => s.(offsetX := OffsetFrom(p))
    case OffsetYInput(p) => s.(offsetY := OffsetFrom(p))
    case ScaleInput(p) => s.(scale := ScaleFrom(p))
    case VisibilityButton => s.(isVisible := !s.isVisible)
    case ClearButton => s.(imageData := None, fileName := None)
    case ResetPositionButton => s.(offsetX := 0, offsetY := 0, scale := DefaultScale)
  }

  /** Every control keeps the numeric settings in range, and the visibility
      button twice is the identity. */
  lemma ApplyKeepsBounded(s: LegacyState, a: Action)
    requires Bounded(s)
    ensures Bounded(Apply(s, a))
    ensures Apply(Apply(s, VisibilityButton), VisibilityButton) == s
  {
  }

  /** The updaters on the legacy state agree with the current panel's on
      the fields both records have. */
  lemma AgreesWithCurrentPanel(s: OverlayState.State, p: Option<int>)
    ensures Apply(Project(s), OpacityInput(p)) == Project(OverlayState.SetOpacity(s, p))
    ensures Apply(Project(s), OffsetXInput(p)) == Project(OverlayState.SetOffsetX(s, p))
    ensures Apply(Project(s), OffsetYInput(p)) == Project(OverlayState.SetOffsetY(s, p))
    ensures Apply(Project(s), ScaleInput(p)) == Project(OverlayState.SetScale(s, p))
    ensures Apply(Project(s), VisibilityButton) == Project(OverlayState.ToggleVisible(s))
    ensures Apply(Project(s), ResetPositionButton) == Project(OverlayState.ResetPosition(s))
    ensures Apply(Project(s), ClearButton) == Project(OverlayState.Clear(s))
  {
  }

  /** The fields of the current state that the legacy record also has. */
  function Project(s: OverlayState.State): LegacyState {
    LegacyState(s.imageData, s.opacity, s.isVisible, s.fileName, s.offsetX, s.offsetY, s.scale)
  }

  /** The legacy content script's shortcut handler; the result is the state
      written back, or `None`. Only visibility, opacity and move exist. */
  function KeyDown(stored: Option<LegacyState>, e: KeyEvent): (w: Option<LegacyState>)
    ensures stored.None? ==> w.None?
    ensures !(AltShift(e, "V") || OpacityArrow(e) || MoveArrow(e)) ==> w.None?
    ensures w.Some? ==> HasImage(stored.value)
    ensures w.Some? ==> w.value.imageData == stored.value.imageData && w.value.fileName == stored.value.fileName
  {
    match stored
    case None => None
    case Some(s) =>
      if !HasImage(s) then None
      else if AltShift(e, "V") then Some(s.(isVisible := !s.isVisible))
      else if OpacityArrow(e) then Some(s.(opacity := OpacityStep(s.opacity, e.key)))
      else if MoveArrow(e) then
        var (x, y) := OffsetStep(s.offsetX, s.offsetY, e.key);
        Some(s.(offsetX := x, offsetY := y))
      else None
  }

  /** The opacity and move shortcuts never both apply: one needs Ctrl up,
      the other Ctrl down; neither overlaps Alt+Shift+V. */
  lemma ShortcutsExclusive(e: KeyEvent)
    ensures !(OpacityArrow(e) && MoveArrow(e))
    ensures !(AltShift(e, "V") && (OpacityArrow(e) || MoveArrow(e)))
  {
    if IsArrowKey(e.key) {
      assert e.key[..5] == "Arrow";
    }
  }

  /** What each shortcut does: visibility flips only `isVisible`; opacity
      steps by 5 within [0, 100]; a move changes one offset by one pixel
      without clamping; without a stored state or an image nothing is
      written. */
  lemma ShortcutEffects(s: LegacyState, e: KeyEvent)
    requires HasImage(s)
    ensures AltShift(e, "V") ==> KeyDown(Some(s), e) == Some(s.(isVisible := !s.isVisible))
    ensures OpacityArrow(e) ==> KeyDown(Some(s), e) == Some(s.(opacity := OpacityStep(s.opacity, e.key)))
    ensures OpacityArrow(e) && 0 <= s.opacity <= 100 ==> 0 <= KeyDown(Some(s), e).value.opacity <= 100
    ensures MoveArrow(e) && e.key == "ArrowLeft" ==> KeyDown(Some(s), e) == Some(s.(offsetX := s.offsetX - 1))
    ensures MoveArrow(e) && e.key == "ArrowRight" ==> KeyDown(Some(s), e) == Some(s.(offsetX := s.offsetX + 1))
    ensures MoveArrow(e) && e.key == "ArrowUp" ==> KeyDown(Some(s), e) == Some(s.(offsetY := s.offsetY - 1))
    ensures MoveArrow(e) && e.key == "ArrowDown" ==> KeyDown(Some(s), e) == Some(s.(offsetY := s.offsetY + 1))
  {
    ShortcutsExclusive(e);
  }

  /** What the legacy `updateOverlay` decides: displayed iff visible with an
      image; the image's opacity and transform (falsy offsets as 0, a falsy
      scale as 100) only with an image. */
  function UpdateOverlay(s: LegacyState): (v: (bool, Option<OverlayState.ImageStyle>))
    ensures v.0 <==> s.isVisible && HasImage(s)
    ensures v.1.Some? <==> HasImage(s)
    ensures v.1.Some? ==> v.1.value.opacityPercent == s.opacity
    ensures v.1.Some? ==> v.1.value.offsetX == s.offsetX && v.1.value.offsetY == s.offsetY
    ensures v.1.Some? ==> v.1.value.scalePercent == (if s.scale == 0 then 100 else s.scale)
  {
    (s.isVisible && HasImage(s),
     if HasImage(s) then Some(OverlayState.ImageStyle(s.opacity, s.offsetX, s.offsetY, OverlayState.EffectiveScale(s.scale)))
     else None)
  }

  /** For the same stored record the legacy script draws what the current
      one draws: the overlay shows in the same cases and the image gets the
      same opacity and transform. Only the diff filters are new. */
  lemma UpdateOverlayAgreesWithCurrent(s: OverlayState.State)
    ensures UpdateOverlay(Project(s)).0 == Content.UpdateOverlay(s).displayed
    ensures UpdateOverlay(Project(s)).1 == Content.UpdateOverlay(s).image
  {
  }
}
