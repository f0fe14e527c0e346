/** The overlay configuration record shared by the settings panel and the
    content script, and the record-to-record rules that the panel's buttons
    and inputs (and the matching keyboard shortcuts) apply to it. */
module OverlayState {
  import opened Wrappers
  import opened Settings

  /** The stored overlay configuration. `imageData` and `fileName` are the
      nullable strings of the stored record; the `activeTabId` bookkeeping field
      is not modelled. */
  datatype State = State(
    imageData: Option<string>,
    opacity: int,
    isVisible: bool,
    fileName: Option<string>,
    offsetX: int,
    offsetY: int,
    scale: int,
    diffMode: bool,
    noColorDiff: bool,
    rulerMode: bool)

  /** The style written onto the overlay image: its opacity (in percent;
      the CSS value is this over 100) and the translate and scale of its
      CSS transform. */
  datatype ImageStyle = ImageStyle(opacityPercent: int, offsetX: int, offsetY: int, scalePercent: int)

  /** `state.scale || 100`: a zero scale is falsy and falls back to 100. */
  function EffectiveScale(scale: int): int {
    if scale == 0 then DefaultScale else scale
  }

  /** The panel's state before anything is loaded or chosen. */
  const Initial := State(None, 50, true, None, 0, 0, 100, false, false, false)

  /** JavaScript truthiness of a nullable string: `null` and `""` are falsy. */
  predicate Truthy(s: Option<string>) {
    s.Some? && |s.value| > 0
  }

  /** The `if (state.imageData)` test. */
  predicate HasImage(s: State) {
    Truthy(s.imageData)
  }

  /** The two diff modes are never on together. */
  predicate DiffModesExclusive(s: State) {
    !(s.diffMode && s.noColorDiff)
  }

  /** Every numeric setting lies in the range its panel control allows. */
  predicate Bounded(s: State) {
    && MinOpacity <= s.opacity <= MaxOpacity
    && MinOffset <= s.offsetX <= MaxOffset
    && MinOffset <= s.offsetY <= MaxOffset
    && MinScale <= s.scale <= MaxScale
  }

  /** Opacity, offsets and scale agree. */
  predicate SamePlacement(a: State, b: State) {
    a.opacity == b.opacity && a.offsetX == b.offsetX && a.offsetY == b.offsetY && a.scale == b.scale
  }

  /** The chosen image agrees. */
  predicate SameImage(a: State, b: State) {
    a.imageData == b.imageData && a.fileName == b.fileName
  }

  /** Visibility, both diff modes and the ruler flag agree. */
  predicate SameModes(a: State, b: State) {
    a.isVisible == b.isVisible && a.diffMode == b.diffMode && a.noColorDiff == b.noColorDiff && a.rulerMode == b.rulerMode
  }

  /** `updateOpacity(value)` with `parseInt(value)` given as `parsed`. */
  function SetOpacity(s: State, parsed: Option<int>): (r: State)
    ensures MinOpacity <= r.opacity <= MaxOpacity
    ensures r.opacity == OpacityFrom(parsed)
    ensures r == s.(opacity := r.opacity)
  {
    s.(opacity := OpacityFrom(parsed))
  }

  /** `updateOffsetX(value)`. */
  function SetOffsetX(s: State, parsed: Option<int>): (r: State)
    ensures MinOffset <= r.offsetX <= MaxOffset
    ensures r.offsetX == OffsetFrom(parsed)
    ensures r == s.(offsetX := r.offsetX)
  {
    s.(offsetX := OffsetFrom(parsed))
  }

  /** `updateOffsetY(value)`. */
  function SetOffsetY(s: State, parsed: Option<int>): (r: State)
    ensures MinOffset <= r.offsetY <= MaxOffset
    ensures r.offsetY == OffsetFrom(parsed)
    ensures r == s.(offsetY := r.offsetY)
  {
    s.(offsetY := OffsetFrom(parsed))
  }

  /** `updateScale(value)`. */
  function SetScale(s: State, parsed: Option<int>): (r: State)
    ensures MinScale <= r.scale <= MaxScale
    ensures r.scale == ScaleFrom(parsed)
    ensures r == s.(scale := r.scale)
  {
    s.(scale := ScaleFrom(parsed))
  }

  /** The show/hide button: flips visibility and nothing else (it does not
      look at the image). */
  function ToggleVisible(s: State): (r: State)
    ensures r.isVisible != s.isVisible
    ensures SamePlacement(s, r) && SameImage(s, r)
    ensures r.diffMode == s.diffMode && r.noColorDiff == s.noColorDiff && r.rulerMode == s.rulerMode
  {
    s.(isVisible := !s.isVisible)
  }

  /** The clear button: forgets the image and switches both diff modes off;
      placement, visibility and the ruler flag survive. */
  function Clear(s: State): (r: State)
    ensures !HasImage(r) && r.imageData == None && r.fileName == None
    ensures !r.diffMode && !r.noColorDiff
    ensures SamePlacement(s, r)
    ensures r.isVisible == s.isVisible && r.rulerMode == s.rulerMode
  {
    s.(imageData := None, fileName := None, diffMode := false, noColorDiff := false)
  }

  /** The diff-mode button (and Alt+Shift+D): without an image nothing
      happens; switching diff on switches the no-colour diff off and shows
      the overlay, switching it off hides the overlay. */
  function ToggleDiff(s: State): (r: State)
    ensures !HasImage(s) ==> r == s
    ensures HasImage(s) ==> r.diffMode == !s.diffMode
    ensures HasImage(s) ==> r.isVisible == r.diffMode
    ensures HasImage(s) && r.diffMode ==> !r.noColorDiff
    ensures HasImage(s) && !r.diffMode ==> r.noColorDiff == s.noColorDiff
    ensures HasImage(s) ==> DiffModesExclusive(r)
    ensures SamePlacement(s, r) && SameImage(s, r) && r.rulerMode == s.rulerMode
  {
    if !HasImage(s) then s
    else
      var on := !s.diffMode;
      s.(diffMode := on, isVisible := on, noColorDiff := if on then false else s.noColorDiff)
  }

  /** The no-colour diff button (and Alt+Shift+G): the mirror image of
      `ToggleDiff` with the two mode flags exchanged. */
  function ToggleNoColorDiff(s: State): (r: State)
    ensures !HasImage(s) ==> r == s
    ensures HasImage(s) ==> r.noColorDiff == !s.noColorDiff
    ensures HasImage(s) ==> r.isVisible == r.noColorDiff
    ensures HasImage(s) && r.noColorDiff ==> !r.diffMode
    ensures HasImage(s) && !r.noColorDiff ==> r.diffMode == s.diffMode
    ensures HasImage(s) ==> DiffModesExclusive(r)
    ensures SamePlacement(s, r) && SameImage(s, r) && r.rulerMode == s.rulerMode
  {
    if !HasImage(s) then s
    else
      var on := !s.noColorDiff;
      s.(noColorDiff := on, isVisible := on, diffMode := if on then false else s.diffMode)
  }

  /** The ruler button (and Alt+Shift+R): flips the ruler flag only, with
      or without an image. */
  function ToggleRuler(s: State): (r: State)
    ensures r.rulerMode != s.rulerMode
    ensures SamePlacement(s, r) && SameImage(s, r)
    ensures r.isVisible == s.isVisible && r.diffMode == s.diffMode && r.noColorDiff == s.noColorDiff
  {
    s.(rulerMode := !s.rulerMode)
  }

  /** The reset-position button: offsets back to zero and scale back to
      100 %, as in `Initial`; opacity, image and modes untouched. */
  function ResetPosition(s: State): (r: State)
    ensures r.offsetX == Initial.offsetX && r.offsetY == Initial.offsetY && r.scale == Initial.scale
    ensures r.opacity == s.opacity && SameImage(s, r) && SameModes(s, r)
  {
    s.(offsetX := 0, offsetY := 0, scale := DefaultScale)
  }

  /** Exchanges the two diff-mode flags. */
  function SwapDiffModes(s: State): State {
    s.(diffMode := s.noColorDiff, noColorDiff := s.diffMode)
  }

  /** The no-colour diff toggle is the diff toggle seen through the flag
      exchange. */
  lemma ToggleNoColorDiffMirrorsToggleDiff(s: State)
    ensures SwapDiffModes(ToggleNoColorDiff(s)) == ToggleDiff(SwapDiffModes(s))
  {
  }

  /** Showing/hiding twice is the identity; so is flipping the ruler twice. */
  lemma TogglesAreInvolutions(s: State)
    ensures ToggleVisible(ToggleVisible(s)) == s
    ensures ToggleRuler(ToggleRuler(s)) == s
  {
  }

  /** Clear and reset are idempotent, and once the image is cleared neither
      diff toggle can switch a mode on. */
  lemma ClearAndResetIdempotent(s: State)
    ensures Clear(Clear(s)) == Clear(s)
    ensures ResetPosition(ResetPosition(s)) == ResetPosition(s)
    ensures ToggleDiff(Clear(s)) == Clear(s)
    ensures ToggleNoColorDiff(Clear(s)) == Clear(s)
  {
  }

  /** Switching a diff mode on and off again with an image leaves both
      modes off and the overlay hidden, whatever the starting modes were. */
  lemma DiffOnThenOffHides(s: State)
    requires HasImage(s) && !s.diffMode
    ensures var t := ToggleDiff(ToggleDiff(s));
      !t.diffMode && !t.noColorDiff && !t.isVisible && SamePlacement(s, t)
  {
  }
}
