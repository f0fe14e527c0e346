/** The settings panel of `src/panel.ts`: its controls as one action type,
    its keyboard shortcuts, and the invariants every action keeps. */
module Panel {
  import opened Wrappers
  import opened Settings
  import opened OverlayState

  /** One user interaction with the panel's controls. The numeric inputs
      carry the result of `parseInt` on the control's text (`None` = NaN). */
  datatype Action =
    | OpacityInput(parsed: Option<int>)
    | OffsetXInput(parsed: Option<int>)
    | OffsetYInput(parsed: Option<int>)
    | ScaleInput(parsed: Option<int>)
    | VisibilityButton
    | ClearButton
    | DiffButton
    | NoColorDiffButton
    | RulerButton
    | ResetPositionButton

  /** The effect of one control on the panel's state: only the clear
      button touches the image, only the numeric inputs and the reset
      button touch placement, and they leave visibility and modes alone. */
  function Apply(s: State, a: Action): (r: State)
    ensures !a.ClearButton? ==> SameImage(s, r)
    ensures a.ClearButton? ==> !HasImage(r) && SamePlacement(s, r)
    ensures !(a.OpacityInput? || a.OffsetXInput? || a.OffsetYInput? || a.ScaleInput? || a.ResetPositionButton?)
            ==> SamePlacement(s, r)
    ensures a.OpacityInput? || a.OffsetXInput? || a.OffsetYInput? || a.ScaleInput? || a.ResetPositionButton?
            ==> SameModes(s, r)
  {
    match a
    case OpacityInput(p) => SetOpacity(s, p)
    case OffsetXInput(p) => SetOffsetX(s, p)
    case OffsetYInput(p) => SetOffsetY(s, p)
    case ScaleInput(p) => SetScale(s, p)
    case VisibilityButton => ToggleVisible(s)
    case ClearButton => Clear(s)
    case DiffButton => ToggleDiff(s)
    case NoColorDiffButton => ToggleNoColorDiff(s)
    case RulerButton => ToggleRuler(s)
    case ResetPositionButton => ResetPosition(s)
  }

  /** The panel's opacity shortcut: Alt+Shift+ArrowUp/ArrowDown without Ctrl. */
  predicate PanelOpacityKey(e: KeyEvent) {
    e.altKey && e.shiftKey && !e.ctrlKey && (e.key == "ArrowUp" || e.key == "ArrowDown")
  }

  /** The panel's move shortcut, routed through the clamping offset updaters
      with the shifted value as the parsed text. */
  function PanelMove(s: State, key: string): State {
    if key == "ArrowLeft" then SetOffsetX(s, Some(s.offsetX - 1))
    else if key == "ArrowRight" then SetOffsetX(s, Some(s.offsetX + 1))
    else if key == "ArrowUp" then SetOffsetY(s, Some(s.offsetY - 1))
    else if key == "ArrowDown" then SetOffsetY(s, Some(s.offsetY + 1))
    else s
  }

  /** Some shortcut guard accepts the event. */
  predicate AnyShortcut(e: KeyEvent) {
    AltShift(e, "V") || AltShift(e, "D") || AltShift(e, "G") || AltShift(e, "R") || PanelOpacityKey(e) || MoveArrow(e)
  }

  /** The panel's keydown handler: six independent `if`s run one after the
      other on the same state. No shortcut touches the image, and a key no
      guard accepts changes nothing. */
  function KeyDown(s: State, e: KeyEvent): (r: State)
    ensures SameImage(s, r)
    ensures !AnyShortcut(e) ==> r == s
  {
    var s1 := if AltShift(e, "V") && HasImage(s) then ToggleVisible(s) else s;
    var s2 := if AltShift(e, "D") then ToggleDiff(s1) else s1;
    var s3 := if AltShift(e, "G") then ToggleNoColorDiff(s2) else s2;
    var s4 := if AltShift(e, "R") then ToggleRuler(s3) else s3;
    var s5 :=
      if PanelOpacityKey(e) && HasImage(s4) then
        (if e.key == "ArrowUp" then SetOpacity(s4, Some(s4.opacity + 5))
         else SetOpacity(s4, Some(s4.opacity - 5)))
      else s4;
    var s6 := if MoveArrow(e) && HasImage(s5) then PanelMove(s5, e.key) else s5;
    s6
  }

  /** No key event satisfies two of the six shortcut guards, so at most one
      branch of `KeyDown` ever fires: the opacity and move guards differ on
      Ctrl, the letter guards on the key. */
  lemma ShortcutsExclusive(e: KeyEvent)
    ensures Count(AltShift(e, "V")) + Count(AltShift(e, "D")) + Count(AltShift(e, "G"))
          + Count(AltShift(e, "R")) + Count(PanelOpacityKey(e)) + Count(MoveArrow(e)) <= 1
  {
    if IsArrowKey(e.key) {
      assert e.key[..5] == "Arrow";
      assert e.key != "V" && e.key != "D" && e.key != "G" && e.key != "R";
    }
  }

  /** Alt+Shift+ArrowUp/Down with an image is exactly `updateOpacity` of the
      shifted opacity: clamped to [0, 100], all else unchanged. */
  lemma OpacityKeyRoutesThroughUpdater(s: State, e: KeyEvent)
    requires PanelOpacityKey(e) && HasImage(s)
    ensures e.key == "ArrowUp" ==> KeyDown(s, e) == SetOpacity(s, Some(s.opacity + 5))
    ensures e.key == "ArrowDown" ==> KeyDown(s, e) == SetOpacity(s, Some(s.opacity - 5))
    ensures MinOpacity <= KeyDown(s, e).opacity <= MaxOpacity
  {
    ShortcutsExclusive(e);
  }

  /** AltGr+Shift+Arrow with an image moves by one pixel through the
      clamping updaters, from any stored offsets (the content script's own
      move shortcut does not clamp), so a bounded state stays bounded. */
  lemma MoveKeyRoutesThroughUpdater(s: State, e: KeyEvent)
    requires MoveArrow(e) && HasImage(s)
    ensures KeyDown(s, e) == PanelMove(s, e.key)
    ensures e.key == "ArrowLeft" ==> KeyDown(s, e) == s.(offsetX := Clamp(MinOffset, MaxOffset, s.offsetX - 1))
    ensures e.key == "ArrowRight" ==> KeyDown(s, e) == s.(offsetX := Clamp(MinOffset, MaxOffset, s.offsetX + 1))
    ensures e.key == "ArrowUp" ==> KeyDown(s, e) == s.(offsetY := Clamp(MinOffset, MaxOffset, s.offsetY - 1))
    ensures e.key == "ArrowDown" ==> KeyDown(s, e) == s.(offsetY := Clamp(MinOffset, MaxOffset, s.offsetY + 1))
    ensures Bounded(s) ==> Bounded(KeyDown(s, e))
  {
    ShortcutsExclusive(e);
  }

  /** The letter shortcuts press the matching buttons: show/hide with an
      image, the two diff toggles (no-ops without an image) and the ruler
      toggle always. */
  lemma LetterShortcutsMatchButtons(s: State, e: KeyEvent)
    ensures AltShift(e, "V") && HasImage(s) ==> KeyDown(s, e) == Apply(s, VisibilityButton)
    ensures AltShift(e, "D") ==> KeyDown(s, e) == Apply(s, DiffButton)
    ensures AltShift(e, "G") ==> KeyDown(s, e) == Apply(s, NoColorDiffButton)
    ensures AltShift(e, "R") ==> KeyDown(s, e) == Apply(s, RulerButton)
  {
    ShortcutsExclusive(e);
  }

  /** Without an image only the ruler shortcut does anything. */
  lemma NoImageOnlyRuler(s: State, e: KeyEvent)
    requires !HasImage(s)
    ensures !AltShift(e, "R") ==> KeyDown(s, e) == s
    ensures AltShift(e, "R") ==> KeyDown(s, e) == ToggleRuler(s)
  {
    ShortcutsExclusive(e);
  }

  /** No control turns a state with at most one diff mode into one with both. */
  lemma ApplyKeepsDiffModesExclusive(s: State, a: Action)
    requires DiffModesExclusive(s)
    ensures DiffModesExclusive(Apply(s, a))
  {
  }

  /** Nor does any keyboard shortcut. */
  lemma KeyDownKeepsDiffModesExclusive(s: State, e: KeyEvent)
    requires DiffModesExclusive(s)
    ensures DiffModesExclusive(KeyDown(s, e))
  {
  }

  /** Every control keeps the numeric settings in range. */
  lemma ApplyKeepsBounded(s: State, a: Action)
    requires Bounded(s)
    ensures Bounded(Apply(s, a))
  {
  }

  /** So does every shortcut: at most one branch fires, and each one either
      leaves the numbers alone or goes through a clamping updater. */
  lemma KeyDownKeepsBounded(s: State, e: KeyEvent)
    requires Bounded(s)
    ensures Bounded(KeyDown(s, e))
  {
    ShortcutsExclusive(e);
    if PanelOpacityKey(e) && HasImage(s) {
      OpacityKeyRoutesThroughUpdater(s, e);
    } else if MoveArrow(e) && HasImage(s) {
      MoveKeyRoutesThroughUpdater(s, e);
    }
  }

  /** The state after a whole session of controls, starting from `s`. */
  function Run(s: State, actions: seq<Action>): State
    decreases |actions|
  {
    if |actions| == 0 then s else Run(Apply(s, actions[0]), actions[1..])
  }

  /** Starting from the initial panel state, no sequence of controls ever
      has both diff modes on, and every numeric setting stays in range. */
  lemma {:induction false} RunKeepsInvariants(s: State, actions: seq<Action>)
    requires DiffModesExclusive(s) && Bounded(s)
    ensures DiffModesExclusive(Run(s, actions)) && Bounded(Run(s, actions))
    decreases |actions|
  {
    if |actions| > 0 {
      ApplyKeepsDiffModesExclusive(s, actions[0]);
      ApplyKeepsBounded(s, actions[0]);
      RunKeepsInvariants(Apply(s, actions[0]), actions[1..]);
    }
  }

  lemma InitialSatisfiesInvariants()
    ensures DiffModesExclusive(Initial) && Bounded(Initial)
  {
  }
}
