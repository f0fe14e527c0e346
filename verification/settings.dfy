/** Parsing and clamping rules shared by every settings panel, and the
    keyboard-event shape the shortcut handlers inspect. */
module Settings {
  import opened Wrappers
  import opened Geometry

  /** JavaScript's `parseInt(v) || d`: a `NaN` (here `None`) and a parsed
      zero are both falsy, so both fall back to `d`. */
  function OrDefault(parsed: Option<int>, d: int): (r: int)
    ensures parsed == None ==> r == d
    ensures parsed == Some(0) ==> r == d
    ensures parsed.Some? && parsed.value != 0 ==> r == parsed.value
  {
    match parsed
    case None => d
    case Some(n) => if n == 0 then d else n
  }

  /** `Math.max(lo, Math.min(hi, v))`. */
  function Clamp(lo: int, hi: int, v: int): (r: int)
    requires lo <= hi
    ensures lo <= r <= hi
    ensures lo <= v <= hi ==> r == v
    ensures v < lo ==> r == lo
    ensures hi < v ==> r == hi
  {
    if v < lo then lo else if hi < v then hi else v
  }

  const MinOpacity := 0
  const MaxOpacity := 100
  const MinOffset := -500
  const MaxOffset := 500
  const MinScale := 10
  const MaxScale := 200
  const DefaultScale := 100

  /** The opacity an `updateOpacity(value)` call stores. */
  function OpacityFrom(parsed: Option<int>): (r: int)
    ensures MinOpacity <= r <= MaxOpacity
    ensures parsed == None ==> r == 0
    ensures parsed.Some? && MinOpacity <= parsed.value <= MaxOpacity ==> r == parsed.value
    ensures parsed.Some? && parsed.value < MinOpacity ==> r == MinOpacity
    ensures parsed.Some? && parsed.value > MaxOpacity ==> r == MaxOpacity
  {
    Clamp(MinOpacity, MaxOpacity, OrDefault(parsed, 0))
  }

  /** The offset an `updateOffsetX(value)` / `updateOffsetY(value)` call stores. */
  function OffsetFrom(parsed: Option<int>): (r: int)
    ensures MinOffset <= r <= MaxOffset
    ensures parsed == None ==> r == 0
    ensures parsed.Some? && MinOffset <= parsed.value <= MaxOffset ==> r == parsed.value
    ensures parsed.Some? && parsed.value < MinOffset ==> r == MinOffset
    ensures parsed.Some? && parsed.value > MaxOffset ==> r == MaxOffset
  {
    Clamp(MinOffset, MaxOffset, OrDefault(parsed, 0))
  }

  /** The scale an `updateScale(value)` call stores: a `NaN` and a parsed
      zero both become 100, everything else is clamped to [10, 200]. */
  function ScaleFrom(parsed: Option<int>): (r: int)
    ensures MinScale <= r <= MaxScale
    ensures parsed == None || parsed == Some(0) ==> r == DefaultScale
    ensures parsed.Some? && parsed.value != 0 && MinScale <= parsed.value <= MaxScale ==> r == parsed.value
    ensures parsed.Some? && parsed.value != 0 && parsed.value < MinScale ==> r == MinScale
    ensures parsed.Some? && parsed.value > MaxScale ==> r == MaxScale
  {
    Clamp(MinScale, MaxScale, OrDefault(parsed, DefaultScale))
  }

  /** The value a panel writes back into its slider and text box parses to
      itself: feeding it through the same updater again changes nothing. */
  lemma UpdatersAreIdempotent(parsed: Option<int>)
    ensures OpacityFrom(Some(OpacityFrom(parsed))) == OpacityFrom(parsed)
    ensures OffsetFrom(Some(OffsetFrom(parsed))) == OffsetFrom(parsed)
    ensures ScaleFrom(Some(ScaleFrom(parsed))) == ScaleFrom(parsed)
  {
  }

  /** A keyboard event as the shortcut handlers see it. */
  datatype KeyEvent = KeyEvent(altKey: bool, shiftKey: bool, ctrlKey: bool, key: string)

  /** `e.key.startsWith('Arrow')`. */
  predicate IsArrowKey(key: string) {
    "Arrow" <= key
  }

  /** `e.altKey && e.shiftKey && e.key === k`. */
  predicate AltShift(e: KeyEvent, k: string) {
    e.altKey && e.shiftKey && e.key == k
  }

  /** 1 for a guard that holds, 0 otherwise, for counting guards. */
  function Count(b: bool): nat { if b then 1 else 0 }

  /** The opacity shortcut of the content scripts: Alt+Shift+Arrow without Ctrl. */
  predicate OpacityArrow(e: KeyEvent) {
    e.altKey && e.shiftKey && !e.ctrlKey && IsArrowKey(e.key)
  }

  /** The move shortcut: Alt+Ctrl+Shift+Arrow (AltGr reports both Alt and Ctrl). */
  predicate MoveArrow(e: KeyEvent) {
    e.altKey && e.ctrlKey && e.shiftKey && IsArrowKey(e.key)
  }

  /** The content scripts' opacity step: up by 5 capped at 100, down by 5
      floored at 0, any other arrow leaves it alone. */
  function OpacityStep(opacity: int, key: string): (r: int)
    ensures 0 <= opacity <= 100 ==> 0 <= r <= 100
    ensures key == "ArrowUp" ==> r == Min100(opacity + 5)
    ensures key == "ArrowDown" ==> r == Max0(opacity - 5)
    ensures key != "ArrowUp" && key != "ArrowDown" ==> r == opacity
  {
    if key == "ArrowUp" then Min100(opacity + 5)
    else if key == "ArrowDown" then Max0(opacity - 5)
    else opacity
  }

  function Min100(n: int): int { if n <= 100 then n else 100 }
  function Max0(n: int): int { if n < 0 then 0 else n }

  /** The four keys that move the image; any other key leaves it in place. */
  const ArrowKeys: set<string> := {"ArrowLeft", "ArrowRight", "ArrowUp", "ArrowDown"}

  /** The one-pixel move of the move shortcut: exactly one coordinate
      changes, by exactly one, and only for the four arrow keys. */
  function OffsetStep(offsetX: int, offsetY: int, key: string): (r: (int, int))
    ensures key == "ArrowLeft" ==> r == (offsetX - 1, offsetY)
    ensures key == "ArrowRight" ==> r == (offsetX + 1, offsetY)
    ensures key == "ArrowUp" ==> r == (offsetX, offsetY - 1)
    ensures key == "ArrowDown" ==> r == (offsetX, offsetY + 1)
    ensures r.0 == offsetX || r.1 == offsetY
    ensures Abs(r.0 - offsetX) + Abs(r.1 - offsetY) <= 1
    ensures r != (offsetX, offsetY) <==> key in ArrowKeys
  {
    if key == "ArrowLeft" then (offsetX - 1, offsetY)
    else if key == "ArrowRight" then (offsetX + 1, offsetY)
    else if key == "ArrowUp" then (offsetX, offsetY - 1)
    else if key == "ArrowDown" then (offsetX, offsetY + 1)
    else (offsetX, offsetY)
  }
}
