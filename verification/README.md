# Pixel Pusher, modelled in Dafny

Pixel Pusher is a browser extension for pixel-perfect comparison of a web page with a design image. A
settings panel stores one overlay record: the image, its opacity, visibility, offsets, scale, two diff
modes and a ruler flag. A content script reacts to that record and to keyboard shortcuts. It draws the
overlay, shows the diff modes through CSS filters on the overlay image, and runs an on-page ruler. The
same script also defines a pixel diff mask (`calculateDiff`), a grouping of the differing pixels into
regions (`findDiffRegions`) and a hover tooltip over those regions, although nothing in it reaches them
yet.

This project models the record-to-record rules and the algorithms behind them:

- `Settings` (settings.dfy): `parseInt(v) || d` followed by a clamp. A `NaN` parse is `None`. It also
  holds the keyboard-event guards and the content script's opacity and one-pixel move steps.
- `OverlayState` (overlay_state.dfy): the overlay record and the effect of every panel control.
- `Panel` (panel.dfy): the panel's controls as one action type, and the panel's keydown handler.
- `Content` (content.dfy): the content script's keydown handler and the decisions of `updateOverlay`.
- `Legacy` (legacy.dfy): the earlier panel (`src-ts/panel.ts`, `src/panel.js`) and content script
  (`src-ts/content.ts`) on their seven-field record.
- `Ruler` (ruler.dfy): the idle/started/finished click cycle, the measured rectangle and the label.
- `Scale` (scale.dfy): the zoom heuristic that reads a full-width measurement as a common viewport
  width. It uses exact rationals.
- `DiffMask` (diff_mask.dfy): the per-pixel comparison loop of `calculateDiff`.
- `DiffRegions` (diff_regions.dfy): `findDiffRegions` with its stack-based flood fill and strided seeds.
- `Hover` (hover.dfy): the tooltip lookup over the cached regions.
- `Wrappers` and `Geometry` (wrappers.dfy): `Option`, points, `Abs`, `Min` and `Max`.

The flood fill keys its visited set by pixel rather than by byte offset. `DiffRegions.PixelIndexInjective`
shows the two keys agree on in-bounds pixels.

The zoom heuristic scans its candidate widths in order and the first plausible ratio wins
(src/content.ts:688-707). So a full-width measurement of 1920 on a 1920 viewport reads as 1280 (ratio
1.5), and 2880 on a 2880 viewport reads as 1920 (ratio 1.5). `Scale.FullWidth1920ReadsAs1280` and
`Scale.FullWidth2880ReadsAs1920` state this.

## Model

| member | source | states |
|---|---|---|
| Settings.OrDefault | src/panel.ts:185 | a failed parse and a parsed zero both fall back to the default; any other parsed value is kept |
| Settings.Clamp | src/panel.ts:185 | the result lies in [lo, hi], equals the input inside the range and the nearer bound outside it |
| Settings.OpacityFrom | src/panel.ts:184-191 | the stored opacity is always within 0..100; a failed parse gives 0; an in-range value is stored as is; a value below 0 becomes 0 and one above 100 becomes 100 |
| Settings.OffsetFrom | src/panel.ts:269-285 | the stored offset is always within -500..500; a failed parse gives 0; an in-range value is stored as is; a value beyond either end becomes that end |
| Settings.ScaleFrom | src/panel.ts:287-294 | the stored scale is always within 10..200; a failed parse or zero gives 100; an in-range nonzero value is stored as is; a nonzero value below 10 becomes 10 and one above 200 becomes 200 |
| Settings.UpdatersAreIdempotent | src/panel.ts:184-191 | the value written back to the slider and text box, parsed again, is stored unchanged (opacity, offsets, scale) |
| Settings.OpacityStep | src/content.ts:918-939 | ArrowUp adds 5 capped at 100, ArrowDown subtracts 5 floored at 0, other arrows leave it; a value in 0..100 stays in 0..100 |
| Settings.OffsetStep | src/content.ts:941-966 | each arrow moves exactly one coordinate by exactly one pixel in its direction; the move has Manhattan length at most 1; the offsets change exactly when the key is one of the four arrows |
| OverlayState.SetOpacity | src/panel.ts:184-191 | only the opacity changes, to the clamped parse |
| OverlayState.SetOffsetX | src/panel.ts:269-276 | only offsetX changes, to the clamped parse |
| OverlayState.SetOffsetY | src/panel.ts:278-285 | only offsetY changes, to the clamped parse |
| OverlayState.SetScale | src/panel.ts:287-294 | only the scale changes, to the clamped parse with 100 as the fallback |
| OverlayState.ToggleVisible | src/panel.ts:201-206 | visibility flips; placement, image, diff modes and ruler flag are untouched |
| OverlayState.Clear | src/panel.ts:208-218 | the image and file name are gone and both diff modes are off; placement, visibility and ruler flag survive |
| OverlayState.ToggleDiff | src/panel.ts:220-239 | without an image nothing changes; with one the diff flag flips, visibility follows it, switching on clears the no-colour mode, and the modes end up exclusive |
| OverlayState.ToggleNoColorDiff | src/panel.ts:241-260 | without an image nothing changes; with one the no-colour flag flips, visibility follows it, switching on clears diff mode, and the modes end up exclusive |
| OverlayState.ToggleRuler | src/panel.ts:262-267 | the ruler flag flips, with or without an image; nothing else changes |
| OverlayState.ResetPosition | src/panel.ts:320-332 | offsets return to 0 and scale to 100; opacity, image and modes are untouched |
| OverlayState.ToggleNoColorDiffMirrorsToggleDiff | src/panel.ts:220-260 | the no-colour toggle is the diff toggle with the two mode flags exchanged |
| OverlayState.TogglesAreInvolutions | src/panel.ts:201-206 | pressing show/hide twice, or the ruler button twice, restores the state |
| OverlayState.ClearAndResetIdempotent | src/panel.ts:208-239 | clear and reset are idempotent; after clear neither diff toggle changes anything |
| OverlayState.DiffOnThenOffHides | src/panel.ts:220-239 | with an image, diff on then off leaves both modes off and the overlay hidden, placement untouched |
| Panel.Apply | src/panel.ts:184-332 | only the clear button touches the image, and it leaves it falsy; only the numeric inputs and reset change opacity, offsets or scale, and those leave visibility and the modes alone |
| Panel.KeyDown | src/panel.ts:346-447 | no shortcut touches the image or file name; a key no guard accepts changes nothing |
| Panel.LetterShortcutsMatchButtons | src/panel.ts:346-411 | Alt+Shift+V with an image, and Alt+Shift+D, G and R always, do exactly what the show/hide, diff, no-colour and ruler buttons do |
| Panel.ShortcutsExclusive | src/panel.ts:346-447 | at most one of the panel's six shortcut guards holds for any key event |
| Panel.OpacityKeyRoutesThroughUpdater | src/panel.ts:414-425 | with an image, Alt+Shift+ArrowUp/Down is `updateOpacity(opacity ± 5)`, so opacity stays in 0..100 |
| Panel.MoveKeyRoutesThroughUpdater | src/panel.ts:427-447 | with an image and any stored offsets, AltGr+Shift+Arrow changes only the one offset its arrow names, to the shifted value clamped to -500..500; a bounded state stays bounded |
| Panel.NoImageOnlyRuler | src/panel.ts:346-447 | without an image every shortcut except Alt+Shift+R leaves the state unchanged, and that one only flips the ruler |
| Panel.ApplyKeepsDiffModesExclusive | src/panel.ts:184-332 | no panel control turns on both diff modes |
| Panel.KeyDownKeepsDiffModesExclusive | src/panel.ts:346-447 | no panel shortcut turns on both diff modes |
| Panel.ApplyKeepsBounded | src/panel.ts:184-332 | every control keeps opacity, offsets and scale in their ranges |
| Panel.KeyDownKeepsBounded | src/panel.ts:346-447 | every shortcut keeps opacity, offsets and scale in their ranges |
| Panel.RunKeepsInvariants | src/panel.ts:184-332 | any sequence of controls from a bounded, exclusive state stays bounded and exclusive |
| Panel.InitialSatisfiesInvariants | src/panel.ts:15-26 | the panel's starting state is bounded and has exclusive diff modes |
| Content.KeyDown | src/content.ts:855-968 | no stored record means no write; a key no guard accepts writes nothing; only the ruler shortcut writes without an image; no shortcut touches the image or file name |
| Content.GuardsExclusive | src/content.ts:855-968 | at most one of the six shortcut guards holds, so the independent `if`s act as one choice |
| Content.OpacityShortcut | src/content.ts:918-939 | with an image, the opacity shortcut changes only the opacity, by the opacity step |
| Content.MoveShortcut | src/content.ts:941-966 | with an image, the move shortcut shifts one offset by one pixel and changes nothing else |
| Content.ToggleShortcutsMatchPanel | src/content.ts:855-916 | Alt+Shift+D, G, R and V write exactly what the panel's diff, no-colour, ruler and show/hide buttons produce |
| Content.KeyDownKeepsDiffModesExclusive | src/content.ts:869-916 | no content-script shortcut writes a record with both diff modes on |
| Content.UpdateOverlay | src/content.ts:56-94 | the overlay shows exactly when visible with an image; the image style exists exactly with an image, carries the stored opacity, the offsets and the scale with 0 replaced by 100; diff mode is drawn exactly when displayed with the diff flag |
| Content.NoColorModeUnderExclusivity | src/content.ts:81-87 | with exclusive modes, the no-colour filter is drawn exactly when displayed with the no-colour flag |
| Content.DiffTakesPrecedence | src/content.ts:81-87 | if both flags are set, the diff filter wins |
| Content.RulerOnUpdate | src/content.ts:89-93 | with ruler mode on, every update returns the ruler to idle and keeps its points; with it off, the ruler is cleared |
| Content.ClearOverlayHidesEverything | src/content.ts:815-829 | the cleared record displays nothing, draws no diff filter and clears the ruler |
| Legacy.Apply | src-ts/panel.ts:122-217 | each numeric input sets only its own field to the clamped parse; show/hide flips only visibility; clear drops only the image and file name; reset restores offsets and scale only |
| Legacy.ApplyKeepsBounded | src-ts/panel.ts:122-217 | every legacy control keeps the settings in range, and show/hide twice is the identity |
| Legacy.AgreesWithCurrentPanel | src/panel.js:100-181 | the legacy updaters, clear, show/hide and reset agree with the current panel's on the fields they share |
| Legacy.KeyDown | src-ts/content.ts:103-166 | no stored record or no image means no write; a key no guard accepts writes nothing; the image and file name are never changed |
| Legacy.ShortcutsExclusive | src-ts/content.ts:103-166 | the opacity and move shortcuts never both apply, nor does either with Alt+Shift+V |
| Legacy.ShortcutEffects | src-ts/content.ts:103-166 | V flips visibility only, the arrows change opacity by the step or move one offset by one pixel, each touching only its field |
| Legacy.UpdateOverlay | src-ts/content.ts:42-61 | displayed exactly when visible with an image; the image style exists exactly with an image, carries the stored opacity and the offsets, and uses scale 100 in place of 0 |
| Legacy.UpdateOverlayAgreesWithCurrent | src-ts/content.ts:42-61 | for the same stored record the legacy script shows the overlay in the same cases, and with the same opacity and transform, as the current one |
| Ruler.Measure | src/content.ts:649-663 | on each axis the rectangle runs from one point to the other |
| Ruler.MeasureSymmetric | src/content.ts:649-663 | measuring a to b gives the same rectangle as b to a |
| Ruler.MeasureEmptyIffSamePoint | src/content.ts:649-663 | the rectangle has zero width and height exactly when the two points coincide |
| Ruler.Display | src/content.ts:649-656 | nothing is drawn without a start point; the far corner is the cursor, else the stored end, else the start (an empty box at the start) |
| Ruler.Click | src/content.ts:575-626 | idle records the start and hides; started records the end and shows the measurement; finished clears the ruler |
| Ruler.Move | src/content.ts:628-647 | a move never changes the ruler and redraws only while started with a start point |
| Ruler.KeyPress | src/content.ts:718-732 | Escape clears the ruler from any phase; other keys change nothing |
| Ruler.Disable | src/content.ts:549-573 | switching off leaves an idle ruler with no points and hides it |
| Ruler.Enable | src/content.ts:511-547 | switching on forces idle but keeps both recorded points |
| Ruler.ConsistentIsCoherent | src/content.ts:575-626 | a consistent ruler is coherent |
| Ruler.StepKeepsConsistent | src/content.ts:549-732 | clicks, moves, key presses and switching off keep "start set iff not idle, end set iff finished" |
| Ruler.EnableBreaksConsistent | src/content.ts:511-514 | re-enabling during a measurement leaves an idle ruler that still holds a start point |
| Ruler.StepKeepsCoherent | src/content.ts:511-732 | every event, re-enabling included, keeps "not idle implies a start point, finished implies an end point" |
| Ruler.RunKeepsInvariants | src/content.ts:511-732 | any event sequence keeps coherence, and without re-enabling keeps consistency |
| Ruler.FinishedShowsStoredEnd | src/content.ts:605-626 | on a coherent ruler the second click always shows a measurement, and a finished ruler redisplays from its stored end |
| Ruler.ClickCycle | src/content.ts:575-626 | three clicks from cleared run idle, started, finished, then back to cleared |
| Ruler.MeasureFiftyByThirty | src/content.ts:575-663 | a click at (100,100) and a move to (150,130) show a 50 by 30 box at (100,100) |
| Scale.Round | src/content.ts:702-703 | the result is the nearest integer, with halves rounded up |
| Scale.Fits | src/content.ts:697-700 | a candidate fits exactly when the ratio lies strictly between 1.1 and 3 and within 0.01 of one of 1.25, 1.5, ..., 3 |
| Scale.FirstFit | src/content.ts:697-706 | the result is the first candidate width giving a plausible zoom ratio, with none before it; None means no candidate fits |
| Scale.DivideByZoom | src/content.ts:700-703 | dividing by the ratio width/c gives exactly c for the width, and the height rescaled by c/width |
| Scale.Unscale | src/content.ts:684-707 | a width 5 or more from the viewport, or one with no fitting candidate, is shown raw; otherwise the first fitting candidate and the rescaled height are shown |
| Scale.FullWidth1920ReadsAs1280 | src/content.ts:688-707 | 1920 at a 1920 viewport reads as 1280 (candidate index 3) |
| Scale.FullWidth2880ReadsAs1920 | src/content.ts:688-707 | 2880 at a 2880 viewport reads as 1920 (candidate index 0) |
| Scale.NarrowMeasurementIsRaw | src/content.ts:696 | a 50-pixel width on a 1920 viewport is shown unchanged |
| DiffMask.ClearEverywhere | src/content.ts:167 | a mask whose every pixel is untouched is zero in every byte |
| DiffMask.ComputeDiffMask | src/content.ts:170-197 | the mask has the input's size; a pixel is marked red at alpha 200 exactly when the overlay covers it and a channel differs by more than 30, otherwise it is all zero; identical inputs and a fully transparent overlay give an all-zero mask |
| DiffRegions.PixelIndexIsGetIndex | src/content.ts:208 | the row-by-row offset equals `getIndex(x, y) = (y * width + x) * 4` |
| DiffRegions.ValidSize | src/content.ts:204-208 | a valid raster has 4 * width * height bytes |
| DiffRegions.PixelIndexInRange | src/content.ts:208 | an in-bounds pixel's four bytes lie inside the raster |
| DiffRegions.PixelIndexInjective | src/content.ts:208 | distinct in-bounds pixels have distinct byte offsets |
| DiffRegions.CellsCard | src/content.ts:204-205 | a w by h raster has exactly w*h pixel positions |
| DiffRegions.ClosedReachesBack | src/content.ts:227-230 | a closed set containing a neighbour of a marked pixel contains the pixel |
| DiffRegions.FloodFill | src/content.ts:210-234 | the filled pixels are marked and disjoint from the earlier visited set; the fill and the enlarged visited set are both closed under marked 4-neighbours; every filled pixel is reached from the start by 4-neighbour steps inside the fill; it contains the start iff the start is marked and unvisited; the box is the exact bounding box; 1 + 4 per visited pixel pushes, at most one more than the raster's byte count (4*w*h + 1) |
| DiffRegions.LargeIndices | src/content.ts:242-244 | the positions of the boxes exceeding 5 by 5, strictly increasing, each such position present |
| DiffRegions.Kept | src/content.ts:242-244 | the kept boxes are the recorded boxes at the increasing positions of those exceeding 5 by 5, so scan order is kept and each large box appears once |
| DiffRegions.FillIsComponent | src/content.ts:210-234 | a closed set of marked pixels connected from its seed holds exactly the pixels reached from the seed over marked 4-neighbours: one connected component |
| DiffRegions.ClosedKeepsLitPath | src/content.ts:227-230 | a closed set holding the start of a path over marked 4-neighbours holds its end |
| DiffRegions.BoxInside | src/content.ts:221-233 | the bounding box of marked pixels lies within the raster |
| DiffRegions.UnionAppend | src/content.ts:206 | one visited set shared across fills is the union of the fills |
| DiffRegions.FindDiffRegions | src/content.ts:202-250 | every returned region exceeds 5 by 5 and lies within the raster; the regions are the kept boxes of the recorded fills; every fill is non-empty, marked, closed, boxed exactly, and connected from a seed on the 5-pixel grid that it holds; the fills are pairwise disjoint; every marked seed is covered; the union is closed; the fills come out in the scan order of their seeds, and no fill holds a seed scanned before its own |
| DiffRegions.SeedOrderAdd | src/content.ts:237-241 | a fill started at an unvisited marked grid point later in the scan than every earlier seed keeps the fills in seed order, and holds no earlier-scanned seed because those were all covered already |
| DiffRegions.SeedsStep | src/content.ts:237-239 | stepping the scan by 5 passes no seed |
| DiffRegions.SeedsRow | src/content.ts:237-238 | finishing a row and stepping down by 5 passes no seed |
| Hover.FindInclusive | src/content.ts:749-752 | the first region accepted by the inclusive hit test, with no earlier one accepted; None iff none is accepted |
| Hover.Find | src/content.ts:749-752 | the first region whose box holds the cursor, with no earlier one holding it; None iff none does |
| Hover.TooltipAsWritten | src/content.ts:736-764 | a tooltip appears only over a marked pixel; there it names the first cached region accepting the cursor inclusively, if any |
| Hover.Tooltip | src/content.ts:736-764 | the corrected tooltip appears only over a marked pixel; there it names the first cached region whose box holds the cursor, if any |
| Hover.InclusiveLookupNamesNeighbour | src/content.ts:749-752 | the cursor at column 6, outside a first 6-wide box at x=0 but inside a second at x=6, is attributed to the first |
| Hover.CorrectedLookupNamesOwner | src/content.ts:749-752 | the corrected lookup attributes that cursor to the second box |
| Hover.FindsKeptFill | src/content.ts:736-752 | over the scan's kept regions, a pixel of any kept fill is always found, in a box holding it |
| Hover.InclusiveAnswersWhereCorrectDoes | src/content.ts:749-752 | wherever the corrected lookup answers, the inclusive one answers too |

## Left out

- DOM construction and styling, the overlay and ruler elements, cursor and indicator text, and CSS
  filter strings are not modelled. The model keeps only the decisions they encode.
- Canvas drawing, the page capture (`capturePageAsImage` fills a canvas with white) and scaling of the
  overlay into the comparison canvas are not modelled. `DiffMask.ComputeDiffMask` takes both rasters as
  inputs.
- `calculateDiff` and `findDiffRegions` are never reached in the source: no code calls `calculateDiff`
  or `capturePageAsImage`, `currentDiffData` is only ever set to null (src/content.ts:421), and only
  the unregistered hover handler calls `findDiffRegions` (src/content.ts:746). The visible diff modes
  are the CSS filters of src/content.ts:81-87. `DiffMask` and `DiffRegions` model what the two
  functions would compute.
- Timers and the periodic style refresh in diff mode, `Date.now()`, and the `translateZ` jitter are
  not modelled.
- `chrome.storage`, runtime messages, `chrome.devtools` and the active tab id are not modelled. A
  shortcut is modelled as a function from the stored record to the record it writes.
- File reading and data-URL creation are not modelled. The image is an opaque string.
- Number-to-string formatting of slider values and of CSS values is not modelled.
- `isValidContext` is not modelled. It guards on the extension runtime, which is outside the model.
- Content.KeyDown: does not model the `opacity = 50` and `offsetX = 0, offsetY = 0` destructuring
  defaults (src/content.ts:922, 945), because the modelled record always has these fields.
- Legacy.KeyDown: does not model the `opacity = 50` and `offsetX = 0, offsetY = 0` destructuring
  defaults (src-ts/content.ts:120, 143), for the same reason.
- Cursor and touch coordinates are integers, so the `Math.round` of the ruler's width and height
  (src/content.ts:657-658) is the identity and fractional coordinates are not modelled.
- The hover handler is defined but never registered as a listener in the source. `Hover` models what it
  would do.
- The number of ruler overlay elements is not modelled. Every update with ruler mode on runs
  `enableRulerMode`, which appends a new full-page overlay with its own click and move listeners
  (src/content.ts:89-90, 520-546). `disableRulerMode` removes only the first element with that id
  (src/content.ts:553-556), so after two such updates an overlay survives switching off and still takes
  clicks, whose handler does not check the ruler flag. `Ruler.Run` accepts clicks after `TurnOff`, so it
  covers the ruler state this leaves behind, but not the blocked page.
- Ruler.Display: the label's text template is not modelled; only the shown dimensions are.
- Scale: the heuristic is computed on exact rationals, not IEEE doubles. The tolerance test
  `< 0.01` is decided exactly.
- The background script (src/background.js) is not part of this model.

## Findings

| source | as written | input that shows it | evidently intended | confidence | as-written member | corrected member |
|---|---|---|---|---|---|---|
| src/content.ts:749-752 | the hover lookup accepts `x <= r.x + r.width` and `y <= r.y + r.height`, although `width = maxX - minX + 1`, so it also accepts the column and row just past each box | regions `[(0,0,6,6), (6,0,6,6)]` and cursor (6,0): the cursor lies only in the second box, yet the first is reported | a half-open test `x < r.x + r.width`, `y < r.y + r.height` | high, not executed | Hover.FindInclusive, Hover.InclusiveLookupNamesNeighbour | Hover.Find, Hover.CorrectedLookupNamesOwner, Hover.FindsKeptFill |
