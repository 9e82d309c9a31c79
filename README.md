# Map note hover display — a verified model

The add-on shows a floating preview of a journal entry while the user hovers
a map note on the game canvas. It hides the preview again on mouse-out, on
note deletion and on scene change. Its logic sits in one widget,
`MapNoteHoverDisplay`, and in the `hoverNote` hook that drives it. This
project models that logic in Dafny:

- **`HoverDisplay`**: the widget as a class. It has the fields `note` (the active
  note), `pendingHide` (the scheduled hide timer; a bool because at most one
  is ever scheduled), `originalTooltip` (the saved tooltip and label values) and
  `element` (the element's CSS display; none before the first render). Its
  methods are `Bind`, `Clear`, `ClearImmediate` and `TimerFires` (the timer
  callback), plus `HideOriginalTooltip` and `RestoreOriginalTooltip`, which
  change the note's `Tooltip` and child `DisplayObject`s in place. The module
  also holds the `hoverNote` hook. `Valid()` is the widget's invariant:
  - the element is shown exactly while a note is active;
  - a pending hide never holds a snapshot;
  - a snapshot always belongs to the active note.
  `Bind`, `Clear`, `ClearImmediate`, `TimerFires` and the hook `HoverNoteHook`
  each tie the new `State()` to one step of the abstract lifecycle.
- **`HoverLifecycle`**: the abstract lifecycle with the states `Hidden`,
  `Showing(n)` and `PendingHide(active)`. `Step` and `Run` replay event
  traces over it. `HoverAction` is the hover dispatch rule.
- **`PageResolution`**: which page is previewed and under what title.
- **`Placement`**: the `top`, `left` and transform of the preview, and the
  rectangle the preview then occupies.
- **`SeqSearch`** and **`Wrappers`**: a first-match search and `Option`.

The preview is raised above notes in the bottom half of the viewport
(map-note-hover-display-updated.js:231-241). `clear()` with no active note
schedules a hide with nothing active (lines 88-108); the model calls this
state `PendingHide(None)`.

`bind` overwrites the snapshot without restoring the previous one (line 129).
A second `bind`, to another note or to the same note, before any `clear`
therefore leaves the first note's text label blanked and its tooltip hidden
after a later reset. `RebindLeavesFirstLabelBlanked` proves this.

## Model

| member | source | states |
|---|---|---|
| `SeqSearch.IndexOfFirst` | map-note-hover-display-updated.js:142-154 | the result is the index of the first element passing the test (it passes, none before it does), and None exactly when no element passes |
| `PageResolution.PageById` | map-note-hover-display-updated.js:44-46 | a found page is in the entry and has the requested id; nothing is found exactly when no page has that id |
| `PageResolution.ResolvePage` | map-note-hover-display-updated.js:40-52 | a set id (present, non-empty) that some page carries selects a page with that id; an unset id or one no page carries selects the first page; no page is selected exactly when the entry has no pages |
| `PageResolution.NamedPageIsSelected` | map-note-hover-display-updated.js:44-46 | with unique page ids, naming the k-th page's id selects exactly the k-th page |
| `PageResolution.PrepareContext` | map-note-hover-display-updated.js:36-63 | no preview exactly when there is no entry or it has no pages; otherwise the title is the page name, or the entry name when the page name is empty, and the body source is the page text or "" |
| `Placement.IconSize` | map-note-hover-display-updated.js:219-220 | a measured non-zero size is kept; a missing or zero size becomes 40; the result is never 0 |
| `Placement.PositionHUD` | map-note-hover-display-updated.js:222-253 | orientation is right exactly when screenX < viewportWidth/2; left is screenX + icon width to the right and screenX - icon width to the left; top is screenY - icon height/2 in every case; the transform mirrors horizontally exactly for left and shifts upward exactly when screenY > viewportHeight/2 |
| `Placement.PreviewOpensAwayFromNote` | map-note-hover-display-updated.js:226-253 | for any preview size: its left edge is one icon width right of a left-half note, its right edge one icon width left of a right-half note; its top edge (top half) or bottom edge (bottom half) is at the icon's top |
| `HoverLifecycle.HoverAction` | map-note-hover-display-updated.js:355-369 | disabled gives clear-immediate; enabled, hovered and interaction state 1 gives bind; every other case gives clear (each as an if-and-only-if) |
| `HoverLifecycle.ClearImmediateResets` | map-note-hover-display-updated.js:110-126 | after any history, clear-immediate ends Hidden, and a second one changes nothing |
| `HoverLifecycle.BoundNoteSurvivesStaleTimers` | map-note-hover-display-updated.js:68-75 | after a bind, any number of further timer events leave the bound note showing; this follows from modelling the cancelled timer (lines 70-73) as one that no longer fires |
| `HoverLifecycle.OnlyTimerOrResetHides` | map-note-hover-display-updated.js:88-108 | from a shown state, any trace of binds and clears keeps the preview shown: only the timer or clear-immediate hides it |
| `HoverLifecycle.ClearThenRebindNeverHides` | map-note-hover-display-updated.js:68-107 | clear then bind(n) then any timer events: every intermediate state is shown and the final state is Showing(n) |
| `HoverDisplay.TextLabel` | map-note-hover-display-updated.js:141-155 | the label found is the first child that is a text label (no child before it is one); none is found exactly when no child is one |
| `HoverDisplay.Capture` | map-note-hover-display-updated.js:128-156 | the snapshot is of this note's tooltip and first text label, and holds their current values |
| `HoverDisplay.MapNoteHoverDisplay.constructor` | map-note-hover-display-updated.js:5-10 | a new widget is valid and Hidden, with no snapshot and no element |
| `HoverDisplay.MapNoteHoverDisplay.Bind` | map-note-hover-display-updated.js:68-86 | Showing(n): n is active, no hide is pending, the element is shown; the snapshot is n's values from before the call; n's tooltip and label are suppressed; no other child changes |
| `HoverDisplay.MapNoteHoverDisplay.Clear` | map-note-hover-display-updated.js:88-108 | exactly one hide is pending; the active note and the element are unchanged; the saved tooltip and label values are back in place and the snapshot is dropped |
| `HoverDisplay.MapNoteHoverDisplay.TimerFires` | map-note-hover-display-updated.js:98-107 | runs only while a hide is pending; afterwards no note is active, the element is hidden and no hide is pending |
| `HoverDisplay.MapNoteHoverDisplay.ClearImmediate` | map-note-hover-display-updated.js:110-126 | no pending hide, no active note, hidden element, no snapshot, saved values restored; on an already Hidden widget nothing changes (idempotent) |
| `HoverDisplay.MapNoteHoverDisplay.HideOriginalTooltip` | map-note-hover-display-updated.js:128-157 | the snapshot is the note's tooltip display and first text label's visible, renderable and alpha from before the call; those are then set to none, false, false, 0; no other child changes |
| `HoverDisplay.MapNoteHoverDisplay.RestoreOriginalTooltip` | map-note-hover-display-updated.js:159-175 | every saved value is written back to the object it came from, and the snapshot is dropped |
| `HoverDisplay.MapNoteHoverDisplay.PrepareContext` | map-note-hover-display-updated.js:33-66 | no preview exactly when no note is active, it has no entry, or the entry has no pages |
| `HoverDisplay.MapNoteHoverDisplay.PositionHUD` | map-note-hover-display-updated.js:205-253 | a placement is computed exactly when a note is active and the element exists, and is the note's `PositionHUD`; showing the element here never changes the widget's state |
| `HoverDisplay.HoverNoteHook` | map-note-hover-display-updated.js:355-369 | the widget (if it exists) takes exactly the lifecycle step of the action `HoverAction` picks; on bind the snapshot is n's prior values, n is suppressed and no other child changes; on clear or clear-immediate the saved values are back in place, the snapshot is dropped and nothing else of n changes; with no widget, n's tooltip and children are unchanged |
| `HoverDisplay.HideRestoreRoundTrip` | map-note-hover-display-updated.js:128-175 | bind then clear, or bind then clear-immediate, returns the tooltip's display and every child's visible, renderable and alpha to their values before the bind |
| `HoverDisplay.ClearThenRebind` | map-note-hover-display-updated.js:70-85 | clear then bind(n2) keeps the element shown in between and ends with n2 active, shown, and no hide pending |
| `HoverDisplay.HoverInThenOutRestoresNote` | map-note-hover-display-updated.js:355-369 | a mouse hover-in then hover-out through the notification returns n's tooltip display and every child's visible, renderable and alpha to their prior values, with n still active and its hide pending |
| `HoverDisplay.RebindLeavesFirstLabelBlanked` | map-note-hover-display-updated.js:128-129 | bind(n1), bind(n2), clear-immediate leaves n1's text label blanked and n1's tooltip (if any) hidden: the first snapshot is never restored |

## Left out

- Rendering: the application framework's `render`, `_renderHTML` with its template and fallback HTML, and `_replaceHTML`. `Bind` completes atomically and rendering is taken to create the element.
- The asynchronous interleaving between `await this.render` and later calls, and the `requestAnimationFrame` deferral of positioning.
- Time: the 50 ms delay is not modelled. Only whether a hide is pending is.
- Rich-text enrichment and the ownership test that reveals secrets. The preview carries the raw page text that would be enriched.
- The style object `_positionHUD` writes: colours, border, font size and maximum width. The screen position and the viewport size are parameters.
- Settings registration and the scene-control toggle with its notification. `init` only registers the settings. `ready` creates `canvas.hud` if it is missing and the single widget, whose construction the constructor models. `deleteNote` and `canvasReady` only call `clearImmediate`, which `ClearImmediate` models; the toggle also calls it when it turns the feature off.
- `entry.pages.get(pageId)` throws when the entry has no pages collection at all; the model's entry always has a page sequence, so that error path is not modelled.
- JavaScript numbers are modelled as reals, so NaN is not: `controlIcon?.width || 40` also turns NaN into 40, and a NaN coordinate makes the `screenX < viewportWidth / 2` test false and picks the left side.
- The runtime type test on children is the `IsTextLabel` predicate over the fields `constructorName` and `isPixiText`.
- A null note passed to `bind`, and a missing children list. The hook always passes a note; a missing list is an empty sequence.
- HoverDisplay.MapNoteHoverDisplay.PrepareContext: its own contract says only when a preview exists; the title and body are stated by `PageResolution.PrepareContext`, which it calls with the active note's entry and page id.
