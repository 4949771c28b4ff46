# Scroll synchronisation of a three-pane diff viewer

The page compares two text files and shows them in three scrollable panes: the
original file, the modified file, and the line diff, one block per change
object of the diff. When the user scrolls one pane, the page works out which
line the other two panes should show and scrolls them there. This project
models that synchronisation:

- `lines.dfy` (module `Lines`): JavaScript's `split('\n')`, which gives a diff
  part's line count and the rows a file is rendered as. The page never joins
  text; `Join` is only there to state that `Split` loses nothing.
- `alignment.dfy` (module `Alignment`): the sweep of `handleScroll`. It runs over
  the parts of the diff with one running line counter per pane. It stops at the
  first part whose range in the source pane holds the source pane's first visible
  line. It returns the other two panes' counters on reaching that part. The
  method `Targets` is the loop. The function `Align` (over `Sweep`) specifies it,
  and the lemmas state what it finds.
- `scroll_sync.dfy` (module `ScrollSync`): the class `Panes`. It holds the pane
  under the pointer (`activePane`) and each pane's first visible line (`top`).
  It has the mouse-enter/leave handlers, `handleScroll`'s repositioning of the
  non-source panes, and the `onScroll` guard that lets only the hovered pane
  start a synchronisation.

The range test comes in two variants, selected by `Rule`. `AsWritten` is the
page's test: a part's whole line count, in every pane. `VisibleOnly` counts only
the lines the source pane shows (see Findings). Everything the page does is
modelled with `AsWritten`.

The code maps a line to the *start* of the first part whose range holds it. It keeps no
offset within the part, does no clamping and uses a linear sweep.
`WholeFileSegmentPinsTargets` shows what follows from this. When both files are
equal, the diff is one unchanged part, and every scroll sends the other panes to
line 0. The page also has no "syncing" state. Feedback from its own programmatic
scrolls is stopped only by the hover guard, which `Panes.UserScroll` models.

`PaneText` is the text of the parts a pane shows, joined in order. The original
and modified panes render `file1` and `file2`, not the parts, so what the model
says about their rows holds when the parts join back into those files (see
"Left out"). The diff pane renders one block per part, so its rows are not the
pieces of its `PaneText`.

Translation is monotone over the lines the source pane counts
(`AsWrittenMonotoneInPane`). Past the diff pane's total every target is 0
(`AlignPastEnd`). Between the source pane's count and that total, a trailing
`added` or `removed` part can still match (`TrailingInsertionMatchesPastOriginalEnd`).
When the diff pane is the source the two ends coincide, and the targets drop
back to 0 right after its last line (`InsertionExampleEndOfDiffPane`).

## Model

| member | source | states |
|---|---|---|
| `Lines.Split` | src/app/page.tsx:34 | `split('\n')` always gives at least one piece, and no piece contains a line feed |
| `Lines.SplitCount` | src/app/page.tsx:34 | `split('\n').length - 1` equals the number of line feeds in the text |
| `Lines.JoinSplit` | src/app/page.tsx:108-114 | the rows a file is rendered as, joined back with line feeds, give the file's text |
| `Lines.SplitJoin` | src/app/page.tsx:109 | splitting undoes joining rows that hold no line feed (the other half of the round trip) |
| `Alignment.LineCount` | src/app/page.tsx:34 | a part's line count is the number of line feeds in its value |
| `Alignment.Advance` | src/app/page.tsx:56-58 | one step of the counters: none decreases; the original counter changes only on parts that are not `added`; the modified counter changes only on parts that are not `removed`; the diff counter grows by the part's line count |
| `Alignment.BeforeMonotone` | src/app/page.tsx:56-58 | all three counters are non-decreasing along the parts |
| `Alignment.BeforeCountsPaneText` | src/app/page.tsx:56-58 | on reaching part k, each pane's counter is the number of line feeds in the text of the parts before k that the pane shows (for the diff pane: every part's text) |
| `Alignment.TotalsMatchRows` | src/app/page.tsx:56-58 | after the last part, each counter is one less than the number of pieces `split('\n')` gives for its `PaneText`; for the original and modified panes these pieces are the rows the pane renders when the parts join back into its file; the diff pane renders one block per part instead, so this says nothing about its rows |
| `Alignment.Targets` | src/app/page.tsx:26-59 | the loop with its three counters, three targets and early `break` computes `Align` with the page's range test; the source pane's own target stays 0 |
| `Alignment.AlignFirstHit` | src/app/page.tsx:36-53 | when part k is the first part whose range holds the line, each other pane's target is that pane's counter on reaching part k, and the source pane's target is 0 |
| `Alignment.AlignNoHit` | src/app/page.tsx:29-31 | when no part's range holds the line, all three targets keep their initial 0 |
| `Alignment.AlignIgnoresLaterParts` | src/app/page.tsx:33-59 | once part k matches, appending any parts after the diff leaves the targets unchanged (the loop has left at k) |
| `Alignment.SameFirstHitSameTargets` | src/app/page.tsx:36-53 | two source lines with the same first matching part get identical targets |
| `Alignment.AlignMonotone` | src/app/page.tsx:33-59 | for two lines that both match, the lower line's first match comes no later, and none of its targets is further down |
| `Alignment.FirstHitExists` | src/app/page.tsx:33-59 | when some part's range holds the line, there is a first such part, at or before it |
| `Alignment.AsWrittenCoversPane` | src/app/page.tsx:36-53 | with the page's test, every line before the end of the source pane's count lies in some part's range |
| `Alignment.AsWrittenFirstHitInPane` | src/app/page.tsx:36-53 | with the page's test, every line before the end of the source pane's count has a first matching part |
| `Alignment.AsWrittenMonotoneInPane` | src/app/page.tsx:33-59 | with the page's test, for two lines before the end of the source pane's count, the lower line gets no target further down than the higher one |
| `Alignment.InsertionExampleEndOfDiffPane` | src/app/page.tsx:29-59 | in the example, with the diff pane as source, diff line 3 (the last one counted) gets targets (1, 2, 0), but diff line 4 gets all zeros: monotonicity stops at the diff pane's end |
| `Alignment.TrailingInsertionMatchesPastOriginalEnd` | src/app/page.tsx:36-41 | with the page's test, a trailing `added` part matches original line 1 although the original pane counts only one line, so the targets there are (0, 1, 1) and not 0 |
| `Alignment.AlignPastEnd` | src/app/page.tsx:29-59 | with the page's test, a line at or past the diff pane's total gets all-zero targets, whatever the source pane |
| `Alignment.VisibleOnlyPastEnd` | src/app/page.tsx:29-59 | with the visible-only test, a line at or past the source pane's own total gets all-zero targets |
| `Alignment.EmptyPartNeverHits` | src/app/page.tsx:37-49 | a part with no lines never matches, under either test |
| `Alignment.WholeFileSegmentPinsTargets` | src/app/page.tsx:36-53 | with a single unchanged part, every line of every pane gets targets 0: a line maps to its part's start, not to a line inside the part |
| `Alignment.RulesAgreeWhenAllShown` | src/app/page.tsx:36-53 | the page's test and the visible-only test give the same targets whenever the source pane shows every part, in particular when the source is the diff pane |
| `Alignment.InsertionExampleOriginalRows` | src/app/page.tsx:108-114 | the original text of the example diff used under Findings splits into the rows "a", "b", "c", "", which the original pane renders when that text is `file1` |
| `Alignment.InsertionExampleModifiedRows` | src/app/page.tsx:108-114 | the modified text of that example splits into the rows "a", "X", "b", "c", "", which the modified pane renders when that text is `file2` |
| `Alignment.InsertionCapturesOriginalLine` | src/app/page.tsx:36-41 | with the page's test, an `added` part captures original-pane line 1 ("b") and sends the modified pane to the inserted "X"; two lines of one unchanged part get different targets |
| `Alignment.VisibleOnlyLineInPart` | src/app/page.tsx:36-53 | with the visible-only test, every line in a part's range is sent to that part's start in the other panes, so all lines of one part get identical targets |
| `Alignment.VisibleOnlyCoversPane` | src/app/page.tsx:33-59 | with the visible-only test, every line before the end of the source pane lies in some part's range |
| `ScrollSync.SyncPass` | src/app/page.tsx:62-70 | a pass leaves the source pane where it is and sends each other pane to its target |
| `ScrollSync.SyncPassIdempotent` | src/app/page.tsx:17-70 | a second pass from the same pane changes nothing |
| `ScrollSync.Panes.constructor` | src/app/page.tsx:15 | no pane is hovered at first |
| `ScrollSync.Panes.MouseEnter` | src/app/page.tsx:73-75 | entering a pane makes it the active pane and moves no pane |
| `ScrollSync.Panes.MouseLeave` | src/app/page.tsx:77-79 | leaving a pane clears the active pane and moves no pane |
| `ScrollSync.Panes.HandleScroll` | src/app/page.tsx:17-70 | the new positions are exactly one pass from the source pane, with its first visible line taken from the old positions |
| `ScrollSync.Panes.OnScroll` | src/app/page.tsx:168-196 | a scroll notification from a pane runs a pass only while that pane is the active pane, and otherwise changes nothing |
| `ScrollSync.Panes.UserScroll` | src/app/page.tsx:168-196 | a user scroll followed by the notifications of every pane it moves ends after at most one pass: the scrolled pane at its new line, the others at its targets when it is hovered, and no pane moved otherwise |

## Findings

| source | as written | input that shows it | evidently intended | confidence | as-written member | corrected member |
|---|---|---|---|---|---|---|
| src/app/page.tsx:37 | the original pane tests `[originalLineCount, originalLineCount + lines)` for every part, `added` ones included; the modified pane does the same for `removed` parts at line 43 | diff parts `"a\n"` (unchanged), `"X\n"` (added), `"b\nc\n"` (unchanged); the user scrolls the original pane to line 1, which shows "b" | a part the source pane does not show has no lines there and should not be tested, so line 1 goes to modified line 2 ("b"), as line 2 does | medium, not executed | `Alignment.InsertionCapturesOriginalLine` | `Alignment.VisibleOnlyLineInPart` |

The corrected test is the `VisibleOnly` rule. `VisibleOnlyLineInPart` and
`VisibleOnlyCoversPane` prove the intended property for it: the source pane's
ranges tile the pane, and every line goes to the start of its own part.
`RulesAgreeWhenAllShown` shows that the two tests differ only on parts the source
pane does not show. The page's own behaviour (`Targets`, `Panes.HandleScroll`)
stays modelled as written.

## Left out

- Pixel units are not modelled. This covers `getComputedStyle(...).lineHeight`, `parseInt`, `Math.floor(scrollTop / lineHeight)` and `target * lineHeight`. The source line is a given natural number and `top` holds lines. So a `NaN` line height, fractional offsets, and the use of the source pane's line height for every pane are not modelled. This is browser measurement.
- The browser's clamping of an assigned `scrollTop` to the pane's scroll range is not modelled. It is browser behaviour.
- The padding and margins of the diff pane's `<pre>` blocks are not modelled. They skew its pixel/line correspondence, and they are presentation.
- `diffLines` from the `diff` package is not part of this model. It is a foreign algorithm, and its output is taken as the input sequence of parts. Nothing assumes that a part never has both flags set.
- `handleFileUpload` and `compareFiles` are not modelled. They do asynchronous file I/O and call the diff package.
- `renderFileContent` appears only through its `split('\n')`. The JSX, Tailwind styling and React refs are UI.
- `if (!sourceRef.current) return` and the `refs.x.current &&` checks are not modelled. All three panes are rendered together, so every pane is assumed mounted.
- `ScrollSync.Panes.MouseEnter`: `setActivePane` is React state, and the page's handlers see it only after the next render. The model applies it at once.
- `ScrollSync.Panes.MouseLeave`: it goes through the same `setActivePane` and has the same delay. The model applies it at once.
- The model does not check that the parts match the files the panes show. The original and modified panes render `file1` and `file2`, and the diff is whatever `diffResult` holds. The two agree only when `diffLines` gives back the files exactly and the diff is current. After a new upload without a new comparison, a pane shows the new file while the sweep still runs over the old parts. The model takes the parts as given and relates them only to their own `PaneText`.
- The diff pane's rows are not modelled. It renders one `<pre>` per part, so a part whose text does not end in a line feed takes up a row there without adding to the diff counter.
- `ScrollSync.Panes.UserScroll`: it fixes one delivery order for the notifications (the scrolled pane first, then the moved panes). The browser delivers them asynchronously.
