# TMIndexBar index-bar logic in Dafny

TMIndexBar is a UIKit control that draws a vertical section index beside a
table view and lets the user scrub through the sections by touch. This
project models the part of it that has logic, as pure functions over
sequences, naturals and reals:

- **the label reducer** (`Reducer`): the bar's desired height, how many rows
  fit (`numberOfDisplayableRows`), and which strings are shown
  (`updateDisplaedIndexStrings`). Labels pass through unchanged when they
  fit. Otherwise the row count is forced odd. Odd rows show the truncation
  marker. Even rows stride through the labels with the whole-number step
  `count / rows`, and the last row gets a special rule;
- **the touch mapper** (`Touch`): the clamped progress of a touch down the
  text area, the section index it selects, and the touch state machine of
  `touchesBegan/Moved/Ended/Cancelled` and `handleTouch`. That machine
  tracks one touch and reports a section only when it differs from the
  last one reported;
- **the layout** (`Layout`): the text-area rectangle for the three vertical
  alignments, the background strip and the bar frame;
- **the appearance builder** (`Appearance`): defaults and the left-edge
  mirroring of the text and background offsets.

`Geometry` holds rectangles, clamping and Swift's truncating `Int(_:)`.
`Optional` holds the `Option` type used for the bar's optional state.

Behaviour of the code worth knowing:

- The stride is the integer quotient `count / rows`, taken before it is
  turned into a `CGFloat`. The accumulated `stepIndex` is therefore always
  whole, so `.rounded()` changes nothing.
- The number of rows can be one more than the number of labels. For
  example, two labels with rows 10 high (9 of it spacing) in a bar 35 high
  give three rows (`Reducer.RowsCanExceedLabelCount`).
- When no row fits, the row count becomes -1 and the range `0..<-1` traps.
  The model states this as a precondition (`Reducer.Reducible`).
- The default truncation marker is the literal `â€¢` as the source file
  spells it: three characters, the bullet `•` mis-decoded. The model keeps
  the literal as written (`Appearance.DefaultTruncatedItemText`).
- A touch at or below the bottom edge selects the last section only when
  there are at most 1000 sections (`Touch.BottomEdgeSelectsLastIff`).
- With no sections, a touch inside the text area still reports index 0.
- The last row does not always show the last label (see Findings).

## Model

| member | source | states |
|---|---|---|
| Geometry.Trunc | TMIndexBar/TMIndexBar.swift:151 | `Int(_:)` of a `CGFloat` truncates toward zero: the result is the integer part, bounded on both sides by the argument |
| Appearance.Build | TMIndexBar/TMIndexBar.swift:79-114 | a right-edge builder stores every argument as given; a left-edge builder, mirrored back, is exactly the arguments as given; vertical offsets and the position are never changed |
| Appearance.Mirror | TMIndexBar/TMIndexBar.swift:110-113 | left-edge mirroring reverses only the horizontal parts of the text and background offsets; reflecting again restores them, and every other field is unchanged |
| Appearance.MirrorInvolution | TMIndexBar/TMIndexBar.swift:110-113 | mirroring a builder twice gives back the builder |
| Appearance.LeftIsMirrorOfRight | TMIndexBar/TMIndexBar.swift:95-113 | the same arguments built for the left edge give the mirror image of those built for the right edge |
| Reducer.RowsThatFit | TMIndexBar/TMIndexBar.swift:149-151 | the truncated quotient of bounds height by row height is the number of whole rows that fit; it is at least one exactly when one row's height fits |
| Reducer.DesiredHeight | TMIndexBar/TMIndexBar.swift:143-146 | the two spacings alone with no labels; strictly more than that with labels, when rows have height |
| Reducer.DesiredHeightAddsARow | TMIndexBar/TMIndexBar.swift:143-146 | each further label adds exactly one row's height to the desired height |
| Reducer.FewerLabelsStillFit | TMIndexBar/TMIndexBar.swift:143-146 | when rows have positive height and a number of labels fits in the bounds, every smaller number fits too |
| Reducer.DisplayableRows | TMIndexBar/TMIndexBar.swift:143-156 | all labels when the desired height fits, whatever the row height; otherwise the largest odd number not above the rows that fit, at least one exactly when a row fits, and, for a line of positive height, at most one more than the label count |
| Reducer.RowsThatFitBound | TMIndexBar/TMIndexBar.swift:143-153 | when the labels do not fit and the line has positive height, fewer than count + 2 rows fit, because the two spacings are less than two rows |
| Reducer.RowsCanExceedLabelCount | TMIndexBar/TMIndexBar.swift:148-153 | two labels, rows 10 high, a bar 35 high: three displayable rows, more than there are labels |
| Reducer.LabelIndex | TMIndexBar/TMIndexBar.swift:237-260 | the label index chosen for an even row is always a valid index |
| Reducer.DisplayPlan | TMIndexBar/TMIndexBar.swift:229-265 | labels unchanged when they fit; otherwise one entry per displayable row, the marker on every odd row, the first label first, and every entry either the marker or one of the labels |
| Reducer.UpdateDisplayedIndexStrings | TMIndexBar/TMIndexBar.swift:229-265 | building the list row by row with `insert(_:at: i)` gives exactly the display plan |
| Reducer.EvenRowShowsStrideLabel | TMIndexBar/TMIndexBar.swift:237-263 | even row i shows the label at i * (count / rows), or the last label past the end; the last row shows the last label unless its stride position is rows - 1 |
| Reducer.ShownLabelsKeepSourceOrder | TMIndexBar/TMIndexBar.swift:237-263 | the label indices down a truncated bar never decrease, so shown labels keep their original order |
| Reducer.LastRowMissesLastLabelIff | TMIndexBar/TMIndexBar.swift:249-256 | the last row misses the last label exactly when rows < count and either there is one row or the stride is one |
| Reducer.NineRowsOfFifteen | TMIndexBar/TMIndexBar.swift:143-153 | 26 labels, rows 15 high, a bar 135 high: the labels do not fit and nine rows are shown |
| Reducer.TwentySixLabelsInNineRows | TMIndexBar/TMIndexBar.swift:229-265 | 26 labels in nine rows show labels 0, 4, 8, 12 and 25 with markers between |
| Reducer.FifteenRowsOfFifteen | TMIndexBar/TMIndexBar.swift:143-153 | 26 labels, rows 15 high, a bar 225 high: the labels do not fit and fifteen rows are shown |
| Reducer.TwentySixLabelsInFifteenRowsHideTheLast | TMIndexBar/TMIndexBar.swift:249-256 | 26 distinct labels in fifteen rows end on label 14, and the last label is not shown at all |
| Reducer.LabelIndexCorrected | TMIndexBar/TMIndexBar.swift:249-253 | with the last-row test against count - 1, the last row always takes the last label and every other row is as before |
| Reducer.DisplayPlanCorrected | TMIndexBar/TMIndexBar.swift:229-265 | the corrected plan shows the first label first (with two rows or more) and always ends with the last label |
| Reducer.CorrectionOnlyTouchesLastRow | TMIndexBar/TMIndexBar.swift:249-256 | the corrected plan has the same length as the plan as written and differs from it only in the last row |
| Layout.TextArea | TMIndexBar/TMIndexBar.swift:316-338 | as wide as the bar, as tall as rows plus two spacings (the desired height when all labels fit), never above the bar's top; top edge at the offset, bottom edge that far above the frame bottom, or middle that far below the bounds middle, by alignment |
| Layout.FittingCentredTextAreaInsideBounds | TMIndexBar/TMIndexBar.swift:316-338 | when all labels fit, a centred text area with no vertical offset lies inside the bounds |
| Layout.BarBackground | TMIndexBar/TMIndexBar.swift:307-314 | the background strip is frame-tall, as wide as configured, and its centre sits the background offset away from the bar's centre |
| Layout.BackgroundMirrorsAboutBarCentre | TMIndexBar/TMIndexBar.swift:307-311 | the same options on the left and right edges place the background at mirror images about the bar's centre line |
| Layout.DefaultBackgroundFlushWithOuterEdge | TMIndexBar/TMIndexBar.swift:53-59 | with the default widths and offset, the background is flush with the bar's outer edge on either side |
| Layout.BarFrame | TMIndexBar/TMIndexBar.swift:285-303 | the bar is bar-wide and as tall as the list less its top and bottom insets; a right bar ends at the list's right edge, a left bar starts at x = 0; the vertical origin adds the bottom inset for a right bar and the top inset for a left bar |
| Touch.Progress | TMIndexBar/TMIndexBar.swift:432 | progress lies in [0, 0.999]; inside that range it is the touch's fraction of the text area's height, and below or above it is 0 or 0.999 |
| Touch.SectionIndex | TMIndexBar/TMIndexBar.swift:432-434 | the selected index is a valid section index when there are sections, and 0 when there are none |
| Touch.SectionIndexMonotone | TMIndexBar/TMIndexBar.swift:432-434 | a touch further down never selects an earlier section |
| Touch.ThreeSectionsNearTheBottom | TMIndexBar/TMIndexBar.swift:432-434 | three sections in an area 100 high: touches at 99 and at 100 both select section 2 |
| Touch.BottomEdgeSelectsLastIff | TMIndexBar/TMIndexBar.swift:432-434 | a touch at or below the bottom selects the last section exactly when there are at most 1000 sections |
| Touch.EverySectionReachable | TMIndexBar/TMIndexBar.swift:432-434 | with at most 1000 sections, a touch k/n of the way down selects section k, so every section can be selected |
| Touch.Find | TMIndexBar/TMIndexBar.swift:404 | finds a touch with the tracked identity among the event's touches, or reports that none has it |
| Touch.HandleTouch | TMIndexBar/TMIndexBar.swift:429-441 | given the text area and the label count it reads, reports the section under the touch exactly when it differs from the last reported one; afterwards that section is remembered and nothing else changes |
| Touch.Step | TMIndexBar/TMIndexBar.swift:394-427 | a report is new and in range and is remembered; a press outside the text area changes nothing; a press inside tracks and highlights that touch, remembers the section under it, and reports that section exactly when it differs from the one remembered before; a move keeps the tracked touch, the highlight follows whether it is inside the text area, and its section is remembered and reported in the same way, while a move without the tracked touch changes nothing; end and cancel forget the last section and report nothing, release the tracked touch and drop the highlight when it is among the touches, and otherwise keep touch and highlight |
| Touch.StepKeepsConsistent | TMIndexBar/TMIndexBar.swift:394-427 | no tracked touch means no highlight and no remembered section, and a remembered section is in range; every event keeps this |
| Touch.MoveReportsIffSectionChanges | TMIndexBar/TMIndexBar.swift:403-409 | a move of the tracked touch reports exactly when its section differs from the last one reported |
| Touch.RepeatedMoveIsSilent | TMIndexBar/TMIndexBar.swift:403-441 | the same move delivered twice reports nothing the second time |
| Touch.ReleaseThenTouchReports | TMIndexBar/TMIndexBar.swift:411-427 | after an end or a cancel, a press inside the text area reports its section even when it is the one reported last |
| Touch.ForeignEndForgetsSection | TMIndexBar/TMIndexBar.swift:411-418 | an end event without the tracked touch keeps it tracked but forgets the last section, so its next move reports again |
| Touch.IdleIsConsistent | TMIndexBar/TMIndexBar.swift:136-139 | the memory of a freshly initialized bar (no tracked touch, no remembered section, no highlight) satisfies the invariant, so every run from it keeps it |
| Touch.RunKeepsConsistent | TMIndexBar/TMIndexBar.swift:394-441 | over any run of events from a consistent memory, the memory stays consistent and every reported section is in range |

## Left out

- Drawing (`draw(_:)`): text and layer rendering, colours, the debug outlines and the highlight-dependent background. They produce pixels, not state.
- Font measurement: the line height comes from `NSString.size(withAttributes:)`. The model takes it as an input (`Bar.lineHeight`), so fonts and colours are not fields of `Appearance.Builder`.
- `reload()` and the delegate: the labels are an input sequence, and a reported section is the `selected` output of a step. The weak delegate can be nil, in which case the report reaches no one. That case is not distinguished, because the memory is updated either way.
- Notification observers, `layoutSubviews`, `setNeedsLayout`/`setNeedsDisplay` and subview ordering. These are UI lifecycle side effects.
- `UITouch` objects and `location(in:)`. Touches are identities (naturals) with a location in the bar. The set handed to `touchesBegan` is a sequence whose last element stands for `Array(touches).last`.
- `tableView.convert`: `Layout.BarFrame` takes the converted corner as an input.
- Floating point: geometry and progress are `real`. NaN, infinities and `Float` rounding of 0.999 are not modelled. A text area of zero or negative height is excluded by `Touch.Trackable`. The truncation of a huge quotient in `Int(_:)` is exact, where Swift would trap on overflow. `stepIndex` is accumulated exactly, which the `CGFloat` sum also is for whole numbers below 2^53.
- Crash paths become preconditions: the trap on a row count that is not positive (a row height of zero or less, or no whole row in the bounds) and on `indexStrings.last!` of an empty list (`Reducer.Reducible`; labels that fit need neither), and the force-unwrap of `currentTouch` in `touchesCancelled` (`Touch.Step`, `Touch.Runnable`).
- Unloaded bars: `lineHeight!`, `numberOfIndices!` and `indexStrings!` (`TMIndexBar/TMIndexBar.swift` lines 144-145, 155, 237 and 434) are nil until the delegate's labels are loaded, so layout, drawing or a touch before that traps. The model covers a loaded bar only: `Layout.Bar` always carries labels and a line height.
- Geometry.Contains: models `CGRect.contains` for a rectangle of non-negative size only. UIKit first standardizes a rectangle with negative width or height.
- The bar's bounds height and frame height are separate inputs, as in the source. They are equal for an untransformed view.

## Findings

| source | as written | input that shows it | evidently intended | confidence | as-written member | corrected member |
|---|---|---|---|---|---|---|
| TMIndexBar/TMIndexBar.swift:251 | the last row shows the last label unless its stride position equals `numberOfRowsToFit - 1` | 26 labels, line height 10, spacing 5, bar 225 high: 15 rows, stride 1, the last row's stride position is 14, so the bar ends on the 15th label and the 26th is never shown | compare with the last label's index, `count - 1`, so that the last row always shows the last label, as the comment above the test says | high, not executed | Reducer.TwentySixLabelsInFifteenRowsHideTheLast | Reducer.DisplayPlanCorrected |
