# AWIndexView in Dafny

AWIndexView is a UIKit control: a thin column of section titles at the edge of a
table or collection view. While the user drags a finger along it, it maps the
touch position to an index path and tells its delegate to scroll there. The
position picks a bucket (a section) and a fraction within it. Empty sections are
skipped forward, and a row is computed from the fraction. The view gives a
haptic tick when the section changes, and it fades in and out around a drag.

The repository holds three copies of the view and a demo table controller.
Each is modelled in its own module:

| file | module | what it keeps |
|---|---|---|
| `index_math.dfy` | `IndexMath` | `Option`, `IndexPath`, gesture states, and the position arithmetic shared by all copies |
| `mapper.dfy` | `Mapper` | the empty-section skip and the report decision shared by all copies: a reference function (`Target`), the loop as a method (`ResolveSection`), and the lemmas connecting them |
| `labels.dfy` | `Labels` | label objects, the stack of arranged labels, and the dictionary keys of the two dictionary-based copies |
| `index_view.dfy` | `PackageIndexView` | `Sources/AWIndexView/AWIndexView.swift` as a class: drag flag, labels, overlay, alphas, current path, haptic pulses and a log of delegate calls |
| `example_index_view.dfy` | `ExampleIndexView` | `Example/AWIndexViewExample/AWIndexView.swift`: a `[String: UILabel]` dictionary plus stack, whole-view alpha 0.02/1, and `show`/`hide`/`flash` chained through completions |
| `demo_index_view.dfy` | `DemoIndexView` | `AWIndexViewExample/AWIndexView.swift`: the dictionary copy without a drag flag or visibility |
| `view_controller.dfy` | `DemoViewController` | `AWIndexViewExample/ViewController.swift`: grouping names by initial, case-insensitive ordering of the titles, and the row-count lookups |

Modelling choices:

- **Numbers.** `CGFloat` is modelled as `real`. Swift's `Int(_:)` truncates toward zero and is modelled exactly (`Trunc`).
- **Animations.** `UIView.animate` sets its target values at once, so alpha changes are plain assignments.
- **Timers.** Each `asyncAfter` block is a pending counter plus an explicit "fired" method. An animation's completion runs inside the step that starts the animation: `show`'s completion in `ExampleIndexView.IndexView.FlashShowFired`, and the packaged copy's flash, whose completion schedules the hide at once (`PackageIndexView.IndexView.Flash`).
- **Delegate.** It is a weak reference, so it is an `Option` of a record. The record holds the item counts (a total function `nat -> nat`) and the titles.
- **Calls out of the view.** Delegate callbacks, haptic ticks and `indexViewChanged` calls are logged as sequences or counters.
- **Labels.** `UILabel`s are objects with a fixed text, and the stack view's arranged subviews are a sequence of them.

## Behaviour as written

The model follows the code where it departs from the component's description:

- **Bottom edge.** A touch at or below the bottom edge (`pointY >= frame.height`) reports nothing. The clamp puts it in the last bucket with a fraction of at least 1, so the row check fails (`Mapper.TouchAtOrBelowBottomReportsNothing`). It does not map to the last section.
- **`setup()`.** It does not reset `currentIndexPath`. The first report after a reload into the same section gives no haptic tick.
- **Extended titles.** A report past the end of a non-empty `extendedSectionTitles` traps on the array subscript (Sources/AWIndexView/AWIndexView.swift:292). The model makes this a precondition of `ScrollToIndex` and `HandleGesture` (`OverlayTitleExists`).
- **Flash.** A flash's hide is not cancelled by a later drag. When it comes due during a drag it does nothing, because `hide()` returns early while dragging.
- **Example copy's flash.** If the delayed `show` runs while the view is dragged, its completion is never called. No hide is scheduled at all, and the view stays visible until the drag ends (`ExampleIndexView.FlashShowDuringDrag`).
- **Dictionary copies.**
  - A duplicate title replaces the dictionary entry, but its first label stays in the stack. The touch surface is then split into fewer buckets (`labels.count`) than there are visible labels (`DemoIndexView.DuplicateTitleExample`). Removing that title takes out only the label of its last occurrence, so the first one stays (`RemoveRepeatedTitle` in both copies).
  - The demo copy's `setLabels` does not take earlier labels out of the stack.
  - `remove(index:)` calls `removeArrangedSubview` (Example/AWIndexViewExample/AWIndexView.swift:203, AWIndexViewExample/AWIndexView.swift:172). The label leaves the arranged list, which decides the layout, but it stays a subview of the stack view and is still drawn. The model's `arranged` is the arranged list only.
- **Demo copy.** `vibrate()` only prepares a fresh feedback generator, so no tick is ever emitted. The demo copy also maps every gesture event, whatever its state.
- **Example copy with no labels.** A `changed` event maps to bucket 0 with fraction 0. It still reports section 0 when the delegate has items there.

## Model

| member | source | states |
|---|---|---|
| IndexMath.Trunc | Sources/AWIndexView/AWIndexView.swift:253 | `Int(x)` rounds toward zero: for `x >= 0` the result is the floor of `x`; for `x < 0` it is the non-positive integer less than 1 above `x` |
| IndexMath.BucketIndex | Sources/AWIndexView/AWIndexView.swift:253 | the bucket is in `[0, labels.count - 1]` when there are labels, and 0 when there are none |
| IndexMath.PercentInSection | Sources/AWIndexView/AWIndexView.swift:255 | the fraction in the bucket is never negative and is at least `raw - index` |
| IndexMath.BucketIndexIsClampedFloor | Sources/AWIndexView/AWIndexView.swift:253 | truncating and then clamping equals `max(min(floor(raw), count - 1), 0)`, for negative positions too |
| IndexMath.InsideSurface | Sources/AWIndexView/AWIndexView.swift:253-255 | a touch with `0 <= pointY < height` lands in bucket `floor(raw)`, with a fraction in `[0, 1)` |
| IndexMath.AtOrBelowBottom | Sources/AWIndexView/AWIndexView.swift:253-255 | a touch with `pointY >= height` is clamped into the last bucket, with a fraction of at least 1 |
| IndexMath.MidBucket | Sources/AWIndexView/AWIndexView.swift:253-255 | on a surface one point tall per label, a touch halfway down label `k` lands in bucket `k` with fraction 0.5 |
| IndexMath.BucketIndexMonotone | Sources/AWIndexView/AWIndexView.swift:253 | a lower touch never gives an earlier bucket |
| Mapper.SkipEmpty | Sources/AWIndexView/AWIndexView.swift:276-280 | the skip stops at the first non-empty section at or after the bucket; otherwise it stops at the last section, never past it; every skipped section is empty; an index at or past the last section is not moved |
| Mapper.Target | Sources/AWIndexView/AWIndexView.swift:271-283 | a report names a non-empty section at or after the bucket, inside the labelled range, with a row inside that section; skipped sections are empty; a skip or `scrollsToSectionTop` gives row 0; otherwise the row is `floor(rows * percent)` |
| Mapper.NothingReportedIff | Sources/AWIndexView/AWIndexView.swift:276-282 | nothing is reported exactly when the sections from the bucket to the end are all empty, or when the bucket has items and the fraction is at least 1 |
| Mapper.RowInsideIff | Sources/AWIndexView/AWIndexView.swift:273-282 | for a non-empty section, `Int(rows * percent) < rows` holds exactly when `percent < 1` |
| Mapper.ResolveSection | Sources/AWIndexView/AWIndexView.swift:271-280 | the `while` loop ends with the section `SkipEmpty` gives, that section's item count, and the row that is reset to 0 whenever the loop advanced (the same loop as Example/AWIndexViewExample/AWIndexView.swift:239-243 and AWIndexViewExample/AWIndexView.swift:197-201) |
| Mapper.TargetOfResolved | Sources/AWIndexView/AWIndexView.swift:282-283 | the `rows != 0 && row < rows` check on the loop's results decides the report exactly as `Target` does, with the row forced to 0 when scrolling to the section top |
| Mapper.MidBucketTouch | Sources/AWIndexView/AWIndexView.swift:253-283 | such a touch over a section with items reports that section, with row `Int(rows * 0.5)`, or row 0 when scrolling to the section top |
| Mapper.ReportedSectionInRange | Sources/AWIndexView/AWIndexView.swift:253-280 | with at least one label, a reported section lies between the bucket and `labels.count - 1` |
| Mapper.TouchAtOrBelowBottomReportsNothing | Sources/AWIndexView/AWIndexView.swift:253-282 | no touch at or below the bottom edge reports anything |
| Mapper.AllSectionsEmptyReportsNothing | Sources/AWIndexView/AWIndexView.swift:276-282 | when no labelled section has items, no touch reports anything |
| Mapper.SkipEmptyMonotone | Sources/AWIndexView/AWIndexView.swift:276-280 | skipping forward keeps order: a later bucket never resolves to an earlier section |
| Mapper.ReportedSectionMonotone | Sources/AWIndexView/AWIndexView.swift:253-283 | a lower touch never reports an earlier section |
| Mapper.EmptySectionSkipExample | Sources/AWIndexView/AWIndexView.swift:276-283 | with item counts 5, 0, 5, a touch in the middle bucket reports section 2, row 0 |
| Mapper.ScrollToTopExample | Sources/AWIndexView/AWIndexView.swift:283 | 90% into a 10-item section gives row 9, or row 0 with `scrollsToSectionTop` |
| Labels.Label.constructor | Example/AWIndexViewExample/AWIndexView.swift:188-191 | a new label shows the given title |
| Labels.Without | Example/AWIndexViewExample/AWIndexView.swift:92-96 | every label left is one of the stack's and not taken out, every label not taken out is left, and the stack never grows |
| Labels.WithoutCount | Example/AWIndexViewExample/AWIndexView.swift:92-96 | a label taken out no longer appears, and every other label appears exactly as often as before |
| Labels.WithoutAppend | Example/AWIndexViewExample/AWIndexView.swift:92-96 | taking labels out of two runs of the stack gives the survivors of the first followed by those of the second, so the order is kept |
| Labels.WithoutTwice | Example/AWIndexViewExample/AWIndexView.swift:92-96 | taking out one set of labels after another is taking out their union, so the loop's order does not matter |
| Labels.WithoutNothing | Example/AWIndexViewExample/AWIndexView.swift:92-96 | taking out no labels leaves the stack as it was |
| Labels.UpdateCount | Example/AWIndexViewExample/AWIndexView.swift:194 | storing a label under a title grows the dictionary by one for a new title and keeps its size for a title already present |
| Labels.DistinctAtMostLength | Example/AWIndexViewExample/AWIndexView.swift:194 | keying labels by title never gives more dictionary entries than titles |
| Labels.DistinctOfUnique | Example/AWIndexViewExample/AWIndexView.swift:194 | when no title repeats, there is one dictionary entry per title |
| Labels.LastIndex | Example/AWIndexViewExample/AWIndexView.swift:194 | the position of a title's last occurrence: it holds the title and no later position does, so it is the insertion whose label `updateValue` keeps |
| Labels.InsertStep | Example/AWIndexViewExample/AWIndexView.swift:97-100 | one more insertion of a new label keeps the loaded state: one label per title, no label twice, and each key's entry the label of its last occurrence |
| PackageIndexView.IndexView.constructor | Sources/AWIndexView/AWIndexView.swift:69-73 | a new view is not scrolling to section tops, hides when inactive, is not dragged, has no labels, has both alphas 0, and has current path (0, 0) |
| PackageIndexView.IndexView.SetShouldHideWhenNotActive | Sources/AWIndexView/AWIndexView.swift:25-29 | setting the flag makes the column's alpha 0 when hiding and 1 otherwise |
| PackageIndexView.IndexView.Setup | Sources/AWIndexView/AWIndexView.swift:120-134 | it reloads the titles and extended titles from the delegate (empty without one) and makes one label per title; the overlay shows the first extended title if there is one and is otherwise untouched; the current path is kept |
| PackageIndexView.IndexView.SetLabels | Sources/AWIndexView/AWIndexView.swift:176-191 | the stack ends with one label per section index, in order |
| PackageIndexView.IndexView.Show | Sources/AWIndexView/AWIndexView.swift:139-148 | ignored while dragged; otherwise the column becomes visible, and the overlay too only if it has text |
| PackageIndexView.IndexView.Hide | Sources/AWIndexView/AWIndexView.swift:153-159 | ignored while dragged; otherwise the column and the overlay go to alpha 0 |
| PackageIndexView.IndexView.Flash | Sources/AWIndexView/AWIndexView.swift:162-165 | the column becomes visible even during a drag, and one hide is scheduled |
| PackageIndexView.IndexView.FlashHideFired | Sources/AWIndexView/AWIndexView.swift:165-171 | the scheduled hide is consumed; it changes nothing while dragged and otherwise hides the column and the overlay |
| PackageIndexView.IndexView.ScrollToIndex | Sources/AWIndexView/AWIndexView.swift:267-294 | nothing happens without a delegate or a report; otherwise the delegate hears the path; the current path and one haptic pulse change only on a section change; the overlay shows the section's extended title when there are extended titles |
| PackageIndexView.IndexView.Present | Sources/AWIndexView/AWIndexView.swift:282-293 | for a known path: the current path moves and one haptic pulse fires only on a section change, the delegate hears the path, and the overlay shows the section's extended title when there are extended titles |
| PackageIndexView.IndexView.HandleGesture | Sources/AWIndexView/AWIndexView.swift:238-262 | without labels nothing changes; `began` notifies the delegate, shows, and marks dragging; `changed` applies the report for the touch; any other state clears dragging, notifies, and hides |
| PackageIndexView.FlashDuringDrag | Sources/AWIndexView/AWIndexView.swift:162-171 | with titles, a flash whose hide comes due during a drag leaves the column visible (alpha 1), and the end of the drag hides it (alpha 0) |
| PackageIndexView.HideTwice | Sources/AWIndexView/AWIndexView.swift:153-159 | hiding after a show gives alphas (0, 0), and hiding again changes nothing |
| PackageIndexView.DragOverFiveSections | Sources/AWIndexView/AWIndexView.swift:238-294 | dragging down five sections that all have items gives exactly 4 haptic pulses (none for section 0, where the view starts) and ends at (row 1, section 4); the final touch at the bottom edge reports nothing |
| ExampleIndexView.IndexView.constructor | Example/AWIndexViewExample/AWIndexView.swift:65-89 | a new view starts at alpha 0.02, with one fresh label per delegate title in the stack, no label twice, and one dictionary entry per distinct title, holding the label of that title's last occurrence |
| ExampleIndexView.IndexView.SetShouldHideWhenNotActive | Example/AWIndexViewExample/AWIndexView.swift:58-62 | setting the flag makes the alpha 0.02 when hiding and 1 otherwise |
| ExampleIndexView.IndexView.SetLabels | Example/AWIndexViewExample/AWIndexView.swift:91-101 | the dictionary's old labels leave the stack and orphans stay; then one fresh label per title is appended in order, no label twice, and the dictionary holds one entry per distinct title, the label appended for that title's last occurrence |
| ExampleIndexView.IndexView.DetachLabels | Example/AWIndexViewExample/AWIndexView.swift:92-96 | the stack loses exactly the dictionary's labels, the rest in order |
| ExampleIndexView.IndexView.InsertAll | Example/AWIndexViewExample/AWIndexView.swift:97-100 | inserting into an empty dictionary appends one fresh label per title, in order and no label twice, and keys the dictionary by the distinct titles, each holding the label appended for its last occurrence |
| ExampleIndexView.IndexView.Setup | Example/AWIndexViewExample/AWIndexView.swift:180-184 | nothing changes without a delegate; otherwise the dictionary's old labels leave the stack, the rest stay in order, and one fresh label per delegate title follows in order, no label twice; the keys are the distinct titles, each holding the label appended for its last occurrence |
| ExampleIndexView.IndexView.Insert | Example/AWIndexViewExample/AWIndexView.swift:187-196 | every entry stays a stacked label showing its key; a fresh label showing the title becomes the key's entry, every other entry is kept, and the label is appended to the stack |
| ExampleIndexView.IndexView.Remove | Example/AWIndexViewExample/AWIndexView.swift:198-205 | an unknown title changes nothing and returns nil; otherwise the label leaves the dictionary and the arranged list and is returned; each entry stays a label in the arranged list |
| ExampleIndexView.IndexView.Show | Example/AWIndexViewExample/AWIndexView.swift:261-268 | while dragged nothing happens and the completion is not called; otherwise alpha 1 and the completion runs |
| ExampleIndexView.IndexView.Hide | Example/AWIndexViewExample/AWIndexView.swift:270-277 | while dragged nothing happens and the completion is not called; otherwise alpha 0.02 and the completion runs |
| ExampleIndexView.IndexView.Flash | Example/AWIndexViewExample/AWIndexView.swift:280-281 | one delayed show is scheduled and nothing else changes |
| ExampleIndexView.IndexView.FlashShowFired | Example/AWIndexViewExample/AWIndexView.swift:281-286 | the delayed show shows the view and schedules a hide, or does neither while dragged |
| ExampleIndexView.IndexView.FlashHideFired | Example/AWIndexViewExample/AWIndexView.swift:283-285 | the delayed hide fades to 0.02 unless dragged |
| ExampleIndexView.IndexView.ScrollToIndex | Example/AWIndexViewExample/AWIndexView.swift:230-255 | reports as the shared mapper decides, over the dictionary's count; a section change moves the current section and vibrates once; every report is passed to `indexViewChanged` |
| ExampleIndexView.IndexView.Present | Example/AWIndexViewExample/AWIndexView.swift:245-254 | for a known path: the current section moves and `vibrate()` runs once only on a section change, and the path is passed to `indexViewChanged` |
| ExampleIndexView.IndexView.HandleGesture | Example/AWIndexViewExample/AWIndexView.swift:207-225 | `began` shows then marks dragging; `changed` applies the report for the touch, with no guard for an empty dictionary; any other state clears dragging and fades to 0.02 |
| ExampleIndexView.RemoveRepeatedTitle | Example/AWIndexViewExample/AWIndexView.swift:198-205 | with titles ["A", "B", "A"], removing "A" takes out only the last "A" label: the stack reads ["A", "B"] and one bucket remains |
| ExampleIndexView.FlashShowDuringDrag | Example/AWIndexViewExample/AWIndexView.swift:280-287 | when a flash's delayed show runs during a drag, no hide is scheduled and the view stays at alpha 1 until the drag ends and fades it to 0.02 |
| DemoIndexView.IndexView.constructor | AWIndexViewExample/AWIndexView.swift:48-73 | a new view has one fresh label per delegate title in the stack, no label twice, and one dictionary entry per distinct title, holding the label of that title's last occurrence |
| DemoIndexView.IndexView.SetLabels | AWIndexViewExample/AWIndexView.swift:75-80 | the dictionary is emptied and refilled, one entry per distinct title; labels already in the stack stay there, and one fresh label per title is appended, no label twice; each key holds the label appended for its last occurrence |
| DemoIndexView.IndexView.Insert | AWIndexViewExample/AWIndexView.swift:159-165 | every entry stays a stacked label showing its key; a fresh label showing the title becomes the key's entry, every other entry is kept, and the label is appended to the stack |
| DemoIndexView.IndexView.InsertAll | AWIndexViewExample/AWIndexView.swift:77-79 | inserting into an empty dictionary appends one fresh label per title, in order and no label twice, and keys the dictionary by the distinct titles, each holding the label appended for its last occurrence |
| DemoIndexView.IndexView.Remove | AWIndexViewExample/AWIndexView.swift:167-174 | an unknown title changes nothing and returns nil; otherwise the label leaves the dictionary and the arranged list and is returned |
| DemoIndexView.IndexView.ScrollToIndex | AWIndexViewExample/AWIndexView.swift:188-213 | reports as the shared mapper decides; a section change moves the current section and calls `vibrate()` once; every report is passed to `indexViewChanged` |
| DemoIndexView.IndexView.Present | AWIndexViewExample/AWIndexView.swift:203-212 | for a known path: the current section moves and `vibrate()` is called once only on a section change, and the path is passed to `indexViewChanged` |
| DemoIndexView.IndexView.HandleGesture | AWIndexViewExample/AWIndexView.swift:176-185 | every event applies the report for the touch, whatever its state |
| DemoViewController.GroupIsByInitial | AWIndexViewExample/ViewController.swift:45-54 | folding the names into the dictionary gives exactly the initials of the non-empty names as keys, and under each key the names with that initial in input order |
| DemoIndexView.RemoveRepeatedTitle | AWIndexViewExample/AWIndexView.swift:167-174 | with titles ["A", "B", "A"], removing "A" takes out only the last "A" label: the stack reads ["A", "B"] and one bucket remains |
| DemoIndexView.DuplicateTitleExample | AWIndexViewExample/AWIndexView.swift:159-165 | the titles ["A", "A"] give one dictionary entry, so one bucket, but two labels in the stack |
| DemoViewController.WithInitialCounts | AWIndexViewExample/ViewController.swift:46-54 | a group holds each name with its initial exactly as often as the names do, and no other name |
| DemoViewController.NoGroupWithoutInitial | AWIndexViewExample/ViewController.swift:49-53 | a key that is no name's initial has an empty group |
| DemoViewController.PlaceholderTitleHasNoGroup | AWIndexViewExample/ViewController.swift:33 | the appended title "KUPA" is no name's initial, so it has no group |
| DemoViewController.NonEmpty | AWIndexViewExample/ViewController.swift:47 | the names that get filed are all the names except the empty ones, with their multiplicities |
| DemoViewController.GroupSizesStep | AWIndexViewExample/ViewController.swift:49-53 | filing one more name adds a row to each title equal to its initial |
| DemoViewController.TotalRows | AWIndexViewExample/ViewController.swift:45-54 | when each initial is listed exactly once among the titles, the group sizes add up to the number of non-empty names |
| DemoViewController.LessIrreflexive | AWIndexViewExample/ViewController.swift:55 | no string sorts before itself |
| DemoViewController.LessTransitive | AWIndexViewExample/ViewController.swift:55 | the string order is transitive |
| DemoViewController.LessTotal | AWIndexViewExample/ViewController.swift:55 | any two distinct strings are ordered one way or the other |
| DemoViewController.InsertTitle | AWIndexViewExample/ViewController.swift:55 | inserting into a sorted sequence keeps it sorted by the lowercased comparator and adds exactly the new title |
| DemoViewController.SortTitles | AWIndexViewExample/ViewController.swift:55 | the sorted titles are a permutation of the keys, ordered by the lowercased comparator |
| DemoViewController.SortedIsNonDecreasing | AWIndexViewExample/ViewController.swift:55 | in the sorted titles, lowercased forms never decrease |
| DemoViewController.SortedIsUnique | AWIndexViewExample/ViewController.swift:55 | two sorted orders of the same titles are equal when lowercasing keeps the titles apart |
| DemoViewController.KeyList | AWIndexViewExample/ViewController.swift:55 | `[String](sections.keys)` lists every key exactly once and nothing else |
| DemoViewController.SortTwice | AWIndexViewExample/ViewController.swift:44-56 | running `sort()` twice gives the same sections and the same titles, in the same order whenever lowercasing keeps the titles apart |
| DemoViewController.ViewController.constructor | AWIndexViewExample/ViewController.swift:17-20 | the controller starts with its names and no sections or titles |
| DemoViewController.ViewController.GroupNames | AWIndexViewExample/ViewController.swift:45-54 | the loop computes the fold `Group(names)`; after it, the keys are the initials of the non-empty names, and each group holds that initial's names in input order, duplicates included |
| DemoViewController.ViewController.Sort | AWIndexViewExample/ViewController.swift:44-56 | the sections are the grouping of the names; the titles list each key exactly once, ordered by lowercased comparison; the result depends only on the names, so running it twice gives the same sections |
| DemoViewController.ViewController.AppendPlaceholderTitle | AWIndexViewExample/ViewController.swift:33 | "KUPA" is appended to the titles, the grouping is kept, and the new last section has 0 rows |
| DemoViewController.ViewController.NumberOfSections | AWIndexViewExample/ViewController.swift:61-63 | `numberOfSections(in:)` is the number of titles; when every key is listed there are at least as many sections as groups |
| DemoViewController.ViewController.NumberOfRows | AWIndexViewExample/ViewController.swift:93-95 | `numberOfItems(in:)` and the identical `numberOfRowsInSection` (lines 65-67) give, once the names are grouped, the number of names whose initial is the section's title, and 0 for a title with no group; a section past the titles traps (precondition) |
| DemoViewController.ViewController.SumOfRowsIsGroupSizes | AWIndexViewExample/ViewController.swift:65-67 | summing the rows of the sections from any point on gives their titles' group sizes |
| DemoViewController.ViewController.AllRowsAreNames | AWIndexViewExample/ViewController.swift:61-67 | the table's rows over all sections add up to the number of non-empty names, after `sort()` and after "KUPA" is appended |
| DemoViewController.ViewController.AsHost | AWIndexViewExample/ViewController.swift:85-95 | as a delegate, the controller gives its titles unchanged as `sectionIndexes` and each section's row count as `numberOfItems(in:)`, for every section inside the titles |
| DemoViewController.ViewController.BucketsMatchSections | AWIndexViewExample/ViewController.swift:61-63 | the titles are distinct, so an index view built on the controller has as many buckets as `numberOfSections` |

## Left out

- Layout and view hierarchy are not modelled: `setConstraints`, `configureStackView`, `Edge`, the overlay view's placement, `didMoveToSuperview`, and `UIView+.swift`. They position views and decide nothing.
- Theming is not modelled: `applyTheme`, `Theme`, colours, fonts, `tintColorDidChange`. It is purely cosmetic.
- Animation durations and curves, and real time, are not modelled. Only the alpha targets and the delayed blocks remain, and each block fires as an explicit step in any order the caller picks.
- The haptic generator's `prepare()` calls are not modelled. Only `selectionChanged()` is counted, and in the demo copy the `vibrate()` calls are counted.
- Floating point is not modelled: `CGFloat` rounding, NaN and infinity. Positions are exact reals.
- `PackageIndexView.IndexView.HandleGesture`, `ExampleIndexView.IndexView.HandleGesture`, `DemoIndexView.IndexView.HandleGesture`: these require `frame.height > 0`. A zero height gives a non-finite `CGFloat`, and `Int(_:)` traps on it. They also assume positions small enough for `Int(_:)` not to trap.
- `PackageIndexView.IndexView.ScrollToIndex`: a report past the end of non-empty extended titles traps in Swift. This is a precondition (`OverlayTitleExists`), not a modelled crash.
- `init?(coder:)` is not modelled. In the packaged copy it builds the same view with no delegate, which is the constructor with `None`. In the two dictionary copies it leaves the `labels` dictionary nil, because `commonInit` (and in the example copy `setup()`) returns when there is no delegate. A later `insert(new:)`, `remove(index:)` or `changed` gesture then traps on the nil dictionary. The example copy's `setLabels` skips a nil dictionary, so a later `setup()` with a delegate recovers. The model's dictionaries are never nil.
- `print("Label not found")` in `remove(index:)` is not modelled: it is console output. The nil result is modelled.
- `Sources/AWIndexView/AWIndexViewDelegate.swift` is not part of this model: it holds the protocol, its default no-op methods, and a `UITableView` conformance that forwards to UIKit. The delegate is modelled as a record of item counts and titles.
- The view controller's `viewDidLoad`/`viewDidAppear` scheduling, `cellForRowAt` and `didSelectRowAt` are not modelled: they are table plumbing. The delayed block's appended title is `AppendPlaceholderTitle`. That block also calls `setup()` and `flash(delay:)`, which the demo copy of the view does not declare.
- `DemoViewController.ViewController.AsHost`: `numberOfItems(in:)` traps on `sectionTitles[section]` for a section past the titles (AWIndexViewExample/ViewController.swift:94), but the host answers 0 there. The dictionary copies ask for section 0 even with no labels, so when every name is empty the app traps where the model reports nothing.
- `DemoViewController.Lower`: `lowercased()` is modelled for ASCII letters only, and `String`'s `<` as lexicographic order of `char`s. Unicode case mapping and canonical ordering are not modelled.
- `DemoViewController.Initial`: a name's first `Character` is modelled as its first `char`. Grapheme clusters of several scalars are not modelled.
- `DemoViewController.SortTitles`: `sorted(by:)` is modelled by an insertion sort. Only what the comparator fixes is claimed: titles that lowercase alike may come in either order.
- The press and pan recognizers are not modelled as concurrent: both feed `handleGesture`, and the model takes their events as one sequential stream.
