# Cotswold editor core in Dafny

Cotswold is a browser editor for "timelines of understanding". A document is
a list of timepoints. Each timepoint owns artifacts, which are pieces of text
or images, and each artifact owns ranges: a span of text or a box on an image.
Connections join two ranges by id. Ranges, connections and timepoints carry a
`selected` flag. The editor also remembers whether shift is held and which
range was selected last.

This project models two parts of that editor and proves properties about them.

- **The editor controller** (`app/js/controller.js`). This covers selection,
  connecting ranges, removing connections and ranges, and cascade deletion of
  timepoints and artifacts. It also covers id generation, the range and
  connection setters, and the image-file test.
- **The pure helpers of the view** (`app/js/view.js`): side midpoints,
  perimeter, the choice of connector end-points, the span CSS class,
  line-break escaping, the drag-box clamps and the midpoint.

Layout:

- `text.dfy` has two modules.
  - `Optional` is the `Option` type that stands for `null`/`undefined`.
  - `Text` holds the JavaScript string semantics the controller relies on: decimal printing, `parseInt(s, 10)`, `indexOf` with its clamped start, `endsWith` and ASCII `toLowerCase`.
- `document.dfy` (module `Document`) holds the document as values, which are datatypes. It has the search functions, the specification function of every controller operation, and the lemmas about them. The document invariant `Consistent` has two parts:
  - no two connections join the same range pair;
  - every connection names existing range ids.
- `controller.dfy` (module `Controller`) holds the class `Editor`, whose fields are the controller's `$scope` state. Each method runs the source's loops over those fields. Each is proved against the `Document` function for its operation, and the mutators also keep `Consistent`.
- `view.dfy` (module `View`) holds the view helpers. `getBestConnection` is a loop method; the others are functions.

Object references into the nested arrays are modelled as positions
`Pos(tp, art, rng)`. Setting a flag through a reference becomes rebuilding
the sequence at that position. The `reloadView` / `reloadAllNodes` /
`reloadArtifactNodes` calls redraw the DOM, so they are no-ops here.

## Model

| member | source | states |
|---|---|---|
| Controller.Editor.constructor | app/js/controller.js:364-366 | the editor starts with the given lists, shift released and no previous selection |
| Controller.Editor.GetSelectedRanges | app/js/controller.js:455-472 | returns exactly `SelectedRanges`, the selected ranges in document order |
| Document.SelectedRanges | app/js/controller.js:455-472 | every returned range is selected and sits at a valid position of the document |
| Document.SelectedRangesIsFilter | app/js/controller.js:455-472 | the result is the selected ranges of the flattened timepoint/artifact/range traversal, in that order |
| Document.SelectedRangesComplete | app/js/controller.js:455-472 | every selected range at a valid position is in the result |
| Document.SelectedInArtifactsIsFilter | app/js/controller.js:458-469 | one timepoint's part is the selected ranges of its artifacts' ranges, in artifact/range order |
| Document.SelectedInArtifactsComplete | app/js/controller.js:458-469 | every selected range of every artifact is in one timepoint's part |
| Document.SelectedRangesOwned | app/js/controller.js:455-472 | every selected range's id is one of the document's range ids |
| Document.SelectedIn | app/js/controller.js:461-467 | a range is in the result iff it is in the artifact's list and selected |
| Controller.Editor.GetSelectedConnection | app/js/controller.js:447-453 | null iff no connection is selected; otherwise the first selected connection |
| Controller.Editor.GetConnectionById | app/js/controller.js:632-640 | null iff no connection has the id; otherwise the first one with it |
| Controller.Editor.GetRangeById | app/js/controller.js:641-657 | null iff no range anywhere has the id; otherwise the first in document order, which carries the id |
| Controller.Editor.GetArtifactById | app/js/controller.js:618-629 | null iff no artifact has the id; otherwise the first artifact with that id in timepoint/artifact order (`FindArtifact`) |
| Document.FindRange | app/js/controller.js:641-657 | the first position, in timepoint/artifact/range order, whose range matches; None iff no position matches |
| Document.FindConnection | app/js/controller.js:632-640 | the first matching connection index; None iff none matches |
| Document.FindTimepoint | app/js/controller.js:224-228 | the first timepoint index with the id; None iff none has it |
| Document.FindArtifact | app/js/controller.js:708-726 | the first artifact with the id, scanning timepoints in order; None iff none has it |
| Controller.Editor.RangeIsConnected | app/js/controller.js:350-358 | true iff some connection names the range id at either end |
| Controller.Editor.RangesAreConnected | app/js/controller.js:558-566 | true iff some connection names both ids |
| Document.RangesConnectedSymmetric | app/js/controller.js:558-566 | being connected does not depend on the order of the two ids |
| Controller.Editor.RangeIsConnectable | app/js/controller.js:529-556 | false with 0 or more than 2 selected ranges; with 1, true iff the id differs from it and the pair is unconnected; with 2, true iff the id is one of them and they are unconnected |
| Controller.Editor.UpdateSelection | app/js/controller.js:367-390 | new ranges are `EditRanges` with `SelectOnly`, with `clearPrevious` defaulting to `!shiftDown`; `previousSelection` becomes `NewlySelected`; connections and shift are unchanged; `Consistent` is kept |
| Controller.EditTimepointsIn | app/js/controller.js:372-387 | the nested loops rewrite every range by the edit, and record the target id iff some range has it |
| Document.EditRange | app/js/controller.js:367-390 | only the flag changes; after `SelectOnly` a range is selected iff it is the target, or it was selected, clearing is off and its id is the previous selection |
| Document.EditRanges | app/js/controller.js:367-390 | every range id stays at its position and each range becomes `EditRange` of the old one |
| Document.SelectOnlySelects | app/js/controller.js:367-390 | the target ends up selected; with clearing every other range is unselected; otherwise only the previously selected range may stay selected |
| Document.NewlySelected | app/js/controller.js:368-389 | Some(target) iff some range has the target id, otherwise null |
| Controller.Editor.ClearAllSelectedRanges | app/js/controller.js:520-527 | ranges become `EditRanges` with `ClearSelection`; connections and fields are unchanged; `Consistent` is kept |
| Document.ClearSelectionClears | app/js/controller.js:520-527 | afterwards no range is selected, and each range is the old one with its flag cleared |
| Controller.Editor.SelectTimepoint | app/js/controller.js:494-500 | timepoints become `SelectTimepoints`; nothing else changes; `Consistent` is kept |
| Document.SelectTimepoints | app/js/controller.js:494-500 | a timepoint is selected iff its id equals the argument; nothing else in it changes |
| Controller.Editor.ClearAllSelectedTimepoints | app/js/controller.js:502-509 | timepoints become `ClearTimepoints`; nothing else changes; `Consistent` is kept |
| Document.ClearTimepoints | app/js/controller.js:502-509 | no timepoint is selected afterwards; nothing else in them changes |
| Controller.Editor.SelectConnection | app/js/controller.js:610-616 | connections become `SelectConnections`; nothing else changes; `Consistent` is kept |
| Document.SelectConnections | app/js/controller.js:610-616 | a connection is selected iff its id equals the argument; nothing else in it changes |
| Controller.Editor.ClearAllSelectedConnections | app/js/controller.js:511-518 | connections become `ClearConnections`; nothing else changes; `Consistent` is kept |
| Document.ClearConnections | app/js/controller.js:511-518 | no connection is selected afterwards; nothing else in them changes |
| Controller.Editor.ClearAllSelectedElements | app/js/controller.js:485-492 | the document becomes `ClearAllSelected` of the old one; `Consistent` is kept |
| Document.ClearAllSelectedClears | app/js/controller.js:485-492 | afterwards no range, connection or timepoint is selected, and `Consistent` is kept |
| Document.FlagEditsKeepConsistent | app/js/controller.js:485-527 | edits that keep every artifact and every connection's ends keep `Consistent` |
| Document.RelabelKeepsConsistent | app/js/controller.js:367-390 | edits that keep range ids at their positions and connection ends keep `Consistent` |
| Controller.Editor.MakeConnection | app/js/controller.js:568-583 | the document becomes `MakeConnection` of the old one, and `Consistent` is kept |
| Document.MakeConnectionEffect | app/js/controller.js:568-583 | with exactly two unconnected selected ranges it appends exactly one connection with id `r1-r2`, ends `r1` and `r2`, unselected, color `color1`; otherwise nothing changes; it keeps unique pairs and `Consistent` |
| Document.AppendUnconnectedKeepsPairsUnique | app/js/controller.js:568-583 | appending a connection for an unconnected pair keeps every range pair joined at most once |
| Controller.Editor.RemoveConnection | app/js/controller.js:585-608 | the document becomes `RemoveConnection` of the old one, and `Consistent` is kept |
| Document.RemovalKey | app/js/controller.js:585-597 | no key iff the id is falsy and not exactly two ranges are selected |
| Document.RemoveConnectionEffect | app/js/controller.js:585-608 | a truthy id deletes the first connection with that id; otherwise two selected ranges delete the first connection joining them; in every other case nothing changes; timepoints never change; the result is a subsequence and stays `Consistent` |
| Document.SubsequenceKeepsPairsUnique | app/js/controller.js:585-608 | removing connections keeps range pairs unique |
| Controller.Editor.RemoveRange | app/js/controller.js:317-348 | the document becomes `RemoveRange` of the old one, and `Consistent` is kept |
| Document.RemoveRangeEffect | app/js/controller.js:317-348 | nothing changes unless exactly one range is selected, or if it is connected; otherwise exactly the range at its position is removed; connections never change; a connected range id always survives; `Consistent` is kept |
| Document.FirstSelectedIsSelectedHead | app/js/controller.js:317-336 | the first selected range in document order is the head of `getSelectedRanges()`, so the identity search finds the selected range |
| Document.RemoveRangeAtIds | app/js/controller.js:338 | removing the range at a position removes its id and no other |
| Controller.Editor.RemoveSelected | app/js/controller.js:308-315 | the document becomes `RemoveSelected` of the old one, and `Consistent` is kept |
| Document.RemoveSelectedEffect | app/js/controller.js:308-315 | a selected connection is preferred: with a non-empty id exactly the first connection with that id is removed and timepoints are unchanged; with an empty id it acts as `removeConnection(null)`; with no selected connection it is `RemoveRange` and connections are unchanged; `Consistent` is kept |
| Controller.Editor.RemoveConnectionsForArtifacts | app/js/controller.js:200-222 | connections become `RemoveConnectionsFor`: those naming no range of the artifacts, in their old order; `Consistent` is kept |
| Document.WithoutTouchingMembers | app/js/controller.js:214-220 | a connection survives iff it was there and neither end is among the collected ids |
| Document.WithoutTouchingIsSubsequence | app/js/controller.js:214-220 | the survivors keep their relative order |
| Document.FilterStep | app/js/controller.js:214-220 | one step of the backwards loop: splicing index `l` out, exactly when it touches the ids, extends the filtered suffix by one |
| Document.RemoveAtIsSubsequence | app/js/controller.js:218 | `splice(l, 1)` leaves a subsequence |
| Controller.Editor.DeleteTimepoint | app/js/controller.js:224-238 | the document becomes `DeleteTimepoint` of the old one, and `Consistent` is kept |
| Document.DeleteTimepointCascade | app/js/controller.js:224-238 | an unknown id changes nothing; otherwise only the first matching timepoint is removed and a connection survives iff it names none of its ranges; order is kept; `Consistent` is kept |
| Controller.Editor.DeleteArtifact | app/js/controller.js:708-730 | the document becomes `DeleteArtifact` of the old one, and `Consistent` is kept |
| Document.DeleteArtifactCascade | app/js/controller.js:708-730 | an unknown id changes nothing; otherwise only the first matching artifact leaves its timepoint and a connection survives iff it names none of its ranges; order is kept; `Consistent` is kept |
| Document.CascadeKeepsConsistent | app/js/controller.js:200-238 | dropping the connections into the removed ids leaves no dangling connection |
| Controller.Editor.GetNextTimepointId | app/js/controller.js:673-682 | returns `NextTimepointId` of the timepoints |
| Controller.ScanTimepointNumbers | app/js/controller.js:674-680 | the loop's accumulator ends as `MaxTimepointNumber` of the timepoints |
| Document.MaxTimepointNumber | app/js/controller.js:673-682 | at least 0 and at least every parsable timepoint suffix |
| Document.MaxTimepointNumberAttained | app/js/controller.js:673-682 | the maximum is 0 or the suffix of some timepoint |
| Document.NextTimepointIdFresh | app/js/controller.js:673-682 | the new id parses back to the maximum plus one, differs from every timepoint id and is `t1` in an empty document |
| Document.Larger | app/js/controller.js:677-679 | `if (nextId < n) nextId = n` yields the larger value, and a NaN never replaces it |
| Controller.Editor.GetNextArtifactId | app/js/controller.js:659-671 | returns `NextArtifactId` of the timepoints |
| Controller.ScanArtifactNumbers | app/js/controller.js:660-669 | the nested loops' accumulator, seeded with 1, ends as `MaxArtifactNumber` of the timepoints |
| Document.MaxArtifactNumber | app/js/controller.js:659-671 | at least 1 (the seed), at least every parsable artifact suffix, and 1 when there are no artifacts |
| Document.MaxInArtifactsAttained | app/js/controller.js:662-668 | the inner maximum is the seed or the suffix of one of the artifacts |
| Document.MaxArtifactNumberAttained | app/js/controller.js:659-671 | the maximum is 1 or the suffix of some artifact |
| Document.NextArtifactIdFresh | app/js/controller.js:659-671 | the new id parses back to the maximum plus one, differs from every artifact id and is `a2` when there are no artifacts |
| Text.ParseIntOfDecimal | app/js/controller.js:664 | `parseInt` of a printed natural number gives that number back |
| Controller.Editor.MakeTextArtifact | app/js/controller.js:684-694 | returns `Document.MakeTextArtifact` of the timepoints |
| Document.MakeTextArtifact | app/js/controller.js:684-694 | a text artifact with that content, no ranges and an id no artifact has |
| Controller.Editor.MakeImageArtifact | app/js/controller.js:696-706 | returns `Document.MakeImageArtifact` of the timepoints |
| Document.MakeImageArtifact | app/js/controller.js:696-706 | an image artifact with that source, no ranges and an id no artifact has |
| Controller.Editor.MakeTimepoint | app/js/controller.js:190-198 | the document becomes `MakeTimepoint` of the old one, and `Consistent` is kept |
| Document.MakeTimepointEffect | app/js/controller.js:190-198 | exactly one timepoint is appended, with a fresh id and no artifacts; unique timepoint ids and `Consistent` are kept |
| Controller.Editor.SetTimepointTitle | app/js/controller.js:248-255 | timepoints become `RetitleTimepoints`; nothing else changes; `Consistent` is kept |
| Document.RetitleTimepoints | app/js/controller.js:248-255 | every timepoint with the id gets the new name; the rest are unchanged |
| Controller.Editor.SetRangeStyle | app/js/controller.js:408-429 | timepoints become `ChangeRangeById` with the style toggle; nothing else changes; `Consistent` is kept |
| Document.FindStyle | app/js/controller.js:414-421 | the first style index with the clicked name, or None iff no style has it |
| Document.ToggleStyleFlips | app/js/controller.js:408-429 | other style names are untouched; with unique names the clicked name's presence flips and names stay unique |
| Document.ToggleStyleTwice | app/js/controller.js:408-429 | toggling a style that was absent twice gives the original list back |
| Controller.Editor.SetRangeColor | app/js/controller.js:400-406 | timepoints become `ChangeRangeById` with the new color; nothing else changes; `Consistent` is kept |
| Controller.Editor.SetRangeNote | app/js/controller.js:439-445 | timepoints become `ChangeRangeById` with the new note; nothing else changes; `Consistent` is kept |
| Document.ChangeRange | app/js/controller.js:400-445 | the change never touches the range's id, flag or shape |
| Document.ChangeRangeByIdEffect | app/js/controller.js:400-445 | an unknown id changes nothing; otherwise only the range found by `getRangeById` changes; `Consistent` is kept |
| Controller.Editor.SetConnectionColor | app/js/controller.js:392-398 | connections become `ChangeConnectionById` with the new color; nothing else changes; `Consistent` is kept |
| Controller.Editor.SetConnectionNote | app/js/controller.js:431-437 | connections become `ChangeConnectionById` with the new note; nothing else changes; `Consistent` is kept |
| Document.ChangeConnection | app/js/controller.js:392-437 | the change never touches the id, the ends or the flag |
| Document.ChangeConnectionById | app/js/controller.js:392-437 | an unknown id changes nothing; otherwise only the first connection with the id changes |
| Controller.IsImageFileByExtension | app/js/controller.js:822-832 | a file is an image iff its lower-cased name ends in `.png`, `.gif`, `.jpg` or `.jpeg` |
| Controller.IsImageFileExamples | app/js/controller.js:822-828 | `A.PNG` is an image; `png`, shorter than every extension, is not |
| Text.EndsWithIsSuffix | app/js/controller.js:830-832 | the `indexOf`-based test holds iff the suffix is really a suffix |
| Text.SearchFrom | app/js/controller.js:830-832 | the first occurrence at or after the start, or -1 iff there is none |
| Controller.Editor.RangeIsSelected | app/js/controller.js:474-483 | corrected: true iff some selected range has the id |
| Document.RangeIsSelectedInIffMember | app/js/controller.js:474-483 | the corrected loop finds the id iff some selected range carries it |
| Document.RangeIsSelectedAsWrittenMissesSelection | app/js/controller.js:476 | as written, a document with one selected range `r1` answers false for `r1` |
| View.GetMidpoint | app/js/view.js:469-475 | both branches compute `(a + b) / 2` |
| View.GetMidpointSymmetric | app/js/view.js:469-475 | symmetric in its arguments and between them |
| View.SidesAreEdgeMidpoints | app/js/view.js:1-15 | each side function gives the midpoint of that side's edge |
| View.Perimeter | app/js/view.js:17-19 | never negative, and zero iff the two points coincide |
| View.PerimeterSymmetric | app/js/view.js:17-19 | symmetric in the two points |
| View.CandidateSides | app/js/view.js:27-49 | twelve distinct (box1 side, box2 side) pairs, none with the same side twice |
| View.CandidateSidesCoverDistinctSides | app/js/view.js:27-49 | a side pair is a candidate iff its sides differ |
| View.Permutations | app/js/view.js:27-49 | candidate `i` joins the box1 and box2 midpoints of the `i`-th side pair |
| View.ShortestPair | app/js/view.js:51-60 | null iff every cost is 0; otherwise the candidate with the smallest positive cost, the earliest on a tie |
| View.GetBestConnection | app/js/view.js:22-61 | null iff every candidate perimeter is 0; otherwise the earliest candidate of smallest positive perimeter |
| View.BestAmongUnique | app/js/view.js:54 | the strict `<` leaves at most one best candidate |
| View.AdjacentBoxesConnectRightToLeft | app/js/view.js:1-61 | boxes (0,0,10,10) and (100,0,10,10) are joined from (10,5) to (100,5) |
| View.CoincidentPointsHaveNoConnector | app/js/view.js:22-61 | two empty boxes at the same point have every candidate of cost 0 |
| View.MakeSpanClass | app/js/view.js:63-78 | "" without an id; otherwise it starts with `allborders ` and the color |
| View.MakeSpanClassShape | app/js/view.js:63-78 | with an id, the class is the prefix, at most one truncation suffix and ` selected` iff selected |
| View.SuffixInjective | app/js/view.js:67-76 | the suffix determines the truncation and the selection |
| View.MakeSpanClassDecodes | app/js/view.js:63-78 | spans of the same color with equal classes agree on truncation and selection |
| View.ReplaceCrOrLf | app/js/view.js:286 | the result contains no CR or LF |
| View.EscapeLineBreaks | app/js/view.js:280-287 | the result contains no CR or LF |
| View.EscapeLineBreaksIsOnePass | app/js/view.js:280-287 | the two replacements equal one scan that turns CRLF into one ` <br />` and each lone CR or LF into one |
| View.EscapeLineBreaksExamples | app/js/view.js:280-287 | CRLF gives one break; LF CR gives two |
| View.SmallerWithMin | app/js/view.js:289-291 | never below `min` or the smaller argument, and equal to one of them |
| View.LargerWithMax | app/js/view.js:293-295 | never above `max` or the larger argument, and equal to one of them |
| View.DragExtentNonNegative | app/js/view.js:305-314 | with `min <= origin <= max`, the drag-box width or height is never negative |

## Findings

| source | as written | input that shows it | evidently intended | confidence | as-written member | corrected member |
|---|---|---|---|---|---|---|
| app/js/controller.js:476 | `for (var i=0; i<selectedRanges; i++)` compares the index with the array. The array reads as `""`, so 0, when empty, and as NaN otherwise, so the loop body never runs and `rangeIsSelected` always returns false | one timepoint with one artifact holding one selected range `r1`; `rangeIsSelected("r1")` returns false | `i<selectedRanges.length`: true iff some selected range has the id | high (not executed) | Document.RangeIsSelectedAsWritten, with Document.RangeIsSelectedAsWrittenMissesSelection and Document.RangeIsSelectedAsWrittenNeverHolds | Controller.Editor.RangeIsSelected, with Document.RangeIsSelectedInIffMember |

## Left out

- DOM, d3, jQuery and rangy work is not modelled. This covers `render`, the span and artifact drawing, detail boxes, drag behaviour, caret offsets, artifact ancestors and file inputs. Every `reloadView`, `reloadAllNodes` and `reloadArtifactNodes` call is treated as doing nothing.
- Box measurement and its string formatting are not modelled, because they read pixel positions from the page.
- File reading, the download button and the keydown/keyup handlers are not modelled. These handlers are the only writers of `shiftDown`, so the field is a plain field that `UpdateSelection` reads.
- Persistence (`loadData`, `save`, the JSON replacers and the storage object) is not modelled. `Controller.Editor.constructor` stands for the state after `loadData`.
- `makeRange` and `makeImageRange` are not modelled, because their offsets come from the browser selection and the drag box. Their generated range id, `"range"`/`"box"` + artifact id + (count + 1), can repeat an existing id after a removal. This is noted but not modelled.
- The span-tree builder `makeSpanTree` and the diff annotation generator are not part of this model.
- The identical second definitions of `selectTimepoint` and `clearAllSelectedTimepoints` replace the first ones, so each is modelled once.
- Artifact layout fields (`width`, `maxHeight`, `imageDisplay`, `contentDisplay`) are left out of `Artifact`. They only drive rendering.
- Object identity and aliasing are not modelled. Objects are values at positions in the class's sequences. `removeRange` finds the selected range by `===`; the model finds the first selected range in document order, which `Document.FirstSelectedIsSelectedHead` shows is the range `getSelectedRanges()` returned.
- Controller.Editor.ClearAllSelectedRanges: the source first collects the selected ranges and then clears each one through its reference. The model clears the flags in one pass over the tree, which leaves the same document.
- `Number.MAX_VALUE` in `getBestConnection` is modelled as "no bound yet" (`None`). A perimeter of `Number.MAX_VALUE` or more, which the source would never pick, is not modelled.
- Coordinates are exact reals, not floating-point numbers, so rounding is not modelled.
- Text.ParseInt: leading whitespace and values beyond the safe-integer range are not modelled. Ids are short and printed by the editor itself.
- Text.ToLower: only the ASCII letters are lowered; other Unicode case mappings are not modelled.
- Controller.Editor.RemoveConnectionsForArtifacts: the source collects the range ids as keys of a plain object and tests them with `in` (app/js/controller.js:200-207, 216-217), which also matches names inherited from `Object.prototype` such as `toString`, `constructor` or `__proto__`. The model uses a set of ids, so a connection whose end is such a name is not removed unless a removed range has that id. `DeleteTimepoint`, `DeleteArtifact` and `Document.DeleteTimepointCascade`/`Document.DeleteArtifactCascade` inherit this gap. Ids are generated by the editor as `range…`/`box…`, so these names do not arise.
- The `console.log` refusal messages of `removeRange`, `makeConnection` and `removeConnection` (app/js/controller.js:323, 336, 575, 581, 606) are not modelled; in those cases the model leaves the document unchanged, as the source does.
- `removeConnectionsForArtifacts` with a `null` argument, and artifacts whose `ranges` field is missing, are not modelled. Every artifact in the model has a (possibly empty) list of ranges.
- Range `styles` that are missing in the source get initialised to `[]` by `setRangeStyle`. In the model every range has a list of styles.
