# bemtvi-core: the synchronous editing core, modelled and proved

A Dafny model of the part of `bemtvi-core` that keeps derived data in step with text while
the text is edited, with proofs of what its code and its documentation promise. The model
follows the code where the two differ; those places are listed below.

## What is modelled

- **Extmarks** (`Gravity`, `Positions`, `MaxEndTree`, `ExtmarkState`, `ExtmarkLaws`,
  `ExtmarkCounters`, `ExtmarkIndex`, `ExtmarkStore`, `ExtmarkRuns`, `ExtmarkIds`). A class with
  the store's fields, its lazy per-namespace runs, the combined index with its max-end tree, the
  counters and the stamps. `Valid` says that every cache equals its definition over the plain
  marks; every method keeps it. `ExtmarkRuns` and `ExtmarkIds` reason over whole runs of
  operations on many stores.
- **The edit choke point** (`Text`, `ChangeTracking`, `Buffer`, `FoldRows`, `LineEndings`,
  `DiskRead`). A class with the six journals, marks, change list and change span; a ghost
  copy per consumer states what a drained journal must deliver. Beside it the row fold,
  line-ending conversion on load and save, and the torn-read retry loop against a history
  of disk states.
- **Columns and wrapping** (`Columns`, `Utf16`, `Wrap`, `Scroll`). Lines of graphemes with
  byte lengths and widths; fast paths refine the direct sum; greedy wrapping with indent,
  splices and word breaks; scroll geometry.
- **Parsers and layouts** (`Snippet`, `SnippetGrammar`, `SnippetLayout`, `StatusExpand`,
  `StatusLayout`, `Keys`, `KeySpellings`, `RstLines`, `RstText`, `RstInline`, `RstFields`,
  `Rst`, `RstTold`, `RstForms`, `RstParser`), with `Decimals`, `Utf8`, `Sealed` and `Wrappers`
  shared. Each parser is proved against a statement of its language: what spells a snippet or a
  key, and what a document tells the renderer.

Verify everything with `dafny verify dfyconfig.toml`.

## Where the code and its documentation differ

- A moved namespace does not raise the receiver's serial counter, so a later placement can
  repeat a serial and undo can mistake it for the old one (`MovedSerialCanCollide`; undo's
  rule survives the move exactly when `MoveKeepsUndoRule` says). This is a fact of the
  interface: the program moves only namespaces that every undo skips, which is safe.
- A load with no existing-file baseline can report "unchanged" while holding bytes
  (`ExhaustedWithoutBaseline`; exact condition in `UnchangedMeansLoaded`).
- `'linebreak'` can split a word although a blank stands before it in its row, and although
  it would fit a row of its own (`BlankBeforeSplitWord`; exact condition in `SplitRowHadBlank`).
- With `'linebreak'` and a continuation indent a row can be wider than its cells: the word
  that moved down into it is not measured again (`TightRowOverflows`; exact condition in
  `LinebreakRowFits`).
- A splice anchored where a zero-width grapheme stands can take room on two rows
  (`DoubledSplice`; exact condition in `ChargedExactly`).
- A window can show two rows without text at the end of a line (`NarrowRows`; exact condition
  in `TwoRowsWithoutText`).
- A byte inside a character counts that whole character in UTF-16 units, where the
  documentation says only those before it (`InsideLetter`; exact condition in
  `UnitsAsDocumented`).
- An unescaped `}` at the top level of a snippet is text; the error documented for it is
  never returned (`ParseNeverUnexpectedClose`).
- Places of one snippet stop can differ when a default refers forward (`ForwardOutOfSync`) or
  the stop is given two contents (`TwiceOutOfSync`; exact condition in `MirrorsInSync`), and
  `$0` is not last when a stop has the number 4294967295 (`FinalStopNotLast`; exact condition in
  `FinalStopLast`).
- The terminal-alias fold of keys drops the command modifier (`FoldDropsCommand`; exact
  condition in `FoldLoses`).
- An overlined section title is accepted whatever the length of its lines; only an
  underlined one is measured (`LongTitleAccepted`; exact condition in
  `OnlyUnderlinesAreMeasured`).
- Rendering a reStructuredText document can panic: a dedent counts bytes on one line and cuts
  another inside a character (`FeedWideIndent`). A dedent succeeds exactly when
  `DedentSucceeds` says; documents with one-byte leading white space always render (`Feed`).
- Text that is not interpreted should show as itself, but a plain run that ends like a role
  loses it though no interpreted text follows (`RoleEatsText`; exact condition in
  `InlineLetters`), and a type field whose row is missing or that comes second is dropped
  with its text (`LoneTypeLine`; exact condition in `TypeShownIff`).
- Field roles are compared as they are written, where the documentation says lowercased
  (`CapitalRole`; exact condition in `RoleCaseMatters`).

## Model

| member | source | states |
|---|---|---|
| Gravity.ShiftStaysInText | crates/bemtvi-core/src/extmark.rs:855-897 | A mark inside the text before an edit is inside the text after it. |
| Gravity.OutsideEditKeepsText | crates/bemtvi-core/src/extmark.rs:1073-1103 | An edit that does not overlap a default-gravity range mark leaves the text under the mark unchanged, wherever the mark moves. |
| Gravity.RunOutsideKeepsText | crates/bemtvi-core/src/extmark.rs:855-897 | The same over every run of edits none of which overlaps the mark as it then stands. |
| Gravity.TypingAtLeftEdgeGrows | crates/bemtvi-core/src/extmark.rs:1095-1103 | A mark with left start and right end gravity takes in exactly the text typed at its left edge. |
| Gravity.TypingAtRightEdgeGrows | crates/bemtvi-core/src/extmark.rs:1078-1087 | And exactly the text typed at its right edge. |
| Gravity.InsertThenDeleteReturns | crates/bemtvi-core/src/extmark.rs:855-897 | Inserting text and deleting the same bytes returns a mark to where it was if and only if nothing was inserted or the mark does not end before it starts. |
| Gravity.PositionKeepsSide | crates/bemtvi-core/src/extmark.rs:1073-1103 | Text before an edit stays before a position and text after it stays after, whatever the gravity; a position inside collapses to an edge of the new content, which one by its gravity. |
| Positions.SortedListingUnique | crates/bemtvi-core/src/extmark.rs:912-930 | A set of entries has only one listing in strictly ascending (start, namespace, id) order, so an index that is sorted and lists the marks is the index. |
| Positions.SortByKeySorts | crates/bemtvi-core/src/extmark.rs:950-969 | Sorting by key gives a strictly ascending listing of the same entries when keys are distinct. |
| Positions.PartitionPoint | crates/bemtvi-core/src/extmark.rs:470-475 | Binary search returns the number of entries of a sorted run that start before the bound. |
| Positions.ShiftKeepsOrderOutsideWindow | crates/bemtvi-core/src/extmark.rs:1002-1030 | After every entry is shifted by an edit, only the entries between the edit start and its new end can be out of order. |
| Positions.WindowSortSorts | crates/bemtvi-core/src/extmark.rs:1002-1030 | Sorting just that window sorts the whole run. |
| Positions.ShiftEach | crates/bemtvi-core/src/extmark.rs:1002-1030 | The in-place pass shifts every entry of the array. |
| Positions.SortWindow | crates/bemtvi-core/src/extmark.rs:1002-1030 | The in-place sort of a window orders it and leaves the rest where it was. |
| Positions.ShiftInPlace | crates/bemtvi-core/src/extmark.rs:1002-1030 | Shifting a sorted run in place and re-sorting the window gives the sorted listing of the shifted entries. |
| MaxEndTree.Build | crates/bemtvi-core/src/extmark.rs:1033-1045 | The array filled leaves first, then upwards, is a max tree of the ends. |
| MaxEndTree.NodeIsLargest | crates/bemtvi-core/src/extmark.rs:1033-1045 | Every node holds the largest end of exactly the entries below it. |
| MaxEndTree.HitsMembers | crates/bemtvi-core/src/extmark.rs:1050-1070 | The specified answer holds an index exactly when it is in range and its end reaches the bound. |
| MaxEndTree.HitsAscend | crates/bemtvi-core/src/extmark.rs:1050-1070 | And in ascending order. |
| MaxEndTree.HitsJoin | crates/bemtvi-core/src/extmark.rs:1050-1070 | Answers of adjacent ranges join to the answer of the whole range. |
| MaxEndTree.FrameDone | crates/bemtvi-core/src/extmark.rs:1050-1070 | A subtree beyond the range, or whose largest end falls short, adds nothing to the answer, and a leaf that passes both tests adds itself. |
| MaxEndTree.Reaching | crates/bemtvi-core/src/extmark.rs:1050-1070 | The explicit-stack walk terminates and returns exactly the indices below the bound whose end reaches it, ascending. |
| ExtmarkCounters.AddKey | crates/bemtvi-core/src/extmark.rs:537-594 | Counting a new mark in keeps the counters equal to their definitions: the number of marks with virtual lines and the histogram of positive gutter widths. |
| ExtmarkCounters.RemoveKey | crates/bemtvi-core/src/extmark.rs:602-621 | Counting a mark out does too. |
| ExtmarkCounters.ReplaceKey | crates/bemtvi-core/src/extmark.rs:537-594 | Replacing a mark under its id does too, in the order the code counts the gained and the lost width. |
| ExtmarkCounters.PayloadsDecide | crates/bemtvi-core/src/extmark.rs:405-456 | Moving anchors never changes a counter. |
| ExtmarkCounters.Retain | crates/bemtvi-core/src/extmark.rs:626-661 | The walk over a cleared namespace keeps exactly the marks outside the range and counts out exactly the others. |
| ExtmarkCounters.CountPlaced | crates/bemtvi-core/src/extmark.rs:537-594 | After placing a mark, new or in the place of another, the counters are those of the new set of marks. |
| ExtmarkCounters.CountDeleted | crates/bemtvi-core/src/extmark.rs:602-621 | The same after a deletion. |
| ExtmarkCounters.CountCleared | crates/bemtvi-core/src/extmark.rs:626-661 | The same after a range clear. |
| ExtmarkCounters.CountDropped | crates/bemtvi-core/src/extmark.rs:679-709 | The same after a namespace left, or was displaced. |
| ExtmarkCounters.CountInstalled | crates/bemtvi-core/src/extmark.rs:679-709 | The same after a namespace arrived. |
| ExtmarkCounters.TallySame | crates/bemtvi-core/src/extmark.rs:727-758 | The same when only anchors changed. |
| ExtmarkIndex.IndexHasDistinctKeys | crates/bemtvi-core/src/extmark.rs:912-930 | The entries of an index have distinct keys. |
| ExtmarkIndex.ShiftedIndex | crates/bemtvi-core/src/extmark.rs:855-897 | The shifted and re-sorted index of the old marks is the index of the shifted marks. |
| ExtmarkIndex.SortGivesIndex | crates/bemtvi-core/src/extmark.rs:977-989 | Sorting the concatenated runs gives the combined index. |
| ExtmarkIndex.BuildRun | crates/bemtvi-core/src/extmark.rs:950-969 | A namespace run is built as the sorted listing of its marks. |
| ExtmarkIndex.AppendRun | crates/bemtvi-core/src/extmark.rs:977-989 | Appending a namespace run lists the marks of one more namespace. |
| ExtmarkIndex.OtherRunsSurvive | crates/bemtvi-core/src/extmark.rs:537-594 | Replacing one namespace leaves every other built run exact. |
| ExtmarkStore.Store.constructor | crates/bemtvi-core/src/extmark.rs:347-375 | An empty store is valid. |
| ExtmarkStore.Store.Clone | crates/bemtvi-core/src/extmark.rs:908-910 | A clone has the same marks, stamps and counters and no built index. |
| ExtmarkStore.Store.Set | crates/bemtvi-core/src/extmark.rs:537-594 | Placing returns the id used, the one given or, below the 64-bit limit, an automatic one that no mark of the namespace holds; the mark stands there under a new serial, every other mark of the store is as it was, two stamps are taken, and every built index and counter is exact. |
| ExtmarkStore.Store.Del | crates/bemtvi-core/src/extmark.rs:602-621 | Deleting says whether the mark existed, removes just it, and leaves indexes and counters exact. |
| ExtmarkStore.Store.ClearNamespace | crates/bemtvi-core/src/extmark.rs:626-661 | Clearing a range of a namespace removes the marks that start in it and leaves indexes and counters exact. |
| ExtmarkStore.Store.ClearEverything | crates/bemtvi-core/src/extmark.rs:666-671 | Clearing all leaves no mark, no counter and no index. |
| ExtmarkStore.Store.MoveNamespaceInto | crates/bemtvi-core/src/extmark.rs:679-709 | The namespace leaves one store and displaces that of the other; both stay valid, with one stamp each. |
| ExtmarkStore.Store.AdoptPositionsFrom | crates/bemtvi-core/src/extmark.rs:727-758 | Every mark outside the skipped namespaces takes the position of the same placement in the snapshot, or is clamped; counters and indexes stay exact. |
| ExtmarkStore.Store.ShiftAnchors | crates/bemtvi-core/src/extmark.rs:855-897 | An edit moves every anchor by its gravity and every built index is that of the moved marks. |
| ExtmarkStore.Store.Run | crates/bemtvi-core/src/extmark.rs:372-374 | Asking for a namespace run gives its sorted listing, built or cached, and changes no mark. |
| ExtmarkStore.Store.EnsureIndex | crates/bemtvi-core/src/extmark.rs:501-503 | Building the combined index gives the sorted listing of all marks and changes no mark. |
| ExtmarkStore.Store.StartingIn | crates/bemtvi-core/src/extmark.rs:470-475 | The answer lists exactly the marks with lo <= start < hi, in ascending key order. |
| ExtmarkStore.Store.Reaching | crates/bemtvi-core/src/extmark.rs:486-497 | The answer lists exactly the marks with start < hi whose end (start for a point mark) is at least lo, in ascending key order. |
| ExtmarkStore.Store.HasAnyVirtLines | crates/bemtvi-core/src/extmark.rs:821-823 | The counter answers whether some mark has virtual lines. |
| ExtmarkStore.Store.GutterTextWidth | crates/bemtvi-core/src/extmark.rs:828-830 | The answer is the largest gutter width of any mark, 0 when none has one. |
| ExtmarkStore.SortedStarts | crates/bemtvi-core/src/extmark.rs:470-475 | Starts rise along a sorted run, so a slice between two partition points is a range of starts. |
| ExtmarkStore.AnswersFromSlice | crates/bemtvi-core/src/extmark.rs:486-497 | Looking up the entries of an exact index slice answers the query with the current marks. |
| ExtmarkRuns.EqualStampsCertifyContent | crates/bemtvi-core/src/extmark.rs:144-149 | Over every run of operations on any number of stores, with clones and namespace moves, two slots of equal stamp hold the same ids, serials and payloads. |
| ExtmarkRuns.EqualGenerationsAgree | crates/bemtvi-core/src/extmark.rs:347-375 | And two stores of equal generation agree on every namespace. |
| ExtmarkRuns.RunCertified | crates/bemtvi-core/src/extmark.rs:462-465 | Every run keeps a record of what each stamp ever stood for, which no later step contradicts. |
| ExtmarkRuns.ShiftMovesAnchorsOnly | crates/bemtvi-core/src/extmark.rs:855-897 | An edit changes no stamp and nothing but anchors. |
| ExtmarkRuns.UndoMovesAnchorsOnly | crates/bemtvi-core/src/extmark.rs:727-758 | Undo changes nothing but anchors and the generation. |
| ExtmarkRuns.RunKeepsSerials | crates/bemtvi-core/src/extmark.rs:537-594 | Over every run, with moves of hidden namespaces, any other mark keeps its serial and what it carries unless it is placed again, which gives a newer serial. |
| ExtmarkRuns.UndoRestoresWhatWasNotPlacedAgain | crates/bemtvi-core/src/extmark.rs:727-758 | Over every run between a history point and its undo, with moves of namespaces undo skips, any other mark goes back to where the history point had it if and only if it was not placed again; otherwise it is clamped. |
| ExtmarkRuns.UndoRuleIff | crates/bemtvi-core/src/extmark.rs:727-758 | That rule holds for a history point, every such run since and every mark undo looks at if and only if none of those marks has a serial ahead of the counter. |
| ExtmarkRuns.MoveKeepsUndoRule | crates/bemtvi-core/src/extmark.rs:679-709 | After a namespace moved into a store whose other serials are behind its counter, the rule holds for every run since if and only if undo skips that namespace or no moved mark has a serial ahead of the counter of the receiving store. |
| ExtmarkRuns.SerialComesRound | crates/bemtvi-core/src/extmark.rs:679-709 | A mark with a serial ahead of the counter always has a run after which undo drags a new placement back: placing its id until the serial comes round. |
| ExtmarkRuns.MovedSerialCanCollide | crates/bemtvi-core/src/extmark.rs:679-709 | Without that bound, undo mistakes a new placement for the old one: a concrete run. |
| ExtmarkLaws.PlacedIsAllocated | crates/bemtvi-core/src/extmark.rs:537-594 | After a placement the allocator of the namespace is past the id used, or at the 64-bit limit. |
| ExtmarkLaws.AutomaticIsFresh | crates/bemtvi-core/src/extmark.rs:537-594 | Below that limit no mark of the namespace holds the id an automatic placement gets. |
| ExtmarkLaws.AutomaticAtLimit | crates/bemtvi-core/src/extmark.rs:537-594 | At the limit it gets the limit, the one id that can then be held already. |
| ExtmarkLaws.AllocatorMoves | crates/bemtvi-core/src/extmark.rs:537-594 | Below the limit automatic ids come one after the other, and an id asked for moves the allocator past it, never back. |
| ExtmarkLaws.PlaceMeans | crates/bemtvi-core/src/extmark.rs:537-594 | A placement puts one mark under the id used and touches no other mark. |
| ExtmarkLaws.DeleteMeans | crates/bemtvi-core/src/extmark.rs:602-621 | A deletion takes one mark and touches no other. |
| ExtmarkLaws.ClearMeans | crates/bemtvi-core/src/extmark.rs:626-661 | Clearing takes exactly the marks of the namespace that start in the range. |
| ExtmarkLaws.ClearAllMeans | crates/bemtvi-core/src/extmark.rs:666-671 | Clearing all leaves no mark. |
| ExtmarkLaws.MoveMeans | crates/bemtvi-core/src/extmark.rs:679-709 | A move empties the namespace in one store and leaves in that of the other the marks moved and no others. |
| ExtmarkLaws.ClampMeans | crates/bemtvi-core/src/extmark.rs:727-758 | A clamped mark lies in the text with its end not before its start, and stays where it is if it did. |
| ExtmarkLaws.AdoptMeans | crates/bemtvi-core/src/extmark.rs:727-758 | Undo holds the same marks, leaves those of the namespaces it skips alone, takes any other back to where the same placement was, and clamps the rest. |
| ExtmarkIds.RunKeepsIds | crates/bemtvi-core/src/extmark.rs:537-594 | Over every run of operations on any number of stores, with clones and namespace moves, every mark is under its own id and the allocator of its namespace is past all ids held, or at the limit. |
| ExtmarkIds.NotGivenAgain | crates/bemtvi-core/src/extmark.rs:537-594 | An id given automatically below the limit is not given automatically again while the slot of its namespace stays, whatever is deleted or cleared in between. |
| Text.RowsOfConcat | crates/bemtvi-core/src/buffer.rs:1066-1070 | The rows of a concatenation add up. |
| Text.PointOfConcat | crates/bemtvi-core/src/buffer.rs:1066-1070 | The point at the end of a concatenation is composed from those of its parts. |
| Text.PointsOrderAsBytes | crates/bemtvi-core/src/buffer.rs:1066-1070 | Points of a text compare as their byte offsets do. |
| Text.ShiftPointIsByteShift | crates/bemtvi-core/src/buffer.rs:1564-1588 | Shifting the point of byte p gives the point of p before the edit, of p moved by the change of length at or past it, and inside it nothing or the edit start. |
| Text.ShiftedPointIsPoint | crates/bemtvi-core/src/buffer.rs:1564-1588 | A point of the old text that survives is a point of the new one. |
| Text.StartPointIsPoint | crates/bemtvi-core/src/buffer.rs:1013-1062 | The edit start, where the last change is recorded, is a point of the new text. |
| Text.ReplayPush | crates/bemtvi-core/src/buffer.rs:1013-1062 | A journal with one more edit replays to the text with that edit applied. |
| FoldRows.FoldEditRows | crates/bemtvi-core/src/buffer.rs:1684-1706 | The loop with its running shift computes the fold over the edits. |
| FoldRows.FoldSplices | crates/bemtvi-core/src/buffer.rs:1684-1706 | For the journal of any edits of any text, the span returned splices the old rows into the new ones; None comes back if and only if the journal is empty or an edit starts above the last row the one before it put in. |
| FoldRows.SplitOfConcat | crates/bemtvi-core/src/buffer.rs:1684-1706 | Splitting a concatenation into rows joins the rows of its parts at the seam. |
| FoldRows.EditKeepsRowsAbove | crates/bemtvi-core/src/buffer.rs:1684-1706 | An edit keeps all rows above its start row. |
| FoldRows.EditKeepsRowsBelow | crates/bemtvi-core/src/buffer.rs:1684-1706 | And all rows below its end row. |
| FoldRows.SpliceThenEdit | crates/bemtvi-core/src/buffer.rs:1684-1706 | An edit at or below a splice extends it to one splice, and the mapped old row is never negative. |
| FoldRows.ChangedLineSpan | crates/bemtvi-core/src/buffer.rs:1539-1556 | The span of a whole-text replacement: the rows outside it are common, it cannot be narrowed at either end, and None comes back if and only if nothing changed. |
| ChangeTracking.ShiftMarks | crates/bemtvi-core/src/buffer.rs:1516-1532 | Every mark is moved or dropped by the point shift. |
| ChangeTracking.ShiftChangelist | crates/bemtvi-core/src/buffer.rs:1596-1612 | The change list is shifted entry by entry, in order and without the entries the edit swallows. |
| ChangeTracking.MarksStayInText | crates/bemtvi-core/src/buffer.rs:1516-1532 | Marks that are points of the text are points of the text after any edit. |
| ChangeTracking.ChangesStayInText | crates/bemtvi-core/src/buffer.rs:1596-1612 | So are the entries of the change list. |
| ChangeTracking.AddChangeKeeps | crates/bemtvi-core/src/buffer.rs:1013-1062 | A change recorded keeps the list in order but for its newest entry exactly when that is on the same row, and its oldest exactly when it is full and the newest is on another row. |
| ChangeTracking.ChangesRun | crates/bemtvi-core/src/buffer.rs:1013-1062 | So a run of changes leaves the last one of every stretch on one row, the newest hundred of these. |
| ChangeTracking.SurvivorsStay | crates/bemtvi-core/src/buffer.rs:1596-1612 | Every entry that outlives an edit is in the shifted list, moved, right after those that outlive it before. |
| ChangeTracking.GrownSpanIsHull | crates/bemtvi-core/src/buffer.rs:1013-1062 | The grown span starts at the lesser start and ends where the later of its old end and that of the edit is now. |
| ChangeTracking.GrownSpanBrackets | crates/bemtvi-core/src/buffer.rs:1013-1062 | The grown change span brackets all that changed since the last drain: the text before and after it is that of the drained text. |
| ChangeTracking.NormalizeKeepsBracket | crates/bemtvi-core/src/buffer.rs:1074-1107 | Supplying the missing final line break keeps the span a bracket if and only if the drained text ended in one. |
| ChangeTracking.NormalizeKeepsSupplied | crates/bemtvi-core/src/buffer.rs:1074-1107 | It always keeps the span a bracket of what changed since the drained text, or since that text with its own missing line break supplied. |
| ChangeTracking.GrownSpanBracketsSupplied | crates/bemtvi-core/src/buffer.rs:1013-1062 | So does every edit, which never spoils a span that brackets exactly. |
| ChangeTracking.NormalizeMovesOnlyTheEnd | crates/bemtvi-core/src/buffer.rs:1074-1107 | The supplied line break moves a position if and only if it stands at the very end. |
| ChangeTracking.DotIsRestored | crates/bemtvi-core/src/buffer.rs:1074-1107 | Putting the last-change mark back undoes what recording the line break did to it. |
| ChangeTracking.OnlyDotIsPutBack | crates/bemtvi-core/src/buffer.rs:1074-1107 | It puts back nothing else. |
| Buffer.EditKeepsStep | crates/bemtvi-core/src/buffer.rs:1013-1062 | Any edit, in any state: marks and change list stay points of the text, every consumer can catch up from its own copy over the journal it has not drained, and the span stays the bracket it was. |
| Buffer.BreakKeepsStep | crates/bemtvi-core/src/buffer.rs:1074-1107 | Supplying the final line break keeps all that; an exact span stays exact if and only if the drained text was terminated. |
| Buffer.DrainKeepsStep | crates/bemtvi-core/src/buffer.rs:954-959 | Draining a journal brings the copy of its consumer to the text and leaves every other consumer able to catch up. |
| Buffer.EditIsRecorded | crates/bemtvi-core/src/buffer.rs:1013-1062 | An edit is one tick and a modification, the last entry of all six journals, and the last change. |
| Buffer.BreakIsRecorded | crates/bemtvi-core/src/buffer.rs:1074-1107 | So is the final line break supplied, but the last change, the change list and its index are as before. |
| Buffer.ResyncIsRecorded | crates/bemtvi-core/src/buffer.rs:916-950 | After a replacement of the whole text everybody is told to start over, and no edit, position or span is left. |
| Buffer.DrainEmpties | crates/bemtvi-core/src/buffer.rs:954-959 | A drained journal is empty and does not ask to start over; nothing else changes. |
| Buffer.Buffer.Insert | crates/bemtvi-core/src/buffer.rs:828-845 | The text is spliced, marks, change list, its index, span and extmarks are those the edit defines, one edit is appended to all six journals, and all consumers can still catch up; inserting nothing changes nothing. |
| Buffer.Buffer.Remove | crates/bemtvi-core/src/buffer.rs:855-872 | The same for a removal; an empty range does nothing. |
| Buffer.Buffer.ReplaceRange | crates/bemtvi-core/src/buffer.rs:883-910 | The same for a replacement as one edit. |
| Buffer.Buffer.Record | crates/bemtvi-core/src/buffer.rs:1013-1062 | One edit updates marks, change list, change span, extmarks, tick and all six journals together, and each consumer copy with its journal replayed is the new text. |
| Buffer.Buffer.Normalize | crates/bemtvi-core/src/buffer.rs:1074-1107 | The text ends terminated, the line break is in all six journals and moves marks and extmarks, and the change list and the last-change mark are put back; an exact span stays exact if and only if the old text or the drained text was terminated. |
| Buffer.SpanLosesLineBreak | crates/bemtvi-core/src/buffer.rs:1074-1107 | A concrete buffer whose span misses the line break just supplied. |
| Buffer.Buffer.MarkResync | crates/bemtvi-core/src/buffer.rs:916-950 | Every consumer is told to start over, every journal and position is dropped, and the text is untouched. |
| Buffer.Buffer.TakeEdits | crates/bemtvi-core/src/buffer.rs:954-959 | The batch brings the consumer copy to the current text or says to start over; the other four consumers are unaffected. |
| Buffer.Buffer.TakeLspEdits | crates/bemtvi-core/src/buffer.rs:964-969 | The same for the language-server journal. |
| Buffer.Buffer.TakeLuaTsEdits | crates/bemtvi-core/src/buffer.rs:976-981 | The same for the Lua tree-sitter journal. |
| Buffer.Buffer.TakeMirrorEdits | crates/bemtvi-core/src/buffer.rs:987-992 | The same for the mirror journal. |
| Buffer.Buffer.TakeFoldEdits | crates/bemtvi-core/src/buffer.rs:998-1003 | The same for the fold journal. |
| Buffer.Buffer.TakeJumpEdits | crates/bemtvi-core/src/buffer.rs:1009-1011 | The jump journal is handed over and emptied. |
| Buffer.Buffer.TakeChangeSpan | crates/bemtvi-core/src/buffer.rs:1111-1113 | The span drained brackets everything that changed since the drain before, perhaps but for the line break that text lacked; afterwards the span is exact again. |
| LineEndings.DetectFileformat | crates/bemtvi-core/src/buffer.rs:1358-1376 | The byte loop finds the convention of the first line break, LF, CR LF or CR; a text without one is Unix. |
| LineEndings.Load | crates/bemtvi-core/src/buffer.rs:455-495 | The loaded rope ends in LF, the first line break of the file decides its convention, and the end-of-line flag says whether the file ended in a line break. |
| LineEndings.MacRoundTrip | crates/bemtvi-core/src/buffer.rs:1380-1387 | CR to LF and back is the identity if and only if the text has no LF. |
| LineEndings.DosRoundTrip | crates/bemtvi-core/src/buffer.rs:1380-1387 | CR LF to LF and back is the identity if and only if every LF follows a CR, and never shortens the text. |
| LineEndings.LoadThenSave | crates/bemtvi-core/src/buffer.rs:1246-1256 | Saving a loaded file gives the file, with at most the terminator asked for on a non-empty unterminated one, if and only if the file keeps to the convention of its first line break. |
| LineEndings.EmptyStaysEmpty | crates/bemtvi-core/src/buffer.rs:1229-1235 | An empty file is saved empty whatever the options. |
| LineEndings.WrittenFlagIsTrue | crates/bemtvi-core/src/buffer.rs:1150-1152 | For a file that keeps to its convention, the flag after a write says whether the bytes written end in a line break. |
| DiskRead.ReadConsistent | crates/bemtvi-core/src/buffer.rs:326-345 | The load settles at the first of three attempts whose stats before and after agree, or at the third, with the stat taken before it; an I/O error ends it. |
| DiskRead.SameStatSameFile | crates/bemtvi-core/src/buffer.rs:326-345 | Between two sightings of one stat the file did not change. |
| DiskRead.UnchangedMeansLoaded | crates/bemtvi-core/src/buffer.rs:1329-1340 | Against any writer, when the baseline later reads as unchanged the loaded bytes are those of the file if and only if the baseline is that of an existing file or nothing was loaded. |
| DiskRead.ExhaustedReadsAsChanged | crates/bemtvi-core/src/buffer.rs:326-345 | A load that ran out of attempts with an existing-file baseline never reads as unchanged. |
| DiskRead.ClassifyMeans | crates/bemtvi-core/src/buffer.rs:1329-1340 | A check tells apart a file unchanged, one that is gone, and one that is another than the one loaded or was not there to load. |
| DiskRead.ExhaustedWithoutBaseline | crates/bemtvi-core/src/buffer.rs:326-345 | Without such a baseline it can: a concrete history. |
| Columns.ColumnOf | crates/bemtvi-core/src/unicode.rs:209-223 | The column of a byte is the sum of the cells before its grapheme, also through the ASCII fast path. |
| Columns.PrintableHead | crates/bemtvi-core/src/unicode.rs:209-223 | Over printable ASCII through the byte itself, grapheme, byte and column numbers coincide. |
| Columns.FloorBetweenAscii | crates/bemtvi-core/src/unicode.rs:55-80 | Between two ASCII bytes other than CR LF a grapheme starts, so the fast path of the floor is right. |
| Columns.FloorGrapheme | crates/bemtvi-core/src/unicode.rs:55-80 | The floor is the start of the grapheme the byte falls in, the end past the line. |
| Columns.LineVirtcol.At | crates/bemtvi-core/src/unicode.rs:595-617 | Whatever was asked before, forward or backward, the walking mapper answers the direct sum. |
| Columns.SimpleAt | crates/bemtvi-core/src/unicode.rs:595-617 | On a line of printable ASCII the clamped byte is that sum. |
| Columns.Columns | crates/bemtvi-core/src/unicode.rs:595-617 | A whole run of queries on one mapper gives the direct sum for each. |
| Columns.ByteAtVirtcol | crates/bemtvi-core/src/unicode.rs:623-638 | The byte returned is the start of the first grapheme whose cells cover the column, or of a zero-width one standing on it. |
| Columns.CoverIsUnderTarget | crates/bemtvi-core/src/unicode.rs:623-638 | That grapheme starts at or before the column, and the line end is returned exactly when no grapheme reaches past the column and the last one is not a zero-width one standing on it. |
| Columns.VirtcolInverted | crates/bemtvi-core/src/unicode.rs:623-638 | Column and back returns a grapheme boundary if and only if it is the line start or the grapheme before it takes cells. |
| Columns.ColumnOfCover | crates/bemtvi-core/src/unicode.rs:623-638 | Byte and back gives the start column of the covering grapheme, never past the column asked for. |
| Utf16.ByteToUtf16 | crates/bemtvi-core/src/unicode.rs:972-981 | The units are those before the first character that starts at or past the byte. |
| Utf16.Utf16ToByte | crates/bemtvi-core/src/unicode.rs:988-997 | The byte is the start of the first character at or past the unit. |
| Utf16.UnitsInverted | crates/bemtvi-core/src/unicode.rs:988-997 | To units and back is the identity if and only if the byte is a character boundary. |
| Utf16.BytesInverted | crates/bemtvi-core/src/unicode.rs:972-981 | To bytes and back is the identity if and only if the unit count splits no surrogate pair. |
| Utf16.InsideCountsTheCharacter | crates/bemtvi-core/src/unicode.rs:972-981 | A byte inside a character counts that character too. |
| Utf16.PairsTakeFourBytes | crates/bemtvi-core/src/unicode.rs:972-981 | The one to four bytes of a character carry 7, 11, 16 and 21 bits, and it takes two units exactly when it takes four bytes. |
| Utf16.UnitsAsDocumented | crates/bemtvi-core/src/unicode.rs:972-981 | The units counted are the documented ones, those of the whole characters that end at or before the byte, if and only if the byte is a character boundary or past the end. |
| Utf16.InsideLetter | crates/bemtvi-core/src/unicode.rs:972-981 | A concrete letter and byte where they are not. |
| Wrap.Walk | crates/bemtvi-core/src/unicode.rs:383-496 | The greedy walk partitions the line; each row ends at the last word begun since the row before overflowed, or else at the first grapheme that, with the splices the row is charged for, has no room; the trailing splices get a row of their own exactly when they have none. |
| Wrap.WrapSegmentsIndented | crates/bemtvi-core/src/unicode.rs:383-496 | Every call gives such a layout with the indent clamped to leave a cell, or one segment when the width is 0. In its own parameters: without linebreak the first row with its splices takes at most the width and every later one at most the width less the clamped indent, or is a single grapheme, and ends only where the next grapheme with its splices has no room; without splices every row, with linebreak too, ends at a word begun since the last overflow or at its own. |
| Wrap.RowsJoin | crates/bemtvi-core/src/unicode.rs:383-496 | The segments cover the line in order without gap, each starts at the column of its start byte, and only the last can be empty. |
| Wrap.EveryRowFits | crates/bemtvi-core/src/unicode.rs:383-496 | Without linebreak every row with the splices placed on it fits its width, or is a single grapheme. |
| Wrap.LaidIsGreedy | crates/bemtvi-core/src/unicode.rs:383-496 | The layout without linebreak read off the line, the width, the indent and the splices: which cells each row may take and why it ends. |
| Wrap.LaidIsEnding | crates/bemtvi-core/src/unicode.rs:383-496 | The layout without splices read off the line, the width and the indent: each row ends at a word or at the grapheme that has no room. |
| Wrap.LinebreakRowFits | crates/bemtvi-core/src/unicode.rs:383-496 | With linebreak a row charged for at least the splices on it fails to fit if and only if the part of a word moved down into it, with the grapheme that overflowed the row before and their splices, is too wide for it. |
| Wrap.AnchoredIsCharged | crates/bemtvi-core/src/unicode.rs:383-496 | Every row is charged for the splices on it when the anchors come in order, each where a grapheme starts or past the text. |
| Wrap.TightRowOverflows | crates/bemtvi-core/src/unicode.rs:383-496 | A concrete line and indent where it is. |
| Wrap.GreedyStaysAhead | crates/bemtvi-core/src/unicode.rs:383-496 | Without linebreak, and when no splice is charged to two rows, the walk is row for row never behind any other rows that fit with their splices. |
| Wrap.FewestRows | crates/bemtvi-core/src/unicode.rs:383-496 | So no other rows that fit with their splices are fewer, the row for trailing splices counted. |
| Wrap.TakenIsChargedOnce | crates/bemtvi-core/src/unicode.rs:383-496 | No splice is charged to two rows when every grapheme takes cells. |
| Wrap.ChargedExactly | crates/bemtvi-core/src/unicode.rs:383-496 | Without linebreak a row is charged for exactly the splices on it if and only if no splice with a width placed before it is anchored at its first column or later. |
| Wrap.DoubledSplice | crates/bemtvi-core/src/unicode.rs:383-496 | A concrete line whose one splice takes room on two rows, so that it needs three rows where two would do. |
| Wrap.PlacedMeans | crates/bemtvi-core/src/unicode.rs:383-496 | Splices ascending by anchor are placed with the first grapheme that starts at or past their anchor. |
| Wrap.SplitRowHadBlank | crates/bemtvi-core/src/unicode.rs:383-496 | With linebreak, a row broken at its overflow held an earlier word followed by a blank if and only if a word at or past the overflow that ended the row before follows a blank in it, with no other word begun since that overflow. |
| Wrap.BlankBeforeSplitWord | crates/bemtvi-core/src/unicode.rs:383-496 | That does happen: every layout of a concrete line splits a word after a blank in its second row, though the word fits a row. |
| Wrap.WindowWrapSegments | crates/bemtvi-core/src/unicode.rs:504-536 | A window shows these rows for its width and continuation indent, and adds one empty row exactly when an end-of-line glyph is asked for and the last row with its splices has no cell left. |
| Wrap.TwoRowsWithoutText | crates/bemtvi-core/src/unicode.rs:504-536 | It then shows two rows without text if and only if the line is empty or its trailing splices do not fit what is left of the last row of text. |
| Wrap.NarrowRows | crates/bemtvi-core/src/unicode.rs:504-536 | A concrete window that shows two such rows after its one letter. |
| Scroll.ScrollRow | crates/bemtvi-core/src/unicode.rs:133-159 | Text column, hidden splice widths and skipped cells add up to the scroll offset; the hidden splices are those wholly left of it, and the skipped cells belong to the one it falls inside. |
| Scroll.ScrollUnique | crates/bemtvi-core/src/unicode.rs:133-159 | No other answer does. |
| Scroll.ScrollWithinColumn | crates/bemtvi-core/src/unicode.rs:109-115 | The offset lies between where the first visible text column starts and where its cells paint. |
| Scroll.ScrollInvertsPainted | crates/bemtvi-core/src/unicode.rs:98-104 | Scrolling to where a column starts, or paints, leaves exactly that column first with nothing skipped. |
| Scroll.PaintedColHidesItsSplices | crates/bemtvi-core/src/unicode.rs:98-104 | With positive widths, scrolling to where a column paints hides exactly the splices anchored up to it. |
| Snippet.ParseInt | crates/bemtvi-core/src/snippet.rs:383-392 | The digit run is read with saturation at the 32-bit limit. |
| Snippet.ReadIdent | crates/bemtvi-core/src/snippet.rs:396-402 | The name is the longest run of identifier characters: all of it are, and the character after it, if any, is not. |
| Snippet.ParseNodes | crates/bemtvi-core/src/snippet.rs:131-171 | The loop computes the grammar of a run of nodes. |
| Snippet.ParseDollar | crates/bemtvi-core/src/snippet.rs:174-196 | The same for what follows a dollar sign, a bare number included. |
| Snippet.ParseBraced | crates/bemtvi-core/src/snippet.rs:199-243 | The same for a braced stop, with each rejected form its own error. |
| Snippet.ParseChoices | crates/bemtvi-core/src/snippet.rs:246-290 | The same for the alternatives of a choice. |
| Snippet.ParseSnippet | crates/bemtvi-core/src/snippet.rs:88-127 | A body is accepted only if all of it is consumed, with the nodes of the grammar. |
| Snippet.PrintThenParse | crates/bemtvi-core/src/snippet.rs:88-290 | Parsing inverts the canonical printer on every normal-form node tree of any nesting. |
| Snippet.ParseThenPrint | crates/bemtvi-core/src/snippet.rs:88-290 | Every tree the parser yields is a normal form, so printing and parsing it again changes nothing. |
| SnippetGrammar.ParsesIffSpelled | crates/bemtvi-core/src/snippet.rs:88-290 | A body is accepted with some nodes if and only if they are a normal form and the body spells them: as bare numbers or in braces, with or without a body or alternatives, with escapes where one likes. |
| SnippetGrammar.NumberReads | crates/bemtvi-core/src/snippet.rs:383-392 | A digit run spells one number, the one it is read as. |
| SnippetGrammar.RunReads | crates/bemtvi-core/src/snippet.rs:131-171 | Whatever spells a run of nodes is read as just these, to its end. |
| SnippetGrammar.RunSpells | crates/bemtvi-core/src/snippet.rs:131-171 | And whatever is read as a run of nodes spells them. |
| Snippet.ReadEscaped | crates/bemtvi-core/src/snippet.rs:131-171 | Escaped literal text is read back as the text, whatever surrounds it. |
| Snippet.ReadChoices | crates/bemtvi-core/src/snippet.rs:246-290 | Printed alternatives are read back as they were. |
| Snippet.ReadDecimal | crates/bemtvi-core/src/snippet.rs:383-392 | A printed number within 32 bits is read back without saturation. |
| Snippet.TopLevelRunsToTheEnd | crates/bemtvi-core/src/snippet.rs:88-127 | A top-level run ends only at the end of the source, so an unescaped brace there is text. |
| Snippet.RunNeverUnexpectedClose | crates/bemtvi-core/src/snippet.rs:131-171 | No run of nodes, at any depth, fails with the error documented for an unmatched brace. |
| Snippet.ParseNeverUnexpectedClose | crates/bemtvi-core/src/snippet.rs:88-127 | So no body at all is refused with that error. |
| SnippetLayout.ResolveDefaults | crates/bemtvi-core/src/snippet.rs:304-322 | The walk computes the defaults, the first content of each stop winning. |
| SnippetLayout.RenderDefault | crates/bemtvi-core/src/snippet.rs:325-344 | The walk appends the rendering of the nodes. |
| SnippetLayout.Layout.LayOut | crates/bemtvi-core/src/snippet.rs:349-380 | The methods that mutate text, byte spans and choices compute the fold of the layout steps. |
| SnippetLayout.LayoutAppends | crates/bemtvi-core/src/snippet.rs:349-380 | That fold appends the rendering, records the places of the stops and keeps the choices of each stop seen first. |
| SnippetLayout.PlacesLaminar | crates/bemtvi-core/src/snippet.rs:349-380 | All places lie inside the text laid out and are nested exactly as the stops are in the tree, disjoint otherwise. |
| SnippetLayout.PlacesRead | crates/bemtvi-core/src/snippet.rs:349-380 | Every place starts and ends at characters, and the text between its byte offsets is what its stop renders: its first choice, its body, or, for a bare stop, its default. |
| SnippetLayout.SnippetMeans | crates/bemtvi-core/src/snippet.rs:88-127 | All of that for a whole snippet. |
| SnippetLayout.RecordAllMeans | crates/bemtvi-core/src/snippet.rs:349-380 | The spans recorded for a number are those of its places, in order. |
| SnippetLayout.RenderGrows | crates/bemtvi-core/src/snippet.rs:325-344 | Knowing more defaults never shortens a text, and leaves it as it is if and only if every stop it newly shows has an empty default. |
| SnippetLayout.DefaultOf | crates/bemtvi-core/src/snippet.rs:304-322 | The default of a stop is its first content, rendered under the defaults of exactly the stops given content before it. |
| SnippetLayout.PlacesOf | crates/bemtvi-core/src/snippet.rs:349-380 | The places of a stop are its bare ones and, once each, all nodes that give it content. |
| SnippetLayout.MirrorsInSync | crates/bemtvi-core/src/snippet.rs:302-380 | For every parsed body and every stop: all its places read the same if and only if it has no content, or all its contents render as the first does and, if it has a bare place, that first content is a choice or its body shows no stop that gets a non-empty default only from it or later. |
| SnippetLayout.FirstIsContent | crates/bemtvi-core/src/snippet.rs:304-322 | A stop has a first content, one of those that give it content, if and only if any does. |
| SnippetLayout.ForwardOutOfSync | crates/bemtvi-core/src/snippet.rs:302-380 | A concrete body that parses, with such a forward reference, whose places of one stop differ. |
| SnippetLayout.TwiceOutOfSync | crates/bemtvi-core/src/snippet.rs:302-380 | A concrete body that gives one stop two contents, without any mirror, whose places differ. |
| SnippetLayout.SortByOrders | crates/bemtvi-core/src/snippet.rs:108-124 | The stable sorts keep their elements and order them by key, then by rank. |
| SnippetLayout.CollectStops | crates/bemtvi-core/src/snippet.rs:108-121 | One stop per number, ascending, with its spans by start and its choices. |
| SnippetLayout.FinalStopLast | crates/bemtvi-core/src/snippet.rs:122-124 | Stop 0 comes last if and only if no stop has the largest 32-bit number. |
| SnippetLayout.FinalStopNotLast | crates/bemtvi-core/src/snippet.rs:122-124 | A concrete body that parses and whose last stop is not stop 0. |
| SnippetLayout.Expand | crates/bemtvi-core/src/snippet.rs:88-127 | A body gives its parse error or the text and stops of its layout in tab order. |
| StatusExpand.Expansion.ExpandInto | crates/bemtvi-core/src/statusline.rs:535-586 | The recursive walk terminates for every callback and every parser of formats, and computes the fold of its steps. |
| StatusExpand.Expand | crates/bemtvi-core/src/statusline.rs:510-520 | The same for a whole line. |
| StatusExpand.AfterContinues | crates/bemtvi-core/src/statusline.rs:535-586 | Whatever the callback returns, an expansion only appends, keeps its pieces tidy, makes at most 512 calls in all and none from a format nested deeper than 16. |
| StatusExpand.PushTextSays | crates/bemtvi-core/src/statusline.rs:591-609 | Pushing text appends it character by character whether or not it joins the piece before, and keeps neighbours of one group joined. |
| StatusExpand.FlatFormatSays | crates/bemtvi-core/src/statusline.rs:535-586 | A format of plain expressions within the budget evaluates each once in order and says exactly its texts, fields, markers and results under the group in force. |
| StatusExpand.FormatSays | crates/bemtvi-core/src/statusline.rs:535-586 | Any format, nested to any depth and over any budget, appends what it says and the calls it makes, which depend only on the group in force and the number of calls made before, and on nothing written before it. |
| StatusLayout.Flatten | crates/bemtvi-core/src/statusline.rs:814-856 | The loop computes the fold over the pieces. |
| StatusLayout.FlattenToWellFormed | crates/bemtvi-core/src/statusline.rs:814-856 | Marker positions rise and lie within the cells, and every cell region exists. |
| StatusLayout.FlattenToMeans | crates/bemtvi-core/src/statusline.rs:814-856 | The cells are the glyphs of the pieces in order, and there is a fill point exactly where the format has one. |
| StatusLayout.CellAction | crates/bemtvi-core/src/statusline.rs:814-856 | Every cell is a glyph of one piece and carries the action of the last region opened before that piece, or none if every region before it was closed. |
| StatusLayout.AlignsStand | crates/bemtvi-core/src/statusline.rs:814-856 | There is a fill point for every alignment piece, after the glyphs before it, and no other. |
| StatusLayout.TruncateStandsFirst | crates/bemtvi-core/src/statusline.rs:814-856 | The truncation mark stands where the first such piece does, if there is one. |
| StatusLayout.MarkerStandsFirst | crates/bemtvi-core/src/statusline.rs:814-856 | The first marker is where the first piece of either kind stands. |
| StatusLayout.TruncateCells | crates/bemtvi-core/src/statusline.rs:862-934 | An overlong line keeps its longest front that leaves a cell for the marker, or the front before the cut and the longest tail that fits. |
| StatusLayout.TruncatedFits | crates/bemtvi-core/src/statusline.rs:862-934 | Either way the line with its marker fits the width. |
| StatusLayout.CutStands | crates/bemtvi-core/src/statusline.rs:862-934 | The line is cut where its first truncation mark stands, else at its first alignment, else at its start. |
| StatusLayout.DistributeFill | crates/bemtvi-core/src/statusline.rs:940-993 | The loops compute the cells with the share of every marker before its position. |
| StatusLayout.SharesAreSlack | crates/bemtvi-core/src/statusline.rs:940-993 | The shares come to the slack. |
| StatusLayout.SharesAreEven | crates/bemtvi-core/src/statusline.rs:940-993 | They are equal but for the last, which takes the remainder. |
| StatusLayout.FillWidth | crates/bemtvi-core/src/statusline.rs:940-993 | The filled line is wider by exactly the shares. |
| StatusLayout.FillKeepsCells | crates/bemtvi-core/src/statusline.rs:940-993 | Every cell stands after the fill of exactly the markers at or before it. |
| StatusLayout.FillIsBlank | crates/bemtvi-core/src/statusline.rs:940-993 | The fill of a marker is blanks of the group of the cell before it, in no click region. |
| StatusLayout.ResolveChars | crates/bemtvi-core/src/statusline.rs:719-736 | For a positive width the line is never wider, and exactly as wide when it has a fill point and fits; the cells are those of the flat line truncated, filled, or untouched. |
| StatusLayout.CellLands | crates/bemtvi-core/src/statusline.rs:940-993 | In a line with room and a fill point every cell of the pieces stands after the fill of exactly the markers at or before it. |
| StatusLayout.CollectClicks | crates/bemtvi-core/src/statusline.rs:743-782 | The regions are the maximal runs of cells of one region, in order, none left out. |
| StatusLayout.RegionAtColumn | crates/bemtvi-core/src/statusline.rs:743-782 | A region over a column has the action of the cell at that column. |
| StatusLayout.CellHasRegion | crates/bemtvi-core/src/statusline.rs:743-782 | Every column of a clickable cell is under a region. |
| StatusLayout.RegionsDisjoint | crates/bemtvi-core/src/statusline.rs:743-782 | Regions come in order, do not overlap and lie within the line. |
| StatusLayout.Coalesce | crates/bemtvi-core/src/statusline.rs:997-1013 | The segments paint the cells in order, none is empty, and neighbours differ in group. |
| StatusLayout.LayoutWithClicks | crates/bemtvi-core/src/statusline.rs:704-713 | The segments paint the cells of the pieces truncated or filled to the width, never wider, exactly as wide with a fill point and room, and the click regions are those of these cells. |
| Keys.KeyToNotation | crates/bemtvi-core/src/input.rs:429-517 | The pushes produce the notation of the key. |
| Keys.ParseSpecial | crates/bemtvi-core/src/input.rs:557-654 | The modifier loop and the tables compute the key a bracketed form stands for. |
| Keys.ParseKeys | crates/bemtvi-core/src/input.rs:303-339 | The loop computes the keys of the text, with or without the alias fold. |
| Keys.StemMeans | crates/bemtvi-core/src/input.rs:526-654 | Every printed name is read as its own key, but for the case of a modified letter and the button and count of a mouse key. |
| Keys.StripPrinted | crates/bemtvi-core/src/input.rs:557-654 | The printed modifier prefixes are peeled off again, one flag each. |
| Keys.HeadOfNotation | crates/bemtvi-core/src/input.rs:303-339 | The first key read from the notation of a key, whatever follows it. |
| Keys.PrintThenParse | crates/bemtvi-core/src/input.rs:299-301 | Reading the notations of any list of canonical keys gives the list, with aliases folded when that is asked. |
| Keys.SurvivesIffCanonical | crates/bemtvi-core/src/input.rs:429-517 | A key survives the raw round trip if and only if it is canonical. |
| Keys.FoldLoses | crates/bemtvi-core/src/input.rs:698-710 | In any text, the fold gives another key than raw reading if and only if that is Ctrl without Alt and Shift on i, m, [ or h, and loses a modifier other than Ctrl if and only if that chord has the command modifier too. |
| Keys.FoldDropsCommand | crates/bemtvi-core/src/input.rs:698-710 | A concrete key that survives without the fold and loses its command modifier with it. |
| KeySpellings.SpelledKeyReads | crates/bemtvi-core/src/input.rs:557-654 | A name in brackets after any modifiers, in any order, number and case, is the key of the name with just these modifiers, alt for both of its letters; a bracket around no name is text. |
| KeySpellings.NameAnyCase | crates/bemtvi-core/src/input.rs:557-654 | A name means the same in any case. |
| KeySpellings.EnterNames | crates/bemtvi-core/src/input.rs:557-654 | The three names of the Enter key. |
| KeySpellings.DeleteNames | crates/bemtvi-core/src/input.rs:557-654 | The two names of the Delete key. |
| KeySpellings.BackspaceNames | crates/bemtvi-core/src/input.rs:557-654 | The two names of the Backspace key. |
| KeySpellings.CharacterNames | crates/bemtvi-core/src/input.rs:557-654 | The names of the characters that mean something in a notation or cannot be typed. |
| KeySpellings.CountedMouseReads | crates/bemtvi-core/src/input.rs:526-552 | A counted press keeps its count up to four, a counted drag or release is single, and no other count is read. |
| KeySpellings.FourAliases | crates/bemtvi-core/src/input.rs:698-710 | Ctrl with i, m, bracket and h are read as Tab, Enter, Esc and Backspace where aliases are folded. |
| KeySpellings.ControlByteIsFoldedChord | crates/bemtvi-core/src/input.rs:348-362 | Every raw control byte is the key its chord folds to, so the two tables agree. |
| KeySpellings.OpenBracketIsText | crates/bemtvi-core/src/input.rs:303-339 | A bracket that is never closed is text. |
| Decimals.DecimalValue | crates/bemtvi-core/src/input.rs:526-552 | A printed number reads as itself. |
| RstInline.Inline | crates/bemtvi-core/src/rst.rs:876-927 | The scanner with its loop computes the pieces of the text. |
| RstInline.FindClose | crates/bemtvi-core/src/rst.rs:845-871 | The search loop computes where a span is closed. |
| RstInline.SpanAt | crates/bemtvi-core/src/rst.rs:876-927 | Trying the longer markers first computes the span that opens at a place. |
| RstInline.MarkupReads | crates/bemtvi-core/src/rst.rs:876-927 | Markup written by the rules is read as such wherever it stands, between the run before it and the text after it, with the bars of a reference. |
| RstInline.MarkersMean | crates/bemtvi-core/src/rst.rs:876-927 | Double backquotes give raw text, two stars strong text, one star italic text, and backquotes raw text or, with a bar after them, a reference. |
| RstInline.TargetReads | crates/bemtvi-core/src/rst.rs:933-947 | A reference with a target in angle brackets gives its trimmed label and the target. |
| RstInline.LabelReads | crates/bemtvi-core/src/rst.rs:933-947 | One without gives all it encloses as its label. |
| RstInline.EscapedReads | crates/bemtvi-core/src/rst.rs:876-927 | Text with its special characters escaped is read as it was, whatever markup it holds and wherever it stands. |
| RstInline.NothingOpens | crates/bemtvi-core/src/rst.rs:830-834 | Inside a word nothing opens. |
| RstInline.CloseEndsWord | crates/bemtvi-core/src/rst.rs:845-871 | What closes a span is past its start, follows text that is neither white space nor a backslash, and ends a word. |
| RstInline.SpanLetters | crates/bemtvi-core/src/rst.rs:876-927 | A span, interpreted text and references with a target included, writes all its letters; its markers have none. |
| RstInline.FlushedLetters | crates/bemtvi-core/src/rst.rs:955-964 | A plain run is written but for the letters of a trailing role. |
| RstInline.InlineLetters | crates/bemtvi-core/src/rst.rs:876-927 | For every text: the letters written, those of roles before interpreted text and those of other runs that end like a role are all its letters; they are all written, in order, if and only if the latter two are none. |
| RstInline.PlainTextLoses | crates/bemtvi-core/src/rst.rs:969-985 | A text without markers and escapes loses exactly the letters of the role it ends like, though no interpreted text follows. |
| RstInline.RoleReads | crates/bemtvi-core/src/rst.rs:969-985 | Any role as it is written at the end of a plain run is dropped, and just it. |
| RstInline.RoleEatsText | crates/bemtvi-core/src/rst.rs:969-985 | A concrete sentence that loses its last word. |
| RstFields.EmitFields | crates/bemtvi-core/src/rst.rs:523-579 | The loops fold the types and write the rows as specified. |
| RstFields.LookFinds | crates/bemtvi-core/src/rst.rs:523-579 | Looking a key up in the list of types collected finds the first type field with it. |
| RstFields.ParamWithType | crates/bemtvi-core/src/rst.rs:523-579 | A described argument and its type, in either order, are one row, named by the argument with the type in parentheses. |
| RstFields.ReturnsWithType | crates/bemtvi-core/src/rst.rs:523-579 | So are what is returned and its type, under its own name. |
| RstFields.UnknownKeepsName | crates/bemtvi-core/src/rst.rs:523-579 | A field of an unknown role keeps its whole name. |
| RstFields.BodiesAlign | crates/bemtvi-core/src/rst.rs:523-579 | Bodies start in one column, past the widest name, unless their own name is longer than 24. |
| RstFields.TypeShownIff | crates/bemtvi-core/src/rst.rs:523-579 | A type is shown in some row if and only if it has a text, no type before it has its key and some row has it. |
| RstFields.NothingWritten | crates/bemtvi-core/src/rst.rs:523-579 | A field list is shown as no row at all if and only if all its fields are types. |
| RstFields.LoneTypeIsLost | crates/bemtvi-core/src/rst.rs:523-579 | A concrete field list that is shown as nothing. |
| RstFields.RowLetters | crates/bemtvi-core/src/rst.rs:523-579 | A row shows the letters of its name, with the type folded in, and of its body but for those inline markup drops. |
| RstFields.UnfoldedLetters | crates/bemtvi-core/src/rst.rs:523-579 | Fields that fold nothing show all their letters, in order, if and only if inline markup drops none of a body. |
| RstFields.RoleCaseMatters | crates/bemtvi-core/src/rst.rs:584-589 | A role is known as its lowercase form is, as documented, if and only if it is in lower case or that form is not known. |
| RstFields.CapitalRole | crates/bemtvi-core/src/rst.rs:584-589 | A concrete role in another case that is not known, so that its word is shown. |
| RstLines.ListMarker | crates/bemtvi-core/src/rst.rs:628-645 | The text of a list item starts past its indent and within its line. |
| RstLines.EnumeratorMarker | crates/bemtvi-core/src/rst.rs:662-685 | A marker is not empty and the text after it starts within the line. |
| RstForms.BulletReads | crates/bemtvi-core/src/rst.rs:628-645 | Each bullet with a space after it, or alone, starts an item; without a space it does not. |
| RstForms.NumberReads | crates/bemtvi-core/src/rst.rs:662-685 | A number with a point or parenthesis after it, perhaps one before it, is a marker of that number, or of one where it does not fit 64 bits. |
| RstForms.NumberedItem | crates/bemtvi-core/src/rst.rs:649-657 | So its line is an item of that number, whose text follows the marker. |
| RstForms.AutoNumberReads | crates/bemtvi-core/src/rst.rs:662-685 | The automatic marker counts from one. |
| RstForms.BarReads | crates/bemtvi-core/src/rst.rs:688-694 | A bar alone or before a space starts a line whose break is kept, and before anything else does not. |
| RstLines.IndentedRun | crates/bemtvi-core/src/rst.rs:740-755 | The run ends after its last line indented past the base; what follows up to the line that stops it is blank. |
| RstLines.LeastIndentMeans | crates/bemtvi-core/src/rst.rs:725-732 | The base indent is the indent of some text line and of none more. |
| RstLines.DedentSucceeds | crates/bemtvi-core/src/rst.rs:766-774 | A dedent succeeds if and only if on every line the cut, in bytes, is where a character starts. |
| RstLines.PlainDedents | crates/bemtvi-core/src/rst.rs:766-774 | It always does when leading white space is one byte a character, and the lines stay so. |
| RstLines.DedentShrinks | crates/bemtvi-core/src/rst.rs:766-774 | Dedenting never adds characters, and takes some when a line is indented. |
| RstLines.DedentKeepsText | crates/bemtvi-core/src/rst.rs:766-774 | A dedent that succeeds takes white space only and lowers an indent by the bytes asked, at most to zero. |
| RstLines.DedentedStandsAtMargin | crates/bemtvi-core/src/rst.rs:759-764 | A dedented block stands at the margin with its lines indented against each other as before. |
| Rst.QuoteIsSmaller | crates/bemtvi-core/src/rst.rs:123-179 | The lines of a quote hold fewer characters once dedented. |
| Rst.BodyIsSmaller | crates/bemtvi-core/src/rst.rs:230-438 | So do the body of a directive and a definition. |
| Rst.ItemIsSmaller | crates/bemtvi-core/src/rst.rs:323-363 | So does a list item, whose first line loses its marker. |
| Rst.LevelIsStable | crates/bemtvi-core/src/rst.rs:185-225 | An adornment that has a level keeps it in every later state. |
| Rst.OnlyUnderlinesAreMeasured | crates/bemtvi-core/src/rst.rs:185-225 | An accepted title is at most as long as every line of its adornment if and only if it is underlined only, or fits both lines. |
| Rst.LongTitleAccepted | crates/bemtvi-core/src/rst.rs:185-225 | A concrete title longer than both lines of its adornment that is accepted. |
| RstForms.AdornmentReads | crates/bemtvi-core/src/rst.rs:698-705 | Two or more of one ASCII punctuation are an adornment, one alone is not. |
| RstForms.UnderlinedReads | crates/bemtvi-core/src/rst.rs:185-225 | A title above a run of punctuation is read if and only if the run is at least as long. |
| RstForms.OverlinedReads | crates/bemtvi-core/src/rst.rs:185-225 | A title between two runs is read if and only if they are of the same character, at a level of its own. |
| RstForms.BordersRead | crates/bemtvi-core/src/rst.rs:709-722 | The borders of grid and simple tables of any size are recognized, and a run of equal signs alone is none. |
| RstForms.MarkedLinesEndParagraphs | crates/bemtvi-core/src/rst.rs:496-504 | The lines that end the paragraph before them are exactly those that show a construct by a mark. |
| RstText.DedentedRunKeepsLetters | crates/bemtvi-core/src/rst.rs:759-764 | A dedented run has the letters of its lines. |
| RstText.JoinParagraphKeepsLetters | crates/bemtvi-core/src/rst.rs:445-491 | So has a paragraph joined from its lines. |
| RstText.MarkerHasNoLetters | crates/bemtvi-core/src/rst.rs:628-645 | The marker of a list item holds no letters, and white space comes before its text. |
| RstText.FieldHeadKeepsLetters | crates/bemtvi-core/src/rst.rs:287-318 | The name and the text of a field hold the letters of its line. |
| RstText.LiteralMarkerKeepsLetters | crates/bemtvi-core/src/rst.rs:445-491 | Taking the mark of a literal block off a paragraph loses no letter. |
| RstForms.LiteralReads | crates/bemtvi-core/src/rst.rs:445-491 | Two colons after a text leave one, after white space or alone none, and introduce a literal block. |
| RstForms.JoinParagraphMeans | crates/bemtvi-core/src/rst.rs:782-789 | Lines of a paragraph are trimmed and joined by single spaces, blank ones left out. |
| RstForms.JoinLinesMeans | crates/bemtvi-core/src/rst.rs:230-280 | Lines of code are joined by line breaks. |
| Rst.ItemKeepsLetters | crates/bemtvi-core/src/rst.rs:323-363 | A dedented list item has the letters of its lines. |
| Rst.WideIndentCrashes | crates/bemtvi-core/src/rst.rs:766-774 | A concrete two-line document whose list item is cut inside a character. |
| RstTold.ToldOnce | crates/bemtvi-core/src/rst.rs:123-179 | What a document tells is one text: the rules by which its lines are cut into constructs, and each says what it hands over, leave no choice. |
| RstTold.ToldKeeps | crates/bemtvi-core/src/rst.rs:123-179 | A document without directives and comments tells all its letters, in order; one whose directives are no code tells the same but for their case, nested in lists, quotes, definitions and bodies of directives to any depth. |
| RstTold.DirectiveOverText | crates/bemtvi-core/src/rst.rs:230-280 | A directive that is no code, over a body without directives, tells the letters of its label, its argument and its body. |
| RstTold.DirectiveTells | crates/bemtvi-core/src/rst.rs:230-280 | The calls for a directive or comment hand over what it tells. |
| RstTold.DirectiveKeepsLetters | crates/bemtvi-core/src/rst.rs:612-623 | The name and argument of a directive hold the letters of its line. |
| RstTold.LabelKeepsLetters | crates/bemtvi-core/src/rst.rs:809-815 | The label of a directive has the letters of its name but for their case. |
| RstForms.LabelMeans | crates/bemtvi-core/src/rst.rs:809-815 | An admonition is labelled with its name capitalized, any other directive with its name. |
| RstTold.DirectiveReads | crates/bemtvi-core/src/rst.rs:612-623 | A directive as it is written is read as its name and its argument. |
| RstTold.CommentReads | crates/bemtvi-core/src/rst.rs:612-623 | A line without two colons is a comment, and so is one with no name, or a name of other characters, before them. |
| RstTold.FirstWordMeans | crates/bemtvi-core/src/rst.rs:230-280 | The language of a code directive is the first word of its argument, if it has one. |
| RstTold.SkipOptionsMeans | crates/bemtvi-core/src/rst.rs:230-280 | The body of a code directive starts past the option lines at its start and the blank lines after them. |
| RstParser.Parser.Block | crates/bemtvi-core/src/rst.rs:123-179 | Terminates on every input, only adds levels, and closes on the renderer all it opens unless a dedent crashes; it never does on plain white space, and does on a block that starts with an item cut inside a character. What it hands over is what the constructs of its lines say, one after the other. |
| RstParser.Parser.Construct | crates/bemtvi-core/src/rst.rs:123-179 | One construct is consumed whole, at least one line and at most all, and hands over what that construct says, or crashes in a dedent, never on plain white space. |
| RstParser.Parser.Section | crates/bemtvi-core/src/rst.rs:185-225 | A title is recognized exactly where it stands; its adornment has or gets a level, the title is written under the heading of that level, the sixth at most, and its letters are handed over. |
| RstParser.Parser.DirectiveOrComment | crates/bemtvi-core/src/rst.rs:230-280 | Recognized if and only if the line opens a directive or comment, and then ends where the indented run under it does, or crashes in a dedent, never on plain white space. A comment makes no call; a code directive hands over its body past the options, in the language its argument names; any other directive writes its label and its argument in one strong line and then hands over what its dedented body does. Otherwise it leaves no trace. |
| RstParser.Parser.Directive | crates/bemtvi-core/src/rst.rs:230-280 | The calls for a directive or comment, given its head and its dedented body. |
| RstParser.Parser.Label | crates/bemtvi-core/src/rst.rs:230-280 | The calls for the strong line of a directive. |
| RstParser.Parser.FieldList | crates/bemtvi-core/src/rst.rs:287-318 | Recognized if and only if the line is a field; it then goes as far as fields of that indent follow, at most one blank line between two, makes one call and hands over the letters of all it consumes, or crashes in a dedent, never on plain white space. |
| RstParser.Parser.List | crates/bemtvi-core/src/rst.rs:323-363 | Recognized if and only if the line has a list marker; consumes at least one line, closes what it opens and hands over what its items do, or crashes in a dedent, as it does when its first item is cut inside a character and never on plain white space. |
| RstParser.Parser.AfterItem | crates/bemtvi-core/src/rst.rs:323-363 | After an item the list goes on at the next text line, and drops the gap before it exactly if no blank line comes between. |
| RstParser.Parser.LineBlock | crates/bemtvi-core/src/rst.rs:367-381 | Consumes the lines with the bar that follow each other at one indent, if and only if the line has it, and hands over the letters of all it consumes. |
| RstParser.Parser.Doctest | crates/bemtvi-core/src/rst.rs:386-396 | Recognized if and only if the line has the prompt; it then hands over the lines up to the next blank one, dedented, as Python code, or crashes in the dedent, never on plain white space. |
| RstParser.Parser.Table | crates/bemtvi-core/src/rst.rs:401-411 | Hands over the lines up to the next blank one as they stand, if and only if the line is a border. |
| RstParser.Parser.Transition | crates/bemtvi-core/src/rst.rs:510-517 | One line is consumed and one rule drawn if and only if the line is four or more of one adornment character other than a colon; otherwise nothing happens. |
| RstParser.Parser.Definition | crates/bemtvi-core/src/rst.rs:416-435 | Recognized if and only if the line is a term, without a double colon, directly above a deeper text line; it then ends where the indented run under the term does and hands over the term and what its definition does, or crashes in a dedent. Otherwise it leaves no trace. |
| RstParser.Parser.Paragraph | crates/bemtvi-core/src/rst.rs:445-491 | Goes to the next blank line or construct, past the literal block if two colons introduce one, and hands over the letters of all it consumes, or crashes in the dedent of that block, never on plain white space. |
| RstParser.Feed | crates/bemtvi-core/src/rst.rs:41-48 | For every document all calls fit what is open, and nothing is left open unless a dedent crashes, never with plain white space and always for a document that starts with an item cut inside a character. If it does not crash it hands over exactly what the document tells: with no directive or comment all its letters, in order, and with directives that are no code the same but for their case. If no field is folded all letters handed over are shown, in order, if and only if inline markup takes none for a role. |
| RstParser.FeedWideIndent | crates/bemtvi-core/src/rst.rs:41-48 | A concrete document on which it crashes. |
| Rst.AllShownIff | crates/bemtvi-core/src/rst.rs:876-927 | Where no field is folded, the letters shown are those handed over, in order, if and only if inline markup takes none for a role; otherwise they are fewer by exactly those. |
| Rst.FieldLineReads | crates/bemtvi-core/src/rst.rs:595-608 | A field line as it is written is read as its name and what follows. |
| Rst.LoneTypeLine | crates/bemtvi-core/src/rst.rs:523-579 | A concrete field line of whose eight letters none is shown. |

## Left out

- Rope internals: text is a sequence of characters that stand for its bytes, and LF is the only line
  break; the CR LF rows of the rope library are not modelled.
- Unicode segmentation and width tables: a line is a sequence of graphemes with given bytes and
  cells, under the facts about ASCII that the code relies on; a prefix cut at a boundary has the
  graphemes of the line.
- Library calls (sorting, binary search on a slice, string replacement and search) are functions
  with the library's documented result; the sort of a window is used through its sorted listing.
- Integer width: byte offsets, serials and stamps are unbounded, except where the code saturates
  (next id, snippet numbers) or parses into a fixed width (click counts, function keys, list
  numbers).
- Aliasing inside the store: a namespace's marks and their cached run are values in two maps of the
  store, since the original owns them exclusively; the cost claims (one walk, logarithmic query) are
  not stated.
- Namespace moves count marks out and in by a walk for each step, where the original does both
  around one map operation.
- Extmark payloads: highlight groups and texts are opaque; only the virtual-line count and the
  gutter width are kept.
- Encodings and the byte-order mark: load and save start from decoded text.
- Atomic rename, permissions and the kind of an I/O error (one value here): the disk is a history of
  (bytes, stat) states with the calls of one load at given instants.
- Window decorations: `break_prefix`, `'list'` glyphs and `wrapped_row_count` are not modelled; the
  continuation indent is a number.
- Wrap.LinebreakRowFits: for a row charged for fewer splices than are on it (see
  `AnchoredIsCharged`) the layout is stated exactly, but not when the row fits.
- The snippet parser's cursor counts characters, where the original walks bytes; the spans of the
  stops are in bytes. The interactive session that uses the stops is not modelled.
- Status-line formats: the parser of formats is a parameter, and so are the texts of the fields and
  of the two warnings; the proofs hold for every choice. Declarative segments are left out.
- The expression callback is a function of the number of calls made before it and of the expression,
  which is all one run can observe.
- Key notation: input is a sequence of characters; mouse events with coordinates and terminal byte
  codes (`replace_termcodes`) are left out.
- RstParser.Feed: with folded fields the order of letters is stated up to what is handed over,
  because folding drops role words and moves types in front of the text they annotate.
- reStructuredText: the renderer is the list of calls made on it, with a text handed to inline
  markup and a field list handed over each as one call, which `Rendered` and `Written` expand; a
  reference target that the line already ends with is not left out. Tab expansion is outside the
  model.
- Plain lookups, options, highlighting and everything driven by an external parser would add only
  easy members.
