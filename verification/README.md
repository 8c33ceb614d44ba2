# Sticky-note board: note lifecycle and layout, in Dafny

This project models the core of a browser sticky-note board. Notes are records with:

- an id of the form `postit-N`, a title, content and a color;
- a creation time, a width and a height;
- an optional position, a collapsed flag and a zIndex.

The notes live in an IndexedDB object store keyed by id.

The model takes the handlers apart from the DOM and states them as pure functions over an immutable `Note` datatype and a `seq<Note>` standing for the store:

- id allocation: the least positive number not used by any stored id;
- initial grid placement of notes loaded without a position;
- append placement of a created note;
- the flow re-layout used by sort-by-creation;
- bring-to-front (the largest other zIndex plus one);
- the drag clamp and the release decision;
- the resize rule that keeps each dimension above 200;
- the 1000-character content cap and the content save;
- collapse and expand;
- the color filter and sort-by-creation restricted to it;
- loading the board;
- creating, duplicating and deleting notes;
- `formatDate` and the generated titles.

Inputs the handlers read from the page are parameters:

- container and viewport sizes and the filter-band height;
- the out-of-bounds rectangle test;
- whether a store write succeeded;
- the clock.

The modules:

- `Decimal`: digit strings.
- `Notes`: the record and the id format.
- `Store`: `put`, `delete` and lookups by key.
- `Sorting`: `Array.prototype.sort` with a numeric comparator, as a stable insertion sort.
- `IdAllocator`: id allocation and the id counter.
- `Placement`: the initial grid and append placement.
- `FlowLayout`: the sort re-layout.
- `ZOrder`: bring-to-front.
- `Interaction`: drag, resize, text and collapse.
- `ColorFilter`: the filter and sort-by-creation.
- `Lifecycle`: loading, creating, duplicating, deleting, dates and titles.

Where the board's prose description and its code disagree, the model follows the code:

- **Resize does not clamp.** A resize move that would bring a dimension to 200 or less is ignored for that dimension; the size is not clamped to 200. Dragging a 300×400 note towards 50×50 therefore changes nothing and writes nothing (`Interaction.ResizeTowardsFiftyIsIgnored`).
- **Append placement wraps by a fixed step.** When a new note does not fit to the right of the latest note, it goes to the left edge at the latest note's y plus 430 px, not below the tallest note of that row.
- **Bring-to-front can repeat a value.** It excludes the note's own zIndex, so bringing the same note to the front twice in a row gives the same value both times. zIndex only rises strictly when the target changes (`ZOrder.FrontsOrder`).
- **Loaded notes without a zIndex can sit on top.** At load, a note without a zIndex is drawn at `index + 100`, which can place it above notes that were brought to the front (`Lifecycle.LoadBoardUnrankedAbove`).
- **A failed text save is not fully compensated.** It restores the text area but not the note object; see Findings.
- **Bring-to-front writes an older copy.** After sort-by-creation, clicking a note moves its record back to where it was before the sort; see Findings.

## Model

| member | source | states |
|---|---|---|
| Notes.FormatId | src/filter.js:271 | the id of number n is `postit-` followed by `String(n)`, digits whose value is n |
| Notes.IdNumberFrom | src/filter.js:246-250 | the unanchored `/postit-(\d+)/` search yields the value of the digit run after the first offset where it matches, and 0 when no offset matches (ids that do not match count as 0) |
| Notes.FormatIdRoundTrip | src/filter.js:246-250 | parsing the id written for number n gives n back |
| Notes.FormatIdInjective | src/filter.js:271 | different numbers give different ids |
| Decimal.NatToString | src/filter.js:357 | `String(n)` is a non-empty digit string without a leading zero (for n > 0), one digit exactly when n < 10 |
| Decimal.NatToStringRoundTrip | src/filter.js:249 | `parseInt` of `String(n)` is n |
| Decimal.PadTwo | src/filter.js:357-358 | `padStart(2, '0')` leaves strings of length ≥ 2 alone and left-fills shorter ones with zeros to length 2, keeping them as a suffix |
| Decimal.PadTwoValue | src/filter.js:357-358 | padding a digit string keeps its numeric value |
| Decimal.DigitRunLength | src/filter.js:248 | the greedy `\d+` run is all digits and stops at the first non-digit |
| Store.Lookup | src/indexedDB.js:69-88 | a record is found under an id exactly when some stored record has that id, and it is that record |
| Store.PutLookup | src/indexedDB.js:104 | after `put`, the note is stored under its id and every other id reads as before |
| Store.PutLength | src/indexedDB.js:104 | `put` of an existing key keeps the size, a new key adds one record |
| Store.PutContents | src/indexedDB.js:104 | `put` introduces no record but the one written and keeps keys unique |
| Store.DeleteLookup | src/indexedDB.js:132 | after `delete`, nothing is stored under the id, other ids read as before, and keys stay unique |
| Store.PutAllLookup | src/filter.js:442-446 | after a run of `put`s each written id holds the last record written under it, others keep theirs |
| Store.PutAllUnique | src/filter.js:442-446 | a run of `put`s keeps keys unique |
| Sorting.SortBy | src/filter.js:385-391 | sorting by a numeric comparator gives an ascending permutation of the input |
| Sorting.InsertKeyRun | src/filter.js:385-391 | inserting an element puts it in front of the elements with its key and leaves every other key's elements in order |
| Sorting.SortByStable | src/filter.js:385-391 | the sort is stable: for every key, the elements with that key come out in their input order |
| IdAllocator.FirstGap | src/filter.js:254-261 | the gap scan over ascending numbers returns a number not in the list, with every number from the start candidate up to it present |
| IdAllocator.AllocateNumber | src/filter.js:246-261 | the allocated number is ≥ 1, unused, and every smaller positive number is used |
| IdAllocator.AllocateDependsOnlyOnNumbers | src/filter.js:246-261 | the result depends only on the set of numbers in use |
| IdAllocator.AllocatedIdIsFresh | src/filter.js:246-271 | no stored note already has the allocated id |
| IdAllocator.AllocateAfterInsert | src/filter.js:246-261 | storing the allocated id and allocating again yields a strictly larger number, never a duplicate |
| IdAllocator.AllocateReusesFreedNumber | src/filter.js:254-261 | any unused positive number bounds the allocation from above, so freed numbers are reused first |
| IdAllocator.AllocateFillsFirstGap | src/filter.js:254-261 | ids 2, 3, 5 allocate 1; ids 1, 2, 3, 5 allocate 4 |
| IdAllocator.MaxNumber | src/filter.js:480-493 | `Math.max(...numbers)` bounds every number, is one of them, and is 0 for no notes |
| IdAllocator.AllocateWithinCounter | src/filter.js:291 | the allocation is at most the largest number in use plus one, so the counter after creating stays or grows by one |
| Placement.InitialPosition | src/postit.js:18-35 | the note at index i goes to the cell with column < itemsPerRow and row·itemsPerRow + column = i, inside the container |
| Placement.CellsApart | src/postit.js:31-32 | different cells are at least a cell width (330) or height (430) apart |
| Placement.InitialPositionsDisjoint | src/postit.js:24-32 | different indices get positions at least one cell apart, so grid-placed notes never overlap |
| Placement.LatestIndex | src/filter.js:318-319 | the latest note has the greatest `createdAt`, and it is the first such note in store order |
| Placement.AppendPosition | src/filter.js:302-348 | a new note is never above the filter band; it goes to the anchor when there is no positioned latest note, else right of it, to the left edge a row lower, or back to the anchor |
| Placement.AppendPositionCases | src/filter.js:321-344 | the exact coordinates in the same-row, wrapped-row and out-of-space cases |
| FlowLayout.Flow | src/filter.js:419-468 | one position per note, none above the starting row |
| FlowLayout.FlowClearOfPast | src/filter.js:431-467 | once the loop's cursor has passed a note, every later note is clear of it |
| FlowLayout.FlowNoOverlap | src/filter.js:424-468 | every note is clear of every note placed before it (same row and further right, or lower by its height plus margin) |
| FlowLayout.FlowRowsDescend | src/filter.js:431-440 | y never decreases along the flow |
| FlowLayout.FlowRowRule | src/filter.js:431-467 | a note starts a new row exactly when it would overflow after the previous one: then at x = 20 and, from the loop's empty first row, exactly the tallest note of the previous row plus 30 below that row; otherwise right beside it on the same row |
| FlowLayout.FlowStep | src/filter.js:431-464 | for any starting row height, a row break puts the next note at x = 20 and at least the previous note's height plus 30 lower |
| FlowLayout.RowTallest | src/filter.js:467 | `Math.max` over a row from 0: at least every height placed on the row, and 0 or one of them |
| FlowLayout.FlowAt | src/filter.js:424-443 | the n-th note is placed from the loop state left by the first n |
| FlowLayout.CursorAfterInvariant | src/filter.js:419-467 | after each note, the loop's x, row y and row height are the note's right edge plus 30, its y, and the tallest note placed on that row |
| FlowLayout.FlowLeftBound | src/filter.js:421-433 | no note is placed left of the 20 px padding |
| FlowLayout.Boxes | src/filter.js:428-429 | each note's box is its own width and height, with a width of 0 (missing) read as 300 and a height of 0 as 400 |
| FlowLayout.Rearrange | src/filter.js:424-446 | the same notes in the same order with only `position` changed, every y at least the filter band's bottom |
| FlowLayout.RearrangeRowsDescend | src/filter.js:419-443 | a note later in the order is never higher up |
| FlowLayout.RearrangeLayout | src/filter.js:406-469 | rearranged notes do not overlap, rows descend, and x ≥ 20 |
| FlowLayout.FiveNotesTwoPerRow | src/filter.js:424-468 | five 300×400 notes in a width for two make rows of two, two and one at two alternating x offsets |
| ZOrder.MaxOtherZ | src/postit.js:153-158 | the running maximum is ≥ 0, bounds every other note's zIndex and is 0 or one of them |
| ZOrder.NextZ | src/postit.js:153-161 | the new zIndex is ≥ 1, above every other note, and the least such value |
| ZOrder.BringToFront | src/postit.js:624-635 | the note is stored on top of all others and nothing else changes |
| ZOrder.BringStoredToFront | src/postit.js:624-633 | corrected bring-to-front: the stored record goes above every other note with only its zIndex changed; an id not stored changes nothing |
| ZOrder.BringToFrontInSync | src/postit.js:624-633 | when the handler's copy is the stored record, writing it to the front is the corrected bring-to-front |
| ZOrder.OthersBelowNextZ | src/postit.js:153-161 | every other stored note is below the new zIndex |
| ZOrder.MaxOtherZAfterPut | src/postit.js:626 | the note's own stored zIndex does not enter the maximum |
| ZOrder.BringToFrontTwice | src/postit.js:624-633 | bringing the same note to the front twice gives the same zIndex |
| ZOrder.BringOtherToFront | src/postit.js:769-782 | bringing another note to the front afterwards puts it strictly above |
| ZOrder.FrontsOrder | src/postit.js:839-853 | along any run of triggers the zIndex rises strictly when the target changes and repeats when it does not |
| Interaction.DragMove | src/postit.js:662-672 | the dragged position is x ≥ 0 and y ≥ filter height, and equals start plus delta whenever that is admissible |
| Interaction.DragMoveNearest | src/postit.js:665-672 | the clamp gives the admissible coordinate nearest to the pointer's, per axis |
| Interaction.ReleaseDrag | src/postit.js:712-746 | out of bounds reverts exactly to the start position; otherwise the note is stored with the new position if and only if it moved |
| Interaction.DragGestureOutcome | src/postit.js:659-746 | a whole drag reverts exactly, or stores an admissible changed position with every other field kept |
| Interaction.ResizeMove | src/postit.js:871-886 | each dimension becomes start plus delta when that exceeds 200, else keeps its value, on screen and in the note |
| Interaction.ResizeMoves | src/postit.js:868-887 | the size at the start of the resize is kept through every move |
| Interaction.ResizeMovesWidth | src/postit.js:868-887 | after any moves the width, on screen and in the note, is the last start-plus-delta above 200, or its value before the moves if there is none |
| Interaction.ResizeMovesHeight | src/postit.js:868-887 | the same for the height |
| Interaction.ResizeMovesFloored | src/postit.js:871-886 | after any moves each dimension is still its start value or above 200, and only width and height change |
| Interaction.EndResize | src/postit.js:890-915 | a write happens only if the size changed; a failed write restores the start size on screen and in the note |
| Interaction.ResizeGestureStores | src/postit.js:822-915 | a stored resize changes only width and height, each to its old value or above 200, and the shown size differs from the start |
| Interaction.ResizeTowardsFiftyIsIgnored | src/postit.js:871-886 | a move towards 50×50 from 300×400 is ignored and nothing is written |
| Interaction.CapContent | src/postit.js:278-281 | the result is the input's prefix of length at most 1000; it equals the input exactly when the input is within 1000, and is exactly 1000 long otherwise |
| Interaction.CapContentIdempotent | src/postit.js:278-281 | capping twice is capping once |
| Interaction.Input | src/postit.js:270-285 | after input the text is the capped prefix of what was typed and the session is marked changed |
| Interaction.SaveContentAsWritten | src/postit.js:288-303 | as written: the note object takes the typed text before the write; a successful write stores it and the editor's original becomes it; on a failed write the text area reverts but the note object keeps the unsaved text |
| Interaction.SaveContentAsWrittenDesyncs | src/postit.js:288-303 | a concrete failed save leaves text area "A" and note object "B" |
| Interaction.SaveContent | src/postit.js:288-303 | corrected save: a failed write restores both the text area and the note object |
| Interaction.EditSessionInvariant | src/postit.js:261-307 | through any sequence of typing and saves, the note object matches the last saved text and every stored content is within 1000 characters |
| Interaction.Toggle | src/postit.js:556-573 | the toggle flips `collapsed` and nothing else |
| Interaction.ToggleTwice | src/postit.js:556-573 | toggling twice restores the note and its displayed height (40 collapsed, `height || 400` open) |
| Interaction.OpenForEdit | src/postit.js:390-394 | the edit item leaves the note expanded, otherwise unchanged |
| ColorFilter.ClickSwatch | src/filter.js:120-165 | clicking the active color clears the filter; any other color becomes the filter |
| ColorFilter.ClickSwatchShows | src/filter.js:202-232 | after a click a note is shown exactly when the filter was cleared or the note has the clicked color |
| ColorFilter.ClickSwatchTwice | src/filter.js:123-136 | clicking the same swatch twice restores a filter of that color, and from any other state clears it, showing every note |
| ColorFilter.RecolorNote | src/postit.js:499-535 | a successful recolor stores the note and hides it under a filter of another color; a failed one restores the old color |
| ColorFilter.RecolorKeepsFilter | src/postit.js:513-535 | after recoloring a shown note, it is shown exactly when the filter admits its current color |
| ColorFilter.Select | src/filter.js:376-377 | the notes selected are exactly the stored notes the filter admits, or all of them with no filter |
| ColorFilter.SelectConcat | src/filter.js:376-377 | `filter` keeps store order and multiplicity: selecting from two parts is selecting from each in turn |
| ColorFilter.SelectAppend | src/filter.js:376-377 | selecting from nothing gives nothing, and a note added at the end is selected after the others exactly when the filter admits it |
| ColorFilter.CreationOrder | src/filter.js:384-391 | the selected notes, ascending by `createdAt`, with notes created at the same time in store order |
| ColorFilter.SortByCreation | src/filter.js:370-382 | with nothing selected the store is unchanged |
| ColorFilter.SortByCreationEffect | src/filter.js:375-394 | selected notes change only position, moving below the filter band; unselected notes are unchanged |
| ColorFilter.SortByCreationKeepsIds | src/filter.js:377-394 | the sort adds no ids and keeps them unique |
| ColorFilter.SortByCreationOrder | src/filter.js:384-394 | a selected note created earlier is never placed lower than one created later, and for non-negative widths the later one is clear of it in reading order: further right on the row or below it |
| ColorFilter.SortByCreationNoOverlap | src/filter.js:384-394 | two selected notes do not overlap after the sort |
| Lifecycle.FormatDate | src/filter.js:355-360 | `YYYY.MM.DD`, with dots before the two-character month and day and no leading zero in a positive year |
| Lifecycle.FormatDateRoundTrip | src/filter.js:355-360 | reading the formatted date back gives the same year, month and day |
| Lifecycle.Title | src/filter.js:274 | `메모 <n> - <date>`: the prefix, the ` - ` separator before the date, and between them the digits of n without leading zeros, reading back as n |
| Lifecycle.RenderAt | src/postit.js:56-206 | a positionless note gets grid cell `index` and is written back with it; the stacking order is `zIndex || index + 100`; a note is hidden exactly when a filter of another color is active; a note with a position is drawn there in a container of any width |
| Lifecycle.LoadBoard | src/postit.js:922-939 | each stored note is rendered once, in ascending zIndex order with equal zIndex in store order, with rendering index k; a board whose notes all have positions loads in a container of any width |
| Lifecycle.LoadBoardFillsDisjoint | src/postit.js:61-71 | positionless notes loaded together land in different, non-overlapping cells |
| Lifecycle.LoadBoardStacking | src/postit.js:928-937 | the load keeps stacking order among notes that have a zIndex and among those that lack one |
| Lifecycle.LoadBoardUnrankedAbove | src/postit.js:184 | a note without a zIndex is drawn at 100, above a note stored with zIndex 5 |
| Lifecycle.StaleCopyUndoesSort | src/postit.js:624-633 | after sort-by-creation moves a note from (500, 500) to (20, 100), writing the handler's copy to the front stores (500, 500) again, while the corrected bring-to-front keeps (20, 100) |
| Lifecycle.AddOnTop | src/postit.js:149-170 | a new note is stored above all others and nothing else changes |
| Lifecycle.AddNew | src/filter.js:246-288 | a note with the allocated id is new to the store, ends on top, and adds exactly one record |
| Lifecycle.CreateNote | src/filter.js:240-295 | the created note has the id of the least free number, the zIndex one above every other note, today's title, empty content, yellow, 300×400, the append position, and sits on top; nothing else changes |
| Lifecycle.CreateNoteBelowFilter | src/filter.js:314-347 | a created note is never above the filter band |
| Lifecycle.DuplicateAt | src/postit.js:400-450 | the duplicate has the id of the least free number, the zIndex one above every other note, copies content, color and size, is expanded, sits 20 px right and down, and is on top |
| Lifecycle.DuplicateNote | src/postit.js:400-458 | an original without a position writes nothing, otherwise it is duplicated |
| Lifecycle.DuplicateKeepsOriginal | src/postit.js:428-446 | the duplicate's id differs from the original's and the original's record is untouched |
| Lifecycle.DeleteNote | src/postit.js:461-474 | a successful delete removes only that record; a failed one changes nothing |
| Lifecycle.DeleteThenCreateReuses | src/filter.js:254-261 | after deleting a note, the next allocation is at most its number |

## Left out

- Everything on the DOM is not modelled: element construction, CSS classes, transitions, `adjustDropdownPosition`, menu and modal wiring, focus timers, logging and `alert`.
- Store initialisation, the promise plumbing and the read-then-write interleaving of asynchronous handlers are not modelled. Each handler is one atomic step over the store sequence, and a write's success is a boolean input.
- `getBoundingClientRect` tests are not computed: the out-of-bounds decision at drag release is an input.
- Container and viewport sizes and the filter-band height are parameters.
- `Date` is not modelled: the creation time and the calendar day are parameters.
- The zIndex fallback when reading the store fails is not modelled; the model treats that read as succeeding. For a new note (src/postit.js:172-177) the fallback sets the page's copy to zIndex 1000, and the next write of that copy stores it. In the bring-to-front handlers (src/postit.js:635-638, 787-791 and 857-861) it only sets the displayed stacking order.
- `getAll` returns records in ascending key order, which is string order of the ids, so `postit-10` comes before `postit-2`. The model's store keeps the order in which ids were first written instead. Only ties broken by store order depend on this: the latest note among equal `createdAt` (Placement.LatestIndex), the load order among equal zIndex (Lifecycle.LoadBoard), and creation order among equal `createdAt` (ColorFilter.CreationOrder).
- Each handler writes its own copy of the note, captured when the note was rendered, and the model takes that copy as an input. The model does not track whether the copy still matches the stored record. After sort-by-creation it does not, because the sort rewrites fresh copies from the store; see Findings.
- Failed writes whose handler only logs are not modelled. These are the drag-release save, the toggle save, the zIndex save, the write-back of a grid position, the save of a created note (src/filter.js:284, caught at 292-294) and the save of a duplicate (src/postit.js:446, caught at 455-457). The model treats them as successful; Lifecycle.CreateNote, Lifecycle.DuplicateAt and Lifecycle.DuplicateNote always store the new note.
- `parseInt` of pixel strings is not modelled. Positions and sizes are integers throughout, and the drag start is the stored position.
- The content cap counts Dafny characters; JavaScript counts UTF-16 code units.
- Titles and the year are rendered from natural numbers; negative years are not modelled.
- `createdAt` values that are missing (`NaN` in the comparators) are not modelled; `createdAt` is an integer.
- The Escape key and IME composition checks are not modelled: Escape and clicking outside both end in the same blur save.
- ColorFilter.SortByCreation: a write that fails part-way through the re-layout loop aborts the loop in the source, leaving earlier notes moved. The model assumes every write succeeds.
- Placement.InitialPosition requires a container at least one cell wide (a client width of at least 370). The source does not check this, and a narrower container gives two behaviours the model leaves out. With a client width from 40 to 369, `itemsPerRow` is 0, the division by zero gives non-numeric positions, and they are written back. With a client width under 40, such as a hidden container of width 0, `itemsPerRow` is `Math.floor(-40 / 330)` = -1, so note i gets row -i and column 0. It lands at the numeric position (35, 35 - 430·i), stacked upwards off the board. Lifecycle.RenderAt, Lifecycle.LoadBoard and the load lemmas carry the same requirement only for notes without a position; a note with a stored position is drawn at it whatever the container's width.
- FlowLayout.RearrangeLayout assumes non-negative note widths, as do FlowLayout.FlowNoOverlap and ColorFilter.SortByCreationNoOverlap. The board never stores a negative width, but the layout code does not check for one.
- Lifecycle.DeleteThenCreateReuses assumes that no other stored id parses to the deleted note's number.
- Lifecycle.CreateNote does not model the visibility of the new note under an active filter. That check is the one stated by Lifecycle.RenderAt.
- `webpack.config.js` and `src/index.js` are not part of this model: they hold build configuration and page start-up.

## Findings

| source | as written | input that shows it | evidently intended | confidence | as-written member | corrected member |
|---|---|---|---|---|---|---|
| src/postit.js:288-303 | on a failed content save, the text area is restored but `postit.content` keeps the unsaved text, which the next unrelated write of the same object (bring-to-front, drag, toggle) stores | a note with content "A"; type "B"; blur while the write fails: the text area shows "A", the note object holds "B" | restore `postit.content` too, as the color handler (src/postit.js:529-535) and the resize handler (src/postit.js:906-913) restore their fields | not executed | Interaction.SaveContentAsWrittenDesyncs | Interaction.EditSessionInvariant |
| src/postit.js:624-633 | bring-to-front (like the drag, resize, toggle and color handlers) writes the handler's own copy of the note, captured at render time, with the new zIndex; sort-by-creation (src/filter.js:368, 443-446) updates only the stored records and the elements, so that copy still holds the old position | a note at (500, 500); sort by creation moves it to (20, 100); clicking it stores (500, 500) again while the element stays at (20, 100) | raise the stored record (or keep the page's copy in step with the store), changing only the zIndex | not executed | Lifecycle.StaleCopyUndoesSort | ZOrder.BringStoredToFront |
