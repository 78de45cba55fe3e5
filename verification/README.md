# Setlist engine of a PDF setlist viewer — a Dafny model

The program groups PDF files into named, ordered *setlists* and pages through
a setlist as if it were one long document. This project models the program's
core as immutable datatypes and pure functions, and proves properties about them:

- **Setlists** (`setlists.dfy`): setlist items, and the four edits of a
  setlist. These are add, remove, move and clear. A rejected edit returns `false`
  and changes nothing.
- **The setlist manager** (`setlist_manager.dfy`, `manager_properties.dfy`).
  The manager holds the collection of setlists and a navigation cursor
  `(activeSetlist, activeItem)`. The value `-1` in both fields means "inactive".
  - Activation and jumping restore the cursor when the file fails to load.
  - `Next`/`Previous` first step within the open document, and otherwise cross
    to the adjacent item. `Previous` lands on the last page after crossing.
  - `CanGoNext`/`CanGoPrevious` predict those steps.
- **Persistence** (`persistence.dfy`). This is the line format `SETLISTS_V1` /
  `SETLIST:<name>` / `ITEM:<name><TAB><path>` / `END`, with a hard header check and
  malformed lines skipped. Saving and loading are pure functions between a
  manager and the file's text. Line splitting follows `std::getline`
  (`text.dfy`).
- **The viewer's page cursor** (`pdf_viewer.dfy`): current page and page count,
  page stepping, `Close`, and the state a successful `Load` leaves.
- **The folder library** (`pdf_library.dfy`): the case-insensitive `.pdf` test,
  the scan filter over a directory listing, and `Clear`/`Refresh`/`LoadFolder`.

Operations return the new state together with the boolean the C++ returns
(`Reply`, `Nav`). Operations that drive the viewer take a `LoadOutcome`. This is
the result `PdfViewer::Load` would report for the file it is asked to open:
`LoadFailed`, or `Opened(pages)`. Each operation opens at most one file.

`GetItemCount`, `GetFileCount`, `IsLoaded` and the `PdfEntry` constructor are
plain field reads. In the model they are `ItemCount`, `FileCount`, `IsLoaded`
and the datatype constructor `PdfEntry(filename, fullPath)`. The manager's
`CanGoNext`/`CanGoPrevious` are predicates, so they cannot change any state.

The manager keeps the cursor consistent only through its own operations.
`EditSetlist` models a write through the pointer `GetSetlist(i)` returns. That
write does not adjust the cursor. `ItemEditCanStrandCursor` shows the cursor
can then name an item that no longer exists. So the item bound
(`CursorInBounds`) is proved only for the manager-level operations.

## Model

| member | source | states |
|---|---|---|
| Setlists.NewSetlist | src/setlist_gen.cpp:10 | a new setlist has the given name and no items |
| Setlists.SetName | src/setlist_gen.h:28 | renaming changes the name and leaves the items as they were |
| Setlists.ItemCount | src/setlist_gen.h:31 | the item count is the number of items held |
| Setlists.AddItem | src/setlist_gen.cpp:17-24 | fails, changing nothing, exactly when the path is empty; otherwise the count grows by one, earlier items are unchanged and the new item is last |
| Setlists.AddEntry | src/setlist_gen.cpp:12-15 | a library entry is appended under its file name and full path, by the same empty-path rule; the setlist keeps its name |
| Setlists.RemoveItem | src/setlist_gen.cpp:26-33 | fails unchanged exactly when the index is past the end; otherwise items before the index stay and later ones shift down by one |
| Setlists.MoveItem | src/setlist_gen.cpp:35-47 | fails unchanged exactly when either index is out of range; otherwise length and multiset are kept, the moved item sits at the target, and removing it again leaves the others in their old order |
| Setlists.Clear | src/setlist_gen.cpp:49-52 | clearing empties the items and keeps the name |
| Setlists.AddThenRemove | src/setlist_gen.cpp:17-33 | removing the item just appended gives the original setlist back |
| Setlists.MoveItemSameIndex | src/setlist_gen.cpp:40-41 | moving an item onto its own index succeeds and changes nothing |
| Setlists.MoveItemForward | src/setlist_gen.cpp:43-45 | where every item lands when an item moves towards the end |
| Setlists.MoveItemBackward | src/setlist_gen.cpp:43-45 | where every item lands when an item moves towards the front |
| Setlists.MoveItemUndo | src/setlist_gen.cpp:35-47 | moving an item back from its target restores the original setlist |
| Setlists.MoveItemExample | src/setlist_gen.cpp:35-47 | for any four items, [a,b,c,d] moved from 0 to 2 gives [b,c,a,d] |
| SetlistManager.Fresh | src/setlist_gen.h:138-140 | a new manager has no setlists and the cursor (-1,-1) |
| SetlistManager.Deactivate | src/setlist_gen.cpp:134-138 | deactivation sets both cursor fields to -1 and keeps the setlists |
| SetlistManager.IsActive | src/setlist_gen.h:105 | the manager is active exactly when the setlist index is not negative |
| SetlistManager.DefaultName | src/setlist_gen.cpp:56-60 | the default name is "Setlist " followed by digits whose value is the old count plus one |
| SetlistManager.DefaultNamesDistinct | src/setlist_gen.cpp:56-60 | default names given when the collection holds different numbers of setlists differ |
| SetlistManager.CreateSetlist | src/setlist_gen.cpp:54-64 | appends an empty setlist with the given or default name, returns the old count as its index, and leaves existing setlists and the cursor untouched |
| SetlistManager.RemoveSetlist | src/setlist_gen.cpp:66-82 | fails unchanged when out of range; otherwise later setlists shift down, and the cursor is set to (-1,-1), decremented or kept when the index is equal to, below or above the active one |
| SetlistManager.GetSetlist | src/setlist_gen.cpp:84-90 | returns the setlist at the index, or nothing past the end |
| SetlistManager.EditSetlist | src/setlist_gen.cpp:84-90 | a write through the returned pointer replaces that one setlist and leaves the cursor alone |
| SetlistManager.GetActiveSetlist | src/setlist_gen.cpp:100-107 | returns the active setlist exactly when the setlist index is within the collection; the item index is not checked |
| SetlistManager.LoadActiveItem | src/setlist_gen.cpp:167-184 | succeeds exactly when an active setlist holds the item and the file loads; only then does the item index change; a rejected index leaves the viewer untouched |
| SetlistManager.ActivateSetlist | src/setlist_gen.cpp:109-132 | succeeds exactly for a known, non-empty setlist whose first file loads, with cursor (index,0); on any failure the cursor is exactly the one before the call |
| SetlistManager.JumpToItem | src/setlist_gen.cpp:140-165 | succeeds exactly for an existing item whose file loads, with cursor (setlist,item); on any failure the cursor is exactly the one before the call |
| SetlistManager.Next | src/setlist_gen.cpp:186-205 | inactive fails unchanged; a viewer with a next page steps one page, and nothing else changes in the manager or the viewer; otherwise it opens the next item, moving the cursor only on success, and fails unchanged at the end |
| SetlistManager.Previous | src/setlist_gen.cpp:207-233 | mirrors Next stepping back (a page step back changes only the viewer's page); after crossing to the previous item the viewer shows that document's last page |
| SetlistManager.CanGoNext | src/setlist_gen.cpp:235-246 | predicts a step only when a setlist is active and inside the collection; true when the viewer has a next page or a next item exists |
| SetlistManager.CanGoPrevious | src/setlist_gen.cpp:248-259 | predicts a step only when a setlist is active and inside the collection; true when the viewer has a previous page or the item index minus one is not negative |
| ManagerProperties.IsActiveIffActiveSetlist | src/setlist_gen.h:105 | for a cursor of the normal shape, IsActive holds exactly when there is an active setlist |
| ManagerProperties.CreateKeepsCursor | src/setlist_gen.cpp:54-64 | creating a setlist keeps a cursor that names an existing item |
| ManagerProperties.RemoveKeepsCursor | src/setlist_gen.cpp:66-82 | removing a setlist keeps a cursor that names an existing item |
| ManagerProperties.ActivateAndJumpKeepCursor | src/setlist_gen.cpp:109-165 | activation and jumping keep a cursor that names an existing item |
| ManagerProperties.NextKeepsCursor | src/setlist_gen.cpp:186-205 | Next keeps a cursor that names an existing item |
| ManagerProperties.PreviousKeepsCursor | src/setlist_gen.cpp:207-233 | Previous keeps a cursor that names an existing item |
| ManagerProperties.EditKeepsCursorShape | src/setlist_gen.cpp:84-90 | writes through the setlist pointer keep the cursor's shape |
| ManagerProperties.ItemEditCanStrandCursor | src/setlist_gen.cpp:84-90 | removing the active item through the pointer leaves the cursor past the end of its setlist |
| ManagerProperties.RemoveSetlistFollowsActive | src/setlist_gen.cpp:74-81 | removing any other setlist leaves the cursor on the same setlist value |
| ManagerProperties.CreateThenRemove | src/setlist_gen.cpp:54-82 | removing the setlist just created restores the manager, cursor included |
| ManagerProperties.ActivateIsJumpToFirst | src/setlist_gen.cpp:109-165 | activating a setlist behaves exactly as jumping to its item 0 |
| ManagerProperties.NextAgreesWithCanGoNext | src/setlist_gen.cpp:235-246 | Next succeeds only when CanGoNext holds, succeeds whenever CanGoNext holds and the file loads, and changes nothing when CanGoNext fails |
| ManagerProperties.PreviousAgreesWithCanGoPrevious | src/setlist_gen.cpp:248-259 | the same agreement for Previous, for a cursor that names an existing item |
| ManagerProperties.CanGoPreviousOverpromises | src/setlist_gen.cpp:248-259 | after items are removed through the pointer, CanGoPrevious holds while Previous fails with a loadable file |
| ManagerProperties.PreviousAgreesWithCanGoPreviousChecked | src/setlist_gen.cpp:248-259 | with the item bound added, the prediction agrees with Previous for every cursor of the normal shape |
| ManagerProperties.CanGoPreviousCheckedMatches | src/setlist_gen.cpp:248-259 | on an in-bounds cursor the bounded prediction equals the program's |
| ManagerProperties.CrossForward | src/setlist_gen.cpp:186-205 | from the last page, when a next item exists and its file opens, Next moves the cursor to it and shows its page 0 |
| ManagerProperties.CrossBack | src/setlist_gen.cpp:207-233 | from page 0, when a previous item exists and its file opens with pages, Previous moves the cursor to it and shows its last page |
| ManagerProperties.CrossForwardThenBack | src/setlist_gen.cpp:186-233 | crossing forward from a last page and stepping back returns to the same item and page when both files load |
| ManagerProperties.FreshManagerCannotMove | src/setlist_gen.h:138-140 | a fresh manager predicts no step and both steps fail unchanged |
| ManagerProperties.RemoveSetlistScenario | src/setlist_gen.cpp:66-82 | with [S0,S1,S2] and S2 active, removing S0 gives cursor 1 on S2; removing the active setlist deactivates |
| ManagerProperties.ForwardCrossingScenario | src/setlist_gen.cpp:186-205 | for any two items, from the last page of item 0 Next opens item 1 at page 0 under its file name; at item 1 of a one-page document a further Next fails and the cursor stays |
| ManagerProperties.BackwardCrossingScenario | src/setlist_gen.cpp:207-233 | from page 0 of item 1, Previous opens item 0 at its last page |
| ManagerProperties.ActivationRollbackScenario | src/setlist_gen.cpp:109-132 | a failed activation of another setlist leaves an active cursor where it was |
| Persistence.Serialize | src/setlist_gen.cpp:286-297 | the saved lines start with the header and end with the end marker |
| Persistence.SaveToFile | src/setlist_gen.cpp:276-300 | the written text starts with the header line and its newline, and ends with the END line and its newline; what lies between is fixed by SaveLoadRoundTrip |
| Persistence.ParseLines | src/setlist_gen.cpp:326-351 | reading body lines never drops a setlist, renames it or removes one of its items: each setlist read so far keeps its name and its items as a prefix; an END line stops reading at once |
| Persistence.ParseLine | src/setlist_gen.cpp:331-349 | a SETLIST: line appends an empty setlist named by the rest of the line; earlier setlists are never changed; lines with neither tag are ignored |
| Persistence.LoadFromFile | src/setlist_gen.cpp:302-355 | a missing file or a bad or absent header fails with the manager unchanged; otherwise the cursor is (-1,-1) and the collection is what the lines describe |
| Persistence.ParseStopsAtEnd | src/setlist_gen.cpp:326-329 | nothing after the first END line is read |
| Persistence.MalformedItemLinesSkipped | src/setlist_gen.cpp:338-349 | an ITEM: line without a tab, or before any SETLIST: line, is skipped |
| Persistence.BadHeaderRefused | src/setlist_gen.cpp:314-318 | a file whose first line is not the header is refused with the manager unchanged |
| Persistence.ParseSerialized | src/setlist_gen.cpp:276-351 | reading the saved body lines gives back the same setlists |
| Persistence.SaveLoadRoundTrip | src/setlist_gen.cpp:276-355 | loading the saved text succeeds and restores every setlist name, item name and path in order, with the cursor inactive |
| Text.SplitJoinLines | src/setlist_gen.cpp:326 | reading lines back from written text gives the same lines when none contains a newline |
| Text.DecimalRoundTrip | src/setlist_gen.cpp:59 | the decimal spelling of a count reads back as that count |
| Text.Decimal | src/setlist_gen.cpp:59 | the spelling of a count is a non-empty string of digits without a leading zero |
| Text.SplitLines | src/setlist_gen.cpp:314-326 | no line read back contains a newline |
| Text.JoinLinesFraming | src/setlist_gen.cpp:286-297 | writing lines puts the first line, then a newline, at the start and the last line and a newline at the end; no lines give the empty text |
| Text.LowerAscii | src/pdf_library.cpp:20 | no upper-case ASCII letter survives, and only upper-case ASCII letters change, each to its lower-case letter |
| PdfViewer.Fresh | src/pdf_viewer.h:111-112 | a new viewer is on page 0 of 0 pages and can step in neither direction |
| PdfViewer.IsLoaded | src/pdf_viewer.h:48 | the viewer is loaded exactly when a document is open |
| PdfViewer.CanGoNext | src/pdf_viewer.h:59 | a next page exists below the last one, and stepping to it stays inside the document |
| PdfViewer.CanGoPrevious | src/pdf_viewer.h:60 | a previous page exists above page 0, and stepping to it stays inside the document |
| PdfViewer.LastSeparator | src/pdf_viewer.cpp:54 | the position of the last '/' or '\\' in the path, or -1 when it has none: no separator follows it |
| PdfViewer.Close | src/pdf_viewer.cpp:66-87 | closing unloads and resets the page, the page count and the file name |
| PdfViewer.Load | src/pdf_viewer.cpp:12-64 | succeeds exactly when the file opens, then shows page 0 of the reported page count under the path's file name; a failed load leaves the viewer closed |
| PdfViewer.BaseName | src/pdf_viewer.cpp:54-57 | the file name is the longest separator-free suffix of the path, and is preceded by a separator unless it is the whole path |
| PdfViewer.BaseNameOfJoin | src/pdf_viewer.cpp:54-57 | a directory, a separator and a separator-free name give back the name |
| PdfViewer.BaseNameOfPlain | src/pdf_viewer.cpp:54-57 | a path without '/' or '\\' is its own file name |
| PdfViewer.BaseNameExamples | src/pdf_viewer.cpp:54-57 | file names for paths with '/', with '\\' and with no separator |
| PdfViewer.NextPage | src/pdf_viewer.cpp:100-107 | the page goes up by exactly one when a next page exists; otherwise nothing changes |
| PdfViewer.PreviousPage | src/pdf_viewer.cpp:109-116 | the page goes down by exactly one when above 0; otherwise nothing changes |
| PdfViewer.GoToPage | src/pdf_viewer.cpp:118-125 | the page becomes the requested one when it exists; otherwise nothing changes |
| PdfViewer.PageMovesKeepRange | src/pdf_viewer.cpp:100-125 | the three page moves keep a page inside the document |
| PdfViewer.NextPreviousInverse | src/pdf_viewer.cpp:100-116 | a step forward then back, or back then forward, returns to the same state |
| PdfLibrary.Empty | src/pdf_library.h:71-73 | a default library is not loaded and holds no files |
| PdfLibrary.IsLoaded | src/pdf_library.h:46 | a folder is loaded exactly when the folder path is not empty |
| PdfLibrary.FileCount | src/pdf_library.h:66 | the file count is the number of files listed |
| PdfLibrary.EndsWithPdf | src/pdf_library.cpp:13-23 | a name passes when its last four characters, lower-cased, are ".pdf"; EndsWithPdfIff states the test character by character |
| PdfLibrary.EndsWithPdfIff | src/pdf_library.cpp:13-23 | a name passes exactly when it has at least four characters and ends in '.' then p, d, f in either case |
| PdfLibrary.EndsWithPdfExamples | src/pdf_library.cpp:13-23 | "A.PDF" passes, "x.pdf.txt" and "pdf" do not |
| PdfLibrary.Scan | src/pdf_library.cpp:78-88 | the scan yields no more files than entries, all with ".pdf" names |
| PdfLibrary.ScanAppend | src/pdf_library.cpp:78-88 | the scan keeps iteration order |
| PdfLibrary.ScanMembership | src/pdf_library.cpp:78-88 | a file is listed exactly when a regular-file entry with a ".pdf" name produced it |
| PdfLibrary.Clear | src/pdf_library.cpp:56-61 | clearing empties the folder path, the folder name and the file list |
| PdfLibrary.Refresh | src/pdf_library.cpp:63-70 | with no folder nothing changes; otherwise only the file list is replaced by a fresh scan |
| PdfLibrary.RefreshAfterLoadFolder | src/pdf_library.cpp:32-70 | refreshing a freshly loaded folder whose listing is unchanged changes nothing |
| PdfLibrary.LoadFolder | src/pdf_library.cpp:32-54 | the library is cleared before validation, so a failed load leaves it empty; on success the folder name falls back to the path when the last component is empty |

## Findings

| source | as written | input that shows it | evidently intended | confidence | as-written member | corrected member |
|---|---|---|---|---|---|---|
| src/setlist_gen.cpp:248-259 | `CanGoPrevious` reports a cross to item `activeItem - 1` whenever that index is not negative. It does not check the index against the setlist's item count, while `Previous` (through `LoadActiveItem`) does. | Setlist [a,b,c]. `JumpToItem(0,2)` succeeds. Then `GetSetlist(0)->RemoveItem(2)` and `RemoveItem(1)` run. The viewer is on page 0. `CanGoPrevious` is true, but `Previous` returns false even though the file would load. | A `CanGoPrevious` that holds exactly when `Previous` can move, given the file loads. | low: not executed; the state is reachable only by editing items through the setlist pointer | ManagerProperties.CanGoPreviousOverpromises | ManagerProperties.PreviousAgreesWithCanGoPreviousChecked |

`SetlistManager.CanGoPrevious` stays as the program writes it. `ManagerProperties.CanGoPreviousChecked` is the bounded prediction. On every cursor the manager's own operations produce, the two agree (`CanGoPreviousCheckedMatches`).

## Left out

- File I/O. Persistence works on the file's text, and a file that cannot be opened is an absent text. Write failures in `SaveToFile`, stderr messages, `GetDefaultSavePath` (which reads the current directory) and Windows text-mode `\r\n` translation are not modelled.
- PDFium and OpenGL. Document parsing, page rendering, textures and the BGRA→RGBA swap are not modelled. Whether `Load` succeeds, and the page count it reports, arrive as a `LoadOutcome`.
- Zoom (`SetZoom`, `ZoomIn`, `ZoomOut`, `ResetZoom`) is floating-point clamping and is not modelled. Nor is the `m_needsRender` flag, so `GoToPage`'s "page differs" test has no observable effect.
- The filesystem in the library. Existence, directory test, the path's last component and the directory listing arrive as a `Folder` record. A `filesystem_error` part-way through a scan is not modelled: the listing stands for the entries iterated.
- The native file dialogs and the GLFW/ImGui main loop. They are outside the core.
- Integer widths. Indices and counts are unbounded integers; the casts between `size_t` and `int` are exact for collections smaller than 2^31.
- SetlistManager.ActivateSetlist: an exception thrown inside the viewer's load (a `std::bad_alloc` or `std::length_error` from resizing the file buffer, src/pdf_viewer.cpp:26-29) escapes after the cursor was set (src/setlist_gen.cpp:121-124) and is not modelled; the rollback is stated only for failures returned as `false`.
- SetlistManager.JumpToItem: the same escaping exception after the cursor is set (src/setlist_gen.cpp:154-157) is not modelled; the rollback covers only returned failures.
- PdfLibrary.LoadFolder: a `filesystem_error` thrown by `fs::exists` or `fs::is_directory` (src/pdf_library.cpp:38) escapes after `Clear()` without returning `false`; this exception path is not modelled, and the `Folder` record always answers both questions.
- PdfLibrary.Refresh: does not model an iteration error that leaves only a prefix of the listing scanned, because the listing is an input.
- Persistence.SaveLoadRoundTrip: assumes names and paths hold no newline, item names hold no tab, and paths are non-empty. The format cannot carry anything else, and the program does not escape such characters.
