# Minirel storage engine: a verified model

Minirel keeps relations in heap files of slotted pages and reaches the pages through a buffer pool with clock
replacement; below the pool, a file layer allocates pages and threads the free ones into a list on disk. This project
models that engine and the operators that lean on it, and proves what each layer promises to the one above.

Two stacks:

* **Pages and files.** `page_view` (a directory of slots as a map from slot numbers to bytes), `page_layout` and `page`
  (the same page as one byte array: records from the left, slots from the right, both moved in place), `heap_view` and
  `paged_file` (a chain of pages as a sequence of records), `scan_filter`, `heapfile_scan` and `insert_scan` (cursors),
  `delete`, `join`, `load` (bulk loading, and reading a relation back), and the external sort in `sort_view` (order and
  merging), `sort_runs` and `sort_file` (building sorted runs), `sort` (merging them, marking and going back) and
  `sort_client` (what a client of the sort reads).
* **The pool and the disk.** `disk` (the file layer, its free list, and reads and writes that may fail at any time),
  `clock` (which frame is replaced), `bufhash` (the chained hash table), `buffer_view`, `buffer_steps` and `buffer_runs`
  (the pool as a state machine, what each call keeps, what holds over whole runs), `bufmgr` (the buffer manager over
  arrays, proved to take exactly those steps), and `buffer_later` and `buffer_later_runs` (the buffer manager of stage6,
  the same way).

Two files join them: `page_image` reads the 1024 bytes of a page on disk as slots and records, and `pool_file` says that
what a client of the pool sees of one file changes as `PagedFile` changes.

Objects whose methods change their fields are classes here too (`Page`, `PagedFile`, `HeapFileScan`, `InsertFileScan`,
`SortedFile`, `BufHashTbl`, `UnixFiles`, `BufMgr`, `LaterBufMgr`); each has a function that gives its abstract value, and
its methods say what becomes of that value. `Pending()` is what a scan has still to return, `Rest()` what a sorted file
has still to return, `View()` the pages of a file, `State()` the buffer pool, `Content` a page as clients see it.
`Others()` is the multiset of pins that do not belong to the scan at hand: that it stays the same, and that `Ok()` keeps
the scan's own pins among the file's, means that a scan holds exactly one pin on the header and one on its current page.
`Flagged()` says that every changed page will be handed back as dirty.

`UnixFiles` counts the reads and writes that have failed, so that a contract can say when one did; `After(status)` is
that count after a call with the given status.

Integer attributes are compared as the code compares them, by the sign of a 32-bit difference. Beside each such
comparison stands the order of the values, with a lemma that says exactly when the two are the same; `Sorted`, `Select`
and `JoinBag` are about the order of the values, `Pick` and `ScanBag` about what the code does.

The definitions that the rest leans on are each tied down by a statement in other words: what a comparison means in
arithmetic or position by position (`MatchInteger`, `MatchFloat`, `MatchString`, `JoinsInteger`, `LeqMeans`), what the
bytes of numbers mean (`Int32Digits`, `FloatFields`), when a record fits (`FitsMeans`), which page the file layer hands out
or takes back (`AllocateOrder`, `DisposeStatus`), and which frame the clock takes (`FirstChance`, `SecondChance`).

The buffer manager is that of part3; the page, heap file, delete, join, load and sort code is that of stage6.

## What the model found

* `insertRecord` of a heap file lets lengths 1001 to 1004 through its size check. Such a record never fits: an empty page
  is linked to the file and NOSPACE is returned (`OversizedInsert`).
* `deleteRecord` lowers the record count even when nothing is deleted; the count stays true exactly when the cursor is on
  a live record (`CountTruthful`).
* A scan that starts over after `endScan` gives up when the first page is empty. It sees the whole file exactly when the
  first page has a record or the file has none (`RestartSeesAll`, `RestartMisses`).
* `setMark` before the first `next()` marks a position to which `gotoMark` returns as an end of file
  (`SortAndReadAgain` with no record read before the mark).
* When a sort cannot create a run it leaves the scan of the source file open, with two pins (`SortFile`).
* `allocPage` neither clears the frame nor marks it dirty, so a page that is given back clean right after it was allocated
  is lost, once its frame is needed or the file is flushed, unless chance has the frame agree with the disk
  (`CleanUnpin` and `CleanUnpinFlushed` say exactly when, `LostPage` shows it happen).
* Disposing of a page that is free already ties the free list into a ring, even when the call fails on the
  header (`DoubleDispose`, `DisposedTwice`).
* stage6 takes the victim out of the hash table before it writes it and never clears its frame. If the write fails, or
  the read that follows, with a clean victim too, a valid frame is left that is not in the table. The table stays right
  exactly when the call succeeds or has taken no page out (`ReadWired6`, `AllocWired6`, `ReadLosesEntry`).
* Integer attributes are compared by subtracting. A scan predicate means what it says exactly when the difference fits
  in 32 bits or only equality is asked for (`MatchMeans`), and so does a join condition (`FlippedScan`). For the sort,
  reccmp is the order of the values exactly when the difference fits either way round (`FieldCmpIsOrder`); otherwise it
  is not even transitive (`OverflowCycle`), and a sorted buffer need not be in order (`SortDisorders`).
* A getRecord for a page that is not there, and a resetScan to a mark taken while no page was current, leave the scan
  with a page whose pin it has given back (`GetRecordAt`, `ResetScan`).
* Outside such failures stage6 gives its clients the same pages and pins as part3 (`StepKeeps6`, `RunCoherent6`), although
  its unPinPage marks a page as changed even when it is not pinned.
* In a join of a relation with itself every attribute comes from the outer record (`SelfJoinProjects`).
* When a tuple is too long, bulk loading returns with the inserter still open, with two pins (`Load`).

## Model

| member | source | states |
|---|---|---|
| `Bytes.ShortRoundTrip` | stage6/page.h:20-23 | storing a slot field as two bytes and loading it gives it back, for every value a short can hold |
| `Bytes.Int32Digits` | stage6/heapfile.C:433-439 | the four bytes of an int are its digits to the base 256, lowest first, and it is negative if the highest is 128 or more |
| `Bytes.ShortDigits` | stage6/page.h:20-23 | the same for a short |
| `PageView.EmptyRestored` | stage6/page.C:10-18 | a well-formed page without live records is the freshly initialised page: no slots, 1004 bytes free |
| `PageView.RecordLength` | stage6/page.C:55-62 | every record on a page has 1 to 1000 bytes |
| `PageView.FitsMeans` | stage6/page.C:58-63 | a record fits if and only if it and four bytes are at most what records and slots leave of 1004 bytes |
| `PageView.InsertRefines` | stage6/page.C:55-105 | insert adds exactly one entry to the map of live slots, at a slot that was not live, and keeps the page well formed |
| `PageView.DeleteRefines` | stage6/page.C:111-189 | delete removes exactly the named entry, gives its bytes back, and leaves a live last slot |
| `PageView.TrimIs` | stage6/page.C:165-176 | dropping the empty slots that end the directory stops right behind the last live one |
| `PageView.Survives` | stage6/page.C:55-189 | over every run of inserts and deletes a record nobody deletes keeps its slot number and its bytes |
| `PageView.NothingAppears` | stage6/page.C:55-189 | over every run each live record was there before or was inserted by some call |
| `PageView.RunEmptied` | stage6/page.C:111-189 | once all records are gone, in whatever order, slot count and free space are the initial ones |
| `PageLayout.AddTiles` | stage6/page.C:93-97 | a record put at the free pointer leaves the records tiling the bytes below the new free pointer |
| `PageLayout.AddDecodes` | stage6/page.C:93-97 | the bytes then mean the old records and the new one |
| `PageLayout.CloseTiles` | stage6/page.C:143-162 | cutting a record out and moving the rest left leaves no gap and no overlap |
| `PageLayout.CloseDecodes` | stage6/page.C:143-162 | the moved bytes and patched offsets mean every other record, unchanged |
| `SlottedPage.StoredSlotReads` | stage6/page.h:37-46 | writing one slot changes that slot, no other slot and no byte before it |
| `SlottedPage.SoundMeaning` | stage6/page.C:46-49 | the free-space counter is what the records and slots leave over, and slots in use are those of positive length |
| `SlottedPage.SpaceAccounting` | stage6/page.C:55-105 | every byte below the free pointer belongs to exactly one record and lies before the slot directory; freeSpace = 1004 - record bytes - 4 per slot |
| `SlottedPage.InsertMeaning` | stage6/page.C:65-103 | the byte-level effect of insertRecord is the insertion into the map of slots |
| `SlottedPage.DeleteMeaning` | stage6/page.C:111-189 | the byte-level effect of deleteRecord is the removal from the map of slots |
| `SlottedPage.Page.Init` | stage6/page.C:10-18 | a sound page without records |
| `SlottedPage.Page.SetNextPage` | stage6/page.C:34-38 | changes the link and nothing else |
| `SlottedPage.Page.FindSlot` | stage6/page.C:66-75 | finds the first empty slot, or one past the last |
| `SlottedPage.Page.InsertRecord` | stage6/page.C:55-105 | OK if and only if the record's length plus 4 is at most freeSpace, which is 1004 minus the record bytes minus 4 for each slot; then the page gains the record at its first empty slot; otherwise NOSPACE and no change |
| `SlottedPage.Page.PlaceRecord` | stage6/page.C:93-97 | one slot and the bytes behind the free pointer change, nothing else |
| `SlottedPage.Page.DeleteRecord` | stage6/page.C:111-189 | OK exactly when the slot is live, then the page loses that record alone; otherwise INVALIDSLOTNO and no change |
| `SlottedPage.Page.CloseHole` | stage6/page.C:143-159 | the bytes right of the hole move left by its length and the offsets of the records that moved follow |
| `SlottedPage.Page.ShrinkDirectory` | stage6/page.C:165-176 | the last slot and the empty slots before it are given back |
| `SlottedPage.Page.FreeSlot` | stage6/page.C:178-184 | a slot in the middle is marked unused and the directory keeps its length |
| `SlottedPage.Page.FirstRecord` | stage6/page.C:192-212 | the first live slot, or NORECORDS when there is none |
| `SlottedPage.Page.NextRecord` | stage6/page.C:216-238 | the next live slot after the given one, or ENDOFPAGE |
| `SlottedPage.Page.GetRecord` | stage6/page.C:241-254 | the bytes of a live slot, INVALIDSLOTNO for any other |
| `ScanFilter.DifferenceSign` | stage6/heapfile.C:431-440 | the sign of the 32-bit difference is the order of the two integers if and only if the difference fits in 32 bits |
| `ScanFilter.FloatFields` | stage6/heapfile.C:443-450 | a float from its four bytes: sign, exponent and mantissa in units of two to the power of -149, infinities and NaN for the highest exponent |
| `ScanFilter.CompareStringIs` | stage6/heapfile.C:453-457 | strings are equal if and only if they agree on every position up to and including the first zero byte, and otherwise ordered by the first characters that differ |
| `ScanFilter.MatchAny` | stage6/heapfile.C:418-426 | without a filter every record is accepted; a record that ends before its attribute is not |
| `ScanFilter.MatchInteger` | stage6/heapfile.C:431-470 | for each operator, when the difference fits in 32 bits, a record is accepted if and only if its integer is <, <=, =, >=, > or != the value |
| `ScanFilter.MatchOverflow` | stage6/heapfile.C:431-470 | when it does not fit, < and <= hold if and only if the integer is greater, > and >= if and only if it is smaller |
| `ScanFilter.MatchFloat` | stage6/heapfile.C:442-470 | for each operator the same for real numbers; infinities lie outside all of them; with NaN, or the same infinity twice, only != holds |
| `ScanFilter.MatchString` | stage6/heapfile.C:453-470 | for each operator the same for strings, position by position |
| `ScanFilter.CompareIsOrder` | stage6/heapfile.C:429-458 | the comparison matchRec makes of two attribute values is their order if and only if they are not INTEGER or the difference fits in 32 bits; it finds them equal exactly when they are |
| `ScanFilter.HoldsOfOrder` | stage6/heapfile.C:429-470 | an operator holds of the comparison as it does of the order if and only if the difference fits or the operator is EQ or NE |
| `ScanFilter.MatchMeans` | stage6/heapfile.C:418-470 | matchRec accepts a record exactly when the record satisfies the predicate, if and only if the record is too short, or equality alone is asked for, or the difference fits |
| `ScanFilter.OrderSwap` | stage6/join.C:104-112 | swapping the sides swaps the order of two values of any type |
| `HeapView.RemainingNext` | stage6/heapfile.C:341-346 | moving the cursor to the next live slot takes exactly that record off what is still to come |
| `HeapView.RemainingNextPage` | stage6/heapfile.C:348-369 | leaving an exhausted page takes nothing off what is still to come |
| `HeapView.AllRecsLocated` | stage6/heapfile.C:291-384 | every record of the scan order is the bytes of a live slot of a page of the chain |
| `HeapView.AllRecsComplete` | stage6/heapfile.C:291-384 | every live slot of every page is in the scan order |
| `HeapView.AllRecsOnce` | stage6/heapfile.C:291-384 | no record id comes twice in the scan order |
| `HeapView.RestartSeesAll` | stage6/heapfile.C:301-337 | a restarted scan sees the whole file if and only if the first page has a record or the file has none |
| `HeapView.RestartMisses` | stage6/heapfile.C:318-326 | a file with an empty first page and a record behind it, of which a restarted scan sees nothing |
| `HeapView.PickMatches` | stage6/heapfile.C:371-382 | what a scan returns satisfies its predicate |
| `HeapView.PickIs` | stage6/heapfile.C:371-382 | each record is returned as often as it is in the file if it is accepted, and otherwise not at all |
| `HeapView.PickSelects` | stage6/heapfile.C:371-382 | where no difference overflows, the records a scan returns, in order, are those that satisfy its predicate by the order of values |
| `HeapView.PickCounts` | stage6/delete.C:80-90 | the matching and the other records together are all records |
| `HeapView.LinkKeepsFile` | stage6/heapfile.C:541-557 | linking an empty page behind the last keeps the chain acyclic, ending in -1, over distinct pages |
| `HeapView.OversizedInsert` | stage6/heapfile.C:512-517 | lengths 1001 to 1004 pass the size check and fit on no page, not even an empty one |
| `HeapView.InsertByLink` | stage6/heapfile.C:539-585 | a record that does not fit on the last page is inserted on an empty page linked behind it |
| `HeapView.InsertKeepsFile` | stage6/heapfile.C:527-585 | inserting 1 to 1000 bytes keeps the file well formed, whether a page is added or not |
| `HeapView.InsertAddsRec` | stage6/heapfile.C:527-585 | the file gains exactly that record, under the record id the call returns, and every other record keeps its place |
| `HeapView.InsertAppends` | stage6/heapfile.C:527-585 | in a file never deleted from, the new record comes last in scan order |
| `HeapView.InsertBag` | stage6/heapfile.C:527-585 | the multiset of record bytes gains one element |
| `HeapView.InsertionOrder` | stage6/heapfile.C:505-587 | a file built by inserts alone is scanned back in insertion order with the bytes inserted |
| `HeapView.DeleteKeepsFile` | stage6/heapfile.C:396-408 | deleting a live record keeps the file well formed |
| `HeapView.DeleteUnderCursor` | stage6/heapfile.C:396-408 | deleting the record under the cursor removes it from the file and leaves what is still to come as it was |
| `PagedFiles.DeleteKeepsGood` | stage6/heapfile.C:396-408 | chain, page count and record count stay true when a live record is deleted and counted off |
| `PagedFiles.InsertKeepsGood` | stage6/heapfile.C:529-537 | chain, page count and record count stay true when a record is added to the last page and counted |
| `PagedFiles.LinkKeepsGood` | stage6/heapfile.C:541-557 | chain, last page and page count stay true when a page is linked |
| `PagedFiles.PagedFile.Create` | stage6/heapfile.C:5-65 | a heap file with one empty data page, a true header, and nothing pinned |
| `PagedFiles.PagedFile.InsertOn` | stage6/heapfile.C:529-537 | one page of the file changes as insertRecord says, all others stay |
| `PagedFiles.PagedFile.DeleteOn` | stage6/heapfile.C:400-402 | one page of the file changes as deleteRecord says, all others stay |
| `PagedFiles.PagedFile.SetNext` | stage6/heapfile.C:555-557 | one page of the file changes its link |
| `PagedFiles.PagedFile.UnPinPage` | stage6/heapfile.C:559-569 | gives one pin back; a page given back as dirty needs no further saving |
| `HeapFileScans.HeapFileScan.Open` | stage6/heapfile.C:74-120 | a scan that has the whole file before it and holds one pin on the header and one on the first page |
| `HeapFileScans.HeapFileScan.StartScan` | stage6/heapfile.C:210-237 | BADSCANPARM if and only if there is a filter value and the offset is below 0, or the length below 1, or an INTEGER or FLOAT not 4 bytes long; then the old predicate stays |
| `HeapFileScans.HeapFileScan.ScanNext` | stage6/heapfile.C:291-384 | returns the first record still to come that matchRec accepts, once each in chain and slot order, over any number of empty pages; FILEEOF if and only if none is left, and then for ever (`PickSelects` says when what matchRec accepts is what satisfies the predicate) |
| `HeapFileScans.HeapFileScan.CrossPages` | stage6/heapfile.C:347-369 | walks to the next page with a record, skipping empty ones; no page becomes unsaved |
| `HeapFileScans.HeapFileScan.Advance` | stage6/heapfile.C:338-369 | moves to the next record of the file, whatever it holds |
| `HeapFileScans.HeapFileScan.Restart` | stage6/heapfile.C:301-337 | starts over at the first page, and reports end of file when that page is empty |
| `HeapFileScans.HeapFileScan.SeekMatch` | stage6/heapfile.C:341-383 | goes on to the first record that satisfies the predicate |
| `HeapFileScans.HeapFileScan.EndScan` | stage6/heapfile.C:240-253 | gives the current page back; the next call starts over |
| `HeapFileScans.HeapFileScan.Close` | stage6/heapfile.C:123-154 | the scan's pins, and only those, are gone, and every change it made has been handed back as dirty |
| `HeapFileScans.HeapFileScan.MarkScan` | stage6/heapfile.C:260-266 | remembers the position and what is still to come from it |
| `HeapFileScans.HeapFileScan.ResetScan` | stage6/heapfile.C:268-288 | from any position, what is still to come is what it was at the mark, and the cursor is on the marked record; with a mark taken while no page was current, OK if and only if the scan has the page number it had then, else BADPAGENO, and the scan stays sound if and only if no page has become current since |
| `HeapFileScans.HeapFileScan.GetRecord` | stage6/heapfile.C:390-393 | the bytes of the record under the cursor; INVALIDSLOTNO if and only if there is no longer one |
| `HeapFileScans.HeapFileScan.GetRecordAt` | stage6/heapfile.C:168-202 | the bytes of any record of the file by its record id, moving the pin to its page; INVALIDSLOTNO for a slot that is not live; for a page the file does not have, BADPAGENO or UNIXERR, with the cursor where it was and the pin on its page given up |
| `HeapFileScans.HeapFileScan.DeleteRecord` | stage6/heapfile.C:396-408 | OK if and only if the cursor is on a live record, which then leaves the file; the record count goes down in any case |
| `HeapFileScans.HeapFileScan.CountOf` | stage6/heapfile.C:158-161 | the record count of the header is the number of records a full scan returns |
| `HeapFileScans.HeapFileScan.HeaderOf` | stage6/heapfile.C:541-557 | the header names the first and the last page and how many there are; each page links to the next, the last to -1 |
| `InsertFileScans.InsertFileScan.Open` | stage6/heapfile.C:472-488 | stands on the last page with one pin there and one on the header, however long the chain is |
| `InsertFileScans.InsertFileScan.InsertRecord` | stage6/heapfile.C:505-587 | 1 to 1000 bytes always succeed and enter the file; 1001 to 1004 link an empty page, return NOSPACE and leave the record count; more is INVALIDRECLEN and no change; a page is linked if and only if the record plus 4 bytes is more than the last page has left; header, chain and pins stay true throughout |
| `InsertFileScans.InsertFileScan.LinkNewPage` | stage6/heapfile.C:540-574 | the chain grows by one empty page which becomes the current one, and the old last page is given back as dirty |
| `InsertFileScans.InsertFileScan.Close` | stage6/heapfile.C:490-502 | the inserter's pins, and only those, are gone, and every change has been handed back as dirty |
| `Loading.TuplesJoined` | stage6/load.C:65-71 | the tuples, each of the given width, are side by side the data file but for a rest shorter than a tuple |
| `Loading.Load` | stage6/load.C:16-84 | a file gains exactly the tuples of the data file, behind its other records if it has no empty slots; OK if and only if the tuples have at most 1000 bytes or there is none; otherwise no record is added and two pins are left |
| `Loading.LoadTuple` | stage6/load.C:66-70 | one tuple enters the file, or NOSPACE or INVALIDRECLEN and no record more |
| `Loading.NextRecord` | stage6/print.C:128-130 | scanNext followed by getRecord gives the bytes of the next record still to come |
| `Loading.Print` | stage6/print.C:78-149 | reads every record of the file, in scan order, once; the file and its pins are as before |
| `Loading.LoadAndPrint` | stage6/load.C:16-84 | round trip: a new relation that has been loaded is read back as exactly the tuples of the data file, in its order |
| `DeleteOperator.DeleteStep` | stage6/delete.C:80-90 | deleting a match under the cursor keeps all records that do not match and leaves as matches exactly those still to come |
| `DeleteOperator.CountTruthful` | stage6/heapfile.C:396-408 | after deleteRecord the header tells the truth if and only if the cursor was on a live record |
| `DeleteOperator.QU_Delete` | stage6/delete.C:18-97 | leaves exactly the records matchRec does not accept, which `MatchInteger`, `MatchFloat` and `MatchString` say in arithmetic, with their record ids and bytes, on the same chain of pages; lowers the record count by the number deleted; BADSCANPARM for exactly the senseless parameters, and then no change |
| `DeleteOperator.AllDeleted` | stage6/delete.C:79-96 | when no match is left, what is left is what did not match, and the counts add up |
| `DeleteOperator.DeleteMatches` | stage6/delete.C:79-90 | the loop deletes every match and skips none |
| `DeleteOperator.DeleteMatch` | stage6/delete.C:87-89 | the cursor is on a live record at every call, and the scan goes on as if nothing had happened |
| `JoinOperator.FlippedScan` | stage6/join.C:104-127 | the inner scan with the flipped operator accepts an inner record exactly when outer.attr1 op inner.attr2 holds, for all six operators, if and only if the difference matchRec takes fits in 32 bits or does not matter |
| `JoinOperator.JoinsInteger` | stage6/join.C:104-127 | the join condition on INTEGER attributes, for each operator by their values |
| `JoinOperator.JoinsFloat` | stage6/join.C:104-127 | the join condition on FLOAT attributes, for each operator by their values, with infinities and NaN |
| `JoinOperator.JoinsString` | stage6/join.C:104-127 | the join condition on STRING attributes, for each operator over the whole length or up to the zero byte that ends both |
| `JoinOperator.JoinsShort` | stage6/join.C:122-127 | an inner record that ends before its attribute joins with nothing |
| `JoinOperator.RowsArePairs` | stage6/join.C:119-161 | without overflow the rows made for one outer record are the projections of the pairs that satisfy the condition |
| `JoinOperator.ScanIsJoin` | stage6/join.C:114-162 | without overflow the rows made in both loops are the join by its definition over all pairs |
| `JoinOperator.ScanCounts` | stage6/join.C:114-162 | each row comes out as often as there are pairs of an outer and an inner record that the scan returns and that project to it |
| `JoinOperator.RowsAreScanHits` | stage6/join.C:129-161 | projecting what the inner scan returns gives the rows made for that outer record |
| `JoinOperator.ProjectLength` | stage6/join.C:74-88 | an output record has the sum of the attribute lengths |
| `JoinOperator.ProjectAt` | stage6/join.C:136-154 | the k-th projected attribute lies behind those before it, with the bytes it has in its own relation |
| `JoinOperator.SelfJoinProjects` | stage6/join.C:140-153 | when every projected attribute names the outer relation, as in a join of a relation with itself, the row does not depend on the inner record |
| `JoinOperator.FillOutput` | stage6/join.C:136-154 | the output buffer holds the projected attributes side by side, each from the relation it names |
| `JoinOperator.EmitRow` | stage6/join.C:136-160 | one output record enters the result relation |
| `JoinOperator.JoinOne` | stage6/join.C:119-161 | the result gains the projections of all inner records the scan for the outer one returns |
| `JoinOperator.JoinCurrent` | stage6/join.C:119-161 | the same with the outer scan, on the same relation or another, left where it is with its pins |
| `JoinOperator.RunOuter` | stage6/join.C:114-162 | the result gains the rows of every outer record |
| `JoinOperator.QU_NL_Join` | stage6/join.C:24-165 | the result gains exactly the rows ScanCounts counts, which where no difference overflows are those of all pairs that satisfy the condition, as JoinsInteger, JoinsFloat and JoinsString put it; the two source relations may be one; neither changes; ATTRTYPEMISMATCH if and only if type or length differ; every pin is given back |
| `SortView.FieldCmpIsOrder` | stage6/sort.C:20-50 | reccmp is the order of two values, either way round, if and only if they are not INTEGER or both differences fit in 32 bits |
| `SortView.OverflowCycle` | stage6/sort.C:27-29 | three integers of which reccmp finds each smaller than the next and the last smaller than the first |
| `SortView.LeqMeans` | stage6/sort.C:20-50 | the order of attribute values: integers and numbers by <=, strings by the first byte that differs |
| `SortView.ValueCmpSwap` | stage6/sort.C:20-50 | the order of attribute values is antisymmetric, for every type |
| `SortView.LeqTransitive` | stage6/sort.C:20-50 | the order of attribute values that the sort is after is transitive, for every type |
| `SortView.LeqTotal` | stage6/sort.C:20-50 | any two attribute values compare in that order |
| `SortView.ReccmpPreorder` | stage6/sort.C:20-50 | on values whose differences fit, reccmp is antisymmetric and transitive |
| `SortView.SortedMeans` | stage6/sort.C:20-50 | of two records of a sorted sequence the bytes of the earlier one's attribute are not after those of the later one's |
| `SortView.BestIsSmallest` | stage6/sort.C:318-343 | where no difference overflows, the run chosen by next() has a record no other run's record is smaller than |
| `SortView.MergedSorted` | stage6/sort.C:300-355 | where no difference overflows, merging sorted runs gives a non-decreasing sequence |
| `SortView.MergedBag` | stage6/sort.C:300-355 | merging loses and adds nothing |
| `SortRuns.FoundAgain` | stage6/sort.C:251-259 | a record of the source file is found again under its record id |
| `SortRuns.SortedInOrder` | stage6/sort.C:198-207 | where no difference overflows, the sorted buffer is in order |
| `SortRuns.SortDisorders` | stage6/sort.C:198-207 | a buffer of two integers that sorting puts in the wrong order |
| `SortRuns.SortedContents` | stage6/sort.C:194-207 | sorting the buffer keeps the multiset of the records it names, and puts them in order where no difference overflows |
| `SortRuns.CopyRecords` | stage6/sort.C:249-261 | the run file holds the records the buffer names, in buffer order |
| `SortRuns.WriteRun` | stage6/sort.C:236-265 | the same, with the run closed and the source file as it was |
| `SortRuns.GenerateRun` | stage6/sort.C:194-266 | a new closed heap file with exactly the records of the buffer, in order where no difference overflows, or the error of creating it, if and only if there is one |
| `SortBuilding.FillBuffer` | stage6/sort.C:148-172 | the buffer describes the next records of the source file, as many as it can hold or as there are, and the scan has moved past them |
| `SortBuilding.SplitFile` | stage6/sort.C:143-180 | every record of the source file is in exactly one run, the runs are sorted where no difference overflows, and the loop ends |
| `SortBuilding.StartScans` | stage6/sort.C:275-292 | every run is before its first record and has nothing to go back to |
| `SortBuilding.SortedOutput` | stage6/sort.C:129-187 | with every run before its first record, what next() will return is the whole source file, sorted where no difference overflows; what a mark taken now would bring back is nothing |
| `SortBuilding.BuildSorted` | stage6/sort.C:129-187 | splitting the source and opening the merge: a permutation of its records, sorted where no difference overflows, with the source's pins as before, or an error and two pins left |
| `SortBuilding.SortFile` | stage6/sort.C:91-187 | BADSORTPARM if and only if the offset is below 0, or the length below 1, or an INTEGER or FLOAT not 4 bytes long; INSUFMEM if and only if the parameters are good and there is room for fewer than 2 items; on success what next() has to return is a permutation of the source records, sorted if no difference of two INTEGER sort attributes overflows, in files of the sort's own, and the source file's pins are as before; an error of creating a temporary file is passed on, and two pins are left |
| `SortClients.Drain` | stage6/sort.C:300-355 | calling next() until FILEEOF returns what was left, in that order, and a mark stays what it was |
| `SortClients.Take` | stage6/sort.C:300-355 | n calls of next() return the first n of what was left, or all; what a mark set then would bring back starts with the last record returned |
| `SortClients.SortAll` | stage6/sort.C:91-355 | sorting a file and reading to the end gives a permutation of its records: strings ascending byte by byte, floats by <=, and integers by <= where no difference of two of them leaves 32 bits; errors are those of the parameters or of creating a temporary file |
| `SortClients.ReadAgain` | stage6/sort.C:361-412 | after any number of records, setMark, any number more and gotoMark, next() returns the record returned last before the mark and all behind it; nothing if the last call before the mark was past the end |
| `SortClients.SortAndReadAgain` | stage6/sort.C:91-412 | the same from the source file on: the sorted sequence comes again from the marked record on; a mark before the first record brings back nothing |
| `SortedFiles.Fetch` | stage6/sort.C:320-331 | the run's next record is in memory, and what the run has to deliver is unchanged |
| `SortedFiles.FindSmallest` | stage6/sort.C:313-343 | the first run whose next record is smallest |
| `SortedFiles.TakeSmallest` | stage6/sort.C:300-355 | the merge loses its head, which is returned |
| `SortedFiles.SortedFile.Next` | stage6/sort.C:300-355 | returns the head of what is left, FILEEOF if and only if nothing is; a mark stays what it was |
| `SortedFiles.SortedFile.SetMark` | stage6/sort.C:361-376 | marks the record returned last, if there is one, and the rest as it is now |
| `SortedFiles.SortedFile.GotoMark` | stage6/sort.C:383-412 | whatever has been read since, what is left is the record last returned before the mark followed by the rest as it was at the mark |
| `FileLayer.FreeListIs` | part3/db.C:238-285 | a list of links that repeats no page and ends in -1 is the only one there is |
| `FileLayer.Partition` | part3/db.C:238-330 | pages 1 to numPages - 1 are either allocated or free, never both, and firstPage is never free |
| `FileLayer.NewFileSound` | part3/db.C:155-180 | a created file is sound and has no allocated page |
| `FileLayer.WriteKeepsSound` | part3/db.C:400-408 | writing a page that is not free keeps the free list |
| `FileLayer.AllocateTheorem` | part3/db.C:238-285 | on every outcome the file stays sound and allocated pages keep their bytes; OK allocates exactly one page, which was not allocated before; a failure allocates none |
| `FileLayer.AllocateOrder` | part3/db.C:238-285 | the page is the first of the free list, or, if and only if the list is empty, one more at the end of the file, filled with zeros; only a failed read or write prevents it |
| `FileLayer.DisposeTheorem` | part3/db.C:292-330 | on every outcome the file stays sound; OK moves exactly the given page to the head of the free list |
| `FileLayer.DisposeStatus` | part3/db.C:292-330 | unless a read or write fails, OK if and only if the page is a user page other than the first of the file, else BADPAGENO and no change |
| `FileLayer.DisposedThenAllocated` | part3/db.C:238-330 | the page disposed of last is the next to be allocated, and then the free list is as it was |
| `FileLayer.DoubleDispose` | part3/db.C:292-330 | after disposePage, whatever it returns, the file is sound if and only if the page was not free already or nothing was written |
| `FileLayer.RingTied` | part3/db.C:310-325 | once a free page has been linked to the head of the free list, the list is no longer one, whether or not the header has been written too |
| `FileLayer.DisposedTwice` | part3/db.C:292-330 | a sound file in which a page that is free is disposed of with OK, after which the file is not sound |
| `FileLayer.RingHasNoEnd` | part3/db.C:310-320 | a free list tied into a ring has no end |
| `FileLayer.UnixFiles.IntRead` | part3/db.C:336-356 | the page as it is on disk, or a failure, which is counted |
| `FileLayer.UnixFiles.IntWrite` | part3/db.C:362-382 | the page is replaced, or a failure, which is counted, and no change |
| `FileLayer.UnixFiles.ReadPage` | part3/db.C:387-395 | BADPAGENO exactly for page numbers below 1 |
| `FileLayer.UnixFiles.WritePage` | part3/db.C:400-408 | BADPAGENO exactly for page numbers below 1 |
| `FileLayer.UnixFiles.AllocatePage` | part3/db.C:238-285 | leaves one of the outcomes AllocateTheorem and AllocateOrder are about, whichever read or write fails; without a failure it is OK |
| `FileLayer.UnixFiles.DisposePage` | part3/db.C:292-330 | leaves one of the outcomes DisposeTheorem is about, whichever read or write fails; without a failure, OK if and only if 1 <= page < numPages and the page is not firstPage |
| `Clock.FirstTakeable` | part3/buf.C:89-133 | the first frame in clock order that is invalid, or unpinned and not referenced |
| `Clock.FirstChance` | part3/buf.C:88-133 | the first frame in clock order that is empty, or neither pinned nor referenced, is taken; the pages before it lose their reference and no other does |
| `Clock.SecondChance` | part3/buf.C:88-133 | a referenced page is taken only when there is no such frame: then the first unpinned one is, and every page has lost its reference |
| `Clock.PlaceIs` | part3/buf.h:111-114 | clock order is counting round modulo the number of frames |
| `Clock.VictimExists` | part3/buf.C:83-138 | the clock finds no frame if and only if every frame is valid and pinned, and the one it finds is not in use |
| `Clock.UnderHand` | part3/buf.C:88-133 | looking at the frame under the hand either finds the clock's choice or rules the frame out; an invalid frame is met in the first round |
| `Clock.NothingFound` | part3/buf.C:135-137 | two rounds without a find mean that there is none |
| `Clock.HandAdvances` | part3/buf.h:111-114 | after k steps the hand is k frames further round |
| `Clock.AdvancingClock.Search` | stage6/buf.C:67-130 | picks the frame the clock rule picks and BUFFEREXCEEDED exactly when it picks none, although found is not set for an invalid frame |
| `BufferHash.BufHashTbl.constructor` | part3/bufHash.C:22-29 | an empty table |
| `BufferHash.BufHashTbl.Insert` | part3/bufHash.C:51-72 | the table gains the entry; HASHTBLERROR and no change if and only if the page has one |
| `BufferHash.BufHashTbl.Lookup` | part3/bufHash.C:81-94 | the frame of the page; HASHNOTFOUND if and only if the page has no entry |
| `BufferHash.BufHashTbl.Remove` | part3/bufHash.C:102-123 | the table loses the entry of the page and no other; HASHTBLERROR if and only if there was none |
| `BufferHash.BufHashTbl.Unlink` | part3/bufHash.C:108-114 | unlinking a bucket, first or not, leaves every list in order |
| `BufferHash.Unlinked` | part3/bufHash.C:108-114 | the list that skips the bucket holds all the others in order |
| `BufferView.EvictWired` | part3/buf.C:111-131 | evicting keeps the hash table one-to-one with the valid frames |
| `BufferView.EvictTidy` | part3/buf.C:111-131 | evicting overwrites no free-list link: every file's free list and allocated pages stay |
| `BufferView.EvictionVisible` | part3/buf.C:111-131 | eviction keeps what clients see if and only if the frame is dirty or agrees with the disk |
| `BufferView.EvictCoherent` | part3/buf.C:111-131 | evicting an unpinned frame changes no page as clients see it, no pin count and no pinned page's frame |
| `BufferSteps.NoFrameFacts` | part3/buf.C:83-138 | when no frame is found nothing that clients see has changed; BUFFEREXCEEDED if and only if all frames are valid and pinned |
| `BufferSteps.EmptiedFacts` | part3/buf.C:83-138 | the frame found is empty and clients cannot tell that anything has happened |
| `BufferSteps.ReadKeeps` | part3/buf.C:149-212 | on every outcome the hash table matches the frames, so HASHTBLERROR cannot come up; no page changes as clients see it; success adds one pin to that page alone |
| `BufferSteps.ReadStatus` | part3/buf.C:149-212 | BADPAGENO only for a page number below 1; BUFFEREXCEEDED if and only if the page is not in the pool and every frame is pinned; OK if it is in the pool |
| `BufferSteps.ReadReferences` | part3/buf.h:66-74 | a page that has been read is referenced |
| `BufferSteps.UnpinKeeps` | part3/buf.C:222-250 | OK if and only if the page is pinned, and then one pin less; no page changes |
| `BufferSteps.CleanUnpin` | part3/buf.C:264-307 | after the last pin has been given back as clean, eviction keeps what clients see if and only if the frame was dirty or agreed with the disk |
| `BufferSteps.CleanUnpinFlushed` | part3/buf.C:326-361 | a successful flushFile then leaves on disk what clients saw in exactly the same cases |
| `BufferSteps.LostPage` | part3/buf.C:264-307 | a new file and one frame: allocPage, a clean unPinPage and eviction, after which the page has other bytes than its client saw |
| `BufferSteps.EvictDisk` | part3/buf.C:111-131 | eviction writes the page of the frame, if dirty, and no other page |
| `BufferSteps.FlushedDisk` | part3/buf.C:326-361 | flushing frames writes the page of a frame if and only if the frame is among them and dirty |
| `BufferSteps.AllocKeeps` | part3/buf.C:264-307 | the page handed out was nobody's and is not in the pool, so HASHTBLERROR cannot come up; it is pinned; no other page changes |
| `BufferSteps.AllocStatus` | part3/buf.C:264-307 | once the file layer has a page, BUFFEREXCEEDED if and only if every frame is pinned |
| `BufferSteps.AllocReferences` | part3/buf.h:66-74 | a page that has been allocated is referenced |
| `BufferSteps.AllocWired` | part3/buf.C:290-301 | the hash table stays right if and only if the call does not end in HASHTBLERROR |
| `BufferSteps.DisposeWired` | part3/buf.C:309-324 | whatever page is disposed of, the hash table stays right and the page is not in the pool |
| `BufferSteps.DisposeKeeps` | part3/buf.C:309-324 | no other page changes, whatever the file layer answers |
| `BufferSteps.DisposeFrees` | part3/buf.C:309-324 | every page clients may use is freed, but the first of its file, unless a read or write fails |
| `BufferSteps.FlushKeeps` | part3/buf.C:326-361 | no page changes as clients see it, even when the call stops at a pinned page or a failed write; after OK no page of the file is in the pool and the disk holds what clients see; BADBUFFER cannot come up |
| `BufferSteps.FlushStatus` | part3/buf.C:326-361 | unless a write fails, OK if and only if no page of the file is pinned, else PAGEPINNED |
| `BufferSteps.ChangeKeeps` | part3/buf.h:118 | a client that writes into a pinned page changes that page alone |
| `BufferSteps.AllSaved` | part3/buf.C:56-75 | the destructor leaves on disk what clients saw of every page that is not owed and whose write has not failed |
| `BufferSteps.SavedPages` | part3/buf.C:56-75 | the pages on disk after the destructor: the frame's bytes for each dirty frame whose write has succeeded, unchanged for all others |
| `BufferRuns.StepKeeps` | part3/buf.C:83-361 | every call, whatever its outcome, keeps all invariants and does to each page's content, pins and frame what its kind of call does |
| `BufferRuns.RunKeeps` | part3/buf.C:83-361 | after any run the hash table matches the frames, no frame holds a free page, the files are sound, and frames agree with the disk unless dirty or owed |
| `BufferRuns.RunCoherent` | part3/buf.C:83-361 | after any run a page that was not disposed of holds what was last written to it |
| `BufferRuns.RunPins` | part3/buf.C:149-307 | after any run the pin count is the successful reads and allocations minus the successful unpins |
| `BufferRuns.RunStaysPut` | part3/buf.C:83-307 | a page stays in its frame as long as it is pinned and not disposed of |
| `BufferRuns.RunThenFlush` | part3/buf.C:326-361 | after any run and a successful flushFile, the disk holds what was last written |
| `BufferRuns.RunThenClose` | part3/buf.C:56-75 | after any run and the destructor, the disk holds what was last written to every page nobody still owes and whose write has not failed |
| `BufferManager.BufMgr.constructor` | part3/buf.C:34-53 | every frame empty, the table empty, all invariants hold |
| `BufferManager.BufMgr.AllocBuf` | part3/buf.C:83-138 | takes exactly the clock's choice and empties it, or fails as the step relation allows |
| `BufferManager.BufMgr.Vacate` | part3/buf.C:111-131 | the frame's page leaves the pool, written back first if dirty; if the write fails nothing changes |
| `BufferManager.BufMgr.ReadPage` | part3/buf.C:149-212 | takes the step ReadKeeps is about and returns the page's frame |
| `BufferManager.BufMgr.UnPinPage` | part3/buf.C:222-250 | takes the step UnpinKeeps is about |
| `BufferManager.BufMgr.AllocPage` | part3/buf.C:264-307 | takes the step AllocKeeps is about; the pool stays valid if and only if the call does not end in HASHTBLERROR |
| `BufferManager.BufMgr.DisposePage` | part3/buf.C:309-324 | takes the step DisposeKeeps is about; unless a read or write fails, OK if and only if 1 <= page < numPages and the page is not firstPage |
| `BufferManager.BufMgr.FlushFile` | part3/buf.C:326-361 | takes the step FlushKeeps is about |
| `BufferManager.BufMgr.Close` | part3/buf.C:56-75 | writes every dirty page, passing over failures; exactly the pages whose write has failed, as many as failures were counted, are left as they were, which is what SavedPages and AllSaved are about |
| `LaterBuffer.ReadOkSame` | stage6/buf.C:134-169 | a successful readPage takes the step of the other buffer manager, with the hand one frame further |
| `LaterBuffer.AllocOkSame` | stage6/buf.C:254-275 | so does a successful allocPage |
| `LaterBuffer.UnpinKeeps6` | stage6/buf.C:172-195 | OK if and only if the page is pinned, and then one pin less; no page changes, even when a page nobody has pinned is marked as changed |
| `LaterBuffer.InstallSame` | stage6/buf.C:93-130 | a page put into the chosen frame gives the same state whether or not the frame has been cleared first |
| `LaterBuffer.ReadWired6` | stage6/buf.C:134-169 | after readPage the hash table matches the frames if and only if the call has succeeded, or the page was in the pool, or no frame with a page in it was taken |
| `LaterBuffer.AllocWired6` | stage6/buf.C:254-275 | after allocPage the hash table matches the frames if and only if the call has succeeded, or the file had no page, or there was no frame |
| `LaterBuffer.ReadLosesEntry` | stage6/buf.C:154-157 | one frame with a clean page: a read that fails leaves the page in a valid frame and out of the table |
| `LaterBuffer.LaterBufMgr.AllocBuf` | stage6/buf.C:67-131 | takes the frame Search finds, removes its entry, then writes it; every outcome is a TakeStep |
| `LaterBuffer.LaterBufMgr.ReadPage` | stage6/buf.C:134-169 | takes the step ReadWired6 is about, and keeps the table right under exactly its condition |
| `LaterBuffer.LaterBufMgr.UnPinPage` | stage6/buf.C:172-195 | takes the step UnpinKeeps6 is about |
| `LaterBuffer.LaterBufMgr.AllocPage` | stage6/buf.C:254-275 | takes the step AllocWired6 is about, and keeps the table right under exactly its condition |
| `LaterRuns.ReadRefines` | stage6/buf.C:134-169 | a readPage that loses nothing takes the step of the other buffer manager from the advanced hand, up to where the hand ends when there is no frame |
| `LaterRuns.AllocRefines` | stage6/buf.C:254-275 | so does allocPage |
| `LaterRuns.StepKeeps6` | stage6/buf.C:67-275 | after every call the invariants hold if and only if it has lost nothing, and then it has done to each page's content, pins and frame what its kind of call does |
| `LaterRuns.RunCoherent6` | stage6/buf.C:67-275 | after any run that loses nothing a page that was not disposed of holds what was last written to it, and its pin count is what the calls say |
| `PageImages.IntRoundTrip` | stage6/page.h:45-46 | storing an int as four bytes and loading it gives it back |
| `PageImages.ImageRoundTrip` | part3/db.h:119-123 | reading the first three words of a page and putting them back loses no byte |
| `PageImages.AssembledDecodes` | stage6/page.h:37-46 | a sound page, its fields written out in order, is read back as the slots and records it holds |
| `PageImages.PageDecodes` | stage6/page.h:37-46 | the bytes of a page object are read as its view, if its page numbers fit in 32 bits |
| `PageImages.RecordOnDisk` | stage6/page.h:37-46 | record k lies where the slot four bytes below the one before, counted down from byte 1004, says: offset first, then length |
| `PageImages.ZeroBytes` | part3/db.C:262-265 | a page of zeros is 1024 zero bytes |
| `PageImages.EveryViewDecoded` | stage6/page.C:55-105 | for all slots and records that fit on a page there are 1024 bytes that are read as them |
| `PoolFiles.StepShows` | part3/buf.C:83-361 | every call, whatever its outcome, does to what a client sees of one file, its pages read by their layout on disk, what it does to a PagedFile; a pin is given back with OK exactly if the client holds one, and an allocated page is new to the file |
| `PoolFiles.RunShows` | part3/buf.C:83-361 | the same over any run, with any other files in the pool and any evictions, flushes and failures in between |
| `PoolFiles.OnlyOwnCalls` | part3/buf.C:83-361 | only the calls on the file itself make a difference to it |
| `PoolFiles.ReadIs` | stage6/heapfile.C:194-195 | readPage on a PagedFile is the pool's readPage as its client sees it |
| `PoolFiles.UnPinIs` | stage6/heapfile.C:559-569 | unPinPage on a PagedFile is the pool's unPinPage as its client sees it |
| `PoolFiles.AllocIs` | stage6/heapfile.C:541-548 | allocating a page and initialising it is the pool's allocPage followed by writing the page's bytes |
| `PoolFiles.InsertIs` | stage6/heapfile.C:529-537 | inserting on a page is writing bytes that are read as the new slots |
| `PoolFiles.DeleteIs` | stage6/heapfile.C:400-402 | deleting on a page is writing bytes that are read as the new slots |
| `PoolFiles.SetNextIs` | stage6/heapfile.C:555-557 | linking a page is writing bytes that are read as the new link |
| `PoolFiles.ScanSettles` | stage6/heapfile.C:123-154 | a scan gives the last pin of a changed page back as dirty, for its data page and for the header |
| `PoolFiles.InserterSettles` | stage6/heapfile.C:490-502 | so does an inserter |

## Left out

- The stack of files and scans assumes that buffer calls succeed, so what scans and inserts do when the pool is full or a read fails is not modelled; `RunShows` says that a pool whose calls succeed shows such a file. Page numbers that do not fit in 32 bits have no bytes on disk.
- Create: openFile, closeFile and the allocation of the header page are not modelled; a heap file starts with its header and one empty page.
- PagedFile.AllocPage: allocPage, init and setNextPage(-1) are one step, and which number the new page gets is left to the file layer.
- Open: a heap file or scan that cannot be opened is not modelled, and HeapFile and its two subclasses are flattened into one class each.
- ResetScan: only after some markScan; without one the code reads fields nobody has set.
- GetRecord: record bytes are copied; a pointer into a page that is unpinned or changed afterwards is not modelled. Without a current page or before the first record the code reads through a null pointer or outside the directory.
- InsertRecord: records of length 0 or less are not modelled; the page code demands a positive length of its callers.
- DeleteRecord: a slot number below 0 is not modelled; the page code demands one of its callers.
- QU_Delete: looking the attribute up in the catalog and converting the search value from text are not modelled; the search value comes as bytes.
- QU_NL_Join: catalog lookups are not modelled, and type and length of the join attributes are those of the catalog; attributes lie inside their records, and the result is another relation than the two joined.
- SortFile: sort attributes lie inside their records and a FLOAT is a finite number; the code reads past the end of a shorter record. When a difference overflows nothing is promised about the order, only about the multiset. Memory never runs out, file names are not modelled, and the destructor, which closes and destroys the runs, is left out.
- Probe: how creating and destroying the temporary file under its name ends is a parameter; afterwards the open gives a new empty heap file, as the comment in the code intends, although the HeapFile constructor does not create files.
- QSort: the library sort is taken to be an insertion sort, so it is stable here; nothing that is proved depends on that.
- IntWrite: a write that fails leaves the page as it was; torn pages are not modelled.
- BufMgr.constructor: the initial contents of the pool are zeros, and the number of hash buckets is computed without rounding.
- GetRecordAt: not for a slot number below 0, and not for the number of the header page, whose bytes are not those of a page of records.
- Load: catalog lookups and reading the data file are not modelled; its bytes come as a parameter. A width of 0, for which the loop never ends, is left out.
- Print: the records are returned instead of printed.
- LaterBufMgr: flushFile and disposePage of stage6 are those of part3 and take the same steps, but are not methods of this class; what any call does to a pool whose table is already wrong is not modelled.
- DisposeKeeps: says nothing about the page itself when the file layer fails, since its frame is dropped before the file layer is asked.
- Files stay open and keep their identity; the table of open files, open counts and file objects are not part of this model.
- Page numbers, counters and pin counts are unbounded; overflow of 32 bits is not modelled, except in the hash function and where attributes are compared.
- Buffer statistics, markDirty, printing and debugging output.
- Catalog, parser, the other operators and utilities, the sort-merge and hash joins, which produce nothing, and the older copies of page, heap file, buffer and file code in Stage4 and part3.
