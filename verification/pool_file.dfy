/** A heap file's pages, seen through the buffer manager: the calls of the buffer manager do to what a client sees of a
    file what `PagedFile` says its calls do. */
module PoolFiles {
  import opened Bytes
  import opened FileLayer
  import opened BufferView
  import opened BufferSteps
  import opened BufferRuns
  import opened PageView
  import opened PagedFiles
  import opened HeapFileScans
  import opened InsertFileScans
  import opened ScanFilter
  import opened PageImages

  /** What `PagedFile` keeps of a file: what its pages mean, the pins held, and the pages changed and not yet given
      back as dirty. */
  datatype FileState = FileState(content: map<int, PageView>, pins: multiset<int>, unsaved: set<int>)

  /** The pool shows the file: clients see the pages that are known, hold the pins, and owe the unsaved pages. */
  ghost predicate Shows(s: State, owed: set<Key>, f: FileId, p: FileState) {
    forall no :: ShowsPage(s, owed, Key(f, no), p)
  }

  ghost predicate ShowsPage(s: State, owed: set<Key>, k: Key, p: FileState) {
    && (k.pageNo in p.content ==>
        Usable(s, k) && Content(s, k).Some? && p.content[k.pageNo] == Decoded(Content(s, k).value))
    && p.pins[k.pageNo] == Pins(s, k)
    && (k.pageNo in p.unsaved <==> k in owed)
  }

  /** What a call on the file does.  A page that has just been allocated is not known before its client fills it. */
  ghost function After(p: FileState, f: FileId, ev: Event): FileState {
    match ev
    case Read(k, status) =>
      if k.file == f && status == OK then p.(pins := p.pins + multiset{k.pageNo}) else p
    case Unpin(k, dirty, status) =>
      if k.file == f && status == OK then
        p.(pins := p.pins - multiset{k.pageNo}, unsaved := if dirty then p.unsaved - {k.pageNo} else p.unsaved)
      else p
    case Alloc(k, _, _, status) =>
      if k.file == f && status == OK then p.(pins := p.pins + multiset{k.pageNo}, unsaved := p.unsaved + {k.pageNo}) else p
    case Dispose(k, _) =>
      if k.file == f then
        p.(content := p.content - {k.pageNo}, pins := p.pins[k.pageNo := 0], unsaved := p.unsaved - {k.pageNo})
      else p
    case Flush(_, _, _) => p
    case Change(k, x) =>
      if k.file == f then p.(content := p.content[k.pageNo := Decoded(x)], unsaved := p.unsaved + {k.pageNo}) else p
  }

  /** One call, whatever its outcome: the pool goes on showing the file.  Giving a pin back succeeds if and only if the
      client holds one, and a page handed out is one the file did not have. */
  lemma StepShows(s: State, owed: set<Key>, ev: Event, t: State, f: FileId, p: FileState)
    requires Inv(s, owed) && Allowed(s, ev) && Settles(s, owed, ev) && Step(s, ev, t) && Shows(s, owed, f, p)
    ensures Shows(t, Owed(owed, ev), f, After(p, f, ev))
    ensures ev.Unpin? && ev.k.file == f ==> (ev.status == OK <==> ev.k.pageNo in p.pins)
    ensures ev.Alloc? && ev.k.file == f && ev.status == OK ==> ev.k.pageNo !in p.content && ev.k.pageNo !in p.pins
  {
    hide Wired, Tidy, Coherent, Usable, Content, Pins, Step, Allowed, Settles, StaysPut;
    if ev.Unpin? && ev.k.file == f {
      UnpinOutcome(s, owed, ev, t);
      assert ShowsPage(s, owed, Key(f, ev.k.pageNo), p);
    }
    if ev.Alloc? && ev.k.file == f && ev.status == OK {
      AllocOutcome(s, owed, ev, t);
      assert ShowsPage(s, owed, Key(f, ev.k.pageNo), p);
    }
    if ev.Change? {
      ChangeOutcome(s, ev, t);
    }
    forall no
      ensures ShowsPage(t, Owed(owed, ev), Key(f, no), After(p, f, ev))
    {
      StepKeeps(s, owed, ev, t, Key(f, no));
      assert ShowsPage(s, owed, Key(f, no), p);
      PageShown(s, owed, ev, t, Key(f, no), f, p);
    }
  }

  lemma UnpinOutcome(s: State, owed: set<Key>, ev: Event, t: State)
    requires Inv(s, owed) && ev.Unpin? && Step(s, ev, t) && Allowed(s, ev)
    ensures ev.status == OK <==> Pins(s, ev.k) > 0
  {
    hide Wired, Tidy, Coherent, Pins, UnpinStep;
    UnpinKeeps(s, ev.k, ev.dirty, ev.status, t, owed);
  }

  lemma AllocOutcome(s: State, owed: set<Key>, ev: Event, t: State)
    requires Inv(s, owed) && ev.Alloc? && Allowed(s, ev) && Step(s, ev, t) && ev.status == OK
    ensures !Usable(s, ev.k) && Pins(s, ev.k) == 0
  {
    hide Wired, Tidy, Coherent, Pins, AllocStep, Usable;
    AllocKeeps(s, ev.k.file, ev.fileStatus, ev.k.pageNo, ev.disk, ev.status, t, owed);
    FileAgreed(s, ev.k.file, ev.fileStatus, ev.k.pageNo, ev.disk, t);
    NotInTable(s, ev.k);
  }

  lemma FileAgreed(s: State, file: FileId, fileStatus: Status, pageNo: int, e: Disk, t: State)
    requires Wired(s) && file in s.files && AllocStep(s, file, fileStatus, pageNo, e, OK, t)
    ensures fileStatus == OK
  {
    hide Wired, AllocateOutcome, Emptied;
  }

  lemma NotInTable(s: State, k: Key)
    ensures k !in s.table ==> Pins(s, k) == 0
  {
  }

  lemma ChangeOutcome(s: State, ev: Event, t: State)
    requires Wired(s) && Tidy(s) && ev.Change? && Step(s, ev, t)
    ensures Usable(s, ev.k)
  {
    hide Tidy, Usable;
    InPoolUsable(s, ev.k);
  }

  /** The same for one page, from what the call does to that page. */
  lemma PageShown(s: State, owed: set<Key>, ev: Event, t: State, k: Key, f: FileId, p: FileState)
    requires k.file == f && ShowsPage(s, owed, k, p)
    requires Usable(s, k) && !Disposes(ev, k) ==> Usable(t, k) && Content(t, k) == Expected(Content(s, k), ev, k)
    requires Pins(t, k) == if Disposes(ev, k) then 0 else Pins(s, k) + Delta(ev, k)
    requires ev.Unpin? && ev.status == OK && ev.k == k ==> Pins(s, k) > 0
    requires ev.Change? && ev.k == k ==> Usable(s, k)
    ensures ShowsPage(t, Owed(owed, ev), k, After(p, f, ev))
  {
    ContentAfter(p, f, ev, k);
    PinsAfter(p, f, ev, k);
    UnsavedAfter(p, owed, f, ev, k);
    hide Usable, Content, Pins, After, Owed;
  }

  lemma ContentAfter(p: FileState, f: FileId, ev: Event, k: Key)
    requires k.file == f
    ensures var q := After(p, f, ev);
      && (ev.Change? && ev.k == k ==> k.pageNo in q.content && q.content[k.pageNo] == Decoded(ev.x))
      && (Disposes(ev, k) ==> k.pageNo !in q.content)
      && (!(ev.Change? && ev.k == k) && k.pageNo in q.content ==>
          k.pageNo in p.content && q.content[k.pageNo] == p.content[k.pageNo])
  {
  }

  lemma PinsAfter(p: FileState, f: FileId, ev: Event, k: Key)
    requires k.file == f && (ev.Unpin? && ev.status == OK && ev.k == k ==> p.pins[k.pageNo] > 0)
    ensures After(p, f, ev).pins[k.pageNo] == if Disposes(ev, k) then 0 else p.pins[k.pageNo] + Delta(ev, k)
  {
  }

  lemma UnsavedAfter(p: FileState, owed: set<Key>, f: FileId, ev: Event, k: Key)
    requires k.file == f && (k.pageNo in p.unsaved <==> k in owed)
    ensures k.pageNo in After(p, f, ev).unsaved <==> k in Owed(owed, ev)
  {
  }

  // ---- runs ----

  ghost function AfterAll(p: FileState, f: FileId, evs: seq<Event>): FileState
    decreases |evs|
  {
    if evs == [] then p else AfterAll(After(p, f, evs[0]), f, evs[1..])
  }

  /** Over any run, with any other files in the same pool, evictions, flushes and failures in between, the client of one
      file sees it change by its own calls alone. */
  lemma {:induction false} RunShows(s: State, owed: set<Key>, evs: seq<Event>, path: seq<State>, f: FileId,
      p: FileState)
    requires |evs| == |path| && Inv(s, owed) && BufferRuns.Run(s, owed, evs, path) && Shows(s, owed, f, p)
    ensures Shows(BufferRuns.Last(s, path), OwedAfter(owed, evs), f, AfterAll(p, f, evs))
    decreases |evs|
  {
    hide Inv, Step, Allowed, Settles, Wired, Shows, After;
    if evs != [] {
      StepKeeps(s, owed, evs[0], path[0], Key(0, 0));
      StepShows(s, owed, evs[0], path[0], f, p);
      RunShows(path[0], Owed(owed, evs[0]), evs[1..], path[1..], f, After(p, f, evs[0]));
    }
  }

  /** The calls on the file, and only they, make the difference. */
  lemma {:induction false} OnlyOwnCalls(p: FileState, f: FileId, evs: seq<Event>)
    ensures AfterAll(p, f, evs) == AfterAll(p, f, Own(f, evs))
    decreases |evs|
  {
    if evs != [] {
      OnlyOwnCalls(After(p, f, evs[0]), f, evs[1..]);
      if Concerns(f, evs[0]) {
        assert Own(f, evs)[1..] == Own(f, evs[1..]);
      }
    }
  }

  predicate Concerns(f: FileId, ev: Event) {
    !ev.Flush? && ev.k.file == f
  }

  function Own(f: FileId, evs: seq<Event>): seq<Event> {
    if evs == [] then [] else if Concerns(f, evs[0]) then [evs[0]] + Own(f, evs[1..]) else Own(f, evs[1..])
  }

  // ---- the calls of PagedFile ----

  ghost function Now(file: PagedFile): FileState
    reads file`content, file`pins, file`unsaved
  {
    FileState(file.content, file.pins, file.unsaved)
  }

  method ReadIs(file: PagedFile, k: Key) returns (status: Status)
    requires file.Valid()
    modifies file`pins
    ensures Now(file) == After(old(Now(file)), k.file, Read(k, status))
  {
    hide PagedFile.Valid;
    var p;
    status, p := file.ReadPage(k.pageNo);
  }

  method UnPinIs(file: PagedFile, k: Key, dirty: bool) returns (status: Status)
    requires file.Valid()
    modifies file`pins, file`unsaved
    ensures status == OK <==> k.pageNo in old(file.pins)
    ensures Now(file) == After(old(Now(file)), k.file, Unpin(k, dirty, status))
  {
    hide PagedFile.Valid;
    status := file.UnPinPage(k.pageNo, dirty);
  }

  /** The bytes of a page of the file mean what the file's content says, as long as page numbers fit in 32 bits. */
  lemma ContentDecodes(file: PagedFile, no: int)
    requires file.Valid() && no in file.pages
    ensures no in file.content
    ensures IsInt32(file.content[no].nextPage) && IsInt32(file.content[no].curPage) ==>
      Decoded(ImageOf(file.pages[no])) == file.content[no]
  {
    hide PagedFile.Valid, Decoded, ImageOf;
    file.PageFacts(no);
    if IsInt32(file.content[no].nextPage) && IsInt32(file.content[no].curPage) {
      PageDecodes(file.pages[no]);
    }
  }

  /** Page k has changed: the bytes it has now are those its client has written. */
  ghost predicate Rewritten(before: FileState, file: PagedFile, k: Key, x: Image)
    reads file`content, file`pins, file`unsaved
  {
    && k.pageNo in file.content
    && (IsInt32(file.content[k.pageNo].nextPage) && IsInt32(file.content[k.pageNo].curPage) ==>
        Decoded(x) == file.content[k.pageNo] && Now(file) == After(before, k.file, Change(k, x)))
  }

  /** Allocating a page and filling it in as an empty one. */
  method AllocIs(file: PagedFile, f: FileId, ghost e: Disk) returns (no: int, ghost x: Image)
    requires file.Valid()
    modifies file`pages, file`pins, file`bound, file`content, file`unsaved, file`Repr
    ensures file.Valid() && no !in old(file.content) && no in file.pages && x == ImageOf(file.pages[no])
    ensures IsInt32(no) ==> Decoded(x) == PageView([], -1, no)
    ensures IsInt32(no) ==>
      Now(file) == AfterAll(old(Now(file)), f, [Alloc(Key(f, no), OK, e, OK), Change(Key(f, no), x)])
  {
    hide PagedFile.Valid, Decoded, ImageOf;
    ghost var p := Now(file);
    var page;
    no, page := file.AllocPage();
    x := ImageOf(page);
    ContentDecodes(file, no);
    ghost var a, c := Alloc(Key(f, no), OK, e, OK), Change(Key(f, no), x);
    ghost var q := After(p, f, a);
    assert [a, c][1..] == [c] && [c][1..] == [];
    assert AfterAll(q, f, [c]) == AfterAll(After(q, f, c), f, []);
  }

  method InsertIs(file: PagedFile, k: Key, rec: bytes) returns (status: Status, ghost x: Image)
    requires file.Valid() && k.pageNo in file.pages && rec != []
    modifies file`content, file`unsaved, file.pages[k.pageNo], file.pages[k.pageNo].raw
    ensures file.Valid() && k.pageNo in file.content && x == ImageOf(file.pages[k.pageNo])
    ensures if status == OK then Rewritten(old(Now(file)), file, k, x) else Now(file) == old(Now(file))
  {
    hide PagedFile.Valid, Fits, Insert, FirstEmpty, Decoded, ImageOf;
    var rid;
    file.PageFacts(k.pageNo);
    status, rid := file.InsertOn(k.pageNo, rec);
    ContentDecodes(file, k.pageNo);
    x := ImageOf(file.pages[k.pageNo]);
  }

  method DeleteIs(file: PagedFile, k: Key, slotNo: nat) returns (status: Status, ghost x: Image)
    requires file.Valid() && k.pageNo in file.pages
    modifies file`content, file`unsaved, file.pages[k.pageNo], file.pages[k.pageNo].raw
    ensures file.Valid() && k.pageNo in file.content && x == ImageOf(file.pages[k.pageNo])
    ensures if status == OK then Rewritten(old(Now(file)), file, k, x) else Now(file) == old(Now(file))
  {
    hide PagedFile.Valid, Live, Delete, Decoded, ImageOf;
    file.PageFacts(k.pageNo);
    status := file.DeleteOn(k.pageNo, RID(k.pageNo, slotNo));
    ContentDecodes(file, k.pageNo);
    x := ImageOf(file.pages[k.pageNo]);
  }

  method SetNextIs(file: PagedFile, k: Key, next: int) returns (ghost x: Image)
    requires file.Valid() && k.pageNo in file.pages
    modifies file`content, file`unsaved, file.pages[k.pageNo]
    ensures file.Valid() && k.pageNo in file.content && x == ImageOf(file.pages[k.pageNo])
    ensures Rewritten(old(Now(file)), file, k, x)
  {
    hide PagedFile.Valid, Decoded, ImageOf;
    file.PageFacts(k.pageNo);
    file.SetNext(k.pageNo, next);
    ContentDecodes(file, k.pageNo);
    x := ImageOf(file.pages[k.pageNo]);
  }

  // ---- the rule about the last pin ----

  /** A scan whose dirty flags cover what it has changed keeps to the rule that the last pin of a changed page is given
      back as dirty: when it leaves its page, and when it gives the header back at the end. */
  lemma ScanSettles(s: State, owed: set<Key>, f: FileId, scan: HeapFileScan, status: Status)
    requires Shows(s, owed, f, Now(scan.file)) && scan.Ok() && scan.Flagged()
    ensures scan.curPage != null ==> Settles(s, owed, Unpin(Key(f, scan.curPageNo), scan.curDirtyFlag, status))
    ensures scan.curPage == null ==> Settles(s, owed, Unpin(Key(f, scan.file.headerPageNo), scan.hdrDirtyFlag, status))
  {
    hide Content, Pins, Decoded, Usable;
    assert ShowsPage(s, owed, Key(f, scan.curPageNo), Now(scan.file));
    assert ShowsPage(s, owed, Key(f, scan.file.headerPageNo), Now(scan.file));
    if scan.curPage != null {
      NotHeader(scan);
    }
  }

  lemma NotHeader(scan: HeapFileScan)
    requires scan.Ok() && scan.curPage != null
    ensures scan.curPageNo != scan.file.headerPageNo
  {
    hide PagedFile.WellFormed;
    hide PagedFile.Valid;
    scan.Here();
    PageOf(scan.file, scan.curPageNo);
  }

  /** So does an inserter, which always gives its page back as dirty. */
  lemma InserterSettles(s: State, owed: set<Key>, f: FileId, scan: InsertFileScan, status: Status)
    requires Shows(s, owed, f, Now(scan.file)) && scan.Flagged()
    ensures Settles(s, owed, Unpin(Key(f, scan.curPageNo), true, status))
    ensures scan.curPage == null ==> Settles(s, owed, Unpin(Key(f, scan.file.headerPageNo), scan.hdrDirtyFlag, status))
  {
    hide Content, Pins, Decoded, Usable;
    assert ShowsPage(s, owed, Key(f, scan.file.headerPageNo), Now(scan.file));
  }
}
