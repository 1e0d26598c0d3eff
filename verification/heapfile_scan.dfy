/** Scanning a heap file: a cursor on one pinned page that walks the chain of pages. */
module HeapFileScans {
  import opened Bytes
  import opened PageView
  import opened SlottedPage
  import opened ScanFilter
  import opened HeapView
  import opened PagedFiles

  lemma ChainAt(file: PagedFile, i: nat)
    requires file.WellFormed() && (i < |file.chain| || i == 0 || i < |file.View()|)
    ensures |file.View()| == |file.chain| > i
    ensures file.chain[i] in file.content && file.View()[i] == file.content[file.chain[i]]
    ensures file.View()[i].curPage == file.chain[i] >= 1
    ensures file.View()[i].nextPage == if i + 1 < |file.chain| then file.chain[i + 1] else -1
    ensures i + 1 < |file.chain| ==> file.chain[i + 1] in file.content && file.chain[i + 1] != -1
    ensures WellFormed(file.View()[i].slots)
    ensures file.View() != [] && file.header.firstPage == file.chain[0]
    ensures file.header.lastPage == file.chain[|file.chain| - 1]
  {
    assert OnChain(file.chain, file.content, i) && LinkAt(file.View(), i) && SoundPage(file.View()[i]);
    if i + 1 < |file.chain| {
      assert OnChain(file.chain, file.content, i + 1) && SoundPage(file.View()[i + 1]);
    }
  }

  /** Page no of a valid file is sound and means what the file's content says. */
  lemma PageOf(file: PagedFile, no: int)
    requires file.Valid() && no in file.content
    ensures no in file.pages && no != file.headerPageNo
    ensures file.pages[no].Valid() && file.pages[no].View() == file.content[no]
  {
    hide Page.Valid, Page.View;
    file.PageFacts(no);
  }

  /** The pins of an open file object: the header, and the current page if there is one. */
  ghost function PinsOf(header: int, attached: bool, no: int): multiset<int> {
    if attached then multiset{header} + multiset{no} else multiset{header}
  }

  lemma PinsMove(pins: multiset<int>, header: int, no: int)
    ensures PinsOf(header, false, no) <= pins ==>
      && PinsOf(header, true, no) <= pins + multiset{no}
      && pins + multiset{no} - PinsOf(header, true, no) == pins - PinsOf(header, false, no)
    ensures PinsOf(header, true, no) <= pins ==>
      && no in pins
      && PinsOf(header, false, no) <= pins - multiset{no}
      && pins - multiset{no} - PinsOf(header, false, no) == pins - PinsOf(header, true, no)
  {
  }

  /** The pages an open file object will hand back as dirty. */
  ghost function FlaggedOf(header: int, hdrDirty: bool, curDirty: bool, no: int): set<int> {
    (if hdrDirty then {header} else {}) + (if curDirty then {no} else {})
  }

  lemma FlaggedMove(unsaved: set<int>, header: int, hdrDirty: bool, a: int, b: int)
    ensures unsaved <= FlaggedOf(header, hdrDirty, true, a) ==> unsaved - {a} <= FlaggedOf(header, hdrDirty, false, b)
    ensures unsaved <= FlaggedOf(header, hdrDirty, false, a) ==> unsaved <= FlaggedOf(header, hdrDirty, false, b)
  {
  }

  /** Giving back the pin on page `no` leaves nobody else's pin changed. */
  lemma PinsLeave(pins: multiset<int>, header: int, no: int, next: int)
    requires PinsOf(header, true, no) <= pins
    ensures no in pins && PinsOf(header, false, next) <= pins - multiset{no}
    ensures pins - multiset{no} - PinsOf(header, false, next) == pins - PinsOf(header, true, no)
  {
    PinsMove(pins, header, no);
    PinsDetached(header, no, next);
  }

  lemma PinsDetached(header: int, a: int, b: int)
    ensures PinsOf(header, false, a) == PinsOf(header, false, b)
  {
  }

  lemma FlaggedDetached(header: int, hdrDirty: bool, a: int, b: int)
    ensures FlaggedOf(header, hdrDirty, false, a) == FlaggedOf(header, hdrDirty, false, b)
  {
  }

  class HeapFileScan {
    const file: PagedFile
    var hdrDirtyFlag: bool
    var curPage: Page?
    var curPageNo: int
    var curDirtyFlag: bool
    var curRec: RID
    var filter: ScanFilter
    var markedPageNo: int
    var markedRec: RID

    ghost var idx: nat        // the current page's place on the chain
    ghost var markedIdx: nat
    ghost var marked: bool    // a mark has been taken while a page was current

    /** The pins this scan holds: one on the header and one on its current page. */
    ghost function Pinned(): multiset<int>
      reads this`curPage, this`curPageNo
    {
      PinsOf(file.headerPageNo, curPage != null, curPageNo)
    }

    /** The pins on the file's pages that are not this scan's. */
    ghost function Others(): multiset<int>
      reads this`curPage, this`curPageNo, file`pins
    {
      file.pins - Pinned()
    }

    ghost predicate OnPage(i: nat, no: int)
      reads file`chain, file`pages
    {
      i < |file.chain| && file.chain[i] == no && no in file.pages
    }

    ghost predicate Positioned()
      reads this`curPage, this`curPageNo, this`idx, this`curRec, this`marked, this`markedIdx, this`markedPageNo, this`markedRec
      reads file`chain, file`pages
    {
      && (curPage != null ==> OnPage(idx, curPageNo) && curPage == file.pages[curPageNo] && curRec.slotNo >= -1)
      && (curPage == null ==> curPageNo <= 0)
      && (marked ==> OnPage(markedIdx, markedPageNo) && markedRec.slotNo >= -1)
    }

    ghost predicate FileOk()
      reads file`pages, file`Repr, file`content, file`bound, file`chain, file`header, file.Repr
    {
      file.Valid() && file.WellFormed() && this !in file.Repr
    }

    ghost predicate Ok()
      reads this`curPage, this`curPageNo, this`idx, this`curRec, this`marked, this`markedIdx, this`markedPageNo, this`markedRec
      reads file, file.Repr
    {
      FileOk() && Positioned() && Pinned() <= file.pins
    }

    /** Everything the cursor has still to pass, accepted by the predicate or not.  A scan restarted
        after endScan gives up when the first page of the file is empty. */
    ghost function Future(): seq<Rec>
      reads this`curPage, this`curPageNo, this`idx, this`curRec, file`chain, file`content
    {
      if curPage != null then
        (if idx < |file.View()| && curRec.slotNo >= -1 then Remaining(file.View(), idx, curRec.slotNo) else [])
      else if curPageNo < 0 then []
      else AfterRestart(file.View())
    }

    /** What the scan will still return. */
    ghost function Pending(): seq<Rec>
      reads this`curPage, this`curPageNo, this`idx, this`curRec, this`filter, file`chain, file`content
    {
      Pick(Future(), filter, true)
    }

    /** The cursor stands on record r. */
    ghost predicate At(r: Rec)
      reads this`curPage, this`idx, this`curRec, file`chain, file`content
    {
      && curPage != null && idx < |file.View()| && curRec.slotNo >= 0
      && Live(file.View()[idx].slots, curRec.slotNo)
      && r == RecordOf(file.View()[idx], curRec.slotNo) && curRec == r.rid
    }

    /** Changed pages of the file are all covered by this scan's dirty flags. */
    ghost predicate Flagged()
      reads this`hdrDirtyFlag, this`curPage, this`curDirtyFlag, this`curPageNo, file`unsaved
    {
      file.unsaved <= FlaggedOf(file.headerPageNo, hdrDirtyFlag, curPage != null && curDirtyFlag, curPageNo)
    }

    constructor Blank(f: PagedFile)
      ensures file == f && filter == NoFilter && !marked && !hdrDirtyFlag && !curDirtyFlag
      ensures curPage == null && curPageNo == 0 && curRec == NULLRID && idx == 0
    {
      file, filter := f, NoFilter;
      hdrDirtyFlag, curDirtyFlag, curRec, marked, idx := false, false, NULLRID, false, 0;
      curPageNo, curPage := 0, null;
    }

    /** The constructors HeapFile and HeapFileScan: pin the header and the first data page. */
    static method Open(f: PagedFile) returns (s: HeapFileScan)
      requires f.Valid() && f.WellFormed()
      modifies f`pins
      ensures fresh(s) && s.file == f && s.Ok() && s.curPage != null && s.filter == NoFilter && !s.marked
      ensures s.Future() == AllRecs(f.View())
      ensures s.Others() == old(f.pins)
      ensures f.unsaved == {} ==> s.Flagged()
    {
      hide PagedFile.Valid, PagedFile.WellFormed, AllRecs, Remaining, PagedFile.View;
      hide HeapFileScan.Ok, HeapFileScan.Future, HeapFileScan.Flagged, HeapFileScan.Others;
      s := new HeapFileScan.Blank(f);
      s.Start();
    }

    method Start()
      requires FileOk() && curPage == null && curPageNo == 0 && curRec == NULLRID && !marked && !hdrDirtyFlag && !curDirtyFlag
      modifies this`curPage, this`curPageNo, this`idx, file`pins
      ensures Ok() && curPage != null && Future() == AllRecs(file.View())
      ensures Others() == old(file.pins)
      ensures file.unsaved == {} ==> Flagged()
    {
      hide PagedFile.Valid, PagedFile.WellFormed, PagedFile.View, Page.Valid, Page.View, AllRecs, Remaining;
      hide FileOk, Positioned, OnPage, Ok, Detached, Others, Flagged, FlaggedOf;
      FirstPage();
      PinFirst();
      ReadCurrent(file.header.firstPage, 0);
    }

    lemma FirstPage()
      requires FileOk()
      ensures OnPage(0, file.header.firstPage) && file.View() != []
      ensures Remaining(file.View(), 0, -1) == AllRecs(file.View())
    {
      hide PagedFile.Valid, PagedFile.WellFormed, PagedFile.View, Page.Valid, Page.View, AllRecs, Remaining;
      ChainAt(file, 0);
      PageOf(file, file.chain[0]);
      RemainingAtStart(file.View());
    }

    method PinFirst()
      requires FileOk() && curPage == null && curPageNo == 0 && !marked && !hdrDirtyFlag && !curDirtyFlag
      modifies file`pins
      ensures Detached() && Others() == old(file.pins)
      ensures file.unsaved == {} ==> Flagged()
    {
      hide PagedFile.Valid, PagedFile.WellFormed, PagedFile.View;
      file.PinHeader();
    }

    /** No data page is pinned: the scan holds the header only. */
    ghost predicate Detached()
      reads this, file, file.Repr
    {
      FileOk() && curPage == null && !curDirtyFlag && Positioned() && Pinned() <= file.pins
    }

    /** Read page no, the i-th of the chain, and make it the current page. */
    method ReadCurrent(no: int, ghost i: nat)
      requires Detached() && OnPage(i, no) && curRec.slotNo >= -1
      modifies this`curPage, this`curPageNo, this`idx, file`pins
      ensures Ok() && curPage != null && curPageNo == no && idx == i
      ensures Others() == old(Others())
      ensures old(Flagged()) ==> Flagged()
    {
      hide PagedFile.Valid, PagedFile.WellFormed, PagedFile.View, PinsOf, FlaggedOf;
      FlaggedMove(file.unsaved, file.headerPageNo, hdrDirtyFlag, curPageNo, no);
      PinsMove(file.pins, file.headerPageNo, no);
      PinsDetached(file.headerPageNo, curPageNo, no);
      curPageNo, idx := no, i;
      var status, p := file.ReadPage(no);
      curPage := p;
    }

    /** Give back the pin on the current page; a changed page is given back as dirty. */
    method Detach(no: int) returns (status: Status)
      requires Ok() && curPage != null && no <= 0
      modifies this`curPage, this`curPageNo, this`curDirtyFlag, file`pins, file`unsaved
      ensures Detached() && status == OK && curPageNo == no
      ensures Others() == old(Others())
      ensures file.unsaved <= old(file.unsaved)
      ensures old(Flagged()) ==> Flagged()
    {
      hide PagedFile.Valid, PagedFile.WellFormed, PagedFile.View, Page.Valid, Page.View, PinsOf, FlaggedOf, Ok, FileOk;
      Holdings();
      FlaggedMove(file.unsaved, file.headerPageNo, hdrDirtyFlag, curPageNo, no);
      PinsLeave(file.pins, file.headerPageNo, curPageNo, no);
      status := file.UnPinPage(curPageNo, curDirtyFlag);
      curPage, curPageNo, curDirtyFlag := null, no, false;
    }

    lemma Holdings()
      requires Ok()
      ensures FileOk() && file.Valid() && Positioned() && Pinned() <= file.pins
      ensures this !in file.Repr && file !in file.Repr
    {
      hide PagedFile.Valid, PagedFile.WellFormed, Page.Valid, Page.View;
      file.NotOwn();
    }

    lemma Here()
      requires Ok() && curPage != null
      ensures idx < |file.chain| == |file.View()| && curPageNo == file.chain[idx] >= 1 && curRec.slotNo >= -1
      ensures curPage.Valid() && curPage.View() == file.View()[idx]
      ensures file.View()[idx].curPage == curPageNo && curPageNo in file.pins
      ensures curPageNo in file.content && file.View()[idx] == file.content[curPageNo]
      ensures file.View()[idx].nextPage == if idx + 1 < |file.chain| then file.chain[idx + 1] else -1
      ensures idx + 1 < |file.chain| ==> OnPage(idx + 1, file.chain[idx + 1]) && file.chain[idx + 1] != -1
    {
      hide PagedFile.Valid, PagedFile.WellFormed, PagedFile.View, Page.Valid, Page.View;
      ChainAt(file, idx);
      PageOf(file, curPageNo);
      if idx + 1 < |file.chain| {
        PageOf(file, file.chain[idx + 1]);
      }
    }

    /** Leave the current page for the next one of the chain. */
    method ToNextPage(next: int)
      requires Ok() && curPage != null && idx + 1 < |file.chain| && next == file.chain[idx + 1]
      modifies this`curPage, this`curPageNo, this`curDirtyFlag, this`idx, file`pins, file`unsaved
      ensures Ok() && curPage != null && idx == old(idx) + 1
      ensures Others() == old(Others())
      ensures file.unsaved <= old(file.unsaved)
      ensures old(Flagged()) ==> Flagged()
    {
      hide PagedFile.Valid, PagedFile.WellFormed, PagedFile.View, Page.Valid, Page.View, Others, Flagged;
      Here();
      ghost var i := idx + 1;
      var status := Detach(-1);
      ReadCurrent(next, i);
    }

    /** The current page has no more records: walk the chain to the next page that has some. */
    method CrossPages(ghost rest: seq<Rec>) returns (status: Status)
      requires Ok() && curPage != null
      requires idx < |file.View()| && rest == AllRecs(file.View()[idx + 1..])
      requires rest == Future()
      modifies this`curPage, this`curPageNo, this`curDirtyFlag, this`curRec, this`idx, file`pins, file`unsaved
      ensures Ok() && curPage != null
      ensures status == if rest == [] then FILEEOF else OK
      ensures if rest == [] then Future() == [] else At(rest[0]) && Future() == rest[1..]
      ensures Others() == old(Others())
      ensures file.unsaved <= old(file.unsaved)
      ensures old(Flagged()) ==> Flagged()
    {
      hide PagedFile.View, AllRecs, Ok, Others, Flagged, Future, At;
      ghost var ps := file.View();
      status := ENDOFPAGE;
      while status != OK && status != FILEEOF
        invariant Ok() && curPage != null && file.View() == ps
        invariant status != OK && status != FILEEOF ==> idx < |ps| && Future() == AllRecs(ps[idx + 1..]) == rest
        invariant status == FILEEOF ==> rest == [] && Future() == []
        invariant status == OK ==> rest != [] && At(rest[0]) && Future() == rest[1..]
        invariant Others() == old(Others())
        invariant file.unsaved <= old(file.unsaved)
        invariant old(Flagged()) ==> Flagged()
        decreases |ps| - idx, status != OK && status != FILEEOF
      {
        status := NextPage(rest);
      }
    }

    /** Go to the next page of the chain, if there is one, and to its first record, if it has one. */
    method NextPage(ghost rest: seq<Rec>) returns (status: Status)
      requires Ok() && curPage != null
      requires idx < |file.View()| && rest == AllRecs(file.View()[idx + 1..])
      requires rest == Future()
      modifies this`curPage, this`curPageNo, this`curDirtyFlag, this`curRec, this`idx, file`pins, file`unsaved
      ensures Ok() && curPage != null
      ensures status == OK || status == NORECORDS || status == FILEEOF
      ensures status == FILEEOF ==> idx == old(idx) && rest == [] && Future() == []
      ensures status == OK ==> rest != [] && At(rest[0]) && Future() == rest[1..]
      ensures status != FILEEOF ==> idx == old(idx) + 1 < |file.View()|
      ensures status == NORECORDS ==> Future() == rest == AllRecs(file.View()[idx + 1..])
      ensures Others() == old(Others())
      ensures file.unsaved <= old(file.unsaved)
      ensures old(Flagged()) ==> Flagged()
    {
      hide PagedFile.Valid, PagedFile.WellFormed, PagedFile.View, Page.Valid, Page.View, NextLive, AllRecs, PageRecs;
      hide Ok, Remaining, Others, Flagged, At;
      ghost var ps := file.View();
      Here();
      RemainingNextPage(ps, idx);
      var next := curPage.GetNextPage();
      if next == -1 {
        return FILEEOF;
      }
      ToNextPage(next);
      Here();
      status := FirstOnPage(ps);
    }

    /** Put the cursor on the first record of the current page, if it has one. */
    method FirstOnPage(ghost ps: Pages) returns (status: Status)
      requires Ok() && curPage != null && ps == file.View() && idx < |ps|
      modifies this`curRec
      ensures Ok()
      ensures Others() == old(Others()) && (old(Flagged()) ==> Flagged())
      ensures status == if NextLive(ps[idx].slots, 0) < |ps[idx].slots| then OK else NORECORDS
      ensures var rest := Remaining(ps, idx, -1);
        if status == OK then rest != [] && At(rest[0]) && Future() == rest[1..]
        else Future() == rest == AllRecs(ps[idx + 1..])
    {
      hide PagedFile.Valid, PagedFile.WellFormed, PagedFile.View, Page.Valid, Page.View, NextLive, AllRecs, PageRecs;
      hide Remaining;
      Here();
      RemainingNext(ps, idx, -1);
      var st, r := curPage.FirstRecord();
      status := st;
      if status == OK {
        curRec := r;
      } else {
        RemainingEmptyPage(ps, idx, curRec.slotNo);
      }
    }

    /** Move the cursor to the next record of the file, whatever it holds. */
    method Advance() returns (status: Status)
      requires Ok() && curPage != null
      modifies this`curPage, this`curPageNo, this`curDirtyFlag, this`curRec, this`idx, file`pins, file`unsaved
      ensures Ok() && curPage != null
      ensures status == if old(Future()) == [] then FILEEOF else OK
      ensures if old(Future()) == [] then Future() == [] else At(old(Future())[0]) && Future() == old(Future())[1..]
      ensures Others() == old(Others())
      ensures file.unsaved <= old(file.unsaved)
      ensures old(Flagged()) ==> Flagged()
    {
      hide PagedFile.Valid, PagedFile.WellFormed, PagedFile.View, Page.Valid, Page.View, NextLive, AllRecs, PageRecs;
      hide Remaining, Live, Others, Flagged, Pinned;
      Here();
      ghost var ps := file.View();
      RemainingNext(ps, idx, curRec.slotNo);
      var st, r := curPage.NextRecord(curRec);
      if st == OK {
        curRec := r;
        status := OK;
      } else {
        status := CrossPages(Future());
      }
    }

    /** scanNext after endScan: go back to the first page, and give up if it has no records. */
    method Restart() returns (status: Status)
      requires Ok() && curPage == null && curPageNo >= 0
      modifies this`curPage, this`curPageNo, this`curDirtyFlag, this`curRec, this`idx, file`pins, file`unsaved
      ensures Ok()
      ensures status == if old(Future()) == [] then FILEEOF else OK
      ensures if old(Future()) == [] then curPage == null && Future() == []
        else curPage != null && At(old(Future())[0]) && Future() == old(Future())[1..]
      ensures Others() == old(Others()) && (old(Flagged()) ==> Flagged())
      ensures file.unsaved <= old(file.unsaved)
    {
      hide PagedFile.Valid, PagedFile.WellFormed, PagedFile.View, Page.Valid, Page.View, NextLive, AllRecs, PageRecs;
      hide Remaining, Others, Flagged;
      ghost var ps := file.View();
      ChainAt(file, 0);
      PageOf(file, file.chain[0]);
      RemainingAtStart(ps);
      FirstPageRecs(ps);
      SettleDetached();
      ReadCurrent(file.header.firstPage, 0);
      status := FirstOnPage(ps);
      if status != OK {
        status := Detach(-1);
        status := FILEEOF;
      }
    }

    /** Nothing is pinned, so no flag counts and the cursor is before the first slot. */
    method SettleDetached()
      requires Ok() && curPage == null
      modifies this`curDirtyFlag, this`curRec
      ensures Detached() && curRec == NULLRID
      ensures Others() == old(Others()) && (old(Flagged()) ==> Flagged())
    {
      hide PagedFile.Valid, PagedFile.WellFormed, PagedFile.View, PinsOf, FlaggedOf;
      curDirtyFlag, curRec := false, NULLRID;
    }

    /** Return the next record that satisfies the scan predicate. */
    method ScanNext() returns (status: Status, outRid: RID)
      requires Ok()
      modifies this`curPage, this`curPageNo, this`curDirtyFlag, this`curRec, this`idx, file`pins, file`unsaved
      ensures status == if old(Pending()) == [] then FILEEOF else OK
      ensures if old(Pending()) == [] then Pending() == []
        else At(old(Pending())[0]) && outRid == old(Pending())[0].rid && Pending() == old(Pending())[1..]
      ensures old(curPage) != null ==> curPage != null
      ensures status == OK ==> curPage != null && curRec.slotNo >= 0
      ensures Others() == old(Others()) && (old(Flagged()) ==> Flagged())
      ensures file.unsaved <= old(file.unsaved)
      ensures Ok()
    {
      hide PagedFile.Valid, PagedFile.WellFormed, PagedFile.View, Page.Valid, Page.View, NextLive, AllRecs, PageRecs;
      hide Remaining, Others, Flagged, Match, Ok, At;
      outRid := NULLRID;
      if curPageNo < 0 {
        AtEnd();
        return FILEEOF, NULLRID;
      }
      ghost var f, todo := filter, Future();
      if curPage == null {
        status := Restart();
      } else {
        status := Advance();
      }
      hide Future;
      status, outRid := SeekMatch(status, todo);
    }

    /** The cursor stands on the first of the records todo: go on until one satisfies the scan predicate. */
    method SeekMatch(start: Status, ghost todo: seq<Rec>) returns (status: Status, outRid: RID)
      requires Ok() && start == if todo == [] then FILEEOF else OK
      requires if todo == [] then Future() == [] else At(todo[0]) && Future() == todo[1..]
      modifies this`curPage, this`curPageNo, this`curDirtyFlag, this`curRec, this`idx, file`pins, file`unsaved
      ensures var hits := Pick(todo, filter, true);
        if hits == [] then status == FILEEOF && Pending() == []
        else status == OK && At(hits[0]) && outRid == hits[0].rid && Pending() == hits[1..]
      ensures old(curPage) != null ==> curPage != null
      ensures status == OK ==> curPage != null && curRec.slotNo >= 0
      ensures Others() == old(Others()) && (old(Flagged()) ==> Flagged())
      ensures file.unsaved <= old(file.unsaved)
      ensures Ok()
    {
      hide Ok, Others, Flagged, Match, Future;
      status, outRid := start, NULLRID;
      ghost var rest := todo;
      while status == OK
        invariant Ok() && (old(curPage) != null ==> curPage != null)
        invariant status == if rest == [] then FILEEOF else OK
        invariant Pick(rest, filter, true) == Pick(todo, filter, true)
        invariant if rest == [] then Future() == [] else At(rest[0]) && Future() == rest[1..]
        invariant file.unsaved <= old(file.unsaved)
        invariant Others() == old(Others()) && (old(Flagged()) ==> Flagged())
        decreases |rest|
      {
        AtPage(rest[0]);
        var st, rec := GetRecord();
        if Match(filter, rec) {
          return OK, curRec;
        }
        rest := Future();
        status := Advance();
      }
    }

    /** A scan that has run off the file stays there. */
    lemma AtEnd()
      requires Ok() && curPageNo < 0
      ensures Pending() == []
    {
      hide PagedFile.Valid, PagedFile.WellFormed, PagedFile.View, Page.Valid, Page.View;
      if curPage != null {
        Here();
      }
    }

    /** Set the scan predicate; parameters that make no sense are refused.  No filter value means every record. */
    method StartScan(offset: int, length: int, attrType: Datatype, value: Option<bytes>, op: Operator) returns (status: Status)
      requires value.Some? && Acceptable(offset, length, attrType) ==> Wide(attrType, value.value)
      modifies this`filter
      ensures status == if value.Some? && !Acceptable(offset, length, attrType) then BADSCANPARM else OK
      ensures status == BADSCANPARM <==>
        value.Some? && (offset < 0 || length < 1 || ((attrType == INTEGER || attrType == FLOAT) && length != 4))
      ensures filter == if value.None? then NoFilter
        else if status == OK then Attribute(offset, length, attrType, value.value, op) else old(filter)
    {
      if value.None? {
        filter := NoFilter;
        return OK;
      }
      if offset < 0 || length < 1 || ((attrType.INTEGER? || attrType.FLOAT?) && length != 4) {
        return BADSCANPARM;
      }
      filter := Attribute(offset, length, attrType, value.value, op);
      status := OK;
    }

    /** Terminate the scan: unpin the current page.  The next scanNext starts over. */
    method EndScan() returns (status: Status)
      requires Ok()
      modifies this`curPage, this`curPageNo, this`curDirtyFlag, file`pins, file`unsaved
      ensures Ok() && curPage == null && status == OK
      ensures Others() == old(Others()) && (old(Flagged()) ==> Flagged())
      ensures file.unsaved <= old(file.unsaved)
      ensures old(curPage) != null ==> Future() == AfterRestart(file.View())
    {
      hide PagedFile.Valid, PagedFile.WellFormed, PagedFile.View, Page.Valid, Page.View, AllRecs, PageRecs, Remaining;
      hide Others, Flagged;
      ChainAt(file, 0);
      if curPage != null {
        status := Detach(0);
      } else {
        status := OK;
      }
    }

    /** The destructor: no pin is left, and every change has been handed back as dirty. */
    method Close()
      requires Ok()
      modifies this`curPage, this`curPageNo, this`curDirtyFlag, file`pins, file`unsaved
      ensures file.Valid() && file.WellFormed()
      ensures file.pins == old(Others())
      ensures file.unsaved <= old(file.unsaved)
      ensures old(Flagged()) ==> file.unsaved == {}
    {
      hide PagedFile.Valid, PagedFile.WellFormed, PagedFile.View;
      var status := EndScan();
      status := file.UnPinPage(file.headerPageNo, hdrDirtyFlag);
    }

    method MarkScan()
      requires Ok()
      modifies this`markedPageNo, this`markedRec, this`markedIdx, this`marked
      ensures Ok() && marked == (curPage != null)
      ensures marked ==> markedIdx == idx && markedRec == curRec
      ensures marked ==> MarkedPending() == Pending()
      ensures forall r :: At(r) ==> MarkedAt(r)
    {
      hide PagedFile.Valid, PagedFile.WellFormed, PagedFile.View, Page.Valid, Page.View;
      if curPage != null {
        Here();
      }
      markedPageNo, markedRec := curPageNo, curRec;
      markedIdx, marked := idx, curPage != null;
    }

    /** What the scan will still return once it has been reset to its mark. */
    ghost function MarkedPending(): seq<Rec>
      reads this`marked, this`markedIdx, this`markedRec, this`filter, file`chain, file`content
    {
      if marked && markedIdx < |file.View()| && markedRec.slotNo >= -1
      then Pick(Remaining(file.View(), markedIdx, markedRec.slotNo), filter, true) else []
    }

    /** The marked position is on record r. */
    ghost predicate MarkedAt(r: Rec)
      reads this`marked, this`markedIdx, this`markedRec, file`chain, file`content
    {
      && marked && markedIdx < |file.View()| && markedRec.slotNo >= 0
      && Live(file.View()[markedIdx].slots, markedRec.slotNo)
      && r == RecordOf(file.View()[markedIdx], markedRec.slotNo) && markedRec == r.rid
    }

    /** The bytes of the marked record. */
    ghost function MarkedData(): bytes
      reads this`markedIdx, this`markedRec, file`chain, file`content
    {
      if markedIdx < |file.View()| && Live(file.View()[markedIdx].slots, markedRec.slotNo)
      then file.View()[markedIdx].slots[markedRec.slotNo].value else []
    }

    lemma AtPage(r: Rec)
      requires Ok() && At(r)
      ensures r.rid.pageNo >= 1 && curPage != null && curRec.slotNo >= 0
    {
      hide PagedFile.Valid, PagedFile.WellFormed, PagedFile.View, Page.Valid, Page.View;
      Here();
    }

    /** Go back to the marked position, whatever page the cursor is on by now.  A mark taken while no page was current
        names no page: unless none is current now either, reading it fails, and a page that was current stays in the
        scan without its pin and without its number. */
    method ResetScan() returns (status: Status)
      requires Ok() && (marked || markedPageNo <= 0)
      modifies this`curPage, this`curPageNo, this`curDirtyFlag, this`curRec, this`idx, file`pins, file`unsaved
      ensures status == if marked || old(curPageNo) == markedPageNo then OK else BADPAGENO
      ensures Ok() <==> status == OK || old(curPage) == null
      ensures marked ==> curPage != null && idx == markedIdx && curRec == markedRec && Pending() == MarkedPending()
      ensures forall r :: MarkedAt(r) ==> At(r)
      ensures marked || old(curPage) == null ==> Others() == old(Others()) && (old(Flagged()) ==> Flagged())
      ensures !marked ==> curPageNo == markedPageNo && curRec == markedRec && curPage == old(curPage)
      ensures !marked && old(curPage) != null ==> file.pins == old(file.pins) - multiset{old(curPageNo)}
    {
      hide PagedFile.Valid, PagedFile.WellFormed, PagedFile.View, Page.Valid, Page.View, AllRecs, PageRecs, Remaining;
      hide Others, Flagged, Ok, Pending, MarkedPending, At, MarkedAt;
      MarkedHere();
      if markedPageNo != curPageNo {
        if markedPageNo in file.pages {
          ReadMarked();
          status := OK;
        } else {
          status := LoseMark();
        }
      } else {
        PointTo(markedRec);
        status := OK;
      }
      AtMark();
    }

    /** Put the cursor somewhere on the current page. */
    method PointTo(rid: RID)
      requires Ok() && (curPage != null ==> rid.slotNo >= -1)
      modifies this`curRec
      ensures Ok() && curRec == rid
      ensures Others() == old(Others()) && (old(Flagged()) ==> Flagged())
    {
      hide PagedFile.Valid, PagedFile.WellFormed, PagedFile.View, Page.Valid, Page.View, PinsOf, FlaggedOf;
      curRec := rid;
    }

    lemma AtMark()
      ensures marked && curPage != null && idx == markedIdx && curRec == markedRec ==>
        Pending() == MarkedPending() && forall r :: MarkedAt(r) ==> At(r)
      ensures !marked ==> forall r :: !MarkedAt(r)
    {
      hide PagedFile.View, Remaining, Live;
    }

    /** The marked page cannot be read, because it is none. */
    method LoseMark() returns (status: Status)
      requires Ok() && markedPageNo <= 0
      modifies this`curPageNo, this`curRec, file`pins, file`unsaved
      ensures status == BADPAGENO && curPageNo == markedPageNo && curRec == markedRec
      ensures Ok() <==> curPage == null
      ensures curPage == null ==> Others() == old(Others()) && (old(Flagged()) ==> Flagged())
      ensures curPage != null ==> file.pins == old(file.pins) - multiset{old(curPageNo)}
    {
      hide PagedFile.Valid, PagedFile.WellFormed, PagedFile.View, Page.Valid, Page.View, PinsOf, FlaggedOf;
      NoPage(markedPageNo);
      if curPage != null {
        Here();
      }
      PinsDetached(file.headerPageNo, curPageNo, markedPageNo);
      FlaggedDetached(file.headerPageNo, hdrDirtyFlag, curPageNo, markedPageNo);
      status := MissPage(markedPageNo);
      curPageNo, curRec := markedPageNo, markedRec;
    }

    lemma NoPage(no: int)
      requires Ok() && no <= 0
      ensures no !in file.pages
    {
      hide PagedFile.WellFormed, Page.Valid, Page.View;
    }

    method ReadMarked()
      requires Ok() && marked
      modifies this`curPage, this`curPageNo, this`curDirtyFlag, this`curRec, this`idx, file`pins, file`unsaved
      ensures Ok() && curPage != null && idx == markedIdx && curRec == markedRec
      ensures Others() == old(Others()) && (old(Flagged()) ==> Flagged())
    {
      hide PagedFile.Valid, PagedFile.WellFormed, PagedFile.View, Others, Flagged, Pinned;
      if curPage != null {
        var status := Detach(-1);
      }
      SettleDetached();
      curRec := markedRec;
      ReadCurrent(markedPageNo, markedIdx);
    }

    /** The chain has one place for each page number. */
    lemma MarkedHere()
      requires Ok() && (marked || markedPageNo <= 0)
      ensures marked && markedPageNo == curPageNo ==> curPage != null && markedIdx == idx
      ensures marked ==> markedIdx < |file.View()| && markedRec.slotNo >= -1
      ensures !marked && markedPageNo == curPageNo ==> curPage == null
      ensures marked <==> markedPageNo in file.pages
    {
      hide PagedFile.Valid, Page.Valid, Page.View;
      if !marked {
        NoPage(markedPageNo);
        if curPage != null {
          Here();
        }
        return;
      }
      ChainAt(file, markedIdx);
      if curPage != null && markedIdx != idx {
        ChainAt(file, idx);
        GoodDistinct(file.chain, file.content, file.header);
      }
    }

    /** The bytes of the record under the cursor, if there still is one. */
    method GetRecord() returns (status: Status, rec: bytes)
      requires Ok() && curPage != null && curRec.slotNo >= 0
      ensures idx < |file.View()| && status == if Live(file.View()[idx].slots, curRec.slotNo) then OK else INVALIDSLOTNO
      ensures status == OK ==> rec == file.View()[idx].slots[curRec.slotNo].value
      ensures forall r :: At(r) ==> status == OK && rec == r.data
    {
      hide PagedFile.Valid, PagedFile.WellFormed, PagedFile.View, Page.Valid, Page.View;
      Here();
      status, rec := curPage.GetRecord(curRec);
    }

    /** Delete the current record.  The record count goes down even when there is no such record. */
    method DeleteRecord() returns (status: Status)
      requires Ok() && curPage != null && curRec.slotNo >= 0
      modifies this`curDirtyFlag, this`hdrDirtyFlag, file`content, file`header, file`unsaved, curPage, curPage.raw
      ensures file.Valid() && Positioned()
      ensures status == if Live(old(file.View())[idx].slots, curRec.slotNo) then OK else INVALIDSLOTNO
      ensures file.header == old(file.header).(recCnt := old(file.header).recCnt - 1)
      ensures status == OK ==> Ok() && file.View() == DeleteRec(old(file.View()), idx, curRec.slotNo)
      ensures status != OK ==> file.View() == old(file.View())
      ensures Others() == old(Others())
      ensures old(Flagged()) ==> Flagged()
    {
      hide PagedFile.Valid, Page.Valid, Page.View, GoodFile, Live, Delete, Pinned, PinsOf, PagesOf;
      hide Others;
      Here();
      ghost var chain, content, header, i, k := file.chain, file.content, file.header, idx, curRec.slotNo;
      status := file.DeleteOn(curPageNo, curRec);
      curDirtyFlag := true;
      file.SetHeader(file.header.(recCnt := file.header.recCnt - 1));
      hdrDirtyFlag := true;
      if status == OK {
        DeleteKeepsGood(chain, content, header, i, k);
      }
    }

    /** HeapFile::getRecord, which scans inherit: fetch any record of the file by its record id, moving to its page if
        another one is current.  If there is no such page the scan still names its old page, but has given up the pin. */
    method GetRecordAt(rid: RID) returns (status: Status, rec: bytes)
      requires Ok() && rid.slotNo >= 0 && rid.pageNo != file.headerPageNo
      modifies this`curPage, this`curPageNo, this`curDirtyFlag, this`curRec, this`idx, file`pins, file`unsaved
      ensures status == if rid.pageNo !in file.content then (if rid.pageNo < 1 then BADPAGENO else UNIXERR)
        else if Live(file.content[rid.pageNo].slots, rid.slotNo) then OK else INVALIDSLOTNO
      ensures status == OK ==> rec == file.content[rid.pageNo].slots[rid.slotNo].value
      ensures rid.pageNo in file.content ==> Ok() && curRec == rid && curPageNo == rid.pageNo && Others() == old(Others())
      ensures rid.pageNo !in file.content ==> curPage == old(curPage) && curPageNo == old(curPageNo) && curRec == old(curRec)
      ensures rid.pageNo !in file.content ==>
        file.pins == if old(curPage) == null then old(file.pins) else old(file.pins) - multiset{old(curPageNo)}
      ensures rid.pageNo !in file.content ==> (Ok() <==> Pinned() <= file.pins)
      ensures rid.pageNo in file.content && old(Flagged()) ==> Flagged()
    {
      hide PagedFile.Valid, PagedFile.WellFormed, PagedFile.View, Page.Valid, Page.View, Others, Flagged, Pinned, FileOk, Positioned;
      if rid.pageNo in file.pages {
        status, rec := FetchRecord(rid);
      } else {
        status := MissPage(rid.pageNo);
        rec := [];
      }
    }

    /** The page is there: make it the current one and fetch the record. */
    method FetchRecord(rid: RID) returns (status: Status, rec: bytes)
      requires Ok() && rid.slotNo >= 0 && rid.pageNo in file.pages
      modifies this`curPage, this`curPageNo, this`curDirtyFlag, this`curRec, this`idx, file`pins, file`unsaved
      ensures rid.pageNo in file.content && Ok() && curRec == rid && curPageNo == rid.pageNo
      ensures status == if Live(file.content[rid.pageNo].slots, rid.slotNo) then OK else INVALIDSLOTNO
      ensures status == OK ==> rec == file.content[rid.pageNo].slots[rid.slotNo].value
      ensures Others() == old(Others()) && (old(Flagged()) ==> Flagged())
    {
      hide PagedFile.Valid, PagedFile.WellFormed, PagedFile.View, Page.Valid, Page.View, Others, Flagged, Ok, OnPage;
      ghost var i := OnItsChain(rid.pageNo);
      if rid.pageNo != curPageNo || curPage == null {
        GoTo(rid.pageNo, i);
      } else {
        SamePlace(i);
      }
      PointTo(rid);
      Here();
      status, rec := curPage.GetRecord(rid);
    }

    /** The page to go to cannot be read, after the current one has been given back. */
    method MissPage(no: int) returns (status: Status)
      requires Ok() && no !in file.pages
      modifies file`pins, file`unsaved
      ensures status == if no < 1 then BADPAGENO else UNIXERR
      ensures FileOk() && Positioned() && no !in file.content && (curPage == null ==> file.unsaved == old(file.unsaved))
      ensures file.pins == if curPage == null then old(file.pins) else old(file.pins) - multiset{curPageNo}
    {
      hide PagedFile.Valid, PagedFile.WellFormed, PagedFile.View, Page.Valid, Page.View, Ok, FileOk, Positioned;
      NotHeld(no);
      if curPage != null {
        status := file.UnPinPage(curPageNo, curDirtyFlag);
      }
      var p;
      status, p := file.ReadPage(no);
    }

    lemma NotHeld(no: int)
      requires Ok() && no !in file.pages
      ensures no !in file.content && file.Valid() && FileOk() && Positioned()
      ensures curPage != null ==> curPageNo in file.pins
    {
      hide Page.Valid, Page.View;
    }

    /** Every page of the file is on its chain. */
    lemma OnItsChain(no: int) returns (i: nat)
      requires Ok() && no in file.pages
      ensures OnPage(i, no) && i < |file.View()| && no in file.content && file.content[no] == file.View()[i]
    {
      hide PagedFile.View;
      hide WellFormedFile;
      assert no in Members(file.chain);
      i :| i < |file.chain| && file.chain[i] == no;
      hide PagedFile.Valid, PagedFile.WellFormed;
      ChainAt(file, i);
    }

    method GoTo(no: int, ghost i: nat)
      requires Ok() && OnPage(i, no)
      modifies this`curPage, this`curPageNo, this`curDirtyFlag, this`curRec, this`idx, file`pins, file`unsaved
      ensures Ok() && curPage != null && curPageNo == no && idx == i
      ensures Others() == old(Others()) && (old(Flagged()) ==> Flagged())
    {
      hide PagedFile.Valid, PagedFile.WellFormed, PagedFile.View, Others, Flagged, Pinned;
      if curPage != null {
        var status := Detach(-1);
      }
      SettleDetached();
      ReadCurrent(no, i);
    }

    lemma SamePlace(i: nat)
      requires Ok() && curPage != null && OnPage(i, curPageNo)
      ensures i == idx
    {
      hide PagedFile.Valid, Page.Valid, Page.View;
      ChainAt(file, i);
      ChainAt(file, idx);
    }

    lemma CountOf()
      requires Ok()
      ensures file.header.recCnt == |AllRecs(file.View())|
    {
      hide PagedFile.Valid, WellFormedFile;
    }

    /** The other fields of the header: the first and the last page of the chain, and how many pages it has; the pages are
        linked one to the next and the last to none. */
    lemma HeaderOf()
      requires Ok()
      ensures var ps := file.View();
        && ps != [] && file.header.pageCnt == |ps|
        && file.header.firstPage == ps[0].curPage && file.header.lastPage == ps[|ps| - 1].curPage
        && ps[|ps| - 1].nextPage == -1
      ensures forall i :: 0 <= i < |file.View()| - 1 ==> file.View()[i].nextPage == file.View()[i + 1].curPage
    {
      hide PagedFile.Valid, PagedFile.View;
      ChainAt(file, 0);
      ChainAt(file, |file.View()| - 1);
      forall i | 0 <= i < |file.View()| - 1
        ensures file.View()[i].nextPage == file.View()[i + 1].curPage
      {
        ChainAt(file, i);
        ChainAt(file, i + 1);
      }
    }
  }
}
