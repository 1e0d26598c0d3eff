/** Appending records to a heap file, and fetching records by record id. */
module InsertFileScans {
  import opened Bytes
  import opened PageView
  import opened SlottedPage
  import opened HeapView
  import opened PagedFiles
  import opened HeapFileScans

  class InsertFileScan {
    const file: PagedFile
    var hdrDirtyFlag: bool
    var curPage: Page?
    var curPageNo: int
    var curDirtyFlag: bool

    ghost predicate FileOk()
      reads file`pages, file`Repr, file`content, file`bound, file`chain, file`header, file.Repr
    {
      file.Valid() && file.WellFormed() && this !in file.Repr
    }

    ghost function Pinned(): multiset<int>
      reads this`curPage, this`curPageNo
    {
      PinsOf(file.headerPageNo, curPage != null, curPageNo)
    }

    ghost function Others(): multiset<int>
      reads this`curPage, this`curPageNo, file`pins
    {
      file.pins - Pinned()
    }

    /** The inserter works on the last page of the chain. */
    ghost predicate AtLast()
      reads this`curPage, this`curPageNo, file`pages, file`chain
    {
      curPage != null ==>
        file.chain != [] && file.chain[|file.chain| - 1] == curPageNo && curPageNo in file.pages && curPage == file.pages[curPageNo]
    }

    ghost predicate Ok()
      reads this`curPage, this`curPageNo, file, file.Repr
    {
      FileOk() && AtLast() && Pinned() <= file.pins
    }

    /** The inserter hands its current page back as dirty in any case. */
    ghost predicate Flagged()
      reads this`hdrDirtyFlag, this`curPage, this`curPageNo, file`unsaved
    {
      file.unsaved <= FlaggedOf(file.headerPageNo, hdrDirtyFlag, curPage != null, curPageNo)
    }

    constructor Blank(f: PagedFile)
      ensures file == f && !hdrDirtyFlag && !curDirtyFlag && curPage == null && curPageNo == 0
    {
      file, hdrDirtyFlag, curDirtyFlag, curPage, curPageNo := f, false, false, null, 0;
    }

    /** The constructors HeapFile and InsertFileScan: pin the header and the last data page. */
    static method Open(f: PagedFile) returns (s: InsertFileScan)
      requires f.Valid() && f.WellFormed()
      modifies f`pins, f`unsaved
      ensures fresh(s) && s.file == f && s.Ok() && s.curPage != null
      ensures s.Others() == old(f.pins)
      ensures old(f.unsaved) == {} ==> s.Flagged()
    {
      hide PagedFile.Valid, PagedFile.WellFormed, PagedFile.View;
      hide InsertFileScan.Ok, InsertFileScan.Flagged, InsertFileScan.Others;
      s := new InsertFileScan.Blank(f);
      s.Start();
    }

    lemma LastPage()
      requires FileOk()
      ensures file.chain != [] && file.header.lastPage == file.chain[|file.chain| - 1] >= 1
      ensures file.header.lastPage in file.pages && file.header.firstPage in file.pages
      ensures file.header.lastPage in file.content
      ensures file.View() == PagesOf(file.chain, file.content) && |file.View()| == |file.chain|
      ensures file.View()[|file.chain| - 1] == file.content[file.header.lastPage]
    {
      hide PagedFile.Valid, PagedFile.WellFormed, Page.Valid, Page.View;
      ghost var n := |file.chain| - 1;
      ChainAt(file, 0);
      PageOf(file, file.chain[0]);
      ChainAt(file, n);
      PageOf(file, file.chain[n]);
    }

    method Start()
      requires FileOk() && curPage == null && curPageNo == 0 && !hdrDirtyFlag && !curDirtyFlag
      modifies this`curPage, this`curPageNo, this`curDirtyFlag, file`pins, file`unsaved
      ensures Ok() && curPage != null
      ensures Others() == old(file.pins)
      ensures old(file.unsaved) == {} ==> Flagged()
    {
      hide PagedFile.Valid, PagedFile.WellFormed, PagedFile.View, FlaggedOf;
      LastPage();
      PinFirst();
      hide Others, Flagged, PinsOf;
      if file.header.firstPage != file.header.lastPage {
        VisitFirst(file.header.firstPage);
      }
      ReadLast();
    }

    method PinFirst()
      requires FileOk() && curPage == null && curPageNo == 0 && !hdrDirtyFlag
      modifies file`pins
      ensures FileOk() && Pinned() <= file.pins && Others() == old(file.pins)
      ensures file.unsaved == {} ==> Flagged()
    {
      hide PagedFile.Valid, PagedFile.WellFormed, PagedFile.View;
      file.PinHeader();
    }

    /** The first page is read, is not the last one, and is given back unchanged. */
    method VisitFirst(first: int)
      requires FileOk() && first in file.pages
      modifies file`pins, file`unsaved
      ensures FileOk() && file.pins == old(file.pins) && file.unsaved == old(file.unsaved)
    {
      hide PagedFile.Valid, PagedFile.WellFormed;
      var status, p := file.ReadPage(first);
      status := file.UnPinPage(first, false);
    }

    method ReadLast()
      requires FileOk() && curPage == null && Pinned() <= file.pins
      modifies this`curPage, this`curPageNo, file`pins
      ensures Ok() && curPage != null
      ensures Others() == old(Others())
      ensures old(Flagged()) ==> Flagged()
    {
      hide PagedFile.Valid, PagedFile.WellFormed, PagedFile.View, PinsOf, FlaggedOf;
      LastPage();
      PinsMove(file.pins, file.headerPageNo, file.header.lastPage);
      PinsDetached(file.headerPageNo, curPageNo, file.header.lastPage);
      FlaggedAttach(file.unsaved, file.headerPageNo, hdrDirtyFlag, curPageNo, file.header.lastPage);
      curPageNo := file.header.lastPage;
      var status, p := file.ReadPage(curPageNo);
      curPage := p;
    }

    /** Try the current page; count the record if it went in. */
    method InsertHere(rec: bytes) returns (status: Status, rid: RID)
      requires Ok() && curPage != null && rec != []
      modifies this`hdrDirtyFlag, this`curDirtyFlag, file`content, file`header, file`unsaved, curPage, curPage.raw
      ensures Ok()
      ensures status == if Fits(Last(old(file.View())).slots, |rec|) then OK else NOSPACE
      ensures status == OK ==> file.View() == InsertRec(old(file.View()), rec, curPageNo)
      ensures status == OK ==> rid == InsertedAt(old(file.View()), rec, curPageNo)
      ensures status != OK ==> file.content == old(file.content) && file.header == old(file.header)
      ensures Others() == old(Others())
      ensures old(Flagged()) ==> Flagged()
    {
      hide PagedFile.Valid, Page.Valid, Page.View, GoodFile, Fits, Insert, Pinned, PinsOf, PagesOf, FirstEmpty;
      hide Others;
      LastPage();
      ghost var chain, content, header := file.chain, file.content, file.header;
      status, rid := file.InsertOn(curPageNo, rec);
      if status == OK {
        CountRecord();
        curDirtyFlag := true;
        InsertKeepsGood(chain, content, header, rec, curPageNo);
      }
    }

    method CountRecord()
      requires file.Valid() && this !in file.Repr
      modifies this`hdrDirtyFlag, file`header, file`unsaved
      ensures file.Valid()
      ensures file.header == old(file.header).(recCnt := old(file.header).recCnt + 1)
      ensures file.unsaved == old(file.unsaved) + {file.headerPageNo} && hdrDirtyFlag
    {
      hide PagedFile.Valid;
      file.SetHeader(file.header.(recCnt := file.header.recCnt + 1));
      hdrDirtyFlag := true;
    }

    /** The current page is full: link a new empty page behind it and make that the current page. */
    method LinkNewPage()
      requires Ok() && curPage != null
      modifies this`curPage, this`curPageNo, this`hdrDirtyFlag, file, curPage, curPage.raw
      ensures Ok() && curPage != null && curPageNo >= 1 && curPageNo !in old(file.content)
      ensures file.View() == LinkPage(old(file.View()), curPageNo)
      ensures fresh(file.Repr - old(file.Repr)) && fresh(curPage) && fresh(curPage.raw)
      ensures Others() == old(Others())
      ensures old(Flagged()) ==> Flagged()
    {
      hide PagedFile.Valid, PagedFile.WellFormed, PagedFile.View, Page.Valid, Page.View, PinsOf, FlaggedOf;
      ghost var pins, unsaved, flag := file.pins, file.unsaved, hdrDirtyFlag;
      var newPageNo, newPage := AllocLast();
      SwitchTo(newPageNo, newPage, pins, unsaved, flag);
    }

    /** Allocate and initialise a page and make it the last of the file; both pages stay pinned. */
    method AllocLast() returns (no: int, page: Page)
      requires FileOk() && curPage != null && AtLast()
      modifies this`hdrDirtyFlag, file, curPage
      ensures FileOk() && hdrDirtyFlag && no >= 1 && no !in old(file.content)
      ensures no in file.pages && page == file.pages[no] && file.chain == old(file.chain) + [no]
      ensures file.View() == LinkPage(old(file.View()), no)
      ensures fresh(file.Repr - old(file.Repr)) && fresh(page) && fresh(page.raw)
      ensures file.pins == old(file.pins) + multiset{no}
      ensures file.unsaved == old(file.unsaved) + {no, file.headerPageNo, curPageNo}
    {
      hide PagedFile.Valid, Page.Valid, Page.View, GoodFile, PagesOf;
      LastPage();
      ghost var chain, content, header := file.chain, file.content, file.header;
      no, page := file.AllocPage();
      file.SetHeader(file.header.(lastPage := no, pageCnt := file.header.pageCnt + 1));
      hdrDirtyFlag := true;
      file.SetNext(curPageNo, no);
      file.chain := file.chain + [no];
      LinkKeepsGood(chain, content, header, no);
      MapSwap(content, no, PageView([], -1, no), curPageNo, content[curPageNo].(nextPage := no));
    }

    method SwitchTo(no: int, page: Page, ghost pins: multiset<int>, ghost unsaved: set<int>, ghost flag: bool)
      requires FileOk() && curPage != null && hdrDirtyFlag
      requires Pinned() <= pins && file.pins == pins + multiset{no}
      requires file.unsaved == unsaved + {no, file.headerPageNo, curPageNo}
      requires file.chain != [] && file.chain[|file.chain| - 1] == no && no in file.pages && page == file.pages[no]
      modifies this`curPage, this`curPageNo, file`pins, file`unsaved
      ensures Ok() && curPage == page && curPageNo == no
      ensures Others() == pins - old(Pinned())
      ensures unsaved <= FlaggedOf(file.headerPageNo, flag, true, old(curPageNo)) ==> Flagged()
    {
      hide PagedFile.Valid, PagedFile.WellFormed, PagedFile.View, PinsOf, FlaggedOf;
      PinsSwitch(pins, file.headerPageNo, curPageNo, no);
      FlaggedSwitch(unsaved, file.headerPageNo, flag, curPageNo, no);
      var status := file.UnPinPage(curPageNo, true);
      curPage, curPageNo := page, no;
    }

    /** A page is linked exactly when the record and a slot do not fit in what the last page has left of its 1004 bytes. */
    lemma LinksPage(ps: Pages, rec: bytes, no: int, qs: Pages)
      requires ps != [] && qs == if |rec| <= DATASIZE then InsertRec(ps, rec, no) else ps
      ensures var last := ps[|ps| - 1].slots;
        |qs| == |ps| + if |rec| <= 1004 && |rec| + 4 > 1004 - Used(last) - 4 * |last| then 1 else 0
    {
      hide Insert;
      FitsMeans(ps[|ps| - 1].slots, |rec|);
    }

    /** Insert a record into the file.  Lengths 1 to 1000 always succeed.  Lengths up to 1004 pass the
        length check but fit on no page: they cost an empty page and return NOSPACE. */
    method InsertRecord(rec: bytes) returns (status: Status, outRid: RID)
      requires Ok() && rec != []
      modifies this`curPage, this`curPageNo, this`hdrDirtyFlag, this`curDirtyFlag, file, file.Repr
      ensures Ok()
      ensures status == if |rec| <= MAXRECORD then OK else if |rec| <= DATASIZE then NOSPACE else INVALIDRECLEN
      ensures |rec| <= DATASIZE ==> file.View() == InsertRec(old(file.View()), rec, curPageNo)
      ensures |rec| > DATASIZE ==> file.View() == old(file.View())
      ensures |rec| <= DATASIZE || old(curPage) != null ==> curPage != null
      ensures status == OK <==> |rec| <= 1000
      ensures status == NOSPACE <==> 1000 < |rec| <= 1004
      ensures status == INVALIDRECLEN <==> |rec| > 1004
      ensures old(file.View()) != [] && var last := old(file.View())[|old(file.View())| - 1].slots;
        |file.View()| == |old(file.View())| + if |rec| <= 1004 && |rec| + 4 > 1004 - Used(last) - 4 * |last| then 1 else 0
      ensures status == OK ==> outRid == InsertedAt(old(file.View()), rec, curPageNo)
      ensures fresh(file.Repr - old(file.Repr))
      ensures Others() == old(Others())
      ensures old(Flagged()) ==> Flagged()
    {
      hide Ok, PagedFile.View, Fits, Others, Flagged, Pinned, InsertRec, InsertedAt, Used;
      outRid := NULLRID;
      NonEmpty();
      if |rec| > DATASIZE {
        LinksPage(file.View(), rec, curPageNo, file.View());
        return INVALIDRECLEN, NULLRID;
      }
      if curPage == null {
        AttachLast();
      }
      OwnPage();
      ghost var ps := file.View();
      status, outRid := InsertHere(rec);
      if status == OK {
        FitsLast(ps, rec);
        LinksPage(ps, rec, curPageNo, file.View());
        return;
      }
      status, outRid := InsertOnNewPage(rec);
      LinksPage(ps, rec, curPageNo, file.View());
    }


    method AttachLast()
      requires Ok() && curPage == null
      modifies this`curPage, this`curPageNo, file`pins
      ensures Ok() && curPage != null
      ensures Others() == old(Others())
      ensures old(Flagged()) ==> Flagged()
    {
      hide PagedFile.Valid, PagedFile.WellFormed, PagedFile.View, PinsOf, FlaggedOf;
      ReadLast();
    }

    lemma OwnPage()
      requires Ok() && curPage != null
      ensures curPage in file.Repr && curPage.raw in file.Repr && this !in file.Repr && file !in file.Repr
      ensures file.View() != []
    {
      hide Page.Valid, Page.View, GoodFile;
      LastPage();
      file.PageFacts(curPageNo);
    }

    /** The record did not fit on the last page. */
    method InsertOnNewPage(rec: bytes) returns (status: Status, outRid: RID)
      requires Ok() && curPage != null && rec != [] && |rec| <= DATASIZE
      requires !Fits(Last(file.View()).slots, |rec|)
      modifies this`curPage, this`curPageNo, this`hdrDirtyFlag, this`curDirtyFlag, file, curPage, curPage.raw
      ensures Ok() && curPage != null
      ensures status == if |rec| <= MAXRECORD then OK else NOSPACE
      ensures file.View() == InsertRec(old(file.View()), rec, curPageNo)
      ensures status == OK ==> outRid == InsertedAt(old(file.View()), rec, curPageNo)
      ensures fresh(file.Repr - old(file.Repr))
      ensures Others() == old(Others())
      ensures old(Flagged()) ==> Flagged()
    {
      hide FileOk, PagedFile.View, Fits, Others, Flagged, Pinned, InsertRec, InsertedAt;
      OwnPage();
      ghost var ps := file.View();
      LinkNewPage();
      InsertByLink(ps, rec, curPageNo);
      status, outRid := InsertHere(rec);
    }

    /** The destructors: no pin is left, and every change has been handed back as dirty. */
    method Close()
      requires Ok()
      modifies this`curPage, this`curPageNo, file`pins, file`unsaved
      ensures file.Valid() && file.WellFormed()
      ensures file.pins == old(Others())
      ensures old(Flagged()) ==> file.unsaved == {}
    {
      hide PagedFile.Valid, PagedFile.WellFormed, PagedFile.View;
      var status;
      if curPage != null {
        status := file.UnPinPage(curPageNo, true);
        curPage, curPageNo := null, 0;
      }
      status := file.UnPinPage(file.headerPageNo, hdrDirtyFlag);
    }

    lemma NonEmpty()
      requires Ok()
      ensures file.View() != []
    {
      hide PagedFile.Valid;
      LastPage();
    }
  }

  lemma PinsSwitch(pins: multiset<int>, header: int, a: int, b: int)
    requires PinsOf(header, true, a) <= pins
    ensures a in pins + multiset{b}
    ensures PinsOf(header, true, b) <= pins + multiset{b} - multiset{a}
    ensures pins + multiset{b} - multiset{a} - PinsOf(header, true, b) == pins - PinsOf(header, true, a)
  {
  }

  lemma FlaggedSwitch(unsaved: set<int>, header: int, flag: bool, a: int, b: int)
    ensures unsaved <= FlaggedOf(header, flag, true, a) ==>
      unsaved + {b, header, a} - {a} <= FlaggedOf(header, true, true, b)
  {
  }

  lemma MapSwap<V>(m: map<int, V>, a: int, v: V, b: int, w: V)
    requires a != b
    ensures m[a := v][b := w] == m[b := w][a := v]
  {
  }

  lemma FitsLast(ps: Pages, r: bytes)
    requires ps != [] && Fits(Last(ps).slots, |r|)
    ensures |r| <= MAXRECORD
  {
  }

  function Last(ps: Pages): PageView {
    if ps == [] then PageView([], -1, 0) else ps[|ps| - 1]
  }

  lemma FlaggedAttach(unsaved: set<int>, header: int, hdrDirty: bool, a: int, b: int)
    ensures unsaved <= FlaggedOf(header, hdrDirty, false, a) ==> unsaved <= FlaggedOf(header, hdrDirty, true, b)
  {
  }
}
