/** One heap file as its clients see it through the buffer manager, as long as buffer calls succeed:
    page numbers name pinned pages in memory, and the header page is shared by everybody who has the file open. */
module PagedFiles {
  import opened Bytes
  import opened PageView
  import opened SlottedPage
  import opened HeapView

  datatype Header = Header(firstPage: int, lastPage: int, pageCnt: int, recCnt: int)

  /** The pages of a chain, given what each page number stands for. */
  ghost function PagesOf(chain: seq<int>, content: map<int, PageView>): Pages {
    seq(|chain|, i requires 0 <= i < |chain| =>
      if chain[i] in content then content[chain[i]] else PageView([], -1, 0))
  }

  ghost predicate OnChain(chain: seq<int>, content: map<int, PageView>, i: int)
    requires 0 <= i < |chain|
  {
    chain[i] in content && content[chain[i]].curPage == chain[i]
  }

  ghost predicate AllOnChain(chain: seq<int>, content: map<int, PageView>) {
    forall i :: 0 <= i < |chain| ==> OnChain(chain, content, i)
  }

  ghost function Members(chain: seq<int>): set<int> {
    set no | no in chain
  }

  /** The chain of pages is a well-formed heap file to which every page belongs, and the header says where it starts and ends,
      how many pages it has and how many live records. */
  ghost predicate GoodFile(chain: seq<int>, content: map<int, PageView>, header: Header) {
    && AllOnChain(chain, content) && content.Keys <= Members(chain)
    && WellFormedFile(PagesOf(chain, content))
    && chain != []
    && header.firstPage == chain[0] && header.lastPage == chain[|chain| - 1]
    && header.pageCnt == |chain|
    && header.recCnt == |AllRecs(PagesOf(chain, content))|
  }

  lemma ChainDistinct(chain: seq<int>, content: map<int, PageView>, i: nat, j: nat)
    requires i < |chain| && j < |chain| && i != j
    requires OnChain(chain, content, i) && OnChain(chain, content, j)
    requires Distinct(PagesOf(chain, content))
    ensures chain[i] != chain[j]
  {
    var ps := PagesOf(chain, content);
    assert ps[i].curPage == chain[i] && ps[j].curPage == chain[j];
  }

  /** Changing what the i-th page of the chain stands for changes the i-th page of the view and no other. */
  lemma PagesOfUpdate(chain: seq<int>, content: map<int, PageView>, i: nat, v: PageView)
    requires i < |chain| && AllOnChain(chain, content)
    requires Distinct(PagesOf(chain, content)) && v.curPage == chain[i]
    ensures PagesOf(chain, content[chain[i] := v]) == PagesOf(chain, content)[i := v]
    ensures AllOnChain(chain, content[chain[i] := v])
  {
    hide Distinct;
    var content' := content[chain[i] := v];
    forall j | 0 <= j < |chain|
      ensures OnChain(chain, content', j) && PagesOf(chain, content')[j] == PagesOf(chain, content)[i := v][j]
    {
      assert OnChain(chain, content, j) && OnChain(chain, content, i);
      if j != i {
        ChainDistinct(chain, content, i, j);
      }
    }
  }

  /** Deleting a live record of the i-th page and counting one record less keeps the file good. */
  lemma DeleteKeepsGood(chain: seq<int>, content: map<int, PageView>, header: Header, i: nat, k: int)
    requires GoodFile(chain, content, header) && i < |chain| && Live(PagesOf(chain, content)[i].slots, k)
    ensures OnChain(chain, content, i)
    ensures var p := content[chain[i]]; var content' := content[chain[i] := p.(slots := Delete(p.slots, k))];
      && GoodFile(chain, content', header.(recCnt := header.recCnt - 1))
      && PagesOf(chain, content') == DeleteRec(PagesOf(chain, content), i, k)
  {
    hide WellFormedFile, AllRecs, Delete;
    assert OnChain(chain, content, i);
    var ps := PagesOf(chain, content);
    var p := content[chain[i]];
    GoodDistinct(chain, content, header);
    PagesOfUpdate(chain, content, i, p.(slots := Delete(p.slots, k)));
    DeleteKeepsFile(ps, i, k);
    var before := DeleteUnderCursor(ps, i, k);
  }

  lemma GoodDistinct(chain: seq<int>, content: map<int, PageView>, header: Header)
    requires GoodFile(chain, content, header)
    ensures Distinct(PagesOf(chain, content))
    ensures forall i :: 0 <= i < |chain| ==> WellFormed(PagesOf(chain, content)[i].slots)
  {
    hide Linked, AllRecs, WellFormed;
    forall i | 0 <= i < |chain|
      ensures WellFormed(PagesOf(chain, content)[i].slots)
    {
      assert SoundPage(PagesOf(chain, content)[i]);
    }
  }

  /** Inserting a record that fits on the last page, and counting it, keeps the file good. */
  lemma InsertKeepsGood(chain: seq<int>, content: map<int, PageView>, header: Header, r: bytes, no: int)
    requires GoodFile(chain, content, header) && r != []
    requires Fits(PagesOf(chain, content)[|chain| - 1].slots, |r|)
    ensures OnChain(chain, content, |chain| - 1)
    ensures var n := |chain| - 1; var last := content[chain[n]];
      var content' := content[chain[n] := last.(slots := Insert(last.slots, r))];
      && last == PagesOf(chain, content)[n]
      && GoodFile(chain, content', header.(recCnt := header.recCnt + 1))
      && PagesOf(chain, content') == InsertRec(PagesOf(chain, content), r, no)
  {
    hide WellFormedFile, AllRecs, Insert, Fits;
    var n, ps := |chain| - 1, PagesOf(chain, content);
    assert OnChain(chain, content, n);
    var last := content[chain[n]];
    GoodDistinct(chain, content, header);
    FitsRecord(ps[n].slots, r);
    PagesOfUpdate(chain, content, n, last.(slots := Insert(last.slots, r)));
    InsertKeepsFile(ps, r, no);
    var before, after := InsertAddsRec(ps, r, no);
  }

  /** Linking an empty page behind the last one keeps the file good. */
  lemma LinkKeepsGood(chain: seq<int>, content: map<int, PageView>, header: Header, no: int)
    requires GoodFile(chain, content, header) && no >= 1 && no !in content
    ensures OnChain(chain, content, |chain| - 1)
    ensures var c := chain[|chain| - 1];
      var content' := content[c := content[c].(nextPage := no)][no := PageView([], -1, no)];
      && GoodFile(chain + [no], content', header.(lastPage := no, pageCnt := header.pageCnt + 1))
      && PagesOf(chain + [no], content') == LinkPage(PagesOf(chain, content), no)
  {
    hide WellFormedFile, AllRecs;
    var ps := PagesOf(chain, content);
    FreshNumber(chain, content, no);
    LinkKeepsFile(ps, no);
    LinkAddsNothing(ps, no);
    AppendView(chain, content, header, PageView([], -1, no), no);
  }

  lemma AppendView(chain: seq<int>, content: map<int, PageView>, header: Header, v: PageView, no: int)
    requires GoodFile(chain, content, header) && no !in content && v.curPage == no
    ensures OnChain(chain, content, |chain| - 1)
    ensures var last := content[chain[|chain| - 1]];
      var content' := content[chain[|chain| - 1] := last.(nextPage := no)][no := v];
      && AllOnChain(chain + [no], content')
      && PagesOf(chain + [no], content')
        == PagesOf(chain, content)[|chain| - 1 := PagesOf(chain, content)[|chain| - 1].(nextPage := no)] + [v]
  {
    hide WellFormedFile, AllRecs;
    var n, ps := |chain| - 1, PagesOf(chain, content);
    assert OnChain(chain, content, n);
    var last := content[chain[n]];
    GoodDistinct(chain, content, header);
    FreshNumber(chain, content, no);
    PagesOfUpdate(chain, content, n, last.(nextPage := no));
    var mid := content[chain[n] := last.(nextPage := no)];
    var content' := mid[no := v];
    forall j | 0 <= j < |chain + [no]|
      ensures OnChain(chain + [no], content', j)
      ensures PagesOf(chain + [no], content')[j] == (PagesOf(chain, mid) + [v])[j]
    {
      assert j < |chain| ==> OnChain(chain, mid, j);
    }
  }

  lemma FreshNumber(chain: seq<int>, content: map<int, PageView>, no: int)
    requires AllOnChain(chain, content) && no !in content
    ensures forall i :: 0 <= i < |chain| ==> chain[i] != no
    ensures forall i :: 0 <= i < |chain| ==> PagesOf(chain, content)[i].curPage != no
  {
    forall i | 0 <= i < |chain|
      ensures chain[i] != no && PagesOf(chain, content)[i].curPage != no
    {
      assert OnChain(chain, content, i);
    }
  }

  lemma FitsRecord(s: Slots, r: bytes)
    requires Fits(s, |r|)
    ensures |r| <= MAXRECORD
  {
  }

  class PagedFile {
    const headerPageNo: int
    var header: Header
    var pages: map<int, Page>
    var pins: multiset<int>            // one element for each pin held, header page included
    var bound: int                     // every page number in use is below it

    ghost var content: map<int, PageView>
    ghost var chain: seq<int>          // data pages, first to last
    ghost var unsaved: set<int>        // pages changed and not yet unpinned as dirty
    ghost var Repr: set<object>

    ghost predicate Owns(no: int)
      requires no in pages
      reads this`pages, this`Repr
    {
      pages[no] in Repr && pages[no].raw in Repr
    }

    ghost predicate Holds(no: int)
      requires no in pages && Owns(no)
      reads this`pages, this`Repr, this`content, Repr
    {
      no in content && pages[no].Valid() && pages[no].View() == content[no]
    }

    /** Every page is sound, means what `content` says, and shares no memory with another page. */
    ghost predicate Valid()
      reads this`pages, this`Repr, this`content, this`bound, Repr
    {
      && this !in Repr
      && content.Keys == pages.Keys
      && (forall no :: no in pages ==> Owns(no) && Holds(no) && 1 <= no < bound && no != headerPageNo)
      && (forall a, b :: a in pages && b in pages && a != b ==> pages[a] != pages[b] && pages[a].raw != pages[b].raw)
      && 1 <= headerPageNo < bound
    }

    /** The chain of data pages. */
    ghost function View(): Pages
      reads this`chain, this`content
    {
      PagesOf(chain, content)
    }

    /** The heap file is well formed and its header tells the truth. */
    ghost predicate WellFormed()
      reads this`chain, this`content, this`header
    {
      GoodFile(chain, content, header)
    }

    /** createHeapFile: a header page and one empty data page, nothing pinned. */
    constructor Create()
      ensures Valid() && WellFormed() && fresh(Repr)
      ensures View() == [PageView([], -1, 2)] && AllRecs(View()) == []
      ensures pins == multiset{} && unsaved == {}
    {
      hide Page.Valid, Page.View, WellFormed, PagedFile.Valid, PagedFile.View, AllRecs;
      var p := new Page.Init(2);
      headerPageNo := 1;
      header := Header(2, 2, 1, 0);
      pages := map[2 := p];
      pins := multiset{};
      bound := 3;
      content := map[2 := PageView([], -1, 2)];
      chain := [2];
      unsaved := {};
      Repr := {p, p.raw};
      new;
      EmptyFileOk();
      OnePageValid(p);
    }

    lemma OnePageValid(p: Page)
      requires pages == map[2 := p] && content == map[2 := p.View()] && Repr == {p, p.raw} && p.Valid()
      requires headerPageNo == 1 && bound == 3
      ensures Valid()
    {
      hide Page.Valid, Page.View;
      assert Owns(2) && Holds(2);
    }

    lemma EmptyFileOk()
      requires chain == [2] && content == map[2 := PageView([], -1, 2)] && header == Header(2, 2, 1, 0)
      ensures View() == [PageView([], -1, 2)] && AllRecs(View()) == [] && WellFormed()
    {
      assert View() == [PageView([], -1, 2)];
      assert PageRecs(PageView([], -1, 2), 0) == [];
      assert LinkAt(View(), 0) && SoundPage(View()[0]);
      assert OnChain(chain, content, 0);
    }

    method ReadPage(no: int) returns (status: Status, page: Page?)
      requires Valid()
      modifies this`pins
      ensures Valid()
      ensures status == if no in pages then OK else if no < 1 then BADPAGENO else UNIXERR
      ensures status == OK ==> page == pages[no] && pins == old(pins) + multiset{no}
      ensures status != OK ==> pins == old(pins)
    {
      if no !in pages {
        return if no < 1 then BADPAGENO else UNIXERR, null;
      }
      status, page := OK, pages[no];
      pins := pins + multiset{no};
    }

    method PinHeader()
      requires Valid()
      modifies this`pins
      ensures Valid() && pins == old(pins) + multiset{headerPageNo}
    {
      pins := pins + multiset{headerPageNo};
    }

    method UnPinPage(no: int, dirty: bool) returns (status: Status)
      requires Valid()
      modifies this`pins, this`unsaved
      ensures Valid()
      ensures status == if no in old(pins) then OK else PAGENOTPINNED
      ensures status == OK ==> pins == old(pins) - multiset{no}
      ensures status == OK ==> unsaved == if dirty then old(unsaved) - {no} else old(unsaved)
      ensures status != OK ==> pins == old(pins) && unsaved == old(unsaved)
    {
      if no !in pins {
        return PAGENOTPINNED;
      }
      pins := pins - multiset{no};
      if dirty {
        unsaved := unsaved - {no};
      }
      status := OK;
    }

    method SetHeader(h: Header)
      requires Valid()
      modifies this`header, this`unsaved
      ensures Valid() && header == h && unsaved == old(unsaved) + {headerPageNo}
    {
      header := h;
      unsaved := unsaved + {headerPageNo};
    }

    lemma PageFacts(no: int)
      requires Valid() && no in pages
      ensures no in content && this !in Repr && pages[no] in Repr && pages[no].raw in Repr
      ensures pages[no].Valid() && pages[no].View() == content[no]
      ensures forall a :: a in pages && a != no ==> pages[a] != pages[no] && pages[a].raw != pages[no].raw
    {
      hide Page.Valid, Page.View;
      assert Owns(no) && Holds(no);
    }

    lemma NotOwn()
      requires Valid()
      ensures this !in Repr
    {
    }

    /** curPage->insertRecord on a page of the file. */
    method InsertOn(no: int, rec: bytes) returns (status: Status, rid: RID)
      requires Valid() && no in pages && rec != []
      modifies this`content, this`unsaved, pages[no], pages[no].raw
      ensures Valid()
      ensures status == if Fits(old(content)[no].slots, |rec|) then OK else NOSPACE
      ensures status == OK <==> |rec| + 4 <= 1004 - Used(old(content)[no].slots) - 4 * |old(content)[no].slots|
      ensures content == if status != OK then old(content)
        else old(content)[no := old(content)[no].(slots := Insert(old(content)[no].slots, rec))]
      ensures status == OK ==> rid == RID(old(content)[no].curPage, FirstEmpty(old(content)[no].slots, 0))
      ensures unsaved == if status == OK then old(unsaved) + {no} else old(unsaved)
    {
      hide Page.Valid, Page.View, Insert, Delete, Fits, FirstEmpty, Live;
      PageFacts(no);
      status, rid := pages[no].InsertRecord(rec);
      ghost var v := pages[no].View();
      unsaved := if status == OK then unsaved + {no} else unsaved;
      content := content[no := v];
      forall a | a in pages
        ensures Owns(a) && Holds(a)
      {
        assert a != no ==> old(Owns(a)) && old(Holds(a));
      }
    }

    /** curPage->deleteRecord on a page of the file. */
    method DeleteOn(no: int, rid: RID) returns (status: Status)
      requires Valid() && no in pages && rid.slotNo >= 0
      modifies this`content, this`unsaved, pages[no], pages[no].raw
      ensures Valid()
      ensures status == if Live(old(content)[no].slots, rid.slotNo) then OK else INVALIDSLOTNO
      ensures content == if status != OK then old(content)
        else old(content)[no := old(content)[no].(slots := Delete(old(content)[no].slots, rid.slotNo))]
      ensures unsaved == if status == OK then old(unsaved) + {no} else old(unsaved)
    {
      hide Page.Valid, Page.View, Insert, Delete, Fits, FirstEmpty, Live;
      PageFacts(no);
      status := pages[no].DeleteRecord(rid);
      ghost var v := pages[no].View();
      unsaved := if status == OK then unsaved + {no} else unsaved;
      content := content[no := v];
      forall a | a in pages
        ensures Owns(a) && Holds(a)
      {
        assert a != no ==> old(Owns(a)) && old(Holds(a));
      }
    }

    /** curPage->setNextPage on a page of the file. */
    method SetNext(no: int, next: int)
      requires Valid() && no in pages
      modifies this`content, this`unsaved, pages[no]
      ensures Valid()
      ensures content == old(content)[no := old(content)[no].(nextPage := next)]
      ensures unsaved == old(unsaved) + {no}
    {
      hide Page.Valid, Page.View, Insert, Delete, Fits, FirstEmpty, Live;
      PageFacts(no);
      pages[no].SetNextPage(next);
      ghost var v := pages[no].View();
      unsaved := unsaved + {no};
      content := content[no := v];
      forall a | a in pages
        ensures Owns(a) && Holds(a)
      {
        assert a != no ==> old(Owns(a)) && old(Holds(a));
      }
    }

    /** allocPage followed by init: a page number nobody uses, pinned, holding an empty page.
        Which number is chosen is the file layer's business. */
    method AllocPage() returns (no: int, page: Page)
      requires Valid()
      modifies this`pages, this`pins, this`bound, this`content, this`unsaved, this`Repr
      ensures Valid() && fresh(Repr - old(Repr)) && old(Repr) <= Repr && fresh(page) && fresh(page.raw)
      ensures no !in old(content) && no >= 1 && no != headerPageNo
      ensures pages == old(pages)[no := page] && content == old(content)[no := PageView([], -1, no)]
      ensures pins == old(pins) + multiset{no} && unsaved == old(unsaved) + {no}
    {
      hide Page.Valid, Page.View;
      no := bound;
      page := new Page.Init(no);
      pins, bound, unsaved := pins + multiset{no}, bound + 1, unsaved + {no};
      AddPage(no, page);
    }

    /** A page nobody uses yet becomes page no of the file. */
    method AddPage(no: int, page: Page)
      requires this !in Repr && content.Keys == pages.Keys && no !in pages && 1 <= no < bound && no != headerPageNo
      requires forall a :: a in pages ==> Owns(a) && Holds(a) && 1 <= a < bound && a != headerPageNo
      requires forall a, b :: a in pages && b in pages && a != b ==> pages[a] != pages[b] && pages[a].raw != pages[b].raw
      requires 1 <= headerPageNo < bound && page !in Repr && page.raw !in Repr && page.Valid()
      modifies this`pages, this`content, this`Repr
      ensures Valid() && Repr == old(Repr) + {page, page.raw}
      ensures pages == old(pages)[no := page] && content == old(content)[no := page.View()]
    {
      hide Page.Valid, Page.View;
      ghost var v := page.View();
      pages, content, Repr := pages[no := page], content[no := v], Repr + {page, page.raw};
      forall a | a in pages
        ensures Owns(a) && Holds(a)
      {
        assert a != no ==> old(Owns(a)) && old(Holds(a));
      }
    }
  }

  /** Two files that share no memory. */
  ghost predicate Separate(f: PagedFile, g: PagedFile)
    reads f`Repr, g`Repr
  {
    f != g && f !in g.Repr && g !in f.Repr && f.Repr !! g.Repr
  }
}
