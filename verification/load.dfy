/** Bulk loading and printing: what has been loaded into a relation is read back, tuple by tuple. */
module Loading {
  import opened Bytes
  import opened PageView
  import opened ScanFilter
  import opened HeapView
  import opened PagedFiles
  import opened HeapFileScans
  import opened InsertFileScans

  /** The tuples of a data file: pieces of the given width; a piece that is too short at the end is not one. */
  function Tuples(input: bytes, width: nat): seq<bytes>
    requires width > 0
  {
    if |input| < width then [] else [input[..width]] + Tuples(input[width..], width)
  }

  function Joined(pieces: seq<bytes>): bytes {
    if pieces == [] then [] else pieces[0] + Joined(pieces[1..])
  }

  /** The tuples side by side are the data file, but for a rest too short to be a tuple. */
  lemma {:induction false} TuplesJoined(input: bytes, width: nat) returns (rest: bytes)
    requires width > 0
    ensures input == Joined(Tuples(input, width)) + rest && |rest| < width
    ensures forall i :: 0 <= i < |Tuples(input, width)| ==> |Tuples(input, width)[i]| == width
    decreases |input|
  {
    rest := input;
    if |input| >= width {
      rest := TuplesJoined(input[width..], width);
      assert input == input[..width] + input[width..];
      assert Tuples(input, width)[1..] == Tuples(input[width..], width);
      assert input == input[..width] + (Joined(Tuples(input[width..], width)) + rest);
    }
  }

  lemma TuplesNext(input: bytes, width: nat, pos: nat)
    requires width > 0 && pos <= |input|
    ensures pos + width <= |input| ==>
      Tuples(input[pos..], width) == [input[pos..pos + width]] + Tuples(input[pos + width..], width)
    ensures pos + width > |input| ==> Tuples(input[pos..], width) == []
  {
    if pos + width <= |input| {
      assert input[pos..][..width] == input[pos..pos + width];
      assert input[pos..][width..] == input[pos + width..];
    }
  }

  /** UT_Load: insert the tuples of the data file one after the other.  A tuple that is too long ends the loading with
      the inserter still open. */
  method Load(f: PagedFile, input: bytes, width: nat) returns (status: Status)
    requires f.Valid() && f.WellFormed() && width >= 1
    modifies f, f.Repr
    ensures f.Valid() && f.WellFormed() && fresh(f.Repr - old(f.Repr))
    ensures status == if width <= MAXRECORD || |input| < width then OK else if width <= DATASIZE then NOSPACE else INVALIDRECLEN
    ensures status == OK ==> Bag(f.View()) == old(Bag(f.View())) + multiset(Tuples(input, width))
    ensures status == OK && old(Dense(f.View())) ==>
      Dense(f.View()) && Datas(AllRecs(f.View())) == old(Datas(AllRecs(f.View()))) + Tuples(input, width)
    ensures status == OK ==> f.pins == old(f.pins) && (old(f.unsaved) == {} ==> f.unsaved == {})
    ensures status != OK ==> AllRecs(f.View()) == old(AllRecs(f.View()))
    ensures status != OK ==> old(f.pins) <= f.pins && |f.pins| == |old(f.pins)| + 2
  {
    hide PagedFile.Valid, PagedFile.WellFormed, PagedFile.View, Bag, Dense, AllRecs, Datas, Tuples;
    hide InsertFileScan.Ok, InsertFileScan.Others, InsertFileScan.Flagged;
    hide Grown;
    ghost var ps := f.View();
    var iFile := InsertFileScan.Open(f);
    status := LoadTuples(iFile, input, width);
    if status != OK {
      StillOpen(iFile, old(f.pins));
      return;
    }
    AllGrown(ps, Tuples(input, width), f.View());
    iFile.Close();
  }

  /** The loop of UT_Load. */
  method LoadTuples(iFile: InsertFileScan, input: bytes, width: nat) returns (status: Status)
    requires iFile.Ok() && iFile.curPage != null && width >= 1
    modifies iFile`curPage, iFile`curPageNo, iFile`hdrDirtyFlag, iFile`curDirtyFlag, iFile.file, iFile.file.Repr
    ensures iFile.Ok() && iFile.curPage != null && fresh(iFile.file.Repr - old(iFile.file.Repr))
    ensures status == if width <= MAXRECORD || |input| < width then OK else if width <= DATASIZE then NOSPACE else INVALIDRECLEN
    ensures status == OK ==> Grown(old(iFile.file.View()), Tuples(input, width), iFile.file.View())
    ensures status != OK ==> AllRecs(iFile.file.View()) == old(AllRecs(iFile.file.View()))
    ensures iFile.Others() == old(iFile.Others()) && (old(iFile.Flagged()) ==> iFile.Flagged())
  {
    hide PagedFile.Valid, PagedFile.WellFormed, PagedFile.View, Grown, AllRecs, Tuples;
    hide InsertFileScan.Ok, InsertFileScan.Others, InsertFileScan.Flagged;
    ghost var ps, done := iFile.file.View(), [];
    Nothing(ps);
    status := OK;
    var pos := 0;
    while pos + width <= |input|
      invariant pos <= |input| && iFile.Ok() && iFile.curPage != null && fresh(iFile.file.Repr - old(iFile.file.Repr))
      invariant status == OK && (pos > 0 ==> width <= MAXRECORD)
      invariant done + Tuples(input[pos..], width) == Tuples(input, width) && Grown(ps, done, iFile.file.View())
      invariant pos == 0 ==> iFile.file.View() == ps
      invariant iFile.Others() == old(iFile.Others()) && (old(iFile.Flagged()) ==> iFile.Flagged())
    {
      TuplesNext(input, width, pos);
      status := LoadTuple(iFile, ps, done, input[pos..pos + width]);
      if status != OK {
        return;
      }
      done := done + [input[pos..pos + width]];
      pos := pos + width;
    }
    TuplesNext(input, width, pos);
    assert done + [] == done;
  }

  lemma AllGrown(ps: Pages, done: seq<bytes>, qs: Pages)
    requires Grown(ps, done, qs)
    ensures Bag(qs) == Bag(ps) + multiset(done)
    ensures Dense(ps) ==> Dense(qs) && Datas(AllRecs(qs)) == Datas(AllRecs(ps)) + done
  {
  }

  method LoadTuple(iFile: InsertFileScan, ghost ps: Pages, ghost done: seq<bytes>, rec: bytes) returns (status: Status)
    requires iFile.Ok() && iFile.curPage != null && rec != [] && Grown(ps, done, iFile.file.View())
    modifies iFile`curPage, iFile`curPageNo, iFile`hdrDirtyFlag, iFile`curDirtyFlag, iFile.file, iFile.file.Repr
    ensures iFile.Ok() && iFile.curPage != null && fresh(iFile.file.Repr - old(iFile.file.Repr))
    ensures status == if |rec| <= MAXRECORD then OK else if |rec| <= DATASIZE then NOSPACE else INVALIDRECLEN
    ensures status == OK ==> Grown(ps, done + [rec], iFile.file.View())
    ensures status != OK ==> AllRecs(iFile.file.View()) == old(AllRecs(iFile.file.View()))
    ensures iFile.Others() == old(iFile.Others()) && (old(iFile.Flagged()) ==> iFile.Flagged())
  {
    hide PagedFile.Valid, PagedFile.WellFormed, PagedFile.View, Grown, AllRecs, InsertRec, InsertedAt;
    hide InsertFileScan.Ok, InsertFileScan.Others, InsertFileScan.Flagged;
    ghost var qs := iFile.file.View();
    iFile.NonEmpty();
    var rid;
    status, rid := iFile.InsertRecord(rec);
    if status == OK {
      GrowsBy(ps, done, qs, rec, iFile.curPageNo);
    } else {
      NothingAdded(qs, rec, iFile.curPageNo, iFile.file.View());
    }
  }

  /** The file holds what it did and the records `done`; behind the others, if it has no empty slots. */
  ghost predicate Grown(ps: Pages, done: seq<bytes>, qs: Pages) {
    && Bag(qs) == Bag(ps) + multiset(done)
    && (Dense(ps) ==> Dense(qs) && Datas(AllRecs(qs)) == Datas(AllRecs(ps)) + done)
  }

  lemma Nothing(ps: Pages)
    ensures Grown(ps, [], ps)
  {
    hide Bag, Dense, AllRecs, Datas;
  }

  lemma GrowsBy(ps: Pages, done: seq<bytes>, qs: Pages, r: bytes, no: int)
    requires Grown(ps, done, qs) && qs != [] && 1 <= |r| <= MAXRECORD
    ensures Grown(ps, done + [r], InsertRec(qs, r, no))
  {
    hide Bag, Dense, AllRecs, Datas, InsertRec;
    InsertBag(qs, r, no);
    if Dense(ps) {
      InsertAppends(qs, r, no);
    }
  }

  lemma NothingAdded(qs: Pages, r: bytes, no: int, rs: Pages)
    requires qs != [] && |r| > MAXRECORD && rs == if |r| <= DATASIZE then InsertRec(qs, r, no) else qs
    ensures AllRecs(rs) == AllRecs(qs)
  {
    hide AllRecs;
    OversizedInsert(qs, r, no);
  }

  /** An inserter that has not been closed holds two pins. */
  lemma StillOpen(s: InsertFileScan, pins: multiset<int>)
    requires s.Ok() && s.curPage != null && s.Others() == pins
    ensures s.file.Valid() && s.file.WellFormed() && pins <= s.file.pins && |s.file.pins| == |pins| + 2
  {
    hide PagedFile.Valid, PagedFile.WellFormed;
    assert s.file.pins == pins + multiset{s.file.headerPageNo} + multiset{s.curPageNo};
  }

  /** UT_Print, but that the records are collected instead of printed. */
  method Print(f: PagedFile) returns (out: seq<bytes>)
    requires f.Valid() && f.WellFormed()
    modifies f`pins, f`unsaved
    ensures f.Valid() && f.WellFormed()
    ensures out == Datas(AllRecs(f.View()))
    ensures f.pins == old(f.pins) && (old(f.unsaved) == {} ==> f.unsaved == {})
  {
    hide PagedFile.Valid, PagedFile.WellFormed, PagedFile.View, AllRecs, Pick, Datas;
    hide HeapFileScan.Ok, HeapFileScan.Others, HeapFileScan.Flagged, HeapFileScan.Future;
    var hfile := HeapFileScan.Open(f);
    var status := hfile.StartScan(0, 0, INTEGER, None, EQ);
    ghost var todo, n := AllRecs(f.View()), 0;
    PickAll(todo);
    assert hfile.Pending() == todo;
    hide HeapFileScan.Pending;
    DatasUpTo(todo, 0);
    out := [];
    var rec;
    status, rec := NextRecord(hfile);
    while status == OK
      invariant hfile.Ok() && n <= |todo| && (status == OK <==> n < |todo|)
      invariant status == OK ==> rec == todo[n].data && hfile.Pending() == todo[n + 1..]
      invariant out == Datas(todo[..n])
      invariant hfile.Others() == old(f.pins) && (old(f.unsaved) == {} ==> hfile.Flagged())
      decreases |todo| - n
    {
      out := out + [rec];
      DatasUpTo(todo, n);
      n := n + 1;
      status, rec := NextRecord(hfile);
    }
    DatasUpTo(todo, n);
    status := hfile.EndScan();
    hfile.Close();
  }

  lemma DatasUpTo(rs: seq<Rec>, n: nat)
    requires n <= |rs|
    ensures n == 0 ==> Datas(rs[..n]) == []
    ensures n < |rs| ==> Datas(rs[..n + 1]) == Datas(rs[..n]) + [rs[n].data]
    ensures n == |rs| ==> Datas(rs[..n]) == Datas(rs)
  {
    if n == |rs| {
      assert rs[..n] == rs;
    }
  }

  /** scanNext, and getRecord if there is a next record. */
  method NextRecord(hfile: HeapFileScan) returns (status: Status, rec: bytes)
    requires hfile.Ok()
    modifies hfile`curPage, hfile`curPageNo, hfile`curDirtyFlag, hfile`curRec, hfile`idx, hfile.file`pins, hfile.file`unsaved
    ensures hfile.Ok()
    ensures status == if old(hfile.Pending()) == [] then FILEEOF else OK
    ensures status == OK ==> rec == old(hfile.Pending())[0].data && hfile.Pending() == old(hfile.Pending())[1..]
    ensures hfile.Others() == old(hfile.Others()) && (old(hfile.Flagged()) ==> hfile.Flagged())
  {
    hide PagedFile.Valid, PagedFile.WellFormed, PagedFile.View;
    hide HeapFileScan.Ok, HeapFileScan.Others, HeapFileScan.Flagged, HeapFileScan.Pending, HeapFileScan.At;
    ghost var todo := hfile.Pending();
    var rid;
    rec := [];
    status, rid := hfile.ScanNext();
    if status == OK {
      assert hfile.At(todo[0]);
      status, rec := hfile.GetRecord();
    }
  }

  /** A new relation, loaded and printed: exactly the tuples of the data file, in its order. */
  method LoadAndPrint(input: bytes, width: nat) returns (status: Status, out: seq<bytes>)
    requires width >= 1
    ensures status == OK <==> width <= MAXRECORD || |input| < width
    ensures out == if status == OK then Tuples(input, width) else []
  {
    hide PagedFile.Valid, PagedFile.WellFormed, PagedFile.View, AllRecs, Dense, Tuples;
    var f := new PagedFile.Create();
    NewDense();
    status := Load(f, input, width);
    out := Print(f);
    assert [] + Tuples(input, width) == Tuples(input, width);
  }

  lemma NewDense()
    ensures Dense([PageView([], -1, 2)])
  {
  }
}
