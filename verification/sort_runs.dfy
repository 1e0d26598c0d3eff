/** Splitting a source file into sorted runs: collect at most maxItems sort records, sort them,
    and write the whole records to a temporary heap file in that order. */
module SortRuns {
  import opened Bytes
  import opened PageView
  import opened ScanFilter
  import opened HeapView
  import opened PagedFiles
  import opened HeapFileScans
  import opened InsertFileScans
  import opened SortView

  /** The record id of a record and a copy of its sort attribute. */
  datatype SortRec = SortRec(rid: RID, field: bytes)

  // ---- finding records by record id ----

  function FindPage(ps: Pages, no: int): (i: nat)
    ensures i <= |ps|
    ensures i < |ps| ==> ps[i].curPage == no
  {
    if ps == [] then 0 else if ps[0].curPage == no then 0 else 1 + FindPage(ps[1..], no)
  }

  lemma {:induction false} FindPageAt(ps: Pages, i: nat)
    requires i < |ps| && Distinct(ps)
    ensures FindPage(ps, ps[i].curPage) == i
  {
    if i > 0 {
      FindPageAt(ps[1..], i - 1);
    }
  }

  /** The record id names a live record. */
  predicate Names(ps: Pages, rid: RID) {
    var i := FindPage(ps, rid.pageNo);
    i < |ps| && Live(ps[i].slots, rid.slotNo)
  }

  function DataOf(ps: Pages, rid: RID): bytes {
    var i := FindPage(ps, rid.pageNo);
    if i < |ps| && Live(ps[i].slots, rid.slotNo) then ps[i].slots[rid.slotNo].value else []
  }

  /** A record of the file is found again under its record id. */
  lemma FoundAgain(ps: Pages, r: Rec)
    requires Distinct(ps) && r in AllRecs(ps)
    ensures Names(ps, r.rid) && DataOf(ps, r.rid) == r.data
  {
    hide AllRecs, FindPage;
    var i := AllRecsLocated(ps, r);
    FindPageAt(ps, i);
  }

  // ---- sorting the buffer ----

  ghost predicate GoodRecs(k: SortKey, s: seq<SortRec>) {
    forall i :: 0 <= i < |s| ==> Comparable(k, s[i].field)
  }

  ghost predicate InOrder(k: SortKey, s: seq<SortRec>) {
    forall i, j :: 0 <= i < j < |s| ==> Leq(k, s[i].field, s[j].field)
  }

  /** No two sort attributes differ by more than 32 bits can hold. */
  ghost predicate FieldsAgree(k: SortKey, s: seq<SortRec>) {
    forall i, j :: 0 <= i < |s| && 0 <= j < |s| ==> Agree(k, s[i].field, s[j].field)
  }

  ghost predicate AgreesWith(k: SortKey, x: SortRec, s: seq<SortRec>) {
    forall j :: 0 <= j < |s| ==> Agree(k, x.field, s[j].field)
  }

  function InsertSorted(k: SortKey, x: SortRec, s: seq<SortRec>): (t: seq<SortRec>)
    requires Comparable(k, x.field) && forall i :: 0 <= i < |s| ==> Comparable(k, s[i].field)
    ensures multiset(t) == multiset(s) + multiset{x} && |t| == |s| + 1
  {
    if s == [] || FieldCmp(k, x.field, s[0].field) <= 0 then [x] + s
    else
      assert s == [s[0]] + s[1..];
      [s[0]] + InsertSorted(k, x, s[1..])
  }

  function SortRecs(k: SortKey, s: seq<SortRec>): (t: seq<SortRec>)
    requires forall i :: 0 <= i < |s| ==> Comparable(k, s[i].field)
    ensures multiset(t) == multiset(s) && |t| == |s|
    ensures forall i :: 0 <= i < |t| ==> Comparable(k, t[i].field)
  {
    if s == [] then []
    else
      assert s == [s[0]] + s[1..];
      var r := SortRecs(k, s[1..]);
      var t := InsertSorted(k, s[0], r);
      SameMembers(t, s, k);
      t
  }

  /** Two integers whose difference overflows are put in the wrong order. */
  lemma SortDisorders() returns (k: SortKey, s: seq<SortRec>)
    ensures GoodRecs(k, s) && !InOrder(k, SortRecs(k, s))
  {
    k := SortKey(0, 4, INTEGER);
    var a, b := SortRec(NULLRID, [0, 0, 0, 0x80]), SortRec(NULLRID, [0xff, 0xff, 0xff, 0x7f]);
    assert Int32(a.field) == -0x8000_0000 && Int32(b.field) == 0x7fff_ffff;
    s := [a, b];
    assert SortRecs(k, [b]) == [b] by {
      assert SortRecs(k, [b][1..]) == [];
    }
    assert s[1..] == [b];
    assert InsertSorted(k, a, [b]) == [b, a] by {
      assert InsertSorted(k, a, [b][1..]) == [a];
    }
    var t := SortRecs(k, s);
    assert t == [b, a];
    assert !Leq(k, t[0].field, t[1].field);
  }

  lemma SameMembers(t: seq<SortRec>, s: seq<SortRec>, k: SortKey)
    requires multiset(t) == multiset(s) && forall i :: 0 <= i < |s| ==> Comparable(k, s[i].field)
    ensures forall i :: 0 <= i < |t| ==> Comparable(k, t[i].field)
  {
    forall i | 0 <= i < |t|
      ensures Comparable(k, t[i].field)
    {
      assert t[i] in multiset(t);
      assert t[i] in s;
    }
  }

  lemma {:induction false} InsertKeepsOrder(k: SortKey, x: SortRec, s: seq<SortRec>)
    requires Comparable(k, x.field) && GoodRecs(k, s) && InOrder(k, s) && AgreesWith(k, x, s)
    ensures InOrder(k, InsertSorted(k, x, s))
  {
    if s != [] {
      FieldCmpIsOrder(k, x.field, s[0].field);
      ValueCmpSwap(k, x.field, s[0].field);
    }
    if s == [] {
    } else if FieldCmp(k, x.field, s[0].field) <= 0 {
      forall j | 0 <= j < |s|
        ensures Leq(k, x.field, s[j].field)
      {
        if j > 0 { LeqTransitive(k, x.field, s[0].field, s[j].field); }
      }
    } else {
      InsertKeepsOrder(k, x, s[1..]);
      HeadBelow(k, s[0], x, s[1..]);
    }
  }

  lemma HeadBelow(k: SortKey, h: SortRec, x: SortRec, s: seq<SortRec>)
    requires Comparable(k, x.field) && GoodRecs(k, s) && Leq(k, h.field, x.field)
    requires forall j :: 0 <= j < |s| ==> Leq(k, h.field, s[j].field)
    ensures forall j :: 0 <= j < |InsertSorted(k, x, s)| ==> Leq(k, h.field, InsertSorted(k, x, s)[j].field)
  {
    var t := InsertSorted(k, x, s);
    hide InsertSorted, Leq;
    forall j | 0 <= j < |t|
      ensures Leq(k, h.field, t[j].field)
    {
      assert t[j] in multiset(t);
      assert t[j] == x || t[j] in s;
    }
  }

  lemma StillAgrees(k: SortKey, x: SortRec, s: seq<SortRec>, t: seq<SortRec>)
    requires AgreesWith(k, x, s) && multiset(t) == multiset(s)
    ensures AgreesWith(k, x, t)
  {
    hide Agree;
    forall j | 0 <= j < |t|
      ensures Agree(k, x.field, t[j].field)
    {
      assert t[j] in multiset(t);
      assert t[j] in s;
    }
  }

  /** Sorting orders the buffer by the values of the sort attribute, where no difference overflows. */
  lemma {:induction false} SortedInOrder(k: SortKey, s: seq<SortRec>)
    requires GoodRecs(k, s) && FieldsAgree(k, s)
    ensures InOrder(k, SortRecs(k, s))
  {
    if s != [] {
      SortedInOrder(k, s[1..]);
      StillAgrees(k, s[0], s[1..], SortRecs(k, s[1..]));
      InsertKeepsOrder(k, s[0], SortRecs(k, s[1..]));
    }
  }

  /** qsort on the first n elements of the buffer. */
  method QSort(k: SortKey, buffer: array<SortRec>, n: nat)
    requires n <= buffer.Length && forall i :: 0 <= i < n ==> Comparable(k, buffer[i].field)
    modifies buffer
    ensures forall i :: 0 <= i < n ==> Comparable(k, old(buffer[i]).field)
    ensures buffer[..n] == SortRecs(k, old(buffer[..n]))
  {
    var t := SortRecs(k, buffer[..n]);
    forall i | 0 <= i < n {
      buffer[i] := t[i];
    }
  }

  // ---- what a sorted buffer says about the records it stands for ----

  /** The records the buffer names, in buffer order. */
  function Contents(ps: Pages, s: seq<SortRec>): seq<bytes> {
    seq(|s|, i requires 0 <= i < |s| => DataOf(ps, s[i].rid))
  }

  /** Each sort record names a record of the file and holds its sort attribute. */
  ghost predicate Describes(k: SortKey, ps: Pages, s: seq<SortRec>) {
    forall i :: 0 <= i < |s| ==> DescribesOne(k, ps, s[i])
  }

  predicate DescribesOne(k: SortKey, ps: Pages, x: SortRec) {
    Names(ps, x.rid) && Sortable(k, DataOf(ps, x.rid)) && x.field == Field(k, DataOf(ps, x.rid))
  }

  lemma DescribesGood(k: SortKey, ps: Pages, s: seq<SortRec>)
    requires Describes(k, ps, s)
    ensures GoodRecs(k, s)
  {
    forall i | 0 <= i < |s|
      ensures Comparable(k, s[i].field)
    {
      assert DescribesOne(k, ps, s[i]);
    }
  }

  lemma DescribesNames(k: SortKey, ps: Pages, s: seq<SortRec>)
    requires Describes(k, ps, s)
    ensures forall i :: 0 <= i < |s| ==> Names(ps, s[i].rid)
  {
    hide Names, Sortable, DataOf;
    forall i | 0 <= i < |s|
      ensures Names(ps, s[i].rid)
    {
      assert DescribesOne(k, ps, s[i]);
    }
  }

  lemma {:induction false} ContentsBag(ps: Pages, s: seq<SortRec>, t: seq<SortRec>)
    requires multiset(s) == multiset(t)
    ensures multiset(Contents(ps, s)) == multiset(Contents(ps, t))
    decreases |s|
  {
    if s == [] {
      assert |t| == |multiset(t)|;
      assert t == [];
    } else {
      var x := s[0];
      assert x in multiset(s);
      var j :| 0 <= j < |t| && t[j] == x;
      var t' := t[..j] + t[j + 1..];
      assert t == t[..j] + [x] + t[j + 1..];
      assert s == [x] + s[1..];
      assert multiset(s[1..]) == multiset(s) - multiset{x};
      assert multiset(t') == multiset(t) - multiset{x};
      ContentsBag(ps, s[1..], t');
      ContentsSplit(ps, [x], s[1..]);
      ContentsSplit(ps, t[..j], t[j + 1..]);
      ContentsSplit(ps, t[..j] + [x], t[j + 1..]);
      ContentsSplit(ps, t[..j], [x]);
    }
  }

  lemma ContentsSplit(ps: Pages, s: seq<SortRec>, t: seq<SortRec>)
    ensures Contents(ps, s + t) == Contents(ps, s) + Contents(ps, t)
  {
  }

  /** A named record is one of the file's. */
  lemma NamedInBag(ps: Pages, rid: RID)
    requires Names(ps, rid)
    ensures DataOf(ps, rid) in Bag(ps)
  {
    hide AllRecs, FindPage;
    var i := FindPage(ps, rid.pageNo);
    AllRecsComplete(ps, i, rid.slotNo);
    var rs := AllRecs(ps);
    var x :| 0 <= x < |rs| && rs[x] == RecordOf(ps[i], rid.slotNo);
    assert Datas(rs)[x] == DataOf(ps, rid);
  }

  lemma DescribedAgree(k: SortKey, ps: Pages, s: seq<SortRec>)
    requires Describes(k, ps, s) && AllAgree(k, Bag(ps))
    ensures FieldsAgree(k, s)
  {
    hide Bag, Names, DataOf, Sortable, Agree;
    forall i, j | 0 <= i < |s| && 0 <= j < |s|
      ensures Agree(k, s[i].field, s[j].field)
    {
      assert DescribesOne(k, ps, s[i]) && DescribesOne(k, ps, s[j]);
      NamedInBag(ps, s[i].rid);
      NamedInBag(ps, s[j].rid);
      assert RecAgree(k, DataOf(ps, s[i].rid), DataOf(ps, s[j].rid));
    }
  }

  /** Sorting the buffer sorts the records it names. */
  lemma SortedContents(k: SortKey, ps: Pages, s: seq<SortRec>)
    requires Describes(k, ps, s) && GoodRecs(k, s)
    ensures Describes(k, ps, SortRecs(k, s))
    ensures AllSortable(k, Contents(ps, SortRecs(k, s)))
    ensures AllAgree(k, Bag(ps)) ==> Sorted(k, Contents(ps, SortRecs(k, s)))
    ensures multiset(Contents(ps, SortRecs(k, s))) == multiset(Contents(ps, s))
  {
    var t := SortRecs(k, s);
    hide SortRecs, Sortable, Names, DataOf, AllAgree, Bag;
    ContentsBag(ps, t, s);
    forall i | 0 <= i < |t|
      ensures DescribesOne(k, ps, t[i])
    {
      assert t[i] in multiset(t);
      assert t[i] in s;
    }
    forall i | 0 <= i < |t|
      ensures Sortable(k, Contents(ps, t)[i])
    {
      assert DescribesOne(k, ps, t[i]);
    }
    if AllAgree(k, Bag(ps)) {
      DescribedAgree(k, ps, s);
      SortedInOrder(k, s);
      OrderedContents(k, ps, t);
    }
  }

  lemma OrderedContents(k: SortKey, ps: Pages, t: seq<SortRec>)
    requires Describes(k, ps, t) && InOrder(k, t)
    ensures Sorted(k, Contents(ps, t))
  {
    hide Sortable, Names, DataOf, Leq;
    var c := Contents(ps, t);
    forall i, j | 0 <= i < j < |c|
      ensures RecLeq(k, c[i], c[j])
    {
      assert DescribesOne(k, ps, t[i]) && DescribesOne(k, ps, t[j]);
    }
  }

  // ---- writing one run ----

  /** A closed, well-formed heap file. */
  ghost predicate ClosedFile(f: PagedFile)
    reads f, f.Repr
  {
    f.Valid() && f.WellFormed() && f.pins == multiset{} && f.unsaved == {}
  }

  lemma PlaceOf(hfile: HeapFileScan, rid: RID)
    requires hfile.Ok() && Names(hfile.file.View(), rid)
    ensures var ps := hfile.file.View(); var i := FindPage(ps, rid.pageNo);
      && rid.pageNo in hfile.file.content && ps[i] == hfile.file.content[rid.pageNo]
      && rid.pageNo != hfile.file.headerPageNo && rid.slotNo >= 0 && 1 <= |DataOf(ps, rid)| <= MAXRECORD
  {
    hide PagedFile.Valid, PagedFile.WellFormed, PagedFile.View, FindPage;
    var ps := hfile.file.View();
    var i := FindPage(ps, rid.pageNo);
    ChainAt(hfile.file, 0);
    ChainAt(hfile.file, i);
    PageOf(hfile.file, hfile.file.chain[i]);
    RecordLength(ps[i].slots, rid.slotNo);
  }

  /** Fetch one record of the source file and append it to the run. */
  method CopyRecord(rid: RID, hfile: HeapFileScan, outFile: InsertFileScan)
    requires hfile.Ok() && outFile.Ok() && Dense(outFile.file.View()) && Names(hfile.file.View(), rid)
    requires Separate(hfile.file, outFile.file) && hfile !in outFile.file.Repr && outFile !in hfile.file.Repr
    modifies hfile, hfile.file`pins, hfile.file`unsaved, outFile, outFile.file, outFile.file.Repr
    ensures hfile.Ok() && outFile.Ok() && Dense(outFile.file.View())
    ensures Datas(AllRecs(outFile.file.View())) == old(Datas(AllRecs(outFile.file.View()))) + [DataOf(hfile.file.View(), rid)]
    ensures fresh(outFile.file.Repr - old(outFile.file.Repr))
    ensures hfile.Others() == old(hfile.Others()) && (old(hfile.Flagged()) ==> hfile.Flagged())
    ensures outFile.Others() == old(outFile.Others()) && (old(outFile.Flagged()) ==> outFile.Flagged())
  {
    hide HeapFileScan.Ok, HeapFileScan.Others, HeapFileScan.Flagged, PagedFile.View, Dense, AllRecs, Datas, FindPage;
    hide InsertFileScan.Ok, InsertFileScan.Others, InsertFileScan.Flagged, InsertRec, InsertedAt, HeapFileScan.OnPage;
    ghost var ps, out := hfile.file.View(), outFile.file.View();
    PlaceOf(hfile, rid);
    outFile.NonEmpty();
    var status, record := hfile.GetRecordAt(rid);
    var st, outRid := outFile.InsertRecord(record);
    InsertAppends(out, record, outFile.curPageNo);
  }

  /** Write the records the buffer names to the run, in buffer order. */
  method CopyRecords(buffer: array<SortRec>, items: nat, hfile: HeapFileScan, outFile: InsertFileScan)
    requires items <= buffer.Length
    requires hfile.Ok() && outFile.Ok() && Dense(outFile.file.View()) && Datas(AllRecs(outFile.file.View())) == []
    requires forall i :: 0 <= i < items ==> Names(hfile.file.View(), buffer[i].rid)
    requires Separate(hfile.file, outFile.file) && hfile !in outFile.file.Repr && outFile !in hfile.file.Repr
    requires buffer !in outFile.file.Repr
    modifies hfile, hfile.file`pins, hfile.file`unsaved, outFile, outFile.file, outFile.file.Repr
    ensures hfile.Ok() && outFile.Ok() && Separate(hfile.file, outFile.file)
    ensures Datas(AllRecs(outFile.file.View())) == Contents(hfile.file.View(), buffer[..items])
    ensures fresh(outFile.file.Repr - old(outFile.file.Repr))
    ensures hfile.Others() == old(hfile.Others()) && (old(hfile.Flagged()) ==> hfile.Flagged())
    ensures outFile.Others() == old(outFile.Others()) && (old(outFile.Flagged()) ==> outFile.Flagged())
  {
    hide HeapFileScan.Ok, HeapFileScan.Others, HeapFileScan.Flagged, PagedFile.View, Dense, AllRecs, Datas;
    hide InsertFileScan.Ok, InsertFileScan.Others, InsertFileScan.Flagged, Names, Contents;
    ghost var ps, s := hfile.file.View(), buffer[..items];
    ContentsPrefix(ps, s, 0);
    var i := 0;
    while i < items
      invariant i <= items && hfile.Ok() && outFile.Ok() && Dense(outFile.file.View())
      invariant hfile.file.View() == ps && buffer[..items] == s
      invariant Separate(hfile.file, outFile.file) && hfile !in outFile.file.Repr && outFile !in hfile.file.Repr
      invariant buffer !in outFile.file.Repr
      invariant Datas(AllRecs(outFile.file.View())) == Contents(ps, s[..i])
      invariant fresh(outFile.file.Repr - old(outFile.file.Repr))
      invariant hfile.Others() == old(hfile.Others()) && (old(hfile.Flagged()) ==> hfile.Flagged())
      invariant outFile.Others() == old(outFile.Others()) && (old(outFile.Flagged()) ==> outFile.Flagged())
    {
      assert buffer[i] == s[i];
      CopyRecord(buffer[i].rid, hfile, outFile);
      ContentsPrefix(ps, s, i);
      i := i + 1;
    }
    assert s[..items] == s;
  }

  lemma ContentsPrefix(ps: Pages, s: seq<SortRec>, i: nat)
    requires i <= |s|
    ensures i == 0 ==> Contents(ps, s[..i]) == []
    ensures i < |s| ==> Contents(ps, s[..i + 1]) == Contents(ps, s[..i]) + [DataOf(ps, s[i].rid)]
  {
    if i < |s| {
      assert s[..i + 1] == s[..i] + [s[i]];
      ContentsSplit(ps, s[..i], [s[i]]);
      assert Contents(ps, [s[i]]) == [DataOf(ps, s[i].rid)];
    }
  }

  /** How createFile and destroyFile on the name of the i-th temporary file end: somebody may own a file of that name
      already.  Where the list of outcomes is silent they succeed. */
  function Probe(probes: seq<Status>, i: nat): (status: Status)
    ensures status == OK || status == FILEEXISTS || status == UNIXERR
    ensures status != OK ==> status in probes
  {
    if i < |probes| && (probes[i] == FILEEXISTS || probes[i] == UNIXERR) then probes[i] else OK
  }

  /** The temporary file is there and empty: copy the records into it. */
  method WriteRun(src: PagedFile, buffer: array<SortRec>, items: nat, run: PagedFile)
    requires src.Valid() && src.WellFormed() && items <= buffer.Length
    requires ClosedFile(run) && Dense(run.View()) && Datas(AllRecs(run.View())) == []
    requires Separate(src, run) && buffer !in src.Repr && buffer !in run.Repr
    requires forall i :: 0 <= i < items ==> Names(src.View(), buffer[i].rid)
    modifies src`pins, src`unsaved, run, run.Repr
    ensures src.Valid() && src.WellFormed() && src.pins == old(src.pins) && (old(src.unsaved) == {} ==> src.unsaved == {})
    ensures ClosedFile(run) && fresh(run.Repr - old(run.Repr)) && Separate(src, run)
    ensures Datas(AllRecs(run.View())) == Contents(src.View(), buffer[..items])
  {
    hide PagedFile.Valid, PagedFile.WellFormed, PagedFile.View, Dense, AllRecs, Datas, Contents, Names;
    hide HeapFileScan.Ok, HeapFileScan.Others, HeapFileScan.Flagged, HeapFileScan.Future;
    hide InsertFileScan.Ok, InsertFileScan.Others, InsertFileScan.Flagged;
    var outFile := InsertFileScan.Open(run);
    var hfile := HeapFileScan.Open(src);
    CopyRecords(buffer, items, hfile, outFile);
    outFile.Close();
    hfile.Close();
  }

  /** Sort the buffer and write the records it names, in that order, to a new temporary file. */
  method GenerateRun(key: SortKey, src: PagedFile, buffer: array<SortRec>, items: nat, probe: Status)
      returns (status: Status, run: PagedFile)
    requires src.Valid() && src.WellFormed() && items <= buffer.Length && buffer !in src.Repr
    requires Describes(key, src.View(), buffer[..items])
    modifies src`pins, src`unsaved, buffer
    ensures src.Valid() && src.WellFormed() && src.pins == old(src.pins) && (old(src.unsaved) == {} ==> src.unsaved == {})
    ensures status == probe && fresh(run) && fresh(run.Repr) && ClosedFile(run)
    ensures status == OK ==> AllSortable(key, Datas(AllRecs(run.View())))
    ensures status == OK && AllAgree(key, Bag(src.View())) ==> Sorted(key, Datas(AllRecs(run.View())))
    ensures status == OK ==> Bag(run.View()) == multiset(Contents(src.View(), old(buffer[..items])))
  {
    hide PagedFile.Valid, PagedFile.WellFormed, PagedFile.View, Dense, AllRecs, Datas, Contents, Sorted, Sortable;
    hide HeapFileScan.Ok, HeapFileScan.Others, HeapFileScan.Flagged, HeapFileScan.Future, DescribesOne;
    hide InsertFileScan.Ok, InsertFileScan.Others, InsertFileScan.Flagged, SortRecs;
    ghost var ps, s := src.View(), buffer[..items];
    run := new PagedFile.Create();
    DescribesGood(key, ps, s);
    QSort(key, buffer, items);
    status := probe;
    if status != OK {
      return;
    }
    SortedContents(key, ps, s);
    NewFileEmpty(run);
    DescribesNames(key, ps, buffer[..items]);
    assert forall i :: 0 <= i < items ==> buffer[i] == buffer[..items][i];
    WriteRun(src, buffer, items, run);
  }

  lemma NewFileEmpty(run: PagedFile)
    requires run.View() == [PageView([], -1, 2)] && AllRecs(run.View()) == []
    ensures Dense(run.View()) && Datas(AllRecs(run.View())) == []
  {
    hide AllRecs;
  }
}
