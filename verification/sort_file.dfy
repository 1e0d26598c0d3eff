/** Building the external sort: read the source file in chunks, turn each chunk into a sorted run,
    and open a scan on every run. */
module SortBuilding {
  import opened Bytes
  import opened PageView
  import opened ScanFilter
  import opened HeapView
  import opened PagedFiles
  import opened HeapFileScans
  import opened SortView
  import opened SortRuns
  import opened SortedFiles

  ghost predicate OfFile(key: SortKey, ps: Pages, r: Rec) {
    r in AllRecs(ps) && Sortable(key, r.data)
  }

  ghost predicate AllOfFile(key: SortKey, ps: Pages, rs: seq<Rec>) {
    forall i :: 0 <= i < |rs| ==> OfFile(key, ps, rs[i])
  }

  lemma AllOfFileRest(key: SortKey, ps: Pages, rs: seq<Rec>, n: nat)
    requires AllOfFile(key, ps, rs) && n <= |rs|
    ensures AllOfFile(key, ps, rs[n..])
  {
    hide OfFile;
  }

  /** Sort records taken from records of the file, in that order. */
  ghost predicate Collected(key: SortKey, ps: Pages, s: seq<SortRec>, rs: seq<Rec>) {
    Describes(key, ps, s) && Contents(ps, s) == Datas(rs)
  }

  lemma CollectedNone(key: SortKey, ps: Pages)
    ensures Collected(key, ps, [], [])
  {
  }

  lemma CollectedMore(key: SortKey, ps: Pages, s: seq<SortRec>, rs: seq<Rec>, r: Rec)
    requires Distinct(ps) && Collected(key, ps, s, rs) && OfFile(key, ps, r)
    ensures Collected(key, ps, s + [SortRec(r.rid, SortView.Field(key, r.data))], rs + [r])
  {
    hide Distinct, AllRecs, Sortable, Names, DataOf, Contents;
    FoundAgain(ps, r);
    var x := SortRec(r.rid, SortView.Field(key, r.data));
    assert DescribesOne(key, ps, x);
    ContentsSplit(ps, s, [x]);
    ContentsOne(ps, x);
    forall i | 0 <= i < |s + [x]|
      ensures DescribesOne(key, ps, (s + [x])[i])
    {
      assert i < |s| ==> DescribesOne(key, ps, s[i]);
    }
    assert Datas(rs + [r]) == Datas(rs) + [r.data];
  }

  lemma ContentsOne(ps: Pages, x: SortRec)
    ensures Contents(ps, [x]) == [DataOf(ps, x.rid)]
  {
  }

  /** Read up to maxItems records of the source file: their record ids and sort attributes go into the buffer. */
  method FillBuffer(key: SortKey, hfs: HeapFileScan, buffer: array<SortRec>) returns (numItems: nat)
    requires hfs.Ok() && hfs.curPage != null && buffer !in hfs.file.Repr
    requires AllOfFile(key, hfs.file.View(), hfs.Pending())
    modifies hfs`curPage, hfs`curPageNo, hfs`curDirtyFlag, hfs`curRec, hfs`idx, hfs.file`pins, hfs.file`unsaved, buffer
    ensures hfs.Ok() && hfs.curPage != null
    ensures numItems == (if |old(hfs.Pending())| < buffer.Length then |old(hfs.Pending())| else buffer.Length)
    ensures hfs.Pending() == old(hfs.Pending())[numItems..]
    ensures Collected(key, hfs.file.View(), buffer[..numItems], old(hfs.Pending())[..numItems])
    ensures hfs.Others() == old(hfs.Others()) && (old(hfs.Flagged()) ==> hfs.Flagged())
  {
    hide HeapFileScan.Ok, HeapFileScan.Pending, HeapFileScan.Others, HeapFileScan.Flagged, HeapFileScan.At;
    hide PagedFile.View, Collected, OfFile;
    ghost var ps, todo := hfs.file.View(), hfs.Pending();
    DistinctPages(hfs);
    CollectedNone(key, ps);
    numItems := 0;
    while numItems < buffer.Length
      invariant numItems <= buffer.Length && numItems <= |todo|
      invariant hfs.Ok() && hfs.curPage != null && hfs.file.View() == ps
      invariant hfs.Pending() == todo[numItems..]
      invariant Collected(key, ps, buffer[..numItems], todo[..numItems])
      invariant hfs.Others() == old(hfs.Others()) && (old(hfs.Flagged()) ==> hfs.Flagged())
    {
      var status, item := FetchItem(key, hfs);
      if status == FILEEOF {
        break;
      }
      ghost var s := buffer[..numItems];
      CollectedMore(key, ps, s, todo[..numItems], todo[numItems]);
      buffer[numItems] := item;
      numItems := numItems + 1;
      assert buffer[..numItems] == s + [item];
      assert todo[..numItems] == todo[..numItems - 1] + [todo[numItems - 1]];
    }
  }

  /** The next record's id and sort attribute. */
  method FetchItem(key: SortKey, hfs: HeapFileScan) returns (status: Status, item: SortRec)
    requires hfs.Ok() && hfs.curPage != null
    modifies hfs`curPage, hfs`curPageNo, hfs`curDirtyFlag, hfs`curRec, hfs`idx, hfs.file`pins, hfs.file`unsaved
    ensures hfs.Ok() && hfs.curPage != null
    ensures status == if old(hfs.Pending()) == [] then FILEEOF else OK
    ensures status == OK ==> item == SortRec(old(hfs.Pending())[0].rid, SortView.Field(key, old(hfs.Pending())[0].data))
    ensures hfs.Pending() == if status == OK then old(hfs.Pending())[1..] else []
    ensures hfs.Others() == old(hfs.Others()) && (old(hfs.Flagged()) ==> hfs.Flagged())
  {
    hide HeapFileScan.Ok, HeapFileScan.Pending, HeapFileScan.Others, HeapFileScan.Flagged, HeapFileScan.At, PagedFile.View;
    ghost var todo := hfs.Pending();
    var rid;
    item := SortRec(NULLRID, []);
    status, rid := hfs.ScanNext();
    if status == OK {
      assert hfs.At(todo[0]);
      var st, rec := hfs.GetRecord();
      item := SortRec(rid, SortView.Field(key, rec));
    }
  }

  lemma DistinctPages(hfs: HeapFileScan)
    requires hfs.Ok()
    ensures Distinct(hfs.file.View())
  {
    hide PagedFile.Valid;
    GoodDistinct(hfs.file.chain, hfs.file.content, hfs.file.header);
  }

  // ---- splitting the source file ----

  /** The records can be sorted, and are, where no difference of two of the source file's sort attributes overflows. */
  ghost predicate Ordered(key: SortKey, ps: Pages, list: seq<bytes>) {
    AllSortable(key, list) && (AllAgree(key, Bag(ps)) ==> Sorted(key, list))
  }

  ghost predicate OrderedLists(key: SortKey, ps: Pages, ls: Lists) {
    GoodLists(key, ls) && (AllAgree(key, Bag(ps)) ==> SortedLists(key, ls))
  }

  /** A closed run file holding the records of the list. */
  ghost predicate RunHolds(run: PagedFile, list: seq<bytes>)
    reads run, run.Repr
  {
    ClosedFile(run) && Datas(AllRecs(run.View())) == list
  }

  ghost predicate RunsApart(runs: seq<PagedFile>)
    reads (set f | f in runs)`Repr
  {
    forall i, j :: 0 <= i < |runs| && 0 <= j < |runs| && i != j ==> Separate(runs[i], runs[j])
  }

  /** Sort the chunk in the buffer into a new run.  The scan on the source file is where it was: the pins
      taken meanwhile have been given back. */
  method ChunkToRun(key: SortKey, hfs: HeapFileScan, buffer: array<SortRec>, items: nat, probe: Status, ghost chunk: seq<Rec>)
      returns (status: Status, run: PagedFile, ghost list: seq<bytes>)
    requires hfs.Ok() && hfs.curPage != null && items <= buffer.Length && buffer !in hfs.file.Repr
    requires Collected(key, hfs.file.View(), buffer[..items], chunk)
    modifies hfs.file`pins, hfs.file`unsaved, buffer
    ensures hfs.Ok() && hfs.Pending() == old(hfs.Pending()) && hfs.Others() == old(hfs.Others())
    ensures status == probe
    ensures fresh(run) && fresh(run.Repr) && RunHolds(run, list)
    ensures status == OK ==> Ordered(key, hfs.file.View(), list) && multiset(list) == multiset(Datas(chunk))
  {
    hide PagedFile.View, AllRecs, Datas, Contents, Describes, PagedFile.Valid, PagedFile.WellFormed, Sorted, Sortable;
    status, run := GenerateRun(key, hfs.file, buffer, items, probe);
    list := Datas(AllRecs(run.View()));
  }

  /** A run file with its records; neither the source file nor the buffer shares memory with it. */
  ghost predicate Built(run: PagedFile, list: seq<bytes>, src: PagedFile, buffer: array<SortRec>)
    reads run, run.Repr, src`Repr
  {
    RunHolds(run, list) && Separate(src, run) && buffer !in run.Repr
  }

  /** Add a run for the chunk in the buffer to the runs there are. */
  method AddRun(key: SortKey, hfs: HeapFileScan, buffer: array<SortRec>, items: nat, probe: Status, ghost chunk: seq<Rec>,
      runs: seq<PagedFile>, ghost ls: Lists) returns (status: Status, more: seq<PagedFile>, ghost list: seq<bytes>)
    requires hfs.Ok() && hfs.curPage != null && items <= buffer.Length && buffer !in hfs.file.Repr
    requires Collected(key, hfs.file.View(), buffer[..items], chunk)
    requires |runs| == |ls| && forall i :: 0 <= i < |runs| ==> Built(runs[i], ls[i], hfs.file, buffer)
    requires RunsApart(runs)
    modifies hfs.file`pins, hfs.file`unsaved, buffer
    ensures hfs.Ok() && hfs.Pending() == old(hfs.Pending()) && hfs.Others() == old(hfs.Others())
    ensures status == probe
    ensures |more| == |runs| + 1 && more[..|runs|] == runs
    ensures fresh(more[|runs|]) && fresh(more[|runs|].Repr)
    ensures RunsApart(more)
    ensures forall i :: 0 <= i < |more| ==> Built(more[i], (ls + [list])[i], hfs.file, buffer)
    ensures status == OK ==> Ordered(key, hfs.file.View(), list) && multiset(list) == multiset(Datas(chunk))
  {
    hide HeapFileScan.Ok, HeapFileScan.Pending, HeapFileScan.Others;
    hide PagedFile.View, Collected, Datas, Ordered, RunHolds, RunsApart;
    var run;
    status, run, list := ChunkToRun(key, hfs, buffer, items, probe, chunk);
    OneMoreApart(runs, run);
    more := runs + [run];
  }

  /** Read the next chunk of the source file and, unless it is empty, add a run for it. */
  method NextChunk(key: SortKey, hfs: HeapFileScan, buffer: array<SortRec>, probes: seq<Status>, runs: seq<PagedFile>,
      ghost ls: Lists) returns (status: Status, numItems: nat, more: seq<PagedFile>, ghost lists: Lists)
    requires hfs.Ok() && hfs.curPage != null && buffer !in hfs.file.Repr
    requires AllOfFile(key, hfs.file.View(), hfs.Pending())
    requires |runs| == |ls| && forall i :: 0 <= i < |runs| ==> Built(runs[i], ls[i], hfs.file, buffer)
    requires forall i :: 0 <= i < |runs| ==> hfs !in runs[i].Repr
    requires RunsApart(runs) && OrderedLists(key, hfs.file.View(), ls)
    modifies hfs`curPage, hfs`curPageNo, hfs`curDirtyFlag, hfs`curRec, hfs`idx, hfs.file`pins, hfs.file`unsaved, buffer
    ensures hfs.Ok() && hfs.curPage != null && hfs.Others() == old(hfs.Others())
    ensures status == if old(hfs.Pending()) == [] || buffer.Length == 0 then OK else Probe(probes, |runs|)
    ensures |more| == |runs| + if old(hfs.Pending()) == [] || buffer.Length == 0 then 0 else 1
    ensures numItems == (if |old(hfs.Pending())| < buffer.Length then |old(hfs.Pending())| else buffer.Length)
    ensures hfs.Pending() == old(hfs.Pending())[numItems..] && AllOfFile(key, hfs.file.View(), hfs.Pending())
    ensures |more| >= |runs| && more[..|runs|] == runs
    ensures forall i :: |runs| <= i < |more| ==> fresh(more[i]) && fresh(more[i].Repr)
    ensures RunsApart(more)
    ensures |more| == |lists| && forall i :: 0 <= i < |more| ==> Built(more[i], lists[i], hfs.file, buffer)
    ensures status == OK ==> OrderedLists(key, hfs.file.View(), lists)
    ensures status == OK ==> Everything(lists) == Everything(ls) + multiset(Datas(old(hfs.Pending())[..numItems]))
  {
    hide HeapFileScan.Ok, HeapFileScan.Pending, HeapFileScan.Others, HeapFileScan.Flagged, HeapFileScan.At;
    hide PagedFile.View, Collected, Ordered, OrderedLists, Everything, Datas, RunHolds, RunsApart, AllOfFile;
    ghost var todo := hfs.Pending();
    numItems := FillBuffer(key, hfs, buffer);
    AllOfFileRest(key, hfs.file.View(), todo, numItems);
    if numItems == 0 {
      NoChunk(todo);
      return OK, 0, runs, ls;
    }
    ghost var list;
    status, more, list := AddRun(key, hfs, buffer, numItems, Probe(probes, |runs|), todo[..numItems], runs, ls);
    lists := ls + [list];
    if status == OK {
      OneMoreList(key, hfs.file.View(), ls, list);
    }
  }

  lemma NoChunk(todo: seq<Rec>)
    ensures multiset(Datas(todo[..0])) == multiset{}
  {
  }

  lemma OneMoreList(key: SortKey, ps: Pages, ls: Lists, l: seq<bytes>)
    requires OrderedLists(key, ps, ls) && Ordered(key, ps, l)
    ensures OrderedLists(key, ps, ls + [l]) && Everything(ls + [l]) == Everything(ls) + multiset(l)
  {
    hide Sorted, AllSortable, AllAgree, Bag;
    assert (ls + [l])[..|ls|] == ls;
  }

  /** Every one of the first n temporary files can be made. */
  ghost predicate AllProbed(probes: seq<Status>, n: nat) {
    forall i :: 0 <= i < n ==> Probe(probes, i) == OK
  }

  lemma NoProbes(probes: seq<Status>)
    ensures AllProbed(probes, 0)
  {
  }

  lemma OneMoreProbe(probes: seq<Status>, n: nat)
    requires AllProbed(probes, n)
    ensures AllProbed(probes, n + 1) <==> Probe(probes, n) == OK
  {
  }

  /** Read the source file chunk by chunk, writing each chunk out as a sorted run. */
  method SplitFile(key: SortKey, hfs: HeapFileScan, buffer: array<SortRec>, probes: seq<Status>)
      returns (status: Status, runs: seq<PagedFile>, ghost ls: Lists)
    requires buffer.Length >= 2
    requires hfs.Ok() && hfs.curPage != null && buffer !in hfs.file.Repr
    requires AllOfFile(key, hfs.file.View(), hfs.Pending())
    modifies hfs`curPage, hfs`curPageNo, hfs`curDirtyFlag, hfs`curRec, hfs`idx, hfs.file`pins, hfs.file`unsaved, buffer
    ensures hfs.Ok() && hfs.curPage != null && hfs.Others() == old(hfs.Others())
    ensures status == OK <==> AllProbed(probes, |runs|)
    ensures status != OK ==> |runs| > 0 && status == Probe(probes, |runs| - 1)
    ensures forall i :: 0 <= i < |runs| ==> fresh(runs[i]) && fresh(runs[i].Repr)
    ensures RunsApart(runs)
    ensures |runs| == |ls| && forall i :: 0 <= i < |runs| ==> Built(runs[i], ls[i], hfs.file, buffer)
    ensures status == OK ==> OrderedLists(key, hfs.file.View(), ls) && Everything(ls) == multiset(Datas(old(hfs.Pending())))
  {
    hide HeapFileScan.Ok, HeapFileScan.Pending, HeapFileScan.Others, HeapFileScan.Flagged, HeapFileScan.At;
    hide PagedFile.View, Datas, OrderedLists, Everything, Built, RunsApart, AllOfFile, Probe, AllProbed;
    ghost var ps, todo, done := hfs.file.View(), hfs.Pending(), 0;
    status, runs, ls := OK, [], [];
    NoChunks(key, ps);
    NoProbes(probes);
    var numItems := 1;
    while numItems > 0
      invariant status == OK && hfs.Ok() && hfs.curPage != null && hfs.Others() == old(hfs.Others())
      invariant done <= |todo| && hfs.Pending() == todo[done..] && (numItems == 0 ==> done == |todo|)
      invariant AllOfFile(key, hfs.file.View(), hfs.Pending())
      invariant forall i :: 0 <= i < |runs| ==> fresh(runs[i]) && fresh(runs[i].Repr)
      invariant RunsApart(runs) && AllProbed(probes, |runs|)
      invariant |runs| == |ls| && forall i :: 0 <= i < |runs| ==> Built(runs[i], ls[i], hfs.file, buffer)
      invariant OrderedLists(key, ps, ls) && hfs.file.View() == ps && Everything(ls) == multiset(Datas(todo[..done]))
      decreases |todo| - done, numItems
    {
      OneMoreProbe(probes, |runs|);
      status, numItems, runs, ls := NextChunk(key, hfs, buffer, probes, runs, ls);
      if status != OK {
        return;
      }
      JoinChunks(todo, done, numItems);
      done := done + numItems;
    }
    assert todo[..done] == todo;
  }

  lemma NoChunks(key: SortKey, ps: Pages)
    ensures OrderedLists(key, ps, []) && Everything([]) == multiset(Datas([])) && RunsApart([])
  {
  }

  lemma JoinChunks(todo: seq<Rec>, done: nat, n: nat)
    requires done + n <= |todo|
    ensures todo[done..][n..] == todo[done + n..]
    ensures multiset(Datas(todo[..done + n])) == multiset(Datas(todo[..done])) + multiset(Datas(todo[done..][..n]))
  {
    var chunk := todo[done..][..n];
    assert todo[..done + n] == todo[..done] + chunk;
    assert Datas(todo[..done] + chunk) == Datas(todo[..done]) + Datas(chunk);
  }

  /** A new run shares nothing with the runs there are. */
  lemma OneMoreApart(runs: seq<PagedFile>, run: PagedFile)
    requires RunsApart(runs) && forall i :: 0 <= i < |runs| ==> Separate(runs[i], run)
    ensures RunsApart(runs + [run])
  {
  }

  // ---- the finished sort ----

  /** Open a scan on one run. */
  method StartScan(file: PagedFile) returns (r: Run)
    requires ClosedFile(file)
    modifies file`pins
    ensures fresh(r.inFile) && r.inFile.file == file && RunOk(r) && !r.valid && r.rid == RID(-1, -1)
    ensures Left(r) == Datas(AllRecs(file.View())) && Replay(r) == []
  {
    hide PagedFile.Valid, PagedFile.WellFormed, PagedFile.View, AllRecs, HeapFileScan.Ok, HeapFileScan.Future;
    hide Pick, Datas, Match, HeapFileScan.Flagged, HeapFileScan.Others, HeapFileScan.At;
    PickAll(AllRecs(file.View()));
    var s := HeapFileScan.Open(file);
    var status := s.StartScan(0, 0, STRING, None, EQ);
    r := Run(s, false, [], RID(-1, -1), RID(-1, -1));
  }

  /** Open a scan on one more run. */
  method AddScan(runs: seq<Run>, file: PagedFile) returns (more: seq<Run>)
    requires AllOk(runs) && AllApart(runs) && ClosedFile(file)
    requires forall i :: 0 <= i < |runs| ==> Separate(file, runs[i].inFile.file) && runs[i].inFile !in file.Repr
    modifies file`pins
    ensures |more| == |runs| + 1 && more[..|runs|] == runs
    ensures fresh(more[|runs|].inFile) && more[|runs|].inFile.file == file
    ensures AllOk(more) && AllApart(more)
    ensures Lefts(more) == old(Lefts(runs)) + [Datas(AllRecs(file.View()))]
    ensures Replays(more) == old(Replays(runs)) + [[]]
  {
    hide RunOk, Left, Replay, ClosedFile, Separate;
    var r := StartScan(file);
    more := runs + [r];
    forall j | 0 <= j < |runs|
      ensures RunOk(more[j]) && Left(more[j]) == old(Left(runs[j])) && Replay(more[j]) == old(Replay(runs[j]))
      ensures ApartScans(more[j].inFile, r.inFile) && ApartScans(r.inFile, more[j].inFile)
    {
      StillOk(runs, file, j);
      assert old(RunOk(runs[j]));
    }
  }

  lemma StillOk(runs: seq<Run>, file: PagedFile, j: nat)
    requires j < |runs| && Separate(file, runs[j].inFile.file)
    ensures Separate(runs[j].inFile.file, file) && file != runs[j].inFile.file && file !in runs[j].inFile.file.Repr
  {
  }

  /** Open a scan on every run; no record is in memory yet. */
  method StartScans(files: seq<PagedFile>, ghost ls: Lists) returns (runs: seq<Run>)
    requires |files| == |ls| && RunsApart(files) && forall i :: 0 <= i < |files| ==> RunHolds(files[i], ls[i])
    modifies (set f | f in files)`pins
    ensures |runs| == |files| && forall i :: 0 <= i < |runs| ==> runs[i].inFile.file == files[i] && fresh(runs[i].inFile)
    ensures AllOk(runs) && AllApart(runs) && Lefts(runs) == ls
    ensures Replays(runs) == seq(|runs|, i => [])
  {
    hide AllOk, AllApart, Lefts, Replays, ClosedFile, AllRecs, Datas, PagedFile.View, Separate;
    runs := [];
    NoScans();
    var i := 0;
    while i < |files|
      invariant i <= |files| && |runs| == i
      invariant forall j :: i <= j < |files| ==> RunHolds(files[j], ls[j])
      invariant forall j :: 0 <= j < i ==> runs[j].inFile.file == files[j] && fresh(runs[j].inFile)
      invariant AllOk(runs) && AllApart(runs) && Lefts(runs) == ls[..i] && Replays(runs) == seq(i, k => [])
    {
      forall j | 0 <= j < i
        ensures Separate(files[i], runs[j].inFile.file)
      {
        assert Separate(files[i], files[j]);
      }
      runs := AddScan(runs, files[i]);
      forall j | i < j < |files|
        ensures RunHolds(files[j], ls[j])
      {
        Unpinned(files[i], files[j]);
      }
      i := i + 1;
    }
  }

  lemma Unpinned(file: PagedFile, other: PagedFile)
    requires Separate(file, other)
    ensures file != other && file !in other.Repr
  {
  }

  lemma NoScans()
    ensures AllOk([]) && AllApart([]) && Lefts([]) == [] && Replays([]) == []
  {
  }

  /** With every run before its first record, next() returns the whole source file, in order where no difference
      overflows, and there is nothing that a mark taken now would bring back. */
  lemma SortedOutput(key: SortKey, ls: Lists, replays: Lists)
    requires GoodLists(key, ls) && replays == seq(|ls|, i => [])
    ensures multiset(Merged(key, ls)) == Everything(ls)
    ensures SortedLists(key, ls) && AllAgree(key, Everything(ls)) ==> Sorted(key, Merged(key, ls))
    ensures GoodLists(key, replays) && Merged(key, replays) == []
  {
    if SortedLists(key, ls) && AllAgree(key, Everything(ls)) {
      MergedSorted(key, ls);
    }
    hide Sorted, SortedLists, AllAgree;
    MergedBag(key, ls);
    assert forall i :: 0 <= i < |replays| ==> replays[i] == [];
    EverythingEmpty(replays);
    MergedBag(key, replays);
    assert |Merged(key, replays)| == |multiset(Merged(key, replays))|;
  }

  /** Open a scan on every run and hand them to a new SortedFile. */
  method MergeRuns(key: SortKey, files: seq<PagedFile>, ghost ls: Lists) returns (sorted: SortedFile)
    requires |files| == |ls| && RunsApart(files) && forall i :: 0 <= i < |files| ==> RunHolds(files[i], ls[i])
    requires GoodLists(key, ls)
    modifies (set f | f in files)`pins
    ensures fresh(sorted) && sorted.Valid() && sorted.key == key
    ensures |sorted.runs| == |files|
    ensures forall i :: 0 <= i < |files| ==> fresh(sorted.runs[i].inFile) && sorted.runs[i].inFile.file == files[i]
    ensures multiset(sorted.Rest()) == Everything(ls) && sorted.Again() == []
    ensures SortedLists(key, ls) && AllAgree(key, Everything(ls)) ==> Sorted(key, sorted.Rest())
  {
    hide AllOk, AllApart, Lefts, Replays, GoodLists, Sorted, Merged, Everything, RunHolds, RunsApart, SortedLists, AllAgree;
    SortedOutput(key, ls, seq(|ls|, i => []));
    sorted := new SortedFile(key);
    var runs := StartScans(files, ls);
    sorted.Adopt(runs);
  }

  /** The parameters the constructor accepts, and then the key they stand for. */
  function KeyOf(offset: int, length: int, t: Datatype): SortKey
    requires Acceptable(offset, length, t)
  {
    SortKey(offset, length, t)
  }

  /** sortFile: split the source file into runs and open the merge. */
  method BuildSorted(key: SortKey, src: PagedFile, maxItems: nat, probes: seq<Status>)
      returns (status: Status, sorted: SortedFile?)
    requires src.Valid() && src.WellFormed() && maxItems >= 2 && AllOfFile(key, src.View(), AllRecs(src.View()))
    modifies src`pins, src`unsaved
    ensures src.Valid() && src.WellFormed()
    ensures status == OK || status == FILEEXISTS || status == UNIXERR
    ensures status != OK ==> status in probes
    ensures sorted != null ==> AllProbed(probes, |sorted.runs|)
    ensures status == OK ==> src.pins == old(src.pins)
    ensures status != OK ==> old(src.pins) <= src.pins && |src.pins| == |old(src.pins)| + 2
    ensures status == OK <==> sorted != null
    ensures sorted != null ==> fresh(sorted) && sorted.Valid() && sorted.key == key
    ensures sorted != null ==>
      forall i :: 0 <= i < |sorted.runs| ==> fresh(sorted.runs[i].inFile) && fresh(sorted.runs[i].inFile.file)
    ensures sorted != null ==> multiset(sorted.Rest()) == Bag(src.View()) && sorted.Again() == []
    ensures sorted != null && AllAgree(key, Bag(src.View())) ==> Sorted(key, sorted.Rest())
  {
    hide PagedFile.Valid, PagedFile.WellFormed, PagedFile.View, AllRecs, Datas, AllOfFile, Pick, Match, Separate;
    hide HeapFileScan.Ok, HeapFileScan.Future, HeapFileScan.Others, HeapFileScan.Flagged, HeapFileScan.Pinned;
    hide Sorted, SortedLists, GoodLists, AllAgree, Everything, SortedFile.Valid, SortedFile.Rest, SortedFile.Again, RunsApart, RunHolds;
    sorted := null;
    PickAll(AllRecs(src.View()));
    var buffer := new SortRec[maxItems](i => SortRec(NULLRID, []));
    var hfs := HeapFileScan.Open(src);
    var runs;
    ghost var ls;
    status, runs, ls := SplitFile(key, hfs, buffer, probes);
    if status != OK {
      TwoPins(hfs);
      return;
    }
    hfs.Close();
    sorted := MergeRuns(key, runs, ls);
  }

  /** The constructor: next() will return the records of the source file, in order unless the difference of two INTEGER
      sort attributes overflows.  When a run cannot be created the scan on the source file stays open, with its pins on
      the header and the current page. */
  method SortFile(src: PagedFile, offset: int, length: int, t: Datatype, maxItems: int, probes: seq<Status>)
      returns (status: Status, sorted: SortedFile?)
    requires src.Valid() && src.WellFormed()
    requires Acceptable(offset, length, t) ==> AllOfFile(KeyOf(offset, length, t), src.View(), AllRecs(src.View()))
    modifies src`pins, src`unsaved
    ensures src.Valid() && src.WellFormed()
    ensures !Acceptable(offset, length, t) <==> status == BADSORTPARM
    ensures status == BADSORTPARM <==> offset < 0 || length < 1 || ((t == INTEGER || t == FLOAT) && length != 4)
    ensures Acceptable(offset, length, t) && maxItems < 2 <==> status == INSUFMEM
    ensures status in {OK, BADSORTPARM, INSUFMEM, FILEEXISTS, UNIXERR}
    ensures status in {FILEEXISTS, UNIXERR} ==> status in probes
    ensures sorted != null ==> AllProbed(probes, |sorted.runs|)
    ensures status in {OK, BADSORTPARM, INSUFMEM} ==> src.pins == old(src.pins)
    ensures status in {FILEEXISTS, UNIXERR} ==> old(src.pins) <= src.pins && |src.pins| == |old(src.pins)| + 2
    ensures status == OK <==> sorted != null
    ensures sorted != null ==> fresh(sorted) && sorted.Valid() && sorted.key == KeyOf(offset, length, t)
    ensures sorted != null ==>
      forall i :: 0 <= i < |sorted.runs| ==> fresh(sorted.runs[i].inFile) && fresh(sorted.runs[i].inFile.file)
    ensures sorted != null ==> multiset(sorted.Rest()) == Bag(src.View()) && sorted.Again() == []
    ensures sorted != null && AllAgree(sorted.key, Bag(src.View())) ==> Sorted(sorted.key, sorted.Rest())
  {
    hide PagedFile.Valid, PagedFile.WellFormed, PagedFile.View, AllRecs, AllOfFile, Bag;
    hide Sorted, AllAgree, SortedFile.Valid, SortedFile.Rest, SortedFile.Again;
    if offset < 0 || length < 1 || ((t.INTEGER? || t.FLOAT?) && length != 4) {
      return BADSORTPARM, null;
    }
    if maxItems < 2 {
      return INSUFMEM, null;
    }
    status, sorted := BuildSorted(KeyOf(offset, length, t), src, maxItems, probes);
  }

  lemma TwoPins(hfs: HeapFileScan)
    requires hfs.Ok() && hfs.curPage != null
    ensures hfs.Others() <= hfs.file.pins && |hfs.file.pins| == |hfs.Others()| + 2
    ensures hfs.file.Valid() && hfs.file.WellFormed()
  {
    hide PagedFile.Valid, PagedFile.WellFormed;
    assert hfs.file.pins == hfs.Others() + hfs.Pinned();
  }
}
