/** The external sort: sorted runs in temporary heap files, merged record by record. */
module SortedFiles {
  import opened Bytes
  import opened PageView
  import opened ScanFilter
  import opened HeapView
  import opened PagedFiles
  import opened HeapFileScans
  import opened SortView

  /** A sorted run: its scan, whether its next record is in memory, and that record. */
  datatype Run = Run(inFile: HeapFileScan, valid: bool, rec: bytes, rid: RID, mark: RID)

  ghost predicate RunOk(r: Run)
    reads r.inFile, r.inFile.file, r.inFile.file.Repr
  {
    && r.inFile.Ok() && r.inFile.curPage != null && r.inFile.filter == NoFilter
    && (r.rid.pageNo >= 0 ==> r.inFile.At(Rec(r.rid, r.rec)))
  }

  /** What the run has still to deliver, the record in memory first. */
  ghost function Left(r: Run): seq<bytes>
    reads r.inFile, r.inFile.file
  {
    if !r.valid then Datas(r.inFile.Pending()) else Replay(r)
  }

  /** What the run would deliver if its current record were fetched once more. */
  ghost function Replay(r: Run): seq<bytes>
    reads r.inFile, r.inFile.file
  {
    if r.rid.pageNo < 0 then [] else [r.rec] + Datas(r.inFile.Pending())
  }

  /** What the run will deliver after going back to its mark. */
  ghost function MarkReplay(r: Run): seq<bytes>
    reads r.inFile, r.inFile.file
  {
    if r.mark.pageNo < 0 then [] else [r.inFile.MarkedData()] + Datas(r.inFile.MarkedPending())
  }

  ghost predicate MarkOk(r: Run)
    reads r.inFile, r.inFile.file
  {
    r.inFile.marked && (r.mark.pageNo >= 0 ==> r.inFile.MarkedAt(Rec(r.mark, r.inFile.MarkedData())))
  }

  /** Make sure the run's next record is in memory; what it has to deliver stays the same. */
  method Fetch(r: Run) returns (s: Run)
    requires RunOk(r)
    modifies r.inFile`curPage, r.inFile`curPageNo, r.inFile`curDirtyFlag, r.inFile`curRec, r.inFile`idx
    modifies r.inFile.file`pins, r.inFile.file`unsaved
    ensures RunOk(s) && s.valid && s.inFile == r.inFile && s.mark == r.mark
    ensures Left(s) == old(Left(r))
    ensures MarkReplay(s) == old(MarkReplay(r)) && (old(MarkOk(r)) ==> MarkOk(s))
    ensures r.inFile.Others() == old(r.inFile.Others()) && (old(r.inFile.Flagged()) ==> r.inFile.Flagged())
  {
    hide HeapFileScan.Ok, HeapFileScan.Pending, HeapFileScan.Others, HeapFileScan.Flagged, HeapFileScan.MarkedPending;
    hide PagedFile.View, HeapFileScan.MarkedAt, HeapFileScan.MarkedData, HeapFileScan.At, Datas;
    s := r;
    if !r.valid {
      ghost var todo := r.inFile.Pending();
      var status, rid := r.inFile.ScanNext();
      if status == OK {
        r.inFile.AtPage(todo[0]);
        var st, rec := r.inFile.GetRecord();
        s := r.(valid := true, rid := rid, rec := rec);
        DatasFirst(todo);
      } else {
        s := r.(valid := true, rid := RID(-1, r.rid.slotNo));
        DatasEmpty();
      }
    }
  }

  lemma DatasFirst(rs: seq<Rec>)
    requires rs != []
    ensures Datas(rs) == [rs[0].data] + Datas(rs[1..])
  {
  }

  lemma DatasEmpty()
    ensures Datas([]) == []
  {
  }

  // ---- all runs together ----

  ghost predicate ApartScans(s: HeapFileScan, t: HeapFileScan)
    reads s.file`Repr, t.file`Repr
  {
    s != t && s !in t.file.Repr && t !in s.file.Repr && Separate(s.file, t.file)
  }

  ghost function Scans(runs: seq<Run>): set<HeapFileScan> {
    set i | 0 <= i < |runs| :: runs[i].inFile
  }

  ghost function Files(runs: seq<Run>): set<PagedFile> {
    set i | 0 <= i < |runs| :: runs[i].inFile.file
  }

  ghost function Frames(runs: seq<Run>): set<object>
    reads Files(runs)
  {
    set i, o | 0 <= i < |runs| && o in runs[i].inFile.file.Repr :: o
  }

  ghost predicate AllApart(runs: seq<Run>)
    reads Files(runs)`Repr
  {
    forall i, j :: 0 <= i < |runs| && 0 <= j < |runs| && i != j ==> ApartScans(runs[i].inFile, runs[j].inFile)
  }

  ghost predicate AllOk(runs: seq<Run>)
    reads Scans(runs), Files(runs), Frames(runs)
  {
    forall i :: 0 <= i < |runs| ==> RunOk(runs[i])
  }

  ghost function Lefts(runs: seq<Run>): (ls: Lists)
    reads Scans(runs), Files(runs)
  {
    seq(|runs|, i requires 0 <= i < |runs| reads Scans(runs), Files(runs) =>
      assert runs[i].inFile in Scans(runs); assert runs[i].inFile.file in Files(runs); Left(runs[i]))
  }

  ghost function Replays(runs: seq<Run>): (ls: Lists)
    reads Scans(runs), Files(runs)
  {
    seq(|runs|, i requires 0 <= i < |runs| reads Scans(runs), Files(runs) =>
      assert runs[i].inFile in Scans(runs); assert runs[i].inFile.file in Files(runs); Replay(runs[i]))
  }

  ghost function MarkReplays(runs: seq<Run>): (ls: Lists)
    reads Scans(runs), Files(runs)
  {
    seq(|runs|, i requires 0 <= i < |runs| reads Scans(runs), Files(runs) =>
      assert runs[i].inFile in Scans(runs); assert runs[i].inFile.file in Files(runs); MarkReplay(runs[i]))
  }

  ghost predicate AllMarked(runs: seq<Run>)
    reads Scans(runs), Files(runs)
  {
    forall i :: 0 <= i < |runs| ==> MarkOk(runs[i])
  }

  /** Make sure that run i has its next record in memory. */
  method FetchAt(runs: seq<Run>, i: nat) returns (s: seq<Run>)
    requires i < |runs| && AllOk(runs) && AllApart(runs)
    modifies runs[i].inFile`curPage, runs[i].inFile`curPageNo, runs[i].inFile`curDirtyFlag, runs[i].inFile`curRec
    modifies runs[i].inFile`idx, runs[i].inFile.file`pins, runs[i].inFile.file`unsaved
    ensures i < |s| && s == runs[i := s[i]] && s[i].inFile == runs[i].inFile && s[i].valid
    ensures AllOk(s) && AllApart(s)
    ensures Lefts(s) == old(Lefts(runs)) && MarkReplays(s) == old(MarkReplays(runs))
    ensures old(AllMarked(runs)) ==> AllMarked(s)
  {
    hide RunOk, Left, MarkReplay, MarkOk;
    var r := Fetch(runs[i]);
    s := runs[i := r];
    forall j | 0 <= j < |runs| && j != i
      ensures RunOk(s[j]) && Left(s[j]) == old(Left(runs[j])) && MarkReplay(s[j]) == old(MarkReplay(runs[j]))
      ensures old(MarkOk(runs[j])) ==> MarkOk(s[j])
    {
      assert ApartScans(runs[i].inFile, runs[j].inFile);
      assert old(RunOk(runs[j]));
    }
  }

  ghost predicate SameScans(runs: seq<Run>, s: seq<Run>) {
    |runs| == |s| && forall i :: 0 <= i < |runs| ==> runs[i].inFile == s[i].inFile
  }

  lemma SameFrames(runs: seq<Run>, s: seq<Run>)
    requires SameScans(runs, s)
    ensures Scans(runs) == Scans(s) && Files(runs) == Files(s) && Frames(runs) == Frames(s)
  {
  }

  /** Fetch every run's next record and find the first run whose record is smallest. */
  method FindSmallest(key: SortKey, runs: seq<Run>) returns (s: seq<Run>, smallest: int)
    requires AllOk(runs) && AllApart(runs) && GoodLists(key, Lefts(runs))
    modifies Scans(runs), Files(runs)`pins, Files(runs)`unsaved
    ensures SameScans(runs, s) && AllOk(s) && AllApart(s)
    ensures Lefts(s) == old(Lefts(runs)) && MarkReplays(s) == old(MarkReplays(runs))
    ensures old(AllMarked(runs)) ==> AllMarked(s)
    ensures forall i :: 0 <= i < |s| ==> s[i].valid
    ensures GoodHeads(key, Lefts(s)) && smallest == Best(key, Lefts(s), |s|)
  {
    hide RunOk, AllOk, AllApart, MarkReplay, AllMarked, ApartScans, HeapFileScan.Pending, Left, MarkReplays;
    ghost var ls := Lefts(runs);
    GoodHeadsOf(key, ls);
    hide GoodLists, GoodHeads, Lefts;
    s, smallest := runs, -1;
    var i := 0;
    while i < |s|
      invariant i <= |s| && SameScans(runs, s) && AllOk(s) && AllApart(s)
      invariant Lefts(s) == ls && |s| == |ls| && MarkReplays(s) == old(MarkReplays(runs))
      invariant old(AllMarked(runs)) ==> AllMarked(s)
      invariant forall j :: 0 <= j < i ==> s[j].valid
      invariant smallest == Best(key, ls, i)
    {
      s := FetchAt(s, i);
      BetterIsBest(key, s, ls, i, smallest);
      smallest := Better(key, s, i, smallest);
      i := i + 1;
    }
  }

  /** Compare the record of run i with the smallest one so far. */
  function Better(key: SortKey, s: seq<Run>, i: nat, smallest: int): int
    requires i < |s| && -1 <= smallest < |s|
    requires smallest >= 0 ==> Sortable(key, s[smallest].rec)
    requires s[i].rid.pageNo >= 0 ==> Sortable(key, s[i].rec)
  {
    if s[i].rid.pageNo < 0 then smallest
    else if smallest == -1 then i
    else if Reccmp(key, s[smallest].rec, s[i].rec) > 0 then i
    else smallest
  }

  lemma BetterIsBest(key: SortKey, s: seq<Run>, ls: Lists, i: nat, smallest: int)
    requires i < |s| == |ls| && ls == Lefts(s) && (forall j :: 0 <= j <= i ==> s[j].valid)
    requires GoodHeads(key, ls) && smallest == Best(key, ls, i)
    ensures smallest >= 0 ==> Sortable(key, s[smallest].rec)
    ensures s[i].rid.pageNo >= 0 ==> Sortable(key, s[i].rec)
    ensures Better(key, s, i, smallest) == Best(key, ls, i + 1)
  {
    hide Lefts, Sortable;
    HeadsInMemory(s, ls);
  }

  /** reccmp on the sort attribute of two records. */
  function Reccmp(key: SortKey, a: bytes, b: bytes): int
    requires Sortable(key, a) && Sortable(key, b)
  {
    FieldCmp(key, SortView.Field(key, a), SortView.Field(key, b))
  }

  lemma HeadsInMemory(s: seq<Run>, ls: Lists)
    requires ls == Lefts(s)
    ensures |ls| == |s|
    ensures forall j :: 0 <= j < |s| && s[j].valid ==> (s[j].rid.pageNo >= 0 <==> ls[j] != [])
    ensures forall j :: 0 <= j < |s| && s[j].valid && s[j].rid.pageNo >= 0 ==> ls[j][0] == s[j].rec
  {
    hide HeapFileScan.Pending;
  }

  /** All records are in memory: taking the record of run b leaves its list without its head. */
  lemma TakeFrom(s: seq<Run>, b: nat)
    requires b < |s| && s[b].rid.pageNo >= 0 && forall i :: 0 <= i < |s| ==> s[i].valid
    ensures var t := s[b := s[b].(valid := false)];
      && Lefts(t) == Lefts(s)[b := Lefts(s)[b][1..]] && Replays(t) == Lefts(s)
      && MarkReplays(t) == MarkReplays(s)
      && (AllMarked(s) ==> AllMarked(t)) && (AllOk(s) ==> AllOk(t)) && (AllApart(s) ==> AllApart(t))
  {
    hide HeapFileScan.Pending, HeapFileScan.MarkedPending, HeapFileScan.MarkedAt, HeapFileScan.At, HeapFileScan.Ok, ApartScans;
    var t := s[b := s[b].(valid := false)];
    SameFrames(s, t);
    assert Lefts(t)[b] == Lefts(s)[b][1..];
    forall j | 0 <= j < |s|
      ensures MarkReplay(t[j]) == MarkReplay(s[j]) && (RunOk(s[j]) ==> RunOk(t[j])) && (MarkOk(s[j]) ==> MarkOk(t[j]))
    {
    }
  }

  /** When every run is at its end, there is nothing to do again either. */
  lemma NothingLeft(s: seq<Run>)
    requires forall i :: 0 <= i < |s| ==> s[i].valid
    ensures Replays(s) == Lefts(s)
  {
    hide HeapFileScan.Pending;
  }

  /** One step of the merge: the lists lose the head of the first list whose head is smallest. */
  method TakeSmallest(key: SortKey, runs: seq<Run>) returns (status: Status, rec: bytes, s: seq<Run>)
    requires AllOk(runs) && AllApart(runs) && GoodLists(key, Lefts(runs))
    modifies Scans(runs), Files(runs)`pins, Files(runs)`unsaved
    ensures SameScans(runs, s) && AllOk(s) && AllApart(s)
    ensures GoodLists(key, Lefts(s)) && Replays(s) == old(Lefts(runs))
    ensures status == if Merged(key, old(Lefts(runs))) == [] then FILEEOF else OK
    ensures Merged(key, old(Lefts(runs))) == (if status == OK then [rec] else []) + Merged(key, Lefts(s))
    ensures MarkReplays(s) == old(MarkReplays(runs)) && (old(AllMarked(runs)) ==> AllMarked(s))
  {
    hide AllOk, AllApart, MarkReplays, AllMarked, Lefts, Replays, GoodLists, GoodHeads, Best;
    ghost var ls := Lefts(runs);
    var smallest;
    s, smallest := FindSmallest(key, runs);
    HeadsInMemory(s, ls);
    if smallest == -1 {
      NothingLeft(s);
      return FILEEOF, [], s;
    }
    rec := s[smallest].rec;
    TakeFrom(s, smallest);
    GoodTail(key, ls, smallest);
    s := s[smallest := s[smallest].(valid := false)];
    status := OK;
  }

  /** Mark one run. */
  method MarkRun(r: Run) returns (s: Run)
    requires RunOk(r)
    modifies r.inFile`markedPageNo, r.inFile`markedRec, r.inFile`markedIdx, r.inFile`marked
    ensures RunOk(s) && s.inFile == r.inFile && Left(s) == old(Left(r)) && Replay(s) == old(Replay(r))
    ensures MarkOk(s) && MarkReplay(s) == Replay(s)
  {
    hide HeapFileScan.Ok, HeapFileScan.Pending, HeapFileScan.MarkedPending, HeapFileScan.At, PagedFile.View, Datas, Live;
    r.inFile.MarkScan();
    s := r.(mark := r.rid);
  }

  method MarkAt(runs: seq<Run>, i: nat) returns (s: seq<Run>)
    requires i < |runs| && AllOk(runs) && AllApart(runs)
    modifies runs[i].inFile`markedPageNo, runs[i].inFile`markedRec, runs[i].inFile`markedIdx, runs[i].inFile`marked
    ensures i < |s| && s == runs[i := s[i]] && s[i].inFile == runs[i].inFile
    ensures AllOk(s) && AllApart(s) && Lefts(s) == old(Lefts(runs)) && Replays(s) == old(Replays(runs))
    ensures MarkOk(s[i]) && MarkReplay(s[i]) == Replay(s[i])
    ensures forall j :: 0 <= j < |s| && j != i ==> MarkReplay(s[j]) == old(MarkReplay(runs[j]))
    ensures forall j :: 0 <= j < |s| && j != i && old(MarkOk(runs[j])) ==> MarkOk(s[j])
  {
    hide RunOk, Left, MarkReplay, MarkOk, Replay;
    var r := MarkRun(runs[i]);
    s := runs[i := r];
    forall j | 0 <= j < |runs| && j != i
      ensures RunOk(s[j]) && Left(s[j]) == old(Left(runs[j])) && Replay(s[j]) == old(Replay(runs[j]))
      ensures MarkReplay(s[j]) == old(MarkReplay(runs[j])) && (old(MarkOk(runs[j])) ==> MarkOk(s[j]))
    {
      assert ApartScans(runs[i].inFile, runs[j].inFile);
      assert old(RunOk(runs[j]));
    }
  }

  method MarkAll(runs: seq<Run>) returns (s: seq<Run>)
    requires AllOk(runs) && AllApart(runs)
    modifies Scans(runs)
    ensures SameScans(runs, s) && AllOk(s) && AllApart(s) && AllMarked(s)
    ensures Lefts(s) == old(Lefts(runs)) && Replays(s) == old(Replays(runs)) && MarkReplays(s) == old(Replays(runs))
  {
    hide RunOk, AllOk, AllApart, ApartScans, Left, MarkReplay, MarkOk, Replay, Lefts;
    s := runs;
    var i := 0;
    while i < |s|
      invariant i <= |s| && SameScans(runs, s) && AllOk(s) && AllApart(s)
      invariant Lefts(s) == old(Lefts(runs)) && Replays(s) == old(Replays(runs))
      invariant forall j :: 0 <= j < i ==> MarkOk(s[j]) && MarkReplay(s[j]) == old(Replays(runs))[j]
    {
      s := MarkAt(s, i);
      i := i + 1;
    }
  }

  /** Take one run back to its mark; the record there is in memory then. */
  method ReturnRun(r: Run) returns (s: Run)
    requires RunOk(r) && MarkOk(r)
    modifies r.inFile`curPage, r.inFile`curPageNo, r.inFile`curDirtyFlag, r.inFile`curRec, r.inFile`idx
    modifies r.inFile.file`pins, r.inFile.file`unsaved
    ensures RunOk(s) && s.inFile == r.inFile && MarkOk(s) && s.valid
    ensures Left(s) == Replay(s) == MarkReplay(s) == old(MarkReplay(r))
  {
    hide HeapFileScan.Ok, HeapFileScan.Pending, HeapFileScan.MarkedPending, HeapFileScan.At, PagedFile.View, Datas;
    hide HeapFileScan.MarkedAt, HeapFileScan.MarkedData;
    ghost var d := r.inFile.MarkedData();
    var status := r.inFile.ResetScan();
    s := r.(rid := r.mark, valid := true);
    if r.mark.pageNo >= 0 {
      r.inFile.AtPage(Rec(r.mark, d));
      var st, rec := r.inFile.GetRecord();
      s := s.(rec := rec);
    }
  }

  method ReturnAt(runs: seq<Run>, i: nat) returns (s: seq<Run>)
    requires i < |runs| && AllOk(runs) && AllApart(runs) && AllMarked(runs)
    modifies runs[i].inFile`curPage, runs[i].inFile`curPageNo, runs[i].inFile`curDirtyFlag, runs[i].inFile`curRec
    modifies runs[i].inFile`idx, runs[i].inFile.file`pins, runs[i].inFile.file`unsaved
    ensures i < |s| && s == runs[i := s[i]] && s[i].inFile == runs[i].inFile && s[i].valid
    ensures AllOk(s) && AllApart(s) && AllMarked(s) && MarkReplays(s) == old(MarkReplays(runs))
    ensures Left(s[i]) == Replay(s[i]) == MarkReplay(s[i])
    ensures forall j :: 0 <= j < |s| && j != i ==> Left(s[j]) == old(Left(runs[j])) && Replay(s[j]) == old(Replay(runs[j]))
  {
    hide RunOk, Left, MarkReplay, MarkOk, Replay;
    var r := ReturnRun(runs[i]);
    s := runs[i := r];
    forall j | 0 <= j < |runs| && j != i
      ensures RunOk(s[j]) && Left(s[j]) == old(Left(runs[j])) && Replay(s[j]) == old(Replay(runs[j]))
      ensures MarkReplay(s[j]) == old(MarkReplay(runs[j])) && MarkOk(s[j])
    {
      assert ApartScans(runs[i].inFile, runs[j].inFile);
      assert old(RunOk(runs[j])) && old(MarkOk(runs[j]));
    }
  }

  method ReturnAll(runs: seq<Run>) returns (s: seq<Run>)
    requires AllOk(runs) && AllApart(runs) && AllMarked(runs)
    modifies Scans(runs), Files(runs)`pins, Files(runs)`unsaved
    ensures SameScans(runs, s) && AllOk(s) && AllApart(s) && AllMarked(s)
    ensures Lefts(s) == Replays(s) == MarkReplays(s) == old(MarkReplays(runs))
  {
    hide RunOk, AllOk, AllApart, AllMarked, ApartScans, Left, MarkReplay, MarkOk, Replay;
    s := runs;
    var i := 0;
    while i < |s|
      invariant i <= |s| && SameScans(runs, s) && AllOk(s) && AllApart(s) && AllMarked(s)
      invariant MarkReplays(s) == old(MarkReplays(runs))
      invariant forall j :: 0 <= j < i ==> Left(s[j]) == Replay(s[j]) == MarkReplays(s)[j]
    {
      s := ReturnAt(s, i);
      i := i + 1;
    }
  }

  class SortedFile {
    const key: SortKey
    var runs: seq<Run>

    constructor (k: SortKey)
      ensures key == k && runs == []
    {
      key, runs := k, [];
    }

    ghost predicate Valid()
      reads this`runs, Scans(runs), Files(runs), Frames(runs)
    {
      && AllOk(runs) && AllApart(runs) && this !in Frames(runs)
      && GoodLists(key, Lefts(runs)) && GoodLists(key, Replays(runs))
    }

    /** A mark has been set in every run. */
    ghost predicate Marked()
      reads this`runs, Scans(runs), Files(runs)
    {
      AllMarked(runs) && GoodLists(key, MarkReplays(runs))
    }

    /** The records next() has still to return. */
    ghost function Rest(): seq<bytes>
      requires Valid()
      reads this`runs, Scans(runs), Files(runs), Frames(runs)
    {
      Merged(key, Lefts(runs))
    }

    /** The record returned last, if the last next() returned one, and then the rest. */
    ghost function Again(): seq<bytes>
      requires Valid()
      reads this`runs, Scans(runs), Files(runs), Frames(runs)
    {
      Merged(key, Replays(runs))
    }

    /** The records next() will return after gotoMark. */
    ghost function MarkRest(): seq<bytes>
      requires Marked()
      reads this`runs, Scans(runs), Files(runs)
    {
      Merged(key, MarkReplays(runs))
    }

    /** Put the runs in place. */
    method Adopt(rs: seq<Run>)
      requires AllOk(rs) && AllApart(rs) && this !in Frames(rs)
      requires GoodLists(key, Lefts(rs)) && GoodLists(key, Replays(rs))
      modifies this`runs
      ensures runs == rs && Valid()
      ensures Rest() == Merged(key, old(Lefts(rs))) && Again() == Merged(key, old(Replays(rs)))
      ensures old(AllMarked(rs)) && GoodLists(key, old(MarkReplays(rs))) ==>
        Marked() && MarkRest() == Merged(key, old(MarkReplays(rs)))
    {
      hide AllOk, AllApart, AllMarked, MarkReplays, Lefts, Replays, GoodLists, Merged;
      SameFrames(rs, rs);
      runs := rs;
    }

    /** Return the next record of the sorted sequence. */
    method Next() returns (status: Status, rec: bytes)
      requires Valid()
      modifies this`runs, Scans(runs), Files(runs)`pins, Files(runs)`unsaved
      ensures Valid() && SameScans(old(runs), runs)
      ensures status == if old(Rest()) == [] then FILEEOF else OK
      ensures status == OK ==> rec == old(Rest())[0] && Rest() == old(Rest())[1..] && Again() == [rec] + Rest()
      ensures status != OK ==> Rest() == [] && Again() == []
      ensures old(Marked()) ==> Marked() && MarkRest() == old(MarkRest())
    {
      hide AllOk, AllApart, MarkReplays, AllMarked, Lefts, Replays, GoodLists, Merged;
      var s;
      status, rec, s := TakeSmallest(key, runs);
      SameFrames(runs, s);
      Adopt(s);
    }

    /** Remember the position: gotoMark will return the record returned last, and then the rest as it is now. */
    method SetMark()
      requires Valid()
      modifies this`runs, Scans(runs)
      ensures Valid() && SameScans(old(runs), runs) && Marked()
      ensures Rest() == old(Rest()) && Again() == old(Again()) && MarkRest() == Again()
    {
      hide AllOk, AllApart, MarkReplays, AllMarked, Lefts, Replays, GoodLists, Merged;
      var s := MarkAll(runs);
      SameFrames(runs, s);
      Adopt(s);
    }

    /** Go back to the marked position, whatever has been read since. */
    method GotoMark()
      requires Valid() && Marked()
      modifies this`runs, Scans(runs), Files(runs)`pins, Files(runs)`unsaved
      ensures Valid() && SameScans(old(runs), runs) && Marked()
      ensures Rest() == Again() == MarkRest() == old(MarkRest())
    {
      hide AllOk, AllApart, MarkReplays, AllMarked, Lefts, Replays, GoodLists, Merged;
      var s := ReturnAll(runs);
      SameFrames(runs, s);
      Adopt(s);
    }
  }
}
