/** The delete operator: scan with a predicate, deleting under the cursor. */
module DeleteOperator {
  import opened Bytes
  import opened PageView
  import opened ScanFilter
  import opened HeapView
  import opened PagedFiles
  import opened HeapFileScans

  /** The chain keeps its pages: same page numbers, same links. */
  ghost predicate SameChain(ps: Pages, qs: Pages) {
    |ps| == |qs| && forall i :: 0 <= i < |ps| ==> ps[i].curPage == qs[i].curPage && ps[i].nextPage == qs[i].nextPage
  }

  /** Deleting the matching record under the cursor: what does not match stays, and the matches that
      are left are those the cursor has still to see. */
  lemma DeleteStep(ps: Pages, i: nat, k: int, f: ScanFilter)
    requires i < |ps| && Live(ps[i].slots, k) && Match(f, ps[i].slots[k].value)
    requires Pick(AllRecs(ps), f, true) == [RecordOf(ps[i], k)] + Pick(Remaining(ps, i, k), f, true)
    ensures var qs := DeleteRec(ps, i, k);
      && Pick(AllRecs(qs), f, false) == Pick(AllRecs(ps), f, false)
      && Pick(AllRecs(qs), f, true) == Pick(Remaining(qs, i, k), f, true) == Pick(Remaining(ps, i, k), f, true)
      && SameChain(ps, qs)
  {
    var r, rest := RecordOf(ps[i], k), Remaining(ps, i, k);
    var g := Match(f, r.data);
    hide *;
    var before := DeleteUnderCursor(ps, i, k);
    SplitAt(before, r, rest, f, true);
    SplitAt(before, r, rest, f, false);
    PickConcat(before, rest, f, true);
    PickConcat(before, rest, f, false);
    NothingBefore(Pick(before, f, true), r, Pick(rest, f, true));
    NothingBetween(Pick(before, f, false), Pick(rest, f, false));
    DeleteChain(ps, i, k);
  }

  lemma NothingBefore<T>(a: seq<T>, r: T, b: seq<T>)
    requires a + [r] + b == [r] + b
    ensures a == [] && a + b == b
  {
    assert |a + [r] + b| == |a| + 1 + |b|;
  }

  lemma NothingBetween<T>(a: seq<T>, b: seq<T>)
    ensures a + [] + b == a + b
  {
  }

  lemma DeleteChain(ps: Pages, i: nat, k: int)
    requires i < |ps| && Live(ps[i].slots, k)
    ensures SameChain(ps, DeleteRec(ps, i, k))
  {
    hide Delete;
  }

  lemma SplitAt(before: seq<Rec>, r: Rec, rest: seq<Rec>, f: ScanFilter, keep: bool)
    ensures Pick(before + [r] + rest, f, keep)
      == Pick(before, f, keep) + (if Match(f, r.data) == keep then [r] else []) + Pick(rest, f, keep)
  {
    hide Match, Pick;
    PickConcat(before + [r], rest, f, keep);
    PickConcat(before, [r], f, keep);
    PickOne(r, f, keep);
  }

  lemma PickOne(r: Rec, f: ScanFilter, keep: bool)
    ensures Pick([r], f, keep) == if Match(f, r.data) == keep then [r] else []
  {
    hide Match;
    PickFirst(r, [], f, keep);
    assert [r] + [] == [r];
  }

  /** Does recCnt still tell the truth after deleteRecord?  Exactly when the cursor stood on a live record. */
  lemma CountTruthful(chain: seq<int>, content: map<int, PageView>, header: Header, i: nat, k: int)
    requires GoodFile(chain, content, header) && i < |chain|
    ensures OnChain(chain, content, i)
    ensures var p := content[chain[i]];
      var content' := if Live(p.slots, k) then content[chain[i] := p.(slots := Delete(p.slots, k))] else content;
      GoodFile(chain, content', header.(recCnt := header.recCnt - 1)) <==> Live(p.slots, k)
  {
    assert OnChain(chain, content, i);
    if Live(content[chain[i]].slots, k) {
      DeleteKeepsGood(chain, content, header, i, k);
    }
  }

  /** The filter QU_Delete asks for: no attribute name means every record. */
  datatype Request = Everything | Where(offset: int, length: int, attrType: Datatype, value: bytes, op: Operator)

  /** QU_Delete: every record that matches goes, whatever page and slot it is in, and compaction under the live cursor
      makes the scan miss none; every other record keeps its record id and its bytes.  What matches is what satisfies
      the predicate, unless the difference of two INTEGER values overflows. */
  method QU_Delete(file: PagedFile, request: Request) returns (status: Status, ghost f: ScanFilter)
    requires file.Valid() && file.WellFormed()
    requires request.Where? && Acceptable(request.offset, request.length, request.attrType) ==> Wide(request.attrType, request.value)
    modifies file, file.Repr
    ensures file.Valid() && file.WellFormed()
    ensures status == OK <==> request.Everything? || Acceptable(request.offset, request.length, request.attrType)
    ensures status != OK ==> status == BADSCANPARM && file.View() == old(file.View())
    ensures status == BADSCANPARM <==>
      request.Where? && (request.offset < 0 || request.length < 1
        || ((request.attrType == INTEGER || request.attrType == FLOAT) && request.length != 4))
    ensures status == OK ==> f == if request.Everything? then NoFilter
      else Attribute(request.offset, request.length, request.attrType, request.value, request.op)
    ensures status == OK ==> AllRecs(file.View()) == Pick(AllRecs(old(file.View())), f, false)
    ensures status == OK && AllDecidedBy(f, AllRecs(old(file.View()))) ==>
      AllRecs(file.View()) == Select(AllRecs(old(file.View())), f, false)
    ensures status == OK ==> file.header.recCnt == old(file.header.recCnt) - |Pick(AllRecs(old(file.View())), f, true)|
    ensures SameChain(old(file.View()), file.View()) && file.chain == old(file.chain)
    ensures file.pins == old(file.pins) && file.Repr == old(file.Repr)
    ensures old(file.unsaved) == {} ==> file.unsaved == {}
  {
    hide PagedFile.Valid, GoodFile, PagedFile.View, AllRecs, Pick, Select, AllDecidedBy, FlaggedOf, PinsOf;
    hide HeapFileScan.Ok, HeapFileScan.Flagged, HeapFileScan.Others, HeapFileScan.Future;
    var hfs := HeapFileScan.Open(file);
    hfs.CountOf();
    f := NoFilter;
    if request.Everything? {
      status := hfs.StartScan(0, 0, STRING, None, EQ);
    } else {
      status := hfs.StartScan(request.offset, request.length, request.attrType, Some(request.value), request.op);
    }
    if status != OK {
      hfs.Close();
      return;
    }
    f := hfs.filter;
    DeleteMatches(hfs);
    AllDeleted(AllRecs(old(file.View())), AllRecs(file.View()), f);
    if AllDecidedBy(f, AllRecs(old(file.View()))) {
      PickSelects(AllRecs(old(file.View())), f, false);
    }
    hfs.CountOf();
    hfs.Close();
  }

  /** No match is left and nothing else is gone. */
  lemma AllDeleted(before: seq<Rec>, after: seq<Rec>, f: ScanFilter)
    requires Pick(after, f, true) == [] && Pick(after, f, false) == Pick(before, f, false)
    ensures after == Pick(before, f, false) && |after| == |before| - |Pick(before, f, true)|
  {
    PickNone(after, f);
    PickCounts(before, f);
  }

  /** The loop: find the next match, delete it. */
  method DeleteMatches(hfs: HeapFileScan)
    requires hfs.Ok() && hfs.Future() == AllRecs(hfs.file.View())
    modifies hfs, hfs.file, hfs.file.Repr
    ensures hfs.Ok()
    ensures Pick(AllRecs(hfs.file.View()), hfs.filter, true) == []
    ensures Pick(AllRecs(hfs.file.View()), hfs.filter, false) == Pick(AllRecs(old(hfs.file.View())), hfs.filter, false)
    ensures SameChain(old(hfs.file.View()), hfs.file.View()) && hfs.file.chain == old(hfs.file.chain)
    ensures hfs.file.Repr == old(hfs.file.Repr)
    ensures hfs.filter == old(hfs.filter)
    ensures hfs.Others() == old(hfs.Others()) && (old(hfs.Flagged()) ==> hfs.Flagged())
  {
    hide HeapFileScan.Ok, HeapFileScan.Future, HeapFileScan.Others, HeapFileScan.Flagged, HeapFileScan.At;
    hide PagedFile.View, Match, AllRecs, Pick;
    var file := hfs.file;
    var status := OK;
    while status == OK
      invariant hfs.Ok() && hfs.filter == old(hfs.filter)
      invariant status == OK || status == FILEEOF
      invariant Pick(AllRecs(file.View()), hfs.filter, true) == hfs.Pending()
      invariant status != OK ==> hfs.Pending() == []
      invariant Pick(AllRecs(file.View()), hfs.filter, false) == Pick(AllRecs(old(file.View())), hfs.filter, false)
      invariant SameChain(old(file.View()), file.View()) && file.chain == old(file.chain)
      invariant file.Repr == old(file.Repr)
      invariant hfs.Others() == old(hfs.Others()) && (old(hfs.Flagged()) ==> hfs.Flagged())
      decreases |hfs.Pending()|, status == OK
    {
      ghost var hits := hfs.Pending();
      PickMatches(hfs.Future(), hfs.filter, true);
      var rid;
      status, rid := hfs.ScanNext();
      if status != OK { break; }
      CurrentInRepr(hfs, hits[0]);
      status := DeleteMatch(hfs, hits[0]);
    }
  }

  /** Delete the match the cursor stands on; the scan goes on as if nothing had happened. */
  method DeleteMatch(hfs: HeapFileScan, ghost r: Rec) returns (status: Status)
    requires hfs.Ok() && hfs.curPage != null && hfs.At(r) && Match(hfs.filter, r.data)
    requires Pick(AllRecs(hfs.file.View()), hfs.filter, true) == [r] + hfs.Pending()
    modifies hfs`curDirtyFlag, hfs`hdrDirtyFlag, hfs.file`content, hfs.file`header, hfs.file`unsaved
    modifies hfs.curPage, hfs.curPage.raw
    ensures hfs.Ok() && status == OK && hfs.Pending() == old(hfs.Pending())
    ensures Pick(AllRecs(hfs.file.View()), hfs.filter, true) == hfs.Pending()
    ensures Pick(AllRecs(hfs.file.View()), hfs.filter, false) == old(Pick(AllRecs(hfs.file.View()), hfs.filter, false))
    ensures SameChain(old(hfs.file.View()), hfs.file.View())
    ensures hfs.Others() == old(hfs.Others()) && (old(hfs.Flagged()) ==> hfs.Flagged())
  {
    hide HeapFileScan.Ok, HeapFileScan.Others, HeapFileScan.Flagged, HeapFileScan.Positioned;
    hide PagedFile.View, Match, AllRecs, Pick, DeleteRec, Remaining, Live;
    ghost var ps, i, k, f := hfs.file.View(), hfs.idx, hfs.curRec.slotNo, hfs.filter;
    DeleteStep(ps, i, k, f);
    status := hfs.DeleteRecord();
  }

  lemma CurrentInRepr(hfs: HeapFileScan, r: Rec)
    requires hfs.Ok() && hfs.At(r)
    ensures hfs.curPage != null && hfs.curPage in hfs.file.Repr && hfs.curPage.raw in hfs.file.Repr
  {
    hide HeapFileScan.Pinned, GoodFile;
    hfs.file.PageFacts(hfs.curPageNo);
  }
}
