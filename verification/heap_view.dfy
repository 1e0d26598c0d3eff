/** What a heap file means: its chain of pages, and the sequence of records
    (record id and bytes) met in chain-then-slot order. */
module HeapView {
  import opened Bytes
  import opened PageView
  import opened ScanFilter

  datatype Rec = Rec(rid: RID, data: bytes)

  type Pages = seq<PageView>

  // ---- records of a stretch of slots ----

  function RecsIn(no: int, s: Slots, a: nat, b: nat): seq<Rec>
    requires a <= b <= |s|
    decreases b - a
  {
    if a == b then []
    else (if s[a].Some? then [Rec(RID(no, a), s[a].value)] else []) + RecsIn(no, s, a + 1, b)
  }

  lemma {:induction false} RecsInSplit(no: int, s: Slots, a: nat, m: nat, b: nat)
    requires a <= m <= b <= |s|
    ensures RecsIn(no, s, a, b) == RecsIn(no, s, a, m) + RecsIn(no, s, m, b)
    decreases m - a
  {
    if a < m {
      RecsInSplit(no, s, a + 1, m, b);
    }
  }

  lemma {:induction false} RecsInSame(no: int, s: Slots, t: Slots, a: nat, b: nat)
    requires a <= b <= |s| && b <= |t|
    requires forall k :: a <= k < b ==> s[k] == t[k]
    ensures RecsIn(no, s, a, b) == RecsIn(no, t, a, b)
    decreases b - a
  {
    if a < b {
      RecsInSame(no, s, t, a + 1, b);
      var head := if s[a].Some? then [Rec(RID(no, a), s[a].value)] else [];
      assert RecsIn(no, s, a, b) == head + RecsIn(no, s, a + 1, b);
      assert RecsIn(no, t, a, b) == head + RecsIn(no, t, a + 1, b);
    }
  }

  lemma {:induction false} RecsInNone(no: int, s: Slots, a: nat, b: nat)
    requires a <= b <= |s|
    requires forall k :: a <= k < b ==> !Live(s, k)
    ensures RecsIn(no, s, a, b) == []
    decreases b - a
  {
    if a < b {
      assert !Live(s, a);
      RecsInNone(no, s, a + 1, b);
    }
  }

  /** All records of a page from slot `from` on. */
  function PageRecs(p: PageView, from: nat): seq<Rec> {
    if from <= |p.slots| then RecsIn(p.curPage, p.slots, from, |p.slots|) else []
  }

  function RecordOf(p: PageView, k: int): Rec
    requires Live(p.slots, k)
  {
    Rec(RID(p.curPage, k), p.slots[k].value)
  }

  /** The next live slot holds the first of the remaining records. */
  lemma PageRecsNext(p: PageView, from: nat)
    ensures var j := NextLive(p.slots, from);
      if j < |p.slots| then PageRecs(p, from) == [RecordOf(p, j)] + PageRecs(p, j + 1)
      else PageRecs(p, from) == []
  {
    var j := NextLive(p.slots, from);
    if from <= |p.slots| {
      RecsInSplit(p.curPage, p.slots, from, j, |p.slots|);
      RecsInNone(p.curPage, p.slots, from, j);
    }
  }

  // ---- records of a chain of pages ----

  function AllRecs(ps: Pages): seq<Rec> {
    if ps == [] then [] else PageRecs(ps[0], 0) + AllRecs(ps[1..])
  }

  lemma {:induction false} AllRecsConcat(ps: Pages, qs: Pages)
    ensures AllRecs(ps + qs) == AllRecs(ps) + AllRecs(qs)
  {
    hide PageRecs;
    if ps == [] {
      assert ps + qs == qs;
    } else {
      AllRecsConcat(ps[1..], qs);
      assert (ps + qs)[1..] == ps[1..] + qs;
    }
  }

  /** The records after slot s of page i: what a cursor standing there has still to see. */
  function Remaining(ps: Pages, i: nat, s: int): seq<Rec>
    requires i < |ps| && s >= -1
  {
    PageRecs(ps[i], s + 1) + AllRecs(ps[i + 1..])
  }

  lemma RemainingAtStart(ps: Pages)
    requires ps != []
    ensures Remaining(ps, 0, -1) == AllRecs(ps)
  {
  }

  /** Moving a cursor past the next live slot of its page takes exactly that record off what it has still to see. */
  lemma RemainingNext(ps: Pages, i: nat, s: int)
    requires i < |ps| && s >= -1
    ensures var j := NextLive(ps[i].slots, s + 1);
      if j < |ps[i].slots| then Remaining(ps, i, s) == [RecordOf(ps[i], j)] + Remaining(ps, i, j)
      else Remaining(ps, i, s) == AllRecs(ps[i + 1..])
  {
    hide AllRecs;
    PageRecsNext(ps[i], s + 1);
    hide PageRecs;
    var j := NextLive(ps[i].slots, s + 1);
    if j < |ps[i].slots| {
      Assoc([RecordOf(ps[i], j)], PageRecs(ps[i], j + 1), AllRecs(ps[i + 1..]));
    }
  }

  /** A page without records hides nothing, wherever on it the cursor stands. */
  lemma RemainingEmptyPage(ps: Pages, i: nat, s: int)
    requires i < |ps| && s >= -1 && NextLive(ps[i].slots, 0) >= |ps[i].slots|
    ensures Remaining(ps, i, s) == AllRecs(ps[i + 1..])
  {
    hide AllRecs;
    if s + 1 <= |ps[i].slots| {
      RecsInNone(ps[i].curPage, ps[i].slots, s + 1, |ps[i].slots|);
    }
  }

  lemma RemainingNextPage(ps: Pages, i: nat)
    requires i < |ps|
    ensures AllRecs(ps[i + 1..]) == if i + 1 < |ps| then Remaining(ps, i + 1, -1) else []
  {
    if i + 1 < |ps| {
      AllRecsHead(ps, i + 1);
    }
  }

  /** What a scan sees that starts over after endScan: it gives up when the first page has no records. */
  function AfterRestart(ps: Pages): seq<Rec> {
    if ps == [] || PageRecs(ps[0], 0) == [] then [] else AllRecs(ps)
  }

  /** Starting over sees the whole file exactly when the first page has a record or the file has none. */
  lemma RestartSeesAll(ps: Pages)
    requires ps != []
    ensures AfterRestart(ps) == AllRecs(ps) <==> PageRecs(ps[0], 0) != [] || AllRecs(ps) == []
  {
  }

  /** A file it misses: an empty first page in front of a page with one record. */
  lemma RestartMisses(r: bytes)
    requires 1 <= |r| <= MAXRECORD
    ensures var ps := [PageView([], 3, 2), PageView([Some(r)], -1, 3)];
      WellFormedFile(ps) && AllRecs(ps) == [Rec(RID(3, 0), r)] && AfterRestart(ps) == []
  {
    var ps := [PageView([], 3, 2), PageView([Some(r)], -1, 3)];
    SingleRec(r, 3);
    assert ps[1..] == [PageView([Some(r)], -1, 3)];
    assert PageRecs(ps[0], 0) == [];
    EmptyPageFits(r);
    InsertRefines([], r);
    assert LinkAt(ps, 0) && LinkAt(ps, 1) && SoundPage(ps[0]) && SoundPage(ps[1]);
  }

  /** The first page has no records exactly when a cursor before it finds none on it. */
  lemma FirstPageRecs(ps: Pages)
    requires ps != []
    ensures PageRecs(ps[0], 0) == [] <==> NextLive(ps[0].slots, 0) >= |ps[0].slots|
    ensures PageRecs(ps[0], 0) != [] ==> AllRecs(ps) != []
  {
    PageRecsNext(ps[0], 0);
  }

  lemma Assoc<T>(a: seq<T>, b: seq<T>, c: seq<T>)
    ensures a + (b + c) == a + b + c
  {
  }

  lemma AllRecsHead(ps: Pages, i: nat)
    requires i < |ps|
    ensures AllRecs(ps[i..]) == PageRecs(ps[i], 0) + AllRecs(ps[i + 1..])
  {
    assert ps[i..][1..] == ps[i + 1..];
    hide PageRecs;
  }

  lemma AllRecsAt(ps: Pages, i: nat)
    requires i < |ps|
    ensures AllRecs(ps) == AllRecs(ps[..i]) + PageRecs(ps[i], 0) + AllRecs(ps[i + 1..])
  {
    hide AllRecs, PageRecs;
    AllRecsHead(ps, i);
    AllRecsConcat(ps[..i], ps[i..]);
    assert ps == ps[..i] + ps[i..];
    Assoc(AllRecs(ps[..i]), PageRecs(ps[i], 0), AllRecs(ps[i + 1..]));
  }

  // ---- each live record, once ----

  lemma {:induction false} RecsInLocated(no: int, s: Slots, a: nat, b: nat, r: Rec)
    requires a <= b <= |s| && r in RecsIn(no, s, a, b)
    ensures r.rid.pageNo == no && Live(s, r.rid.slotNo) && s[r.rid.slotNo].value == r.data
    decreases b - a
  {
    if a < b && !(s[a].Some? && r == Rec(RID(no, a), s[a].value)) {
      RecsInLocated(no, s, a + 1, b, r);
    }
  }

  lemma {:induction false} AllRecsLocated(ps: Pages, r: Rec) returns (i: nat)
    requires r in AllRecs(ps)
    ensures i < |ps| && r.rid.pageNo == ps[i].curPage
    ensures Live(ps[i].slots, r.rid.slotNo) && ps[i].slots[r.rid.slotNo].value == r.data
  {
    if r in PageRecs(ps[0], 0) {
      RecsInLocated(ps[0].curPage, ps[0].slots, 0, |ps[0].slots|, r);
      i := 0;
    } else {
      i := AllRecsLocated(ps[1..], r);
      i := i + 1;
    }
  }

  /** Every live slot of every page has its record in the sequence. */
  lemma AllRecsComplete(ps: Pages, i: nat, k: int)
    requires i < |ps| && Live(ps[i].slots, k)
    ensures RecordOf(ps[i], k) in AllRecs(ps)
  {
    hide AllRecs;
    AllRecsAt(ps, i);
    RecsInSplit(ps[i].curPage, ps[i].slots, 0, k, |ps[i].slots|);
    assert RecordOf(ps[i], k) == RecsIn(ps[i].curPage, ps[i].slots, k, |ps[i].slots|)[0];
  }

  /** The records lie in slots a to b - 1, in slot order. */
  predicate InSlots(rs: seq<Rec>, a: int, b: int) {
    && (forall x :: 0 <= x < |rs| ==> a <= rs[x].rid.slotNo < b)
    && (forall x, y :: 0 <= x < y < |rs| ==> rs[x].rid.slotNo < rs[y].rid.slotNo)
  }

  lemma InSlotsFront(r: Rec, rs: seq<Rec>, a: int, b: int)
    requires InSlots(rs, a + 1, b) && r.rid.slotNo == a < b
    ensures InSlots([r] + rs, a, b) && InSlots([] + rs, a, b)
  {
  }

  lemma InNoSlots(a: int, b: int)
    ensures InSlots([], a, b)
  {
  }

  lemma {:induction false} RecsInOnce(no: int, s: Slots, a: nat, b: nat)
    requires a <= b <= |s|
    ensures InSlots(RecsIn(no, s, a, b), a, b)
    decreases b - a
  {
    hide InSlots;
    if a < b {
      RecsInOnce(no, s, a + 1, b);
      InSlotsFront(Rec(RID(no, a), if s[a].Some? then s[a].value else []), RecsIn(no, s, a + 1, b), a, b);
    } else {
      InNoSlots(a, b);
    }
  }

  /** Each record comes once: no two elements of the sequence have the same record id. */
  lemma {:induction false} AllRecsOnce(ps: Pages)
    requires Distinct(ps)
    ensures var rs := AllRecs(ps); forall x, y :: 0 <= x < y < |rs| ==> rs[x].rid != rs[y].rid
  {
    if ps != [] {
      AllRecsOnce(ps[1..]);
      var rs, head, tail := AllRecs(ps), PageRecs(ps[0], 0), AllRecs(ps[1..]);
      RecsInOnce(ps[0].curPage, ps[0].slots, 0, |ps[0].slots|);
      forall x, y | 0 <= x < |head| && 0 <= y < |tail|
        ensures head[x].rid != tail[y].rid
      {
        RecsInLocated(ps[0].curPage, ps[0].slots, 0, |ps[0].slots|, head[x]);
        var i := AllRecsLocated(ps[1..], tail[y]);
      }
    }
  }

  // ---- records a scan predicate accepts (keep) or rejects (!keep) ----

  function Pick(rs: seq<Rec>, f: ScanFilter, keep: bool): seq<Rec> {
    if rs == [] then []
    else (if Match(f, rs[0].data) == keep then [rs[0]] else []) + Pick(rs[1..], f, keep)
  }

  lemma {:induction false} PickConcat(rs: seq<Rec>, qs: seq<Rec>, f: ScanFilter, keep: bool)
    ensures Pick(rs + qs, f, keep) == Pick(rs, f, keep) + Pick(qs, f, keep)
  {
    if rs == [] {
      assert rs + qs == qs;
    } else {
      hide Match;
      var x := if Match(f, rs[0].data) == keep then [rs[0]] else [];
      PickConcat(rs[1..], qs, f, keep);
      assert (rs + qs)[1..] == rs[1..] + qs && (rs + qs)[0] == rs[0];
      assert Pick(rs + qs, f, keep) == x + Pick(rs[1..] + qs, f, keep);
      assert Pick(rs, f, keep) == x + Pick(rs[1..], f, keep);
      hide Pick;
      Assoc(x, Pick(rs[1..], f, keep), Pick(qs, f, keep));
    }
  }

  lemma PickFirst(r: Rec, rs: seq<Rec>, f: ScanFilter, keep: bool)
    ensures Pick([r] + rs, f, keep) == if Match(f, r.data) == keep then [r] + Pick(rs, f, keep) else Pick(rs, f, keep)
  {
    assert ([r] + rs)[1..] == rs;
  }

  lemma {:induction false} PickMatches(rs: seq<Rec>, f: ScanFilter, keep: bool)
    ensures forall i :: 0 <= i < |Pick(rs, f, keep)| ==> Match(f, Pick(rs, f, keep)[i].data) == keep
  {
    if rs != [] {
      PickMatches(rs[1..], f, keep);
    }
  }

  /** Each record is picked as often as it is there if it is to be picked, and otherwise not at all. */
  lemma {:induction false} PickIs(rs: seq<Rec>, f: ScanFilter, keep: bool, r: Rec)
    ensures multiset(Pick(rs, f, keep))[r] == if Match(f, r.data) == keep then multiset(rs)[r] else 0
  {
    if rs != [] {
      hide Match;
      PickIs(rs[1..], f, keep, r);
      assert rs == [rs[0]] + rs[1..];
    }
  }

  /** The records that satisfy (keep) or do not satisfy (!keep) the predicate by the order of values. */
  function Select(rs: seq<Rec>, f: ScanFilter, keep: bool): seq<Rec> {
    if rs == [] then []
    else (if Satisfies(f, rs[0].data) == keep then [rs[0]] else []) + Select(rs[1..], f, keep)
  }

  ghost predicate AllDecidedBy(f: ScanFilter, rs: seq<Rec>) {
    forall i :: 0 <= i < |rs| ==> Decided(f, rs[i].data)
  }

  /** Where no difference overflows, what a scan returns is what satisfies its predicate. */
  lemma {:induction false} PickSelects(rs: seq<Rec>, f: ScanFilter, keep: bool)
    requires AllDecidedBy(f, rs)
    ensures Pick(rs, f, keep) == Select(rs, f, keep)
  {
    if rs != [] {
      hide Match, Satisfies, Decided;
      MatchMeans(f, rs[0].data);
      PickSelects(rs[1..], f, keep);
    }
  }

  /** If nothing is accepted, everything is rejected. */
  lemma {:induction false} PickNone(rs: seq<Rec>, f: ScanFilter)
    requires Pick(rs, f, true) == []
    ensures Pick(rs, f, false) == rs
  {
    if rs != [] {
      PickNone(rs[1..], f);
      assert rs == [rs[0]] + rs[1..];
    }
  }

  lemma {:induction false} PickAll(rs: seq<Rec>)
    ensures Pick(rs, NoFilter, true) == rs
  {
    if rs != [] {
      PickAll(rs[1..]);
      assert rs == [rs[0]] + rs[1..];
    }
  }

  lemma {:induction false} PickCounts(rs: seq<Rec>, f: ScanFilter)
    ensures |rs| == |Pick(rs, f, true)| + |Pick(rs, f, false)|
  {
    if rs != [] {
      PickCounts(rs[1..], f);
    }
  }

  // ---- well-formed heap files ----

  ghost predicate LinkAt(ps: Pages, i: nat)
    requires i < |ps|
  {
    ps[i].nextPage == if i + 1 < |ps| then ps[i + 1].curPage else -1
  }

  ghost predicate Linked(ps: Pages) {
    forall i :: 0 <= i < |ps| ==> LinkAt(ps, i)
  }

  ghost predicate SoundPage(p: PageView) {
    WellFormed(p.slots) && p.curPage >= 1
  }

  ghost predicate Distinct(ps: Pages) {
    forall i, j :: 0 <= i < j < |ps| ==> ps[i].curPage != ps[j].curPage
  }

  /** From the first to the last page runs an acyclic chain that ends in -1, and every page on it is sound. */
  ghost predicate WellFormedFile(ps: Pages) {
    && ps != [] && Linked(ps) && Distinct(ps)
    && (forall i :: 0 <= i < |ps| ==> SoundPage(ps[i]))
  }

  const MAXRECORD := 1000   // the longest record an empty page takes

  /** Insert at the last page; when it is full, link a new page, numbered no, behind it. */
  function InsertRec(ps: Pages, r: bytes, no: int): Pages
    requires ps != []
  {
    var n := |ps| - 1;
    if Fits(ps[n].slots, |r|) then
      ps[n := ps[n].(slots := Insert(ps[n].slots, r))]
    else
      ps[n := ps[n].(nextPage := no)] + [PageView(if Fits([], |r|) then Insert([], r) else [], -1, no)]
  }

  /** Link an empty page, numbered no, behind the last one. */
  function LinkPage(ps: Pages, no: int): Pages
    requires ps != []
  {
    var n := |ps| - 1;
    ps[n := ps[n].(nextPage := no)] + [PageView([], -1, no)]
  }

  lemma LinkKeepsFile(ps: Pages, no: int)
    requires WellFormedFile(ps) && no >= 1
    requires forall i :: 0 <= i < |ps| ==> ps[i].curPage != no
    ensures WellFormedFile(LinkPage(ps, no))
  {
    var n, qs := |ps| - 1, LinkPage(ps, no);
    assert SoundPage(ps[n]) && LinkAt(ps, n);
    assert SoundPage(qs[n]) && SoundPage(qs[n + 1]);
    hide SoundPage;
    assert forall i :: 0 <= i < n ==> qs[i] == ps[i];
    forall i | 0 <= i < |qs|
      ensures LinkAt(qs, i)
    {
      assert i < |ps| ==> LinkAt(ps, i);
    }
  }

  lemma LinkAddsNothing(ps: Pages, no: int)
    requires ps != []
    ensures AllRecs(LinkPage(ps, no)) == AllRecs(ps)
  {
    var n, qs := |ps| - 1, LinkPage(ps, no);
    AllRecsAt(ps, n);
    AllRecsAt(qs, n);
    assert qs[..n] == ps[..n] && qs[n + 1..] == [PageView([], -1, no)];
    assert PageRecs(qs[n], 0) == PageRecs(ps[n], 0);
    assert AllRecs(qs[n + 1..]) == PageRecs(PageView([], -1, no), 0) + AllRecs([]);
    assert ps[n + 1..] == [];
  }

  /** When the last page is full, an insert is a link followed by an insert on the new page, if the record fits there. */
  lemma InsertByLink(ps: Pages, r: bytes, no: int)
    requires ps != [] && !Fits(ps[|ps| - 1].slots, |r|)
    ensures Fits(LinkPage(ps, no)[|ps|].slots, |r|) <==> |r| <= MAXRECORD
    ensures InsertRec(ps, r, no) == if |r| <= MAXRECORD then InsertRec(LinkPage(ps, no), r, no) else LinkPage(ps, no)
    ensures |r| <= MAXRECORD ==> InsertedAt(LinkPage(ps, no), r, no) == InsertedAt(ps, r, no)
  {
    EmptyPageFits(r);
    hide Fits, Insert;
    var qs := LinkPage(ps, no);
    assert qs[|ps|] == PageView([], -1, no);
  }

  /** Lengths 1001 to 1004: no page takes the record, and all an insert leaves behind is one more empty page. */
  lemma OversizedInsert(ps: Pages, r: bytes, no: int)
    requires ps != [] && |r| > MAXRECORD
    ensures InsertRec(ps, r, no) == LinkPage(ps, no) && |LinkPage(ps, no)| == |ps| + 1
    ensures AllRecs(InsertRec(ps, r, no)) == AllRecs(ps)
  {
    InsertByLink(ps, r, no);
    LinkAddsNothing(ps, no);
  }

  /** The record id the insert hands out, when the record fits on a page. */
  function InsertedAt(ps: Pages, r: bytes, no: int): RID
    requires ps != []
  {
    var n := |ps| - 1;
    if Fits(ps[n].slots, |r|) then RID(ps[n].curPage, FirstEmpty(ps[n].slots, 0)) else RID(no, 0)
  }

  /** No page has an empty slot. */
  ghost predicate Dense(ps: Pages) {
    forall i :: 0 <= i < |ps| ==> FullDirectory(ps[i].slots)
  }

  ghost predicate FullDirectory(s: Slots) {
    forall k :: 0 <= k < |s| ==> s[k].Some?
  }

  lemma EmptyPageFits(r: bytes)
    ensures Fits([], |r|) <==> |r| <= MAXRECORD
    ensures Insert([], r) == [Some(r)]
  {
  }

  lemma InsertKeepsFile(ps: Pages, r: bytes, no: int)
    requires WellFormedFile(ps) && r != []
    requires !Fits(ps[|ps| - 1].slots, |r|) ==> no >= 1 && forall i :: 0 <= i < |ps| ==> ps[i].curPage != no
    ensures WellFormedFile(InsertRec(ps, r, no))
  {
    if Fits(ps[|ps| - 1].slots, |r|) {
      FitKeepsFile(ps, r, no);
    } else {
      hide WellFormedFile, Fits;
      LinkKeepsFile(ps, no);
      InsertByLink(ps, r, no);
      if |r| <= MAXRECORD {
        FitKeepsFile(LinkPage(ps, no), r, no);
      }
    }
  }

  lemma InsertKeepsSound(p: PageView, r: bytes)
    requires SoundPage(p) && r != [] && Fits(p.slots, |r|)
    ensures SoundPage(p.(slots := Insert(p.slots, r)))
  {
    InsertRefines(p.slots, r);
  }

  lemma FitKeepsFile(ps: Pages, r: bytes, no: int)
    requires WellFormedFile(ps) && r != [] && Fits(ps[|ps| - 1].slots, |r|)
    ensures WellFormedFile(InsertRec(ps, r, no))
  {
    hide SoundPage, Insert, Fits;
    var n, qs := |ps| - 1, InsertRec(ps, r, no);
    assert SoundPage(ps[n]);
    InsertKeepsSound(ps[n], r);
    forall j | 0 <= j < |qs|
      ensures LinkAt(qs, j) && SoundPage(qs[j])
    {
      assert LinkAt(ps, j) && SoundPage(ps[j]);
    }
  }

  lemma InsertKeepsDense(ps: Pages, r: bytes, no: int)
    requires ps != [] && Dense(ps)
    ensures Dense(InsertRec(ps, r, no))
    ensures FirstEmpty(ps[|ps| - 1].slots, 0) == |ps[|ps| - 1].slots|
  {
    var n := |ps| - 1;
    assert FullDirectory(ps[n].slots);
    hide Fits;
    if Fits(ps[n].slots, |r|) {
      assert FullDirectory(Insert(ps[n].slots, r));
    } else {
      assert FullDirectory(ps[n].(nextPage := no).slots);
    }
  }

  /** Inserting on a page adds the record at its slot and leaves the records before and after it alone. */
  lemma InsertOnPage(p: PageView, r: bytes)
    ensures var k := FirstEmpty(p.slots, 0); var q := p.(slots := Insert(p.slots, r));
      && PageRecs(p, 0) == RecsIn(p.curPage, p.slots, 0, k) + PageRecs(p, k + 1)
      && PageRecs(q, 0) == RecsIn(p.curPage, p.slots, 0, k) + [Rec(RID(p.curPage, k), r)] + PageRecs(p, k + 1)
  {
    var s, no := p.slots, p.curPage;
    var k := FirstEmpty(s, 0);
    var t := Insert(s, r);
    RecsInSplit(no, s, 0, k, |s|);
    RecsInSplit(no, t, 0, k, |t|);
    RecsInSame(no, s, t, 0, k);
    if k < |s| {
      RecsInSame(no, s, t, k + 1, |s|);
    }
  }

  /** The records of the file are kept in order, and the new one is put at its place among them:
      at the very end when no page had an empty slot. */
  lemma InsertAddsRec(ps: Pages, r: bytes, no: int) returns (before: seq<Rec>, after: seq<Rec>)
    requires ps != [] && 1 <= |r| <= MAXRECORD
    ensures AllRecs(ps) == before + after
    ensures AllRecs(InsertRec(ps, r, no)) == before + [Rec(InsertedAt(ps, r, no), r)] + after
    ensures Dense(ps) ==> after == []
  {
    var n := |ps| - 1;
    var qs := InsertRec(ps, r, no);
    EmptyPageFits(r);
    if Dense(ps) {
      InsertKeepsDense(ps, r, no);
    }
    hide Dense, Fits, Insert, AllRecs;
    if Fits(ps[n].slots, |r|) {
      assert qs[..n] == ps[..n] && qs[n + 1..] == ps[n + 1..];
      before, after := InsertInto(ps, n, r);
    } else {
      assert qs[..n] == ps[..n] && qs[n + 1..] == [PageView([Some(r)], -1, no)];
      AppendPage(ps, qs, r, no);
      before, after := AllRecs(ps), [];
    }
  }

  /** The record fits on page i. */
  lemma InsertInto(ps: Pages, i: nat, r: bytes) returns (before: seq<Rec>, after: seq<Rec>)
    requires i == |ps| - 1
    ensures AllRecs(ps) == before + after
    ensures var k := FirstEmpty(ps[i].slots, 0);
      && AllRecs(ps[i := ps[i].(slots := Insert(ps[i].slots, r))]) == before + [Rec(RID(ps[i].curPage, k), r)] + after
      && (k == |ps[i].slots| ==> after == [])
  {
    var k := FirstEmpty(ps[i].slots, 0);
    var qs := ps[i := ps[i].(slots := Insert(ps[i].slots, r))];
    AllRecsAt(ps, i);
    AllRecsAt(qs, i);
    InsertOnPage(ps[i], r);
    assert qs[..i] == ps[..i] && qs[i + 1..] == ps[i + 1..] == [];
    assert AllRecs(ps[i + 1..]) == [];
    hide RecsIn, Insert, AllRecs, FirstEmpty;
    before := AllRecs(ps[..i]) + RecsIn(ps[i].curPage, ps[i].slots, 0, k);
    after := PageRecs(ps[i], k + 1);
    hide PageRecs;
    assert AllRecs(ps) == before + after;
  }

  /** The record goes on a new page behind the last one. */
  lemma AppendPage(ps: Pages, qs: Pages, r: bytes, no: int)
    requires ps != [] && |qs| == |ps| + 1
    requires qs[..|ps| - 1] == ps[..|ps| - 1] && qs[|ps|..] == [PageView([Some(r)], -1, no)]
    requires qs[|ps| - 1].slots == ps[|ps| - 1].slots && qs[|ps| - 1].curPage == ps[|ps| - 1].curPage
    ensures AllRecs(qs) == AllRecs(ps) + [Rec(RID(no, 0), r)]
  {
    var n := |ps| - 1;
    NoRecs();
    SamePageRecs(ps[n], qs[n]);
    hide PageRecs, AllRecs;
    AllRecsAt(ps, n);
    AllRecsAt(qs, n);
    assert ps[n + 1..] == [];
    SingleRec(r, no);
  }

  lemma NoRecs()
    ensures AllRecs([]) == []
  {
  }

  lemma SamePageRecs(p: PageView, q: PageView)
    requires p.slots == q.slots && p.curPage == q.curPage
    ensures PageRecs(p, 0) == PageRecs(q, 0)
  {
  }

  lemma SingleRec(r: bytes, no: int)
    ensures AllRecs([PageView([Some(r)], -1, no)]) == [Rec(RID(no, 0), r)]
  {
    var p := PageView([Some(r)], -1, no);
    assert RecsIn(no, p.slots, 0, 1) == [Rec(RID(no, 0), r)] + RecsIn(no, p.slots, 1, 1);
    assert AllRecs([p]) == PageRecs(p, 0) + AllRecs([]);
  }

  // ---- files built by inserts only ----

  function Datas(rs: seq<Rec>): seq<bytes> {
    seq(|rs|, i requires 0 <= i < |rs| => rs[i].data)
  }

  lemma DatasAppend(rs: seq<Rec>, r: Rec)
    ensures Datas(rs + [r]) == Datas(rs) + [r.data]
  {
  }

  /** The bag of record contents of a file. */
  ghost function Bag(ps: Pages): multiset<bytes> {
    multiset(Datas(AllRecs(ps)))
  }

  lemma DatasConcat(rs: seq<Rec>, qs: seq<Rec>)
    ensures Datas(rs + qs) == Datas(rs) + Datas(qs)
  {
  }

  lemma InsertBag(ps: Pages, r: bytes, no: int)
    requires ps != [] && 1 <= |r| <= MAXRECORD
    ensures Bag(InsertRec(ps, r, no)) == Bag(ps) + multiset{r}
  {
    hide AllRecs, InsertRec, InsertedAt;
    var before, after := InsertAddsRec(ps, r, no);
    var x := [Rec(InsertedAt(ps, r, no), r)];
    DatasConcat(before, after);
    DatasConcat(before + x, after);
    DatasConcat(before, x);
    assert Datas(x) == [r];
    hide Datas;
    assert multiset(Datas(before) + [r] + Datas(after)) == multiset(Datas(before)) + multiset{r} + multiset(Datas(after));
  }

  function InsertAll(ps: Pages, rs: seq<bytes>, nos: seq<int>): Pages
    requires ps != [] && |rs| == |nos|
    decreases |rs|
  {
    if rs == [] then ps else InsertAll(InsertRec(ps, rs[0], nos[0]), rs[1..], nos[1..])
  }

  ghost predicate FreshPages(ps: Pages, nos: seq<int>) {
    && (forall i :: 0 <= i < |nos| ==> nos[i] >= 1)
    && (forall i, j :: 0 <= i < |nos| && 0 <= j < |ps| ==> ps[j].curPage != nos[i])
    && (forall i, j :: 0 <= i < j < |nos| ==> nos[i] != nos[j])
  }

  /** On a file without empty slots, an insert appends. */
  lemma InsertAppends(ps: Pages, r: bytes, no: int)
    requires ps != [] && Dense(ps) && 1 <= |r| <= MAXRECORD
    ensures Dense(InsertRec(ps, r, no))
    ensures Datas(AllRecs(InsertRec(ps, r, no))) == Datas(AllRecs(ps)) + [r]
  {
    InsertKeepsDense(ps, r, no);
    hide Dense, AllRecs, InsertRec, InsertedAt;
    var before, after := InsertAddsRec(ps, r, no);
    assert before + after == before;
    DatasAppend(AllRecs(ps), Rec(InsertedAt(ps, r, no), r));
    assert before + [Rec(InsertedAt(ps, r, no), r)] + after == before + [Rec(InsertedAt(ps, r, no), r)];
  }

  lemma FreshAfterInsert(ps: Pages, r: bytes, nos: seq<int>)
    requires ps != [] && nos != [] && FreshPages(ps, nos)
    ensures FreshPages(InsertRec(ps, r, nos[0]), nos[1..])
  {
    var qs := InsertRec(ps, r, nos[0]);
    hide Fits, Insert;
    assert forall j :: 0 <= j < |ps| ==> qs[j].curPage == ps[j].curPage;
    assert forall i :: 0 <= i < |nos| - 1 ==> nos[1..][i] == nos[i + 1];
  }

  ghost predicate Insertable(rs: seq<bytes>) {
    forall i :: 0 <= i < |rs| ==> 1 <= |rs[i]| <= MAXRECORD
  }

  /** A file filled by inserts alone is read back in exactly the order of the inserts. */
  lemma {:induction false} InsertionOrder(ps: Pages, rs: seq<bytes>, nos: seq<int>)
    requires WellFormedFile(ps) && Dense(ps) && |rs| == |nos| && FreshPages(ps, nos)
    requires Insertable(rs)
    ensures WellFormedFile(InsertAll(ps, rs, nos)) && Dense(InsertAll(ps, rs, nos))
    ensures Datas(AllRecs(InsertAll(ps, rs, nos))) == Datas(AllRecs(ps)) + rs
    decreases |rs|
  {
    assert ps != [];
    hide *;
    InsertAllCases(ps, rs, nos);
    if rs != [] {
      var qs := InsertRec(ps, rs[0], nos[0]);
      InsertFirst(ps, rs[0], nos);
      InsertionOrder(qs, rs[1..], nos[1..]);
      Assoc(Datas(AllRecs(ps)), [rs[0]], rs[1..]);
    }
  }

  lemma InsertAllCases(ps: Pages, rs: seq<bytes>, nos: seq<int>)
    requires |rs| == |nos| && Insertable(rs) && ps != []
    ensures rs == [] ==> InsertAll(ps, rs, nos) == ps && Datas(AllRecs(ps)) + rs == Datas(AllRecs(ps))
    ensures rs != [] ==> InsertRec(ps, rs[0], nos[0]) != []
    ensures rs != [] ==> InsertAll(ps, rs, nos) == InsertAll(InsertRec(ps, rs[0], nos[0]), rs[1..], nos[1..])
    ensures rs != [] ==> rs == [rs[0]] + rs[1..] && Insertable(rs[1..]) && 1 <= |rs[0]| <= MAXRECORD
  {
    hide AllRecs, Datas, PageRecs;
  }

  lemma InsertFirst(ps: Pages, r: bytes, nos: seq<int>)
    requires WellFormedFile(ps) && Dense(ps) && nos != [] && FreshPages(ps, nos) && 1 <= |r| <= MAXRECORD
    ensures var qs := InsertRec(ps, r, nos[0]);
      && WellFormedFile(qs) && Dense(qs) && FreshPages(qs, nos[1..])
      && Datas(AllRecs(qs)) == Datas(AllRecs(ps)) + [r]
  {
    InsertKeepsFile(ps, r, nos[0]);
    FreshAfterInsert(ps, r, nos);
    hide WellFormedFile, Dense, FreshPages, AllRecs, InsertRec, Datas;
    InsertAppends(ps, r, nos[0]);
  }

  // ---- deleting the record under a cursor ----

  function DeleteRec(ps: Pages, i: nat, k: int): Pages
    requires i < |ps| && Live(ps[i].slots, k)
  {
    ps[i := ps[i].(slots := Delete(ps[i].slots, k))]
  }

  lemma DeleteKeepsFile(ps: Pages, i: nat, k: int)
    requires WellFormedFile(ps) && i < |ps| && Live(ps[i].slots, k)
    ensures WellFormedFile(DeleteRec(ps, i, k))
  {
    assert SoundPage(ps[i]);
    DeleteRefines(ps[i].slots, k);
    var qs := DeleteRec(ps, i, k);
    assert SoundPage(qs[i]);
    hide SoundPage, Delete;
    forall j | 0 <= j < |qs|
      ensures LinkAt(qs, j) && SoundPage(qs[j])
    {
      assert LinkAt(ps, j) && SoundPage(ps[j]);
    }
  }

  lemma DeleteOnPage(p: PageView, k: int)
    requires Live(p.slots, k)
    ensures var q := p.(slots := Delete(p.slots, k));
      && PageRecs(p, 0) == RecsIn(p.curPage, p.slots, 0, k) + [RecordOf(p, k)] + PageRecs(p, k + 1)
      && PageRecs(q, 0) == RecsIn(p.curPage, p.slots, 0, k) + PageRecs(p, k + 1)
      && PageRecs(q, k + 1) == PageRecs(p, k + 1)
  {
    var s, t, no := p.slots, Delete(p.slots, k), p.curPage;
    RecsInSplit(no, s, 0, k, |s|);
    TailAfterDelete(no, s, t, k);
    HeadAfterDelete(no, s, t, k);
    hide Delete;
  }

  lemma HeadAfterDelete(no: int, s: Slots, t: Slots, k: int)
    requires Live(s, k) && t == Delete(s, k)
    ensures RecsIn(no, t, 0, |t|) == RecsIn(no, s, 0, k) + RecsIn(no, s, k + 1, |s|)
  {
    var u := s[k := None];
    assert t == u[..|t|];
    assert forall j :: |t| <= j < |u| ==> !Live(u, j);
    hide Delete, Trim;
    RecsInSame(no, s, u, 0, k);
    RecsInSame(no, s, u, k + 1, |s|);
    RecsInSame(no, u, t, 0, |t|);
    RecsInNone(no, u, |t|, |u|);
    RecsInNone(no, u, k, k + 1);
    hide RecsIn;
    RecsInSplit(no, u, 0, |t|, |u|);
    RecsInSplit(no, u, 0, k, |u|);
    RecsInSplit(no, u, k, k + 1, |u|);
    assert RecsIn(no, u, 0, |u|) == RecsIn(no, u, 0, k) + RecsIn(no, u, k + 1, |u|);
    assert RecsIn(no, u, 0, |u|) == RecsIn(no, u, 0, |t|);
  }

  lemma TailAfterDelete(no: int, s: Slots, t: Slots, k: int)
    requires Live(s, k) && t == Delete(s, k)
    ensures if k + 1 <= |t| then RecsIn(no, t, k + 1, |t|) == RecsIn(no, s, k + 1, |s|)
            else RecsIn(no, s, k + 1, |s|) == []
  {
    if k + 1 <= |t| {
      RecsInSplit(no, s, k + 1, |t|, |s|);
      RecsInNone(no, s, |t|, |s|);
      RecsInSame(no, s, t, k + 1, |t|);
    } else {
      RecsInNone(no, s, k + 1, |s|);
    }
  }

  /** Deleting the record under the cursor takes exactly that record out of the file
      and does not touch what the cursor has still to see. */
  lemma DeleteUnderCursor(ps: Pages, i: nat, k: int) returns (before: seq<Rec>)
    requires i < |ps| && Live(ps[i].slots, k)
    ensures AllRecs(ps) == before + [RecordOf(ps[i], k)] + Remaining(ps, i, k)
    ensures AllRecs(DeleteRec(ps, i, k)) == before + Remaining(ps, i, k)
    ensures Remaining(DeleteRec(ps, i, k), i, k) == Remaining(ps, i, k)
  {
    hide AllRecs, RecsIn, PageRecs, Delete;
    var p, qs := ps[i], DeleteRec(ps, i, k);
    AllRecsAt(ps, i);
    AllRecsAt(qs, i);
    DeleteOnPage(p, k);
    assert qs[..i] == ps[..i] && qs[i + 1..] == ps[i + 1..];
    var a, b := AllRecs(ps[..i]), RecsIn(p.curPage, p.slots, 0, k);
    var c, d := PageRecs(p, k + 1), AllRecs(ps[i + 1..]);
    before := a + b;
    Regroup(a, b, [RecordOf(p, k)], c, d);
    Regroup(a, b, [], c, d);
    assert b + [] == b && a + b + [] == a + b;
  }

  lemma Regroup<T>(a: seq<T>, b: seq<T>, r: seq<T>, c: seq<T>, d: seq<T>)
    ensures a + (b + r + c) + d == a + b + r + (c + d)
  {
  }
}
