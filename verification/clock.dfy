/** Choosing a buffer frame: the clock, as a rule about the frames, and the two loops that follow it. */
module Clock {
  import opened Bytes
  import opened FileLayer

  /** What the buffer manager knows about a frame (BufDesc); file None stands for a NULL pointer. */
  datatype Frame = Frame(file: Option<FileId>, pageNo: int, frameNo: int, pinCnt: int, dirty: bool, valid: bool, refbit: bool)
  {
    function Clear(): Frame {
      this.(pinCnt := 0, file := None, pageNo := -1, dirty := false, valid := false)
    }

    function Set(f: FileId, no: int): Frame {
      this.(file := Some(f), pageNo := no, pinCnt := 1, dirty := false, valid := true, refbit := true)
    }
  }

  type Frames = seq<Frame>

  /** The frame k steps after the start, going round. */
  function Place(start: nat, k: nat, n: nat): (j: nat)
    requires start < n && k < n
    ensures j < n
  {
    if start + k < n then start + k else start + k - n
  }

  /** How many steps frame j is after the start. */
  function Steps(start: nat, j: nat, n: nat): (k: nat)
    requires start < n && j < n
    ensures k < n && Place(start, k, n) == j
  {
    if j >= start then j - start else j + n - start
  }

  lemma StepsOfPlace(start: nat, k: nat, n: nat)
    requires start < n && k < n
    ensures Steps(start, Place(start, k, n), n) == k
  {
  }

  /** May the frame be taken on the first sweep? */
  predicate Takeable(f: Frame) {
    !f.valid || (!f.refbit && f.pinCnt == 0)
  }

  /** May the frame be taken at all? */
  predicate Unpinned(f: Frame) {
    !f.valid || f.pinCnt == 0
  }

  /** The first k at or after i for which the frame k steps after the start may be taken on the first sweep; n if none. */
  function FirstTakeable(fs: Frames, start: nat, i: nat): (k: nat)
    requires start < |fs| && i <= |fs|
    ensures i <= k <= |fs| && (k < |fs| ==> Takeable(fs[Place(start, k, |fs|)]))
    ensures forall m :: i <= m < k ==> !Takeable(fs[Place(start, m, |fs|)])
    decreases |fs| - i
  {
    if i == |fs| || Takeable(fs[Place(start, i, |fs|)]) then i else FirstTakeable(fs, start, i + 1)
  }

  function FirstUnpinned(fs: Frames, start: nat, i: nat): (k: nat)
    requires start < |fs| && i <= |fs|
    ensures i <= k <= |fs| && (k < |fs| ==> Unpinned(fs[Place(start, k, |fs|)]))
    ensures forall m :: i <= m < k ==> !Unpinned(fs[Place(start, m, |fs|)])
    decreases |fs| - i
  {
    if i == |fs| || Unpinned(fs[Place(start, i, |fs|)]) then i else FirstUnpinned(fs, start, i + 1)
  }

  /** The clock's choice: the first frame in clock order that is invalid, or unpinned and not referenced;
      otherwise the first unpinned frame, found on the second sweep; otherwise none. */
  function Victim(fs: Frames, start: nat): (v: Option<nat>)
    requires start < |fs|
    ensures v.Some? ==> v.value < |fs|
  {
    var a, b := FirstTakeable(fs, start, 0), FirstUnpinned(fs, start, 0);
    if a < |fs| then Some(Place(start, a, |fs|))
    else if b < |fs| then Some(Place(start, b, |fs|))
    else None
  }

  /** The frames after the clock has passed m of them: their reference bits are off. */
  function Passed(fs: Frames, start: nat, m: nat): (gs: Frames)
    requires start < |fs|
    ensures |gs| == |fs|
  {
    seq(|fs|, j requires 0 <= j < |fs| => if Steps(start, j, |fs|) < m && fs[j].valid then fs[j].(refbit := false) else fs[j])
  }

  /** The frames after the search. */
  function Swept(fs: Frames, start: nat): (gs: Frames)
    requires start < |fs|
    ensures |gs| == |fs|
  {
    Passed(fs, start, FirstTakeable(fs, start, 0))
  }

  /** There is a frame to take unless every frame is valid and pinned, and the chosen one is not in use. */
  lemma VictimExists(fs: Frames, start: nat)
    requires start < |fs|
    ensures Victim(fs, start) == None <==> forall j :: 0 <= j < |fs| ==> fs[j].valid && fs[j].pinCnt != 0
    ensures Victim(fs, start).Some? ==> Unpinned(fs[Victim(fs, start).value])
  {
    forall j | 0 <= j < |fs| && Victim(fs, start) == None
      ensures fs[j].valid && fs[j].pinCnt != 0
    {
      assert !Unpinned(fs[Place(start, Steps(start, j, |fs|), |fs|)]);
    }
  }

  /** The frame k steps after the start, by arithmetic. */
  lemma PlaceIs(start: nat, k: nat, n: nat)
    requires start < n && k < n
    ensures Place(start, k, n) == (start + k) % n
  {
  }

  /** The first chance goes to frames that hold no page, or one that is neither pinned nor referenced: the first of them
      in clock order is taken, every page before it is in use or referenced, and loses its reference. */
  lemma FirstChance(fs: Frames, start: nat, k: nat, m: nat)
    requires start < |fs| && k < |fs| && m < |fs|
    requires var f := fs[Place(start, k, |fs|)]; !f.valid || (!f.refbit && f.pinCnt == 0)
    requires forall i :: 0 <= i < k ==> var f := fs[Place(start, i, |fs|)]; f.valid && (f.refbit || f.pinCnt != 0)
    ensures Victim(fs, start) == Some(Place(start, k, |fs|))
    ensures var j := Place(start, m, |fs|); Swept(fs, start)[j] == if m < k then fs[j].(refbit := false) else fs[j]
  {
    assert FirstTakeable(fs, start, 0) == k;
    PassedAt(fs, start, k, m);
    hide Passed, FirstUnpinned;
  }

  /** A referenced page is taken only when there is no such frame: then the first unpinned one is, and every page has lost
      its reference. */
  lemma SecondChance(fs: Frames, start: nat, k: nat, m: nat)
    requires start < |fs| && k < |fs| && m < |fs|
    requires forall j :: 0 <= j < |fs| ==> fs[j].valid && (fs[j].refbit || fs[j].pinCnt != 0)
    requires fs[Place(start, k, |fs|)].pinCnt == 0
    requires forall i :: 0 <= i < k ==> fs[Place(start, i, |fs|)].pinCnt != 0
    ensures Victim(fs, start) == Some(Place(start, k, |fs|))
    ensures var j := Place(start, m, |fs|); Swept(fs, start)[j] == fs[j].(refbit := false)
  {
    assert FirstTakeable(fs, start, 0) == |fs|;
    assert FirstUnpinned(fs, start, 0) == k;
    PassedAt(fs, start, |fs|, m);
    hide Passed;
  }

  lemma PassedOne(fs: Frames, start: nat, m: nat)
    requires start < |fs| && m < |fs|
    ensures var j := Place(start, m, |fs|);
      Passed(fs, start, m + 1) == if fs[j].valid then Passed(fs, start, m)[j := fs[j].(refbit := false)] else Passed(fs, start, m)
  {
    StepsOfPlace(start, m, |fs|);
  }

  lemma PassedAt(fs: Frames, start: nat, m: nat, k: nat)
    requires start < |fs| && k < |fs|
    ensures var j := Place(start, k, |fs|);
      Passed(fs, start, m)[j] == if k < m && fs[j].valid then fs[j].(refbit := false) else fs[j]
  {
    StepsOfPlace(start, k, |fs|);
  }

  // ---- the search as a state: i frames have been looked at and passed over ----

  /** Nothing has been found in i steps. */
  ghost predicate Searched(fs: Frames, start: nat, i: nat)
    requires start < |fs|
  {
    && (forall k :: 0 <= k < i && k < |fs| ==> !Takeable(fs[Place(start, k, |fs|)]))
    && (forall k :: 0 <= k < i - |fs| && k < |fs| ==> !Unpinned(fs[Place(start, k, |fs|)]))
  }

  /** The hand after i steps, at most two rounds. */
  function HandAt(start: nat, i: nat, n: nat): (h: nat)
    requires start < n && i <= 2 * n
    ensures h < n
  {
    if i < n then Place(start, i, n) else if i < 2 * n then Place(start, i - n, n) else start
  }

  /** advanceClock. */
  function Advance(hand: nat, n: nat): (h: nat)
    requires hand < n
    ensures h < n
  {
    (hand + 1) % n
  }

  lemma AdvanceCases(hand: nat, n: nat)
    requires hand < n
    ensures Advance(hand, n) == if hand + 1 < n then hand + 1 else 0
  {
  }

  lemma HandAdvances(start: nat, i: nat, n: nat)
    requires start < n && i < 2 * n
    ensures Advance(HandAt(start, i, n), n) == HandAt(start, i + 1, n)
  {
    hide Advance;
    AdvanceCases(HandAt(start, i, n), n);
  }

  lemma SameHand(h: nat, g: nat, n: nat)
    requires h < n && g < n && Advance(h, n) == Advance(g, n)
    ensures h == g
  {
    hide Advance;
    AdvanceCases(h, n);
    AdvanceCases(g, n);
  }

  /** The frame under the hand, as it is after i steps, and what the search may conclude from it. */
  lemma UnderHand(fs: Frames, start: nat, i: nat)
    requires start < |fs| && i < 2 * |fs| && Searched(fs, start, i) && forall j :: 0 <= j < |fs| ==> fs[j].pinCnt >= 0
    ensures var n := |fs|; var h := HandAt(start, i, n); var f := Passed(fs, start, i)[h];
      && f.valid == fs[h].valid && f.pinCnt == fs[h].pinCnt && f.dirty == fs[h].dirty
      && f.file == fs[h].file && f.pageNo == fs[h].pageNo && f.frameNo == fs[h].frameNo
      && (Takeable(f) ==> Victim(fs, start) == Some(h) && Passed(fs, start, i) == Swept(fs, start))
      && (!Takeable(f) ==> Searched(fs, start, i + 1))
      && (!Takeable(f) ==> Passed(fs, start, i + 1) == Passed(fs, start, i)[h := f.(refbit := false)])
      && (!f.valid ==> i < n)
  {
    var n := |fs|;
    if i < n {
      PassedAt(fs, start, i, i);
      PassedOne(fs, start, i);
      if Takeable(fs[Place(start, i, n)]) {
        assert FirstTakeable(fs, start, 0) == i;
      }
    } else {
      var k := i - n;
      PassedAt(fs, start, i, k);
      assert FirstTakeable(fs, start, 0) == n;
      assert Passed(fs, start, i) == Passed(fs, start, n) == Passed(fs, start, i + 1);
    }
  }

  lemma NothingFound(fs: Frames, start: nat)
    requires start < |fs| && Searched(fs, start, 2 * |fs|)
    ensures Victim(fs, start) == None && Passed(fs, start, 2 * |fs|) == Swept(fs, start)
  {
  }

  /** The frame table of the later buffer manager, whose search advances the hand before it looks. */
  class AdvancingClock {
    const bufTable: array<Frame>
    var clockHand: nat

    constructor (table: array<Frame>)
      requires table.Length > 0
      ensures bufTable == table && clockHand == table.Length - 1
    {
      bufTable, clockHand := table, table.Length - 1;
    }

    ghost predicate Valid()
      reads this, bufTable
    {
      clockHand < bufTable.Length && forall j :: 0 <= j < bufTable.Length ==> bufTable[j].pinCnt >= 0
    }

    /** The frame the search looks at first. */
    ghost function Start(): (h: nat)
      requires Valid()
      reads this, bufTable
      ensures h < bufTable.Length
    {
      Advance(clockHand, bufTable.Length)
    }

    /** Find a frame: `found` is set for a frame that holds a page but not for an invalid one, yet the
        final test never mistakes an invalid frame for a full pool. */
    method Search() returns (status: Status, frame: nat)
      requires Valid()
      modifies this, bufTable
      ensures Valid()
      ensures status == if Victim(old(bufTable[..]), old(Start())) == None then BUFFEREXCEEDED else OK
      ensures status == OK ==> Victim(old(bufTable[..]), old(Start())) == Some(frame) && clockHand == frame
      ensures status != OK ==> clockHand == old(clockHand)
      ensures bufTable[..] == Swept(old(bufTable[..]), old(Start()))
    {
      hide Victim, Swept, HandAt, Searched, Passed, Advance;
      ghost var fs, start, n := bufTable[..], Start(), bufTable.Length;
      var numScanned, found := 0, false;
      StartSearch(fs, clockHand);
      while numScanned < 2 * bufTable.Length
        invariant numScanned <= 2 * n && Valid() && !found
        invariant Advance(clockHand, n) == HandAt(start, numScanned, n)
        invariant bufTable[..] == Passed(fs, start, numScanned) && Searched(fs, start, numScanned)
      {
        UnderHand(fs, start, numScanned);
        HandAdvances(start, numScanned, n);
        clockHand := Advance(clockHand, bufTable.Length);
        numScanned := numScanned + 1;
        if !bufTable[clockHand].valid {
          break;
        }
        if !bufTable[clockHand].refbit {
          if bufTable[clockHand].pinCnt == 0 {
            found := true;
            break;
          }
        } else {
          bufTable[clockHand] := bufTable[clockHand].(refbit := false);
        }
      }
      frame := clockHand;
      if !found && numScanned >= 2 * bufTable.Length {
        NothingFound(fs, start);
        SameHand(clockHand, old(clockHand), n);
        return BUFFEREXCEEDED, frame;
      }
      status := OK;
    }
  }

  lemma StartSearch(fs: Frames, hand: nat)
    requires hand < |fs|
    ensures var start := Advance(hand, |fs|);
      start < |fs| && HandAt(start, 0, |fs|) == start && HandAt(start, 2 * |fs|, |fs|) == start
      && Passed(fs, start, 0) == fs && Searched(fs, start, 0)
  {
  }
}
