/** The slotted page itself: one byte array holding the records from the left and the
    slot directory from the right, changed in place by insert and delete. */
module SlottedPage {
  import opened Bytes
  import opened PageView
  import opened PageLayout

  const RAWSIZE := 1008   // the data array followed by slot[0]
  const MAXSLOTS := 251   // 1004 / 4

  /** Slot k of the directory: slot[-k] of the source, counted down from slot[0]. */
  function SlotAt(raw: bytes, k: nat): Slot
    requires |raw| == RAWSIZE && k <= MAXSLOTS
  {
    Slot(Short(raw[1004 - 4 * k], raw[1005 - 4 * k]), Short(raw[1006 - 4 * k], raw[1007 - 4 * k]))
  }

  function Dir(raw: bytes, n: nat): (d: Directory)
    requires |raw| == RAWSIZE && n <= MAXSLOTS
    ensures |d| == n
    ensures forall k :: 0 <= k < n ==> d[k] == SlotAt(raw, k)
  {
    seq(n, k requires 0 <= k < n => SlotAt(raw, k))
  }

  ghost predicate IsShort(v: int) {
    -32768 <= v < 32768
  }

  ghost function StoredSlot(raw: bytes, k: nat, s: Slot): bytes
    requires |raw| == RAWSIZE && k <= MAXSLOTS
  {
    raw[1004 - 4 * k := LoByte(s.offset)][1005 - 4 * k := HiByte(s.offset)]
       [1006 - 4 * k := LoByte(s.length)][1007 - 4 * k := HiByte(s.length)]
  }

  /** Writing slot k changes slot k and nothing else: no other slot and no byte to the left of it. */
  lemma StoredSlotReads(raw: bytes, k: nat, s: Slot)
    requires |raw| == RAWSIZE && k <= MAXSLOTS && IsShort(s.offset) && IsShort(s.length)
    ensures SlotAt(StoredSlot(raw, k, s), k) == s
    ensures forall j: nat :: j <= MAXSLOTS && j != k ==> SlotAt(StoredSlot(raw, k, s), j) == SlotAt(raw, j)
    ensures StoredSlot(raw, k, s)[..1004 - 4 * k] == raw[..1004 - 4 * k]
  {
    ShortRoundTrip(s.offset);
    ShortRoundTrip(s.length);
  }

  /** A byte-level page: the array, the number of slots, and the two space counters. */
  datatype Image = Image(raw: bytes, n: nat, freePtr: int, freeSpace: int)

  /** Records tile [0, freePtr); the directory starts at or after freePtr; the last slot is in use;
      the space counter charges every record byte and four bytes a slot. */
  ghost predicate Sound(g: Image) {
    && |g.raw| == RAWSIZE
    && g.n <= MAXSLOTS && 0 <= g.freePtr && 0 <= g.freeSpace
    && g.freeSpace == DATASIZE - g.freePtr - 4 * g.n
    && Tiles(Dir(g.raw, g.n), g.freePtr)
    && (g.n > 0 ==> InUse(Dir(g.raw, g.n), g.n - 1))
    && g.freePtr == Used(Meaning(g))
  }

  /** The records a byte-level page stores, by slot number. */
  ghost function Meaning(g: Image): Slots {
    if |g.raw| == RAWSIZE && g.n <= MAXSLOTS && InBounds(Dir(g.raw, g.n), |g.raw|)
    then Decode(g.raw, Dir(g.raw, g.n))
    else []
  }

  lemma SoundBounds(g: Image)
    requires Sound(g)
    ensures InBounds(Dir(g.raw, g.n), |g.raw|)
    ensures Meaning(g) == Decode(g.raw, Dir(g.raw, g.n))
  {
    BoundsWiden(Dir(g.raw, g.n), g.freePtr, |g.raw|);
  }

  lemma SoundMeaning(g: Image)
    requires Sound(g)
    ensures |Meaning(g)| == g.n && WellFormed(Meaning(g))
    ensures Free(Meaning(g)) == g.freeSpace
    ensures forall k :: 0 <= k < g.n ==> (Live(Meaning(g), k) <==> SlotAt(g.raw, k).length != -1)
    ensures forall k :: 0 <= k < g.n ==> (Live(Meaning(g), k) <==> SlotAt(g.raw, k).length > 0)
  {
    var d := Dir(g.raw, g.n);
    SoundBounds(g);
    var s := Meaning(g);
    forall k | 0 <= k < g.n
      ensures Live(s, k) <==> SlotAt(g.raw, k).length != -1
      ensures SlotAt(g.raw, k).length != -1 ==> SlotAt(g.raw, k).length > 0 && |s[k].value| == SlotAt(g.raw, k).length
    {
      assert s[k] == SlotBytes(g.raw, d[k]);
      assert InUse(d, k) ==> Fitting(d[k], g.freePtr);
    }
  }

  lemma RecordAt(g: Image, k: nat)
    requires Sound(g) && k < g.n && SlotAt(g.raw, k).length != -1
    ensures Fitting(SlotAt(g.raw, k), g.freePtr)
    ensures var s := SlotAt(g.raw, k); Meaning(g)[k] == Some(g.raw[s.offset..s.offset + s.length])
  {
    SoundBounds(g);
    SoundTiles(g);
    hide *;
    DecodedAt(g.raw, Dir(g.raw, g.n), g.freePtr, k);
  }

  lemma SoundTiles(g: Image)
    requires Sound(g)
    ensures |g.raw| == RAWSIZE && g.n <= MAXSLOTS && Tiles(Dir(g.raw, g.n), g.freePtr)
  {
  }

  lemma DecodedAt(raw: bytes, d: Directory, limit: int, k: nat)
    requires Tiles(d, limit) && InBounds(d, |raw|) && k < |d| && d[k].length != -1
    ensures Fitting(d[k], limit) && Fitting(d[k], |raw|)
    ensures Decode(raw, d)[k] == Some(raw[d[k].offset..d[k].offset + d[k].length])
  {
    assert InUse(d, k);
    assert Decode(raw, d)[k] == SlotBytes(raw, d[k]);
  }

  /** Space accounting of every sound page: each byte below the free pointer belongs to exactly one
      record, the records end where or before the directory begins, and the free-space counter is what
      the records and the slots leave over. */
  lemma SpaceAccounting(g: Image, x: nat)
    requires Sound(g) && x < g.freePtr
    ensures exists k :: Covers(Dir(g.raw, g.n), k, x)
    ensures forall j, k :: Covers(Dir(g.raw, g.n), j, x) && Covers(Dir(g.raw, g.n), k, x) ==> j == k
    ensures forall k: nat :: k < g.n ==> x < 1004 - 4 * k
    ensures g.freeSpace == DATASIZE - Used(Meaning(g)) - SLOTSIZE * |Meaning(g)|
  {
    SoundMeaning(g);
    hide Meaning, Used, Dir, SlotAt;
    var d := Dir(g.raw, g.n);
    assert HasOwner(d, x);
    forall j, k | Covers(d, j, x) && j != k
      ensures !Covers(d, k, x)
    {
      if InUse(d, k) {
        assert Apart(d[j], d[k]);
      }
    }
  }

  /** The byte-level insert means the insert on slots. */
  lemma InsertMeaning(g: Image, h: Image, k: nat, r: bytes)
    requires Sound(g) && r != [] && |r| + SLOTSIZE <= g.freeSpace && |h.raw| == RAWSIZE
    requires k == FirstEmpty(Meaning(g), 0)
    requires h.n == if k == g.n then g.n + 1 else g.n
    requires h.freePtr == g.freePtr + |r| <= RAWSIZE
    requires h.freeSpace == g.freeSpace - |r| - (if k == g.n then SLOTSIZE else 0)
    requires forall x :: 0 <= x < g.freePtr ==> h.raw[x] == g.raw[x]
    requires forall x :: 0 <= x < |r| ==> h.raw[g.freePtr + x] == r[x]
    requires forall j: nat :: j < h.n ==> SlotAt(h.raw, j) == if j == k then Slot(g.freePtr, |r|) else SlotAt(g.raw, j)
    ensures Sound(h) && Meaning(h) == Insert(Meaning(g), r)
  {
    DirInsert(g, h, k, r);
    AddedMeaning(g, h, k, r);
    UsedPut(Meaning(g), k, r);
    hide *;
    IntroSound(h);
  }

  lemma AddedMeaning(g: Image, h: Image, k: nat, r: bytes)
    requires Sound(g) && r != [] && |r| + SLOTSIZE <= g.freeSpace && |h.raw| == RAWSIZE
    requires k <= g.n && (k < g.n ==> !InUse(Dir(g.raw, g.n), k)) && h.n <= MAXSLOTS
    requires h.freePtr == g.freePtr + |r| <= RAWSIZE
    requires forall x :: 0 <= x < g.freePtr ==> h.raw[x] == g.raw[x]
    requires forall x :: 0 <= x < |r| ==> h.raw[g.freePtr + x] == r[x]
    requires Dir(h.raw, h.n) == WithSlot(Dir(g.raw, g.n), k, Slot(g.freePtr, |r|))
    ensures Tiles(Dir(h.raw, h.n), h.freePtr)
    ensures k <= |Meaning(g)| && Meaning(h) == Put(Meaning(g), k, r)
  {
    var d := Dir(g.raw, g.n);
    SoundBounds(g);
    assert h.raw[..g.freePtr] == g.raw[..g.freePtr] && h.raw[g.freePtr..g.freePtr + |r|] == r;
    hide SlotAt, Dir, FirstEmpty, Used, WithSlot, Decode, InUse, Tiles;
    AddTiles(d, g.freePtr, k, |r|);
    AddDecodes(g.raw, h.raw, d, g.freePtr, k, r);
  }

  lemma DirInsert(g: Image, h: Image, k: nat, r: bytes)
    requires Sound(g) && r != [] && |r| + SLOTSIZE <= g.freeSpace && |h.raw| == RAWSIZE
    requires k == FirstEmpty(Meaning(g), 0)
    requires h.n == if k == g.n then g.n + 1 else g.n
    requires forall j: nat :: j < h.n ==> SlotAt(h.raw, j) == if j == k then Slot(g.freePtr, |r|) else SlotAt(g.raw, j)
    ensures h.n <= MAXSLOTS && k <= g.n == |Meaning(g)| && (k < g.n ==> Meaning(g)[k].None?) && (k < g.n ==> !InUse(Dir(g.raw, g.n), k))
    ensures Dir(h.raw, h.n) == WithSlot(Dir(g.raw, g.n), k, Slot(g.freePtr, |r|))
    ensures h.n > 0 && InUse(Dir(h.raw, h.n), h.n - 1)
  {
    SoundMeaning(g);
    hide Tiles, Meaning;
  }

  /** The byte-level delete means the delete on slots. */
  lemma DeleteMeaning(g: Image, h: Image, k: nat)
    requires Sound(g) && k < g.n && SlotAt(g.raw, k).length > 0 && |h.raw| == RAWSIZE
    requires Cut(g, h, SlotAt(g.raw, k))
    requires h.n <= g.n && h.freeSpace == DATASIZE - h.freePtr - 4 * h.n
    requires Closed(Dir(g.raw, g.n), k, Dir(h.raw, h.n))
    requires h.n > 0 ==> InUse(Dir(h.raw, h.n), h.n - 1)
    ensures Sound(h) && Live(Meaning(g), k) && Meaning(h) == Delete(Meaning(g), k)
  {
    CutMeaning(g, h, k);
    DeleteSpace(g, k);
    hide *;
    IntroSound(h);
  }

  lemma IntroSound(g: Image)
    requires |g.raw| == RAWSIZE && g.n <= MAXSLOTS && 0 <= g.freePtr && 0 <= g.freeSpace
    requires g.freeSpace == DATASIZE - g.freePtr - 4 * g.n
    requires Tiles(Dir(g.raw, g.n), g.freePtr)
    requires g.n > 0 ==> InUse(Dir(g.raw, g.n), g.n - 1)
    requires g.freePtr == Used(Meaning(g))
    ensures Sound(g)
  {
  }

  lemma DeleteSpace(g: Image, k: nat)
    requires Sound(g) && k < g.n && SlotAt(g.raw, k).length > 0
    ensures Live(Meaning(g), k) && Used(Delete(Meaning(g), k)) == g.freePtr - SlotAt(g.raw, k).length
  {
    SoundMeaning(g);
    RecordAt(g, k);
    hide Tiles, SlotAt, Used, Meaning, WellFormed;
    DeleteRefines(Meaning(g), k);
  }

  lemma CutMeaning(g: Image, h: Image, k: nat)
    requires Sound(g) && k < g.n && SlotAt(g.raw, k).length > 0 && |h.raw| == RAWSIZE
    requires Cut(g, h, SlotAt(g.raw, k))
    requires h.n <= g.n
    requires Closed(Dir(g.raw, g.n), k, Dir(h.raw, h.n))
    requires h.n > 0 ==> InUse(Dir(h.raw, h.n), h.n - 1)
    ensures 0 <= h.freePtr && Tiles(Dir(h.raw, h.n), h.freePtr)
    ensures Meaning(h) == Delete(Meaning(g), k)
  {
    hide Sound, Meaning, Tiles, InBounds, Closed, SlotAt;
    HoleFits(g, k);
    var d, d' := Dir(g.raw, g.n), Dir(h.raw, h.n);
    SoundBounds(g);
    CutSlices(g, h, d[k]);
    hide *;
    CloseTiles(d, k, d', g.freePtr);
    CloseDecodes(g.raw, h.raw, d, k, d', g.freePtr);
    MeaningIs(h);
  }

  lemma MeaningIs(h: Image)
    requires |h.raw| == RAWSIZE && h.n <= MAXSLOTS && InBounds(Dir(h.raw, h.n), |h.raw|)
    ensures Meaning(h) == Decode(h.raw, Dir(h.raw, h.n))
  {
  }

  /** The numbers of a sound page, and the place of one of its records. */
  lemma HoleFits(g: Image, k: nat)
    requires Sound(g) && k < g.n && SlotAt(g.raw, k).length > 0
    ensures |g.raw| == RAWSIZE && g.n <= MAXSLOTS && 0 <= g.freePtr <= 1004 - 4 * g.n && 0 <= g.freeSpace
    ensures g.freeSpace == DATASIZE - g.freePtr - 4 * g.n
    ensures Tiles(Dir(g.raw, g.n), g.freePtr)
    ensures var d := Dir(g.raw, g.n); InUse(d, k) && d[k] == SlotAt(g.raw, k) && Fitting(d[k], g.freePtr)
  {
    RecordAt(g, k);
    hide Meaning, SlotAt, Used;
  }

  /** The bytes of h are those of g with the hole cut out. */
  ghost predicate Cut(g: Image, h: Image, hole: Slot)
    requires |g.raw| == |h.raw| == RAWSIZE
  {
    && Fitting(hole, g.freePtr) && g.freePtr <= RAWSIZE
    && h.freePtr == g.freePtr - hole.length
    && (forall x :: 0 <= x < hole.offset ==> h.raw[x] == g.raw[x])
    && (forall x :: hole.offset <= x < h.freePtr ==> h.raw[x] == g.raw[x + hole.length])
  }

  lemma CutSlices(g: Image, h: Image, hole: Slot)
    requires |g.raw| == |h.raw| == RAWSIZE && Cut(g, h, hole)
    ensures h.raw[..hole.offset] == g.raw[..hole.offset]
    ensures h.raw[hole.offset..h.freePtr] == g.raw[hole.offset + hole.length..g.freePtr]
  {
  }

  lemma CutKept(g: Image, raw: bytes, raw': bytes, freePtr: int, freeSpace: int, hole: Slot)
    requires |g.raw| == |raw| == |raw'| == RAWSIZE && Cut(g, Image(raw, g.n, freePtr, freeSpace), hole)
    requires forall x :: 0 <= x < freePtr <= RAWSIZE ==> raw'[x] == raw[x]
    ensures Cut(g, Image(raw', g.n, freePtr, freeSpace), hole)
  {
  }

  lemma ShrunkClosed(g: Image, raw: bytes, k: nat, m: nat)
    requires |g.raw| == |raw| == RAWSIZE && k == g.n - 1 && m <= k < MAXSLOTS
    requires forall j: nat :: j < g.n ==> SlotAt(raw, j) == Shifted(SlotAt(g.raw, j), SlotAt(g.raw, k))
    requires forall j: nat :: m <= j < g.n && j != k ==> SlotAt(g.raw, j).length == -1
    requires m > 0 ==> SlotAt(raw, m - 1).length != -1
    ensures Closed(Dir(g.raw, g.n), k, Dir(raw, m))
    ensures m > 0 ==> InUse(Dir(raw, m), m - 1)
  {
    hide SlotAt, Shifted;
  }

  lemma FreedClosed(g: Image, raw: bytes, k: nat)
    requires |g.raw| == |raw| == RAWSIZE && k < g.n - 1 && g.n <= MAXSLOTS
    requires forall j: nat :: j < g.n && j != k ==> SlotAt(raw, j) == Shifted(SlotAt(g.raw, j), SlotAt(g.raw, k))
    requires SlotAt(raw, k) == FREE && InUse(Dir(g.raw, g.n), g.n - 1)
    ensures Closed(Dir(g.raw, g.n), k, Dir(raw, g.n))
    ensures InUse(Dir(raw, g.n), g.n - 1)
  {
    hide SlotAt;
  }

  class Page {
    const raw: array<byte>
    var slotCnt: int     // minus the number of slots: the directory grows backwards
    var freePtr: int
    var freeSpace: int
    var nextPage: int
    var curPage: int

    ghost function Bits(): Image
      reads this, raw
    {
      Image(raw[..], if slotCnt <= 0 then -slotCnt else 0, freePtr, freeSpace)
    }

    ghost predicate Valid()
      reads this, raw
    {
      slotCnt <= 0 && Sound(Bits())
    }

    ghost function View(): PageView
      reads this, raw
    {
      PageView(Meaning(Bits()), nextPage, curPage)
    }

    /** Page::init on a fresh frame; the bytes of the data array keep whatever they were. */
    constructor Init(pageNo: int)
      ensures Valid() && fresh(raw)
      ensures View() == PageView([], -1, pageNo)
    {
      raw := new byte[RAWSIZE];
      nextPage, slotCnt, curPage, freePtr, freeSpace := -1, 0, pageNo, 0, DATASIZE;
    }

    method SetNextPage(pageNo: int)
      requires Valid()
      modifies this`nextPage
      ensures Valid() && View() == old(View()).(nextPage := pageNo)
    {
      nextPage := pageNo;
    }

    method GetNextPage() returns (pageNo: int)
      requires Valid()
      ensures pageNo == View().nextPage
    {
      pageNo := nextPage;
    }

    /** slot[-k]. */
    function SlotOf(k: nat): (s: Slot)
      requires raw.Length == RAWSIZE && k <= MAXSLOTS
      reads raw
      ensures s == SlotAt(raw[..], k)
    {
      Slot(Short(raw[1004 - 4 * k], raw[1005 - 4 * k]), Short(raw[1006 - 4 * k], raw[1007 - 4 * k]))
    }

    method SetSlot(k: nat, s: Slot)
      requires raw.Length == RAWSIZE && k <= MAXSLOTS && IsShort(s.offset) && IsShort(s.length)
      modifies raw
      ensures SlotAt(raw[..], k) == s
      ensures forall j: nat :: j <= MAXSLOTS && j != k ==> SlotAt(raw[..], j) == old(SlotAt(raw[..], j))
      ensures forall x :: 0 <= x < 1004 - 4 * k ==> raw[x] == old(raw[x])
    {
      ghost var before := raw[..];
      raw[1004 - 4 * k] := LoByte(s.offset);
      raw[1005 - 4 * k] := HiByte(s.offset);
      raw[1006 - 4 * k] := LoByte(s.length);
      raw[1007 - 4 * k] := HiByte(s.length);
      assert raw[..] == StoredSlot(before, k, s);
      StoredSlotReads(before, k, s);
    }

    /** memcpy of a record to the free pointer. */
    method CopyIn(at: nat, r: bytes)
      requires raw.Length == RAWSIZE && at + |r| <= RAWSIZE
      modifies raw
      ensures forall x :: 0 <= x < at ==> raw[x] == old(raw[x])
      ensures forall x :: 0 <= x < |r| ==> raw[at + x] == r[x]
      ensures forall j: nat :: j <= MAXSLOTS && at + |r| <= 1004 - 4 * j ==> SlotAt(raw[..], j) == old(SlotAt(raw[..], j))
    {
      forall x | 0 <= x < |r| {
        raw[at + x] := r[x];
      }
    }

    /** bcopy of cnt bytes from position src to position dst at its left. */
    method MoveLeft(dst: nat, src: nat, cnt: nat)
      requires raw.Length == RAWSIZE && dst <= src && src + cnt <= RAWSIZE
      modifies raw
      ensures forall x :: 0 <= x < dst ==> raw[x] == old(raw[x])
      ensures forall x :: dst <= x < dst + cnt ==> raw[x] == old(raw[x + (src - dst)])
      ensures forall j: nat :: j <= MAXSLOTS && dst + cnt <= 1004 - 4 * j ==> SlotAt(raw[..], j) == old(SlotAt(raw[..], j))
    {
      forall x | dst <= x < dst + cnt {
        raw[x] := raw[x + (src - dst)];
      }
    }

    /** The index of the first empty slot, or one past the last slot. */
    method FindSlot() returns (k: nat)
      requires Valid()
      ensures k == FirstEmpty(View().slots, 0)
    {
      SoundMeaning(Bits());
      var i := 0;
      while i > slotCnt
        invariant slotCnt <= i <= 0
        invariant FirstEmpty(View().slots, 0) == FirstEmpty(View().slots, -i)
        decreases i - slotCnt
      {
        if SlotOf(-i).length == -1 { break; }
        i := i - 1;
      }
      k := -i;
    }

    /** Any slot is live in the view exactly when its length field is not -1. */
    lemma SlotLive(k: nat)
      requires Valid() && k < -slotCnt
      ensures -slotCnt <= MAXSLOTS && |View().slots| == -slotCnt
      ensures Live(View().slots, k) <==> SlotOf(k).length != -1
      ensures SlotOf(k).length != -1 <==> SlotOf(k).length > 0
    {
      SoundMeaning(Bits());
      hide Sound, Meaning, SlotAt;
    }

    lemma Sizes()
      requires Valid()
      ensures -MAXSLOTS <= slotCnt <= 0 && raw.Length == RAWSIZE
      ensures |View().slots| == -slotCnt && WellFormed(View().slots) && View().curPage == curPage
    {
      SoundMeaning(Bits());
      hide Meaning, Tiles, WellFormed, Used;
    }

    /** The first slot at or after slot start that is in use, or one past the last slot. */
    method SkipEmpty(start: nat) returns (k: nat)
      requires Valid() && start <= -slotCnt
      ensures k == NextLive(View().slots, start) && k <= -slotCnt
    {
      Sizes();
      hide Valid, View;
      ghost var s := View().slots;
      var i: int := 0 - start;
      while i > slotCnt
        invariant slotCnt <= i <= 0
        invariant NextLive(s, start) == NextLive(s, -i)
        decreases i - slotCnt
      {
        SlotLive(-i);
        if SlotOf(-i).length == -1 { i := i - 1; } else { break; }
      }
      k := -i;
    }

    method FirstRecord() returns (status: Status, rid: RID)
      requires Valid()
      ensures var j := NextLive(View().slots, 0);
        if j < |View().slots| then status == OK && rid == RID(View().curPage, j) else status == NORECORDS
    {
      Sizes();
      hide Valid, View;
      var k := SkipEmpty(0);
      if k == -slotCnt {
        return NORECORDS, NULLRID;
      }
      status, rid := OK, RID(curPage, k);
    }

    /** The search starts after curRid's slot; the null rid starts it at slot 0. */
    method NextRecord(curRid: RID) returns (status: Status, rid: RID)
      requires Valid() && curRid.slotNo >= -1
      ensures var j := NextLive(View().slots, curRid.slotNo + 1);
        if j < |View().slots| then status == OK && rid == RID(View().curPage, j) else status == ENDOFPAGE
    {
      Sizes();
      hide Valid, View;
      var i := -curRid.slotNo - 1;
      if i <= slotCnt {
        return ENDOFPAGE, NULLRID;
      }
      var k := SkipEmpty(-i);
      if k == -slotCnt {
        return ENDOFPAGE, NULLRID;
      }
      status, rid := OK, RID(curPage, k);
    }

    method GetRecord(rid: RID) returns (status: Status, rec: bytes)
      requires Valid() && rid.slotNo >= 0
      ensures status == if Live(View().slots, rid.slotNo) then OK else INVALIDSLOTNO
      ensures status == OK ==> rec == View().slots[rid.slotNo].value
    {
      Sizes();
      var k := rid.slotNo;
      if k < -slotCnt {
        SlotLive(k);
        if SlotOf(k).length > 0 {
          RecordAt(Bits(), k);
          hide Sound, Meaning, SlotAt;
          var s := SlotOf(k);
          return OK, raw[s.offset..s.offset + s.length];
        }
      }
      hide Valid, View;
      status, rec := INVALIDSLOTNO, [];
    }

    method InsertRecord(rec: bytes) returns (status: Status, rid: RID)
      requires Valid() && rec != []
      modifies this, raw
      ensures Valid()
      ensures status == if Fits(old(View()).slots, |rec|) then OK else NOSPACE
      ensures status == OK <==> |rec| + 4 <= old(freeSpace)
      ensures old(freeSpace) == 1004 - Used(old(View()).slots) - 4 * |old(View()).slots|
      ensures View() == if status == OK then old(View()).(slots := Insert(old(View()).slots, rec)) else old(View())
      ensures status == OK ==> rid == RID(old(View()).curPage, FirstEmpty(old(View()).slots, 0))
    {
      ghost var g := Bits();
      SoundMeaning(g);
      hide Sound, Meaning, SlotAt, Insert, FirstEmpty;
      var spaceNeeded := |rec| + SLOTSIZE;
      if spaceNeeded > freeSpace {
        return NOSPACE, NULLRID;
      }
      var k := FindSlot();
      AddRecord(k, rec, g);
      rid := RID(curPage, k);
      status := OK;
    }

    method AddRecord(k: nat, rec: bytes, ghost g: Image)
      requires Valid() && g == Bits() && rec != [] && |rec| + SLOTSIZE <= g.freeSpace
      requires k == FirstEmpty(Meaning(g), 0)
      modifies this`freePtr, this`freeSpace, this`slotCnt, raw
      ensures Valid() && Meaning(Bits()) == Insert(Meaning(g), rec)
    {
      Room(g, k, |rec|);
      hide Sound, Meaning, SlotAt, Insert, FirstEmpty;
      var more := k == -slotCnt;
      freeSpace := freeSpace - (if more then |rec| + SLOTSIZE else |rec|);
      slotCnt := if more then slotCnt - 1 else slotCnt;
      PlaceRecord(k, rec);
      InsertMeaning(g, Bits(), k, rec);
    }

    lemma Room(g: Image, k: nat, len: nat)
      requires Sound(g) && k == FirstEmpty(Meaning(g), 0) && len + SLOTSIZE <= g.freeSpace
      ensures k <= g.n <= MAXSLOTS && 0 <= g.freePtr && g.freePtr + len <= 1004 - 4 * k && g.freePtr + len <= 1000 - 4 * g.n
    {
      SoundMeaning(g);
      hide Meaning, Used, FirstEmpty;
    }

    /** Fill slot k, copy the bytes in and move the free pointer. */
    method PlaceRecord(k: nat, rec: bytes)
      requires raw.Length == RAWSIZE && k <= MAXSLOTS && 0 <= freePtr && freePtr + |rec| <= 1004 - 4 * k
      requires -MAXSLOTS <= slotCnt <= 0 && freePtr + |rec| <= 1004 + 4 * slotCnt
      modifies this`freePtr, raw
      ensures freePtr == old(freePtr) + |rec|
      ensures forall x :: 0 <= x < old(freePtr) ==> raw[x] == old(raw[x])
      ensures forall x :: 0 <= x < |rec| ==> raw[old(freePtr) + x] == rec[x]
      ensures forall j: nat :: j < -slotCnt ==> SlotAt(raw[..], j) == if j == k then Slot(old(freePtr), |rec|) else old(SlotAt(raw[..], j))
    {
      hide SlotAt;
      SetSlot(k, Slot(freePtr, |rec|));
      CopyIn(freePtr, rec);
      freePtr := freePtr + |rec|;
    }

    method DeleteRecord(rid: RID) returns (status: Status)
      requires Valid() && rid.slotNo >= 0
      modifies this, raw
      ensures Valid()
      ensures status == if Live(old(View()).slots, rid.slotNo) then OK else INVALIDSLOTNO
      ensures View() == if status == OK then old(View()).(slots := Delete(old(View()).slots, rid.slotNo)) else old(View())
    {
      ghost var g := Bits();
      var k := rid.slotNo;
      SlotLives(g, k);
      hide Sound, Meaning, Delete, SlotAt, Live;
      if -k > slotCnt && SlotOf(k).length > 0 {
        RemoveRecord(g, k);
        status := OK;
      } else {
        status := INVALIDSLOTNO;
      }
    }

    lemma SlotLives(g: Image, k: nat)
      requires Sound(g)
      ensures |g.raw| == RAWSIZE && g.n <= MAXSLOTS
      ensures Live(Meaning(g), k) <==> k < g.n && SlotAt(g.raw, k).length > 0
    {
      SoundMeaning(g);
      hide Meaning, SlotAt;
    }

    method RemoveRecord(ghost g: Image, k: nat)
      requires Valid() && g == Bits() && k < g.n && |g.raw| == RAWSIZE && g.n <= MAXSLOTS && SlotAt(g.raw, k).length > 0
      modifies this`freePtr, this`freeSpace, this`slotCnt, raw
      ensures Valid() && Live(Meaning(g), k) && Meaning(Bits()) == Delete(Meaning(g), k)
    {
      HoleFits(g, k);
      var hole := SlotOf(k);
      assert Sound(g) && slotCnt + g.n == 0 && slotCnt <= 0 && raw.Length == RAWSIZE && hole.length > 0;
      assert freePtr == g.freePtr && freeSpace == g.freeSpace;
      hide *;
      CloseHole(k, hole, g);
      freePtr := freePtr - hole.length;
      freeSpace := freeSpace + hole.length;
      HoleClosed(g, k);
      ReleaseSlot(g, k);
    }

    lemma HoleClosed(g: Image, k: nat)
      requires Sound(g) && k < g.n <= MAXSLOTS && |g.raw| == RAWSIZE && SlotAt(g.raw, k).length > 0
      requires raw.Length == RAWSIZE && slotCnt + g.n == 0
      requires freeSpace == DATASIZE - freePtr - 4 * g.n && freeSpace > 0
      requires Cut(g, Image(raw[..], g.n, freePtr, freeSpace), SlotAt(g.raw, k))
      requires forall j: nat :: j < g.n ==> SlotAt(raw[..], j) == Shifted(SlotAt(g.raw, j), SlotAt(g.raw, k))
      ensures AfterHole(g, k)
    {
      hide Sound, SlotAt, Cut, Shifted;
    }

    /** Give back the slot of the record whose hole has been closed. */
    method ReleaseSlot(ghost g: Image, k: nat)
      requires AfterHole(g, k)
      modifies this`freeSpace, this`slotCnt, raw
      ensures Valid() && Live(Meaning(g), k) && Meaning(Bits()) == Delete(Meaning(g), k)
    {
      hide Sound, Closed, Shifted, SlotAt, Meaning, Delete, Live;
      if k == -slotCnt - 1 {
        ShrinkDirectory(g, k);
      } else {
        FreeSlot(g, k);
      }
      DeleteMeaning(g, Bits(), k);
    }

    /** Move the bytes right of the hole to the left and patch the offsets of the records that moved. */
    method CloseHole(k: nat, hole: Slot, ghost g: Image)
      requires raw.Length == RAWSIZE && g == Bits() && slotCnt <= 0 && k < g.n <= MAXSLOTS && hole == SlotAt(g.raw, k)
      requires Fitting(hole, freePtr) && freePtr <= 1004 - 4 * g.n
      modifies raw
      ensures Cut(g, Image(raw[..], g.n, freePtr - hole.length, freeSpace + hole.length), hole)
      ensures forall j: nat :: j < g.n ==> SlotAt(raw[..], j) == Shifted(SlotAt(g.raw, j), hole)
    {
      assert slotCnt + g.n == 0 && raw[..] == g.raw && freePtr == g.freePtr && 0 <= hole.offset && 0 < hole.length;
      assert hole == SlotOf(k) && hole.length <= freePtr;
      hide *;
      SlideBytes(hole, g);
      ghost var slid := raw[..];
      AdjustOffsets(k, hole, freePtr - hole.length);
      CutKept(g, slid, raw[..], freePtr - hole.length, freeSpace + hole.length, hole);
    }

    /** Move the bytes right of the hole to the left. */
    method SlideBytes(hole: Slot, ghost g: Image)
      requires raw.Length == RAWSIZE && raw[..] == g.raw && freePtr == g.freePtr && g.n <= MAXSLOTS
      requires Fitting(hole, freePtr) && freePtr <= 1004 - 4 * g.n
      modifies raw
      ensures Cut(g, Image(raw[..], g.n, freePtr - hole.length, freeSpace + hole.length), hole)
      ensures forall j: nat :: j < g.n ==> SlotAt(raw[..], j) == SlotAt(g.raw, j)
    {
      hide SlotAt;
      var cnt := freePtr - (hole.offset + hole.length);
      MoveLeft(hole.offset, hole.offset + hole.length, cnt);
    }

    /** The deleted slot is the last one: drop it and every empty slot that then ends the directory. */
    method ShrinkDirectory(ghost g: Image, k: nat)
      requires AfterHole(g, k) && k == g.n - 1
      modifies this`slotCnt, this`freeSpace
      ensures Deleted(g, k)
    {
      hide Sound, Closed, SlotAt;
      slotCnt := slotCnt + 1;
      freeSpace := freeSpace + SLOTSIZE;
      while slotCnt < 0 && SlotOf(-slotCnt - 1).length == -1
        invariant 0 < slotCnt + g.n && slotCnt <= 0
        invariant freeSpace == DATASIZE - freePtr - 4 * -slotCnt
        invariant forall j: nat :: -slotCnt <= j < g.n && j != k ==> SlotAt(g.raw, j).length == -1
        decreases -slotCnt
      {
        slotCnt := slotCnt + 1;
        freeSpace := freeSpace + SLOTSIZE;
      }
      ShrunkClosed(g, raw[..], k, -slotCnt);
    }

    /** The deleted slot is in the middle: mark it free and leave the directory as long as it is. */
    method FreeSlot(ghost g: Image, k: nat)
      requires AfterHole(g, k) && k < g.n - 1
      modifies raw
      ensures Deleted(g, k)
    {
      hide Closed, SlotAt, Meaning, Tiles;
      assert InUse(Dir(g.raw, g.n), g.n - 1);
      SetSlot(k, FREE);
      FreedClosed(g, raw[..], k);
    }

    /** The hole of record k of page g has been closed; its slot has not been released yet. */
    ghost predicate AfterHole(g: Image, k: nat)
      reads this, raw
    {
      && Sound(g) && k < g.n <= MAXSLOTS && |g.raw| == RAWSIZE && SlotAt(g.raw, k).length > 0
      && raw.Length == RAWSIZE && slotCnt + g.n == 0
      && freeSpace == DATASIZE - freePtr - 4 * g.n && freeSpace > 0
      && Cut(g, Image(raw[..], g.n, freePtr, freeSpace), SlotAt(g.raw, k))
      && (forall j: nat :: j < g.n ==> SlotAt(raw[..], j) == Shifted(SlotAt(g.raw, j), SlotAt(g.raw, k)))
    }

    /** The directory of page g without record k. */
    ghost predicate Deleted(g: Image, k: nat)
      requires |g.raw| == RAWSIZE && k < g.n <= MAXSLOTS
      reads this, raw
    {
      && raw.Length == RAWSIZE && slotCnt + g.n >= 0 && slotCnt <= 0
      && freeSpace == DATASIZE - freePtr - 4 * -slotCnt
      && Cut(g, Image(raw[..], g.n, freePtr, freeSpace), SlotAt(g.raw, k))
      && Closed(Dir(g.raw, g.n), k, Dir(raw[..], -slotCnt))
      && (slotCnt < 0 ==> InUse(Dir(raw[..], -slotCnt), -slotCnt - 1))
    }

    method AdjustOffsets(k: nat, hole: Slot, limit: nat)
      requires raw.Length == RAWSIZE && -MAXSLOTS <= slotCnt <= 0 && k < -slotCnt
      requires hole == SlotOf(k) && 0 <= hole.offset && 0 < hole.length
      requires limit <= 1004 + 4 * slotCnt
      modifies raw
      ensures forall j: nat :: j < -slotCnt ==> SlotAt(raw[..], j) == Shifted(old(SlotAt(raw[..], j)), hole)
      ensures forall x :: 0 <= x < limit ==> raw[x] == old(raw[x])
    {
      var i := 0;
      while i > slotCnt
        invariant slotCnt <= i <= 0
        invariant forall j: nat :: j < -i ==> SlotAt(raw[..], j) == Shifted(old(SlotAt(raw[..], j)), hole)
        invariant forall j: nat :: -i <= j < -slotCnt ==> SlotAt(raw[..], j) == old(SlotAt(raw[..], j))
        invariant forall x :: 0 <= x < limit ==> raw[x] == old(raw[x])
        decreases i - slotCnt
      {
        var s := SlotOf(-i);
        if s.length >= 0 && s.offset > SlotOf(k).offset {
          PatchOffset(-i, s, hole.length, limit);
        }
        i := i - 1;
      }
    }

    method PatchOffset(j: nat, s: Slot, shift: nat, limit: nat)
      requires raw.Length == RAWSIZE && j < MAXSLOTS && s == SlotOf(j) && s.offset - shift >= -32768
      requires limit <= 1004 - 4 * j
      modifies raw
      ensures SlotAt(raw[..], j) == Slot(s.offset - shift, s.length)
      ensures forall i: nat :: i <= MAXSLOTS && i != j ==> SlotAt(raw[..], i) == old(SlotAt(raw[..], i))
      ensures forall x :: 0 <= x < limit ==> raw[x] == old(raw[x])
    {
      SetSlot(j, Slot(s.offset - shift, s.length));
    }
  }
}
