/** Where the records of a slotted page lie: a directory of (offset, length) pairs over
    a byte array, and what adding a record and closing the hole of a deleted one do to it. */
module PageLayout {
  import opened Bytes
  import opened PageView

  datatype Slot = Slot(offset: int, length: int)

  const FREE := Slot(0, -1)

  type Directory = seq<Slot>

  predicate InUse(d: Directory, k: int) {
    0 <= k < |d| && d[k].length != -1
  }

  predicate Fitting(s: Slot, limit: int) {
    s.length > 0 && 0 <= s.offset && s.offset + s.length <= limit
  }

  ghost predicate InBounds(d: Directory, limit: int) {
    forall k :: InUse(d, k) ==> Fitting(d[k], limit)
  }

  predicate Apart(s: Slot, t: Slot) {
    s.offset + s.length <= t.offset || t.offset + t.length <= s.offset
  }

  ghost predicate Disjoint(d: Directory) {
    forall j, k :: InUse(d, j) && InUse(d, k) && j != k ==> Apart(d[j], d[k])
  }

  predicate Covers(d: Directory, k: int, x: int) {
    InUse(d, k) && d[k].offset <= x < d[k].offset + d[k].length
  }

  ghost predicate HasOwner(d: Directory, x: int) {
    exists k :: Covers(d, k, x)
  }

  ghost predicate Covered(d: Directory, limit: int) {
    forall x :: 0 <= x < limit ==> HasOwner(d, x)
  }

  /** The records in use tile [0, freePtr): no overlap and no gap. */
  ghost predicate Tiles(d: Directory, freePtr: int) {
    InBounds(d, freePtr) && Disjoint(d) && Covered(d, freePtr)
  }

  ghost function SlotBytes(data: bytes, s: Slot): Option<bytes>
    requires s.length != -1 ==> Fitting(s, |data|)
  {
    if s.length == -1 then None else Some(data[s.offset..s.offset + s.length])
  }

  /** The records a directory describes. */
  ghost function Decode(data: bytes, d: Directory): (s: Slots)
    requires InBounds(d, |data|)
    ensures |s| == |d|
    ensures forall k :: 0 <= k < |d| ==> s[k] == SlotBytes(data, d[k])
  {
    seq(|d|, k requires 0 <= k < |d| =>
      assert d[k].length != -1 ==> InUse(d, k);
      SlotBytes(data, d[k]))
  }

  // ---- adding a record at the free pointer ----

  function WithSlot(d: Directory, k: nat, s: Slot): (t: Directory)
    requires k <= |d|
    ensures |t| == if k == |d| then |d| + 1 else |d|
    ensures t[k] == s
    ensures forall j :: 0 <= j < |t| && j != k ==> j < |d| && t[j] == d[j]
  {
    if k == |d| then d + [s] else d[k := s]
  }

  lemma AddTiles(d: Directory, freePtr: nat, k: nat, len: nat)
    requires Tiles(d, freePtr) && len > 0
    requires k == |d| || (k < |d| && !InUse(d, k))
    ensures Tiles(WithSlot(d, k, Slot(freePtr, len)), freePtr + len)
  {
    var t := WithSlot(d, k, Slot(freePtr, len));
    forall j | InUse(t, j)
      ensures Fitting(t[j], freePtr + len)
    {
      assert j != k ==> InUse(d, j);
    }
    forall i, j | InUse(t, i) && InUse(t, j) && i != j
      ensures Apart(t[i], t[j])
    {
      assert i != k ==> InUse(d, i);
      assert j != k ==> InUse(d, j);
    }
    forall x | 0 <= x < freePtr + len
      ensures HasOwner(t, x)
    {
      if x < freePtr {
        assert HasOwner(d, x);
        var j :| Covers(d, j, x);
        assert Covers(t, j, x);
      } else {
        assert Covers(t, k, x);
      }
    }
  }

  lemma AddDecodes(data: bytes, data': bytes, d: Directory, freePtr: nat, k: nat, r: bytes)
    requires Tiles(d, freePtr) && r != []
    requires k == |d| || (k < |d| && !InUse(d, k))
    requires freePtr + |r| <= |data| == |data'|
    requires data'[..freePtr] == data[..freePtr] && data'[freePtr..freePtr + |r|] == r
    ensures InBounds(d, |data|)
    ensures InBounds(WithSlot(d, k, Slot(freePtr, |r|)), |data'|)
    ensures Decode(data', WithSlot(d, k, Slot(freePtr, |r|))) == Put(Decode(data, d), k, r)
  {
    var t := WithSlot(d, k, Slot(freePtr, |r|));
    AddTiles(d, freePtr, k, |r|);
    BoundsWiden(d, freePtr, |data|);
    BoundsWiden(t, freePtr + |r|, |data'|);
    var s, s' := Put(Decode(data, d), k, r), Decode(data', t);
    forall j | 0 <= j < |t|
      ensures s'[j] == s[j]
    {
      if j != k && InUse(d, j) {
        SameBytes(data, data', freePtr, d[j]);
      }
    }
  }

  lemma BoundsWiden(d: Directory, a: int, b: int)
    requires InBounds(d, a) && a <= b
    ensures InBounds(d, b)
  {
  }

  lemma SameBytes(data: bytes, data': bytes, limit: nat, s: Slot)
    requires limit <= |data| == |data'| && data'[..limit] == data[..limit]
    requires Fitting(s, limit)
    ensures data'[s.offset..s.offset + s.length] == data[s.offset..s.offset + s.length]
  {
    var lo, hi := s.offset, s.offset + s.length;
    assert data[lo..hi] == data[..limit][lo..hi];
    assert data'[lo..hi] == data'[..limit][lo..hi];
  }

  // ---- closing the hole of a deleted record ----

  /** The slot of a surviving record after the bytes to the right of the hole have moved left. */
  function Shifted(s: Slot, hole: Slot): Slot {
    if s.length >= 0 && s.offset > hole.offset then Slot(s.offset - hole.length, s.length) else s
  }

  /** d' is what is left of d when record k is gone: slots at and after |d'| were empty or k itself. */
  ghost predicate Closed(d: Directory, k: nat, d': Directory)
    requires k < |d|
  {
    && |d'| <= |d|
    && (forall j :: 0 <= j < |d'| && j != k ==> d'[j] == Shifted(d[j], d[k]))
    && (k < |d'| ==> d'[k].length == -1)
    && (forall j :: |d'| <= j < |d| && j != k ==> d[j].length == -1)
  }

  lemma ClosedInUse(d: Directory, k: nat, d': Directory, freePtr: nat, j: int)
    requires InBounds(d, freePtr) && Disjoint(d) && InUse(d, k) && Closed(d, k, d')
    requires InUse(d', j)
    ensures j != k && InUse(d, j) && Apart(d[j], d[k])
    ensures d'[j] == Shifted(d[j], d[k]) && Fitting(d[j], freePtr) && Fitting(d'[j], freePtr - d[k].length)
    ensures d[j].offset > d[k].offset <==> d[j].offset >= d[k].offset + d[k].length
  {
    assert Fitting(d[k], freePtr);
  }

  lemma CloseTiles(d: Directory, k: nat, d': Directory, freePtr: nat)
    requires Tiles(d, freePtr) && InUse(d, k) && Closed(d, k, d')
    ensures freePtr - d[k].length >= 0 && Tiles(d', freePtr - d[k].length)
  {
    assert Fitting(d[k], freePtr);
    forall j | InUse(d', j)
      ensures Fitting(d'[j], freePtr - d[k].length)
    {
      ClosedInUse(d, k, d', freePtr, j);
    }
    forall i, j | InUse(d', i) && InUse(d', j) && i != j
      ensures Apart(d'[i], d'[j])
    {
      ClosedInUse(d, k, d', freePtr, i);
      ClosedInUse(d, k, d', freePtr, j);
    }
    forall x | 0 <= x < freePtr - d[k].length
      ensures HasOwner(d', x)
    {
      CloseCovers(d, k, d', freePtr, x);
    }
  }

  lemma CloseCovers(d: Directory, k: nat, d': Directory, freePtr: nat, x: nat)
    requires Tiles(d, freePtr) && InUse(d, k) && Closed(d, k, d')
    requires x < freePtr - d[k].length
    ensures HasOwner(d', x)
  {
    assert Fitting(d[k], freePtr);
    var y := if x < d[k].offset then x else x + d[k].length;
    assert HasOwner(d, y);
    var j :| Covers(d, j, y);
    assert Fitting(d[j], freePtr);
    assert j != k;
    assert Apart(d[j], d[k]);
    assert j < |d'|;
    assert d'[j] == Shifted(d[j], d[k]);
    assert Covers(d', j, x);
  }

  lemma CloseDecodes(data: bytes, data': bytes, d: Directory, k: nat, d': Directory, freePtr: nat)
    requires Tiles(d, freePtr) && InUse(d, k) && Closed(d, k, d')
    requires freePtr <= |data| == |data'| && Fitting(d[k], freePtr)
    requires data'[..d[k].offset] == data[..d[k].offset]
    requires data'[d[k].offset..freePtr - d[k].length] == data[d[k].offset + d[k].length..freePtr]
    requires |d'| > 0 ==> InUse(d', |d'| - 1)
    ensures InBounds(d, |data|) && InBounds(d', |data'|)
    ensures Live(Decode(data, d), k)
    ensures Decode(data', d') == Delete(Decode(data, d), k)
  {
    CloseTiles(d, k, d', freePtr);
    BoundsWiden(d, freePtr, |data|);
    BoundsWiden(d', freePtr - d[k].length, |data'|);
    var u := Decode(data, d)[k := None];
    var t := Decode(data', d');
    forall j | 0 <= j < |d'|
      ensures t[j] == u[j]
    {
      if InUse(d', j) {
        ClosedInUse(d, k, d', freePtr, j);
        MovedBytes(data, data', d[k], freePtr, d[j]);
      } else {
        assert j != k ==> d[j].length == -1;
      }
    }
    assert t == u[..|d'|];
    assert |d'| > 0 ==> t[|d'| - 1].Some?;
    TrimIs(u, |d'|);
  }

  lemma MovedBytes(data: bytes, data': bytes, hole: Slot, freePtr: nat, s: Slot)
    requires freePtr <= |data| == |data'| && Fitting(hole, freePtr) && Fitting(s, freePtr) && Apart(s, hole)
    requires data'[..hole.offset] == data[..hole.offset]
    requires data'[hole.offset..freePtr - hole.length] == data[hole.offset + hole.length..freePtr]
    ensures Fitting(Shifted(s, hole), |data'|)
    ensures SlotBytes(data', Shifted(s, hole)) == SlotBytes(data, s)
  {
    var t := Shifted(s, hole);
    if s.offset > hole.offset {
      var lo, n := s.offset - hole.offset - hole.length, s.length;
      var a, b := data[hole.offset + hole.length..freePtr], data'[hole.offset..freePtr - hole.length];
      assert data[s.offset..s.offset + n] == a[lo..lo + n];
      assert data'[t.offset..t.offset + n] == b[lo..lo + n];
    } else {
      SameBytes(data, data', hole.offset, s);
    }
  }
}
