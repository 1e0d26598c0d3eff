/** A page as the 1024 bytes that lie on disk: the file layer reads its first three words, the page code the slots. */
module PageImages {
  import opened Bytes
  import opened PageView
  import opened PageLayout
  import opened SlottedPage
  import opened ScanFilter
  import FileLayer

  const PAGESIZE := 1024

  /** An int as four bytes, little-endian in two's complement. */
  function IntBytes(v: int): (b: bytes)
    ensures |b| == 4
  {
    var u := v % 0x1_0000_0000;
    var q := u / 0x100;
    var r := q / 0x100;
    [u % 0x100, q % 0x100, r % 0x100, r / 0x100]
  }

  lemma IntRoundTrip(v: int)
    requires IsInt32(v)
    ensures Int32(IntBytes(v)) == v
  {
    var u := v % 0x1_0000_0000;
    assert u == if v < 0 then v + 0x1_0000_0000 else v;
  }

  lemma BytesRoundTrip(b: bytes)
    requires |b| == 4
    ensures IntBytes(Int32(b)) == b
  {
    var r := b[2] as int + 0x100 * (b[3] as int);
    var q := b[1] as int + 0x100 * r;
    var u := b[0] as int + 0x100 * q;
    assert Int32(b) == if u >= 0x8000_0000 then u - 0x1_0000_0000 else u;
    Lowest(b[0], q, u);
    Lowest(b[1], r, q);
    Lowest(b[2], b[3], r);
    hide Int32;
    assert Int32(b) % 0x1_0000_0000 == u;
    assert b == [b[0], b[1], b[2], b[3]];
  }

  /** The bytes of a page the file layer sees as three words and a rest, and back. */
  function BytesOf(x: FileLayer.Image): bytes {
    IntBytes(x.nextFree) + IntBytes(x.firstPage) + IntBytes(x.numPages) + x.rest
  }

  function OfBytes(b: bytes): FileLayer.Image
    requires |b| == PAGESIZE
  {
    FileLayer.Image(Int32(b[0..4]), Int32(b[4..8]), Int32(b[8..12]), b[12..])
  }

  lemma ImageRoundTrip(b: bytes)
    requires |b| == PAGESIZE
    ensures BytesOf(OfBytes(b)) == b
  {
    BytesRoundTrip(b[0..4]);
    BytesRoundTrip(b[4..8]);
    BytesRoundTrip(b[8..12]);
    hide IntBytes, Int32;
    assert b == b[0..4] + b[4..8] + b[8..12] + b[12..];
  }

  function ShortBytes(v: int): (b: bytes)
    ensures |b| == 2
  {
    [LoByte(v), HiByte(v)]
  }

  /** The fields of a page in the order in which they lie in memory; `dummy` is not used. */
  function Assembled(raw: bytes, slotCnt: int, freePtr: int, freeSpace: int, nextPage: int, curPage: int): (b: bytes)
    requires |raw| == RAWSIZE
    ensures |b| == PAGESIZE
  {
    raw + ShortBytes(slotCnt) + ShortBytes(freePtr) + ShortBytes(freeSpace) + ShortBytes(0) + IntBytes(nextPage) + IntBytes(curPage)
  }

  /** A page on disk, read as slots, records and a link. */
  ghost function Decoded(x: FileLayer.Image): PageView {
    var b := BytesOf(x);
    if |b| != PAGESIZE then PageView([], 0, 0)
    else
      var n := Short(b[1008], b[1009]);
      var g := Image(b[..RAWSIZE], if n <= 0 then -n else 0, Short(b[1010], b[1011]), Short(b[1012], b[1013]));
      PageView(Meaning(g), Int32(b[1016..1020]), Int32(b[1020..1024]))
  }

  /** The fields read back from the bytes are the fields written. */
  lemma AssembledFields(raw: bytes, slotCnt: int, freePtr: int, freeSpace: int, nextPage: int, curPage: int)
    requires |raw| == RAWSIZE && IsShort(slotCnt) && IsShort(freePtr) && IsShort(freeSpace)
    requires IsInt32(nextPage) && IsInt32(curPage)
    ensures var b := Assembled(raw, slotCnt, freePtr, freeSpace, nextPage, curPage);
      && b[..RAWSIZE] == raw
      && Short(b[1008], b[1009]) == slotCnt && Short(b[1010], b[1011]) == freePtr && Short(b[1012], b[1013]) == freeSpace
      && Int32(b[1016..1020]) == nextPage && Int32(b[1020..1024]) == curPage
  {
    ShortRoundTrip(slotCnt);
    ShortRoundTrip(freePtr);
    ShortRoundTrip(freeSpace);
    IntRoundTrip(nextPage);
    IntRoundTrip(curPage);
    hide Short, Int32, LoByte, HiByte, IntBytes;
    var b := Assembled(raw, slotCnt, freePtr, freeSpace, nextPage, curPage);
    assert b[1016..1020] == IntBytes(nextPage);
    assert b[1020..1024] == IntBytes(curPage);
  }

  /** Any sound page, written out, is read as what it means. */
  lemma AssembledDecodes(g: Image, nextPage: int, curPage: int)
    requires Sound(g) && IsInt32(nextPage) && IsInt32(curPage)
    ensures Decoded(OfBytes(Assembled(g.raw, 0 - g.n, g.freePtr, g.freeSpace, nextPage, curPage)))
      == PageView(Meaning(g), nextPage, curPage)
  {
    hide Meaning, Sound, Assembled, OfBytes, BytesOf;
    SoundRange(g);
    AssembledFields(g.raw, 0 - g.n, g.freePtr, g.freeSpace, nextPage, curPage);
    ImageRoundTrip(Assembled(g.raw, 0 - g.n, g.freePtr, g.freeSpace, nextPage, curPage));
  }

  lemma SoundRange(g: Image)
    requires Sound(g)
    ensures |g.raw| == RAWSIZE && g.n <= MAXSLOTS && 0 <= g.freePtr <= DATASIZE && 0 <= g.freeSpace <= DATASIZE
  {
    hide Tiles, Used, Meaning, Dir;
  }

  /** The bytes of a page object. */
  ghost function ImageOf(p: Page): FileLayer.Image
    reads p, p.raw
  {
    if p.raw.Length == RAWSIZE then
      OfBytes(Assembled(p.raw[..], p.slotCnt, p.freePtr, p.freeSpace, p.nextPage, p.curPage))
    else FileLayer.Zero()
  }

  lemma PageDecodes(p: Page)
    requires p.Valid() && IsInt32(p.nextPage) && IsInt32(p.curPage)
    ensures Decoded(ImageOf(p)) == p.View()
  {
    hide Meaning, Decoded, OfBytes, Assembled;
    AssembledDecodes(p.Bits(), p.nextPage, p.curPage);
  }

  /** Where a record lies on disk: its slot, four bytes that are counted down from byte 1004, holds the offset and then the
      length. */
  lemma RecordOnDisk(p: Page, k: nat)
    requires p.Valid() && Live(p.View().slots, k)
    ensures k < MAXSLOTS && |BytesOf(ImageOf(p))| == PAGESIZE
    ensures var b := BytesOf(ImageOf(p));
      var offset, length := Short(b[1004 - 4 * k], b[1005 - 4 * k]), Short(b[1006 - 4 * k], b[1007 - 4 * k]);
      && 0 <= offset && 0 < length && offset + length <= 1004 - 4 * k
      && p.View().slots[k] == Some(b[offset..offset + length])
  {
    hide Sound, Meaning, Short, BytesOf, ImageOf;
    PageBytes(p);
    RecordInRaw(p.Bits(), k);
    SameFront(BytesOf(ImageOf(p)), p.raw[..]);
  }

  lemma PageBytes(p: Page)
    requires p.Valid()
    ensures |BytesOf(ImageOf(p))| == PAGESIZE && BytesOf(ImageOf(p))[..RAWSIZE] == p.raw[..]
  {
    SoundRange(p.Bits());
    hide Sound, Meaning, BytesOf, OfBytes;
    ImageRoundTrip(Assembled(p.raw[..], p.slotCnt, p.freePtr, p.freeSpace, p.nextPage, p.curPage));
  }

  lemma RecordInRaw(g: Image, k: nat)
    requires Sound(g) && Live(Meaning(g), k)
    ensures |g.raw| == RAWSIZE && k < g.n <= MAXSLOTS && k < MAXSLOTS
    ensures var s := SlotAt(g.raw, k);
      && 0 <= s.offset && 0 < s.length && s.offset + s.length <= 1004 - 4 * k
      && Meaning(g)[k] == Some(g.raw[s.offset..s.offset + s.length])
  {
    SoundMeaning(g);
    SoundRange(g);
    RecordsEnd(g);
    hide Sound, Meaning, SlotAt;
    RecordAt(g, k);
  }

  lemma SameFront(b: bytes, raw: bytes)
    requires |raw| == RAWSIZE <= |b| && b[..RAWSIZE] == raw
    ensures forall i :: 0 <= i < RAWSIZE ==> b[i] == raw[i]
    ensures forall i, j :: 0 <= i <= j <= RAWSIZE ==> b[i..j] == raw[i..j]
  {
    forall i | 0 <= i < RAWSIZE
      ensures b[i] == raw[i]
    {
      assert b[i] == b[..RAWSIZE][i];
    }
  }

  lemma RecordsEnd(g: Image)
    requires Sound(g)
    ensures g.freePtr + 4 * g.n <= DATASIZE
  {
    hide Tiles, Used, Meaning, Dir;
  }

  /** A page of zeros: 1024 zero bytes. */
  lemma ZeroBytes()
    ensures |BytesOf(FileLayer.Zero())| == PAGESIZE
    ensures forall i :: 0 <= i < PAGESIZE ==> BytesOf(FileLayer.Zero())[i] == 0
  {
  }

  // ---- every page view is the meaning of some bytes ----

  /** The bytes hold the slots, one record behind the other. */
  ghost predicate LaidOut(raw: bytes, s: Slots) {
    && |raw| == RAWSIZE && |s| <= MAXSLOTS && Used(s) + 4 * |s| <= DATASIZE
    && Tiles(Dir(raw, |s|), Used(s)) && InBounds(Dir(raw, |s|), RAWSIZE) && Decode(raw, Dir(raw, |s|)) == s
  }

  lemma {:induction false} LayOut(s: Slots) returns (raw: bytes)
    requires NoEmptyRecord(s) && Free(s) >= 0
    ensures LaidOut(raw, s)
    decreases |s|
  {
    if s == [] {
      raw := seq(RAWSIZE, i => 0);
    } else {
      var k, o := |s| - 1, s[|s| - 1];
      assert s == s[..k] + [o] && forall j :: Live(s[..k], j) ==> Live(s, j) && s[..k][j] == s[j];
      raw := LayOut(s[..k]);
      if o.Some? {
        assert Live(s, k);
        raw := LayRecord(raw, s[..k], o.value);
      } else {
        raw := LayFree(raw, s[..k]);
      }
    }
  }

  /** One more record, behind the others. */
  lemma LayRecord(raw: bytes, s: Slots, r: bytes) returns (raw': bytes)
    requires LaidOut(raw, s) && r != [] && Used(s) + |r| + 4 * (|s| + 1) <= DATASIZE
    ensures LaidOut(raw', s + [Some(r)])
  {
    var u, k := Used(s), |s|;
    raw' := RecordBytes(raw, u, k, r);
    hide SlotAt, Tiles, InBounds, Decode;
    assert Dir(raw', k + 1) == WithSlot(Dir(raw, k), k, Slot(u, |r|));
    AddTiles(Dir(raw, k), u, k, |r|);
    AddDecodes(raw, raw', Dir(raw, k), u, k, r);
    assert (s + [Some(r)])[..k] == s;
  }

  /** Write the record at u and its slot, the k-th. */
  lemma RecordBytes(raw: bytes, u: nat, k: nat, r: bytes) returns (raw': bytes)
    requires |raw| == RAWSIZE && r != [] && u + |r| + 4 * (k + 1) <= DATASIZE
    ensures k < MAXSLOTS && |raw'| == RAWSIZE && raw'[..u] == raw[..u] && raw'[u..u + |r|] == r
    ensures SlotAt(raw', k) == Slot(u, |r|) && forall j: nat :: j < k ==> SlotAt(raw', j) == SlotAt(raw, j)
  {
    var mid := raw[..u] + r + raw[u + |r|..];
    raw' := StoredSlot(mid, k, Slot(u, |r|));
    StoredSlotReads(mid, k, Slot(u, |r|));
    forall j: nat | j < k
      ensures SlotAt(raw', j) == SlotAt(raw, j)
    {
      assert mid[1004 - 4 * j..1008 - 4 * j] == raw[1004 - 4 * j..1008 - 4 * j];
      FourBytes(mid, raw, 1004 - 4 * j);
    }
    Leading(raw', mid, 1004 - 4 * k, u, |r|);
    assert mid[..u] == raw[..u] && mid[u..u + |r|] == r;
  }

  lemma Leading(a: bytes, b: bytes, n: nat, u: nat, m: nat)
    requires n <= |a| == |b| && a[..n] == b[..n] && u + m <= n
    ensures a[..u] == b[..u] && a[u..u + m] == b[u..u + m]
  {
    assert a[..u] == a[..n][..u] && b[..u] == b[..n][..u];
    assert a[u..u + m] == a[..n][u..u + m] && b[u..u + m] == b[..n][u..u + m];
  }

  lemma FourBytes(a: bytes, b: bytes, i: nat)
    requires |a| == |b| && i + 4 <= |a| && a[i..i + 4] == b[i..i + 4]
    ensures forall j :: i <= j < i + 4 ==> a[j] == b[j]
  {
    forall j | i <= j < i + 4
      ensures a[j] == b[j]
    {
      assert a[i..i + 4][j - i] == b[i..i + 4][j - i];
    }
  }

  /** One more empty slot. */
  lemma LayFree(raw: bytes, s: Slots) returns (raw': bytes)
    requires LaidOut(raw, s) && Used(s) + 4 * (|s| + 1) <= DATASIZE
    ensures LaidOut(raw', s + [None])
  {
    var u, k := Used(s), |s|;
    raw' := FreeBytes(raw, u, k);
    hide SlotAt, Tiles, Decode, InBounds;
    var d := Dir(raw, k);
    assert Dir(raw', k + 1) == d + [FREE];
    FreeTiles(d, u);
    FreeDecodes(raw, raw', d, u);
    assert (s + [None])[..k] == s;
  }

  lemma FreeDecodes(raw: bytes, raw': bytes, d: Directory, u: nat)
    requires Tiles(d, u) && u <= |raw| == |raw'| && raw'[..u] == raw[..u]
    ensures InBounds(d, |raw|) && InBounds(d + [FREE], |raw'|)
    ensures Decode(raw', d + [FREE]) == Decode(raw, d) + [None]
  {
    BoundsWiden(d, u, |raw|);
    FreeTiles(d, u);
    BoundsWiden(d + [FREE], u, |raw'|);
    forall j | 0 <= j < |d| + 1
      ensures Decode(raw', d + [FREE])[j] == (Decode(raw, d) + [None])[j]
    {
      if InUse(d, j) {
        SameBytes(raw, raw', u, d[j]);
      }
    }
  }

  lemma FreeBytes(raw: bytes, u: nat, k: nat) returns (raw': bytes)
    requires |raw| == RAWSIZE && u + 4 * (k + 1) <= DATASIZE
    ensures k < MAXSLOTS && |raw'| == RAWSIZE && raw'[..u] == raw[..u]
    ensures SlotAt(raw', k) == FREE && forall j: nat :: j < k ==> SlotAt(raw', j) == SlotAt(raw, j)
  {
    raw' := StoredSlot(raw, k, FREE);
    StoredSlotReads(raw, k, FREE);
    Leading(raw', raw, 1004 - 4 * k, u, 0);
  }

  lemma FreeTiles(d: Directory, u: int)
    requires Tiles(d, u)
    ensures Tiles(d + [FREE], u)
  {
    var t := d + [FREE];
    assert forall j :: InUse(t, j) ==> InUse(d, j) && t[j] == d[j];
    forall x | 0 <= x < u
      ensures HasOwner(t, x)
    {
      assert HasOwner(d, x);
      var k :| Covers(d, k, x);
      assert Covers(t, k, x);
    }
  }

  /** Whatever a page can mean, some 1024 bytes mean it. */
  lemma EveryViewDecoded(v: PageView) returns (x: FileLayer.Image)
    requires WellFormed(v.slots) && IsInt32(v.nextPage) && IsInt32(v.curPage)
    ensures Decoded(x) == v
  {
    var raw := LayOut(v.slots);
    var g := Image(raw, |v.slots|, Used(v.slots), Free(v.slots));
    LaidOutSound(raw, v.slots);
    x := OfBytes(Assembled(raw, 0 - g.n, g.freePtr, g.freeSpace, v.nextPage, v.curPage));
    AssembledDecodes(g, v.nextPage, v.curPage);
  }

  lemma LaidOutSound(raw: bytes, s: Slots)
    requires LaidOut(raw, s) && WellFormed(s)
    ensures var g := Image(raw, |s|, Used(s), Free(s)); Sound(g) && Meaning(g) == s
  {
    var d := Dir(raw, |s|);
    if s != [] {
      assert Decode(raw, d)[|s| - 1] == SlotBytes(raw, d[|s| - 1]);
    }
  }
}
