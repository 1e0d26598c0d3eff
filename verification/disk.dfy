/** The file layer: pages of a Unix file, some of them on a free list whose links are stored in the
    freed pages themselves.  Reads and writes may fail at any time. */
module FileLayer {
  import opened Bytes

  /** A page on disk: its first three words, as the file layer reads them, and the other bytes. */
  datatype Image = Image(nextFree: int, firstPage: int, numPages: int, rest: bytes)

  /** A file as an address: the identity of its File object. */
  type FileId = int

  /** A page of a file. */
  datatype Key = Key(file: FileId, pageNo: int)

  type Disk = seq<Image>

  /** A page of zeros. */
  function Zero(): Image {
    Image(0, 0, 0, seq(1012, i => 0))
  }

  // ---- the free list ----

  /** The page numbers 1 to n - 1. */
  function Below(n: nat): (s: set<int>)
    ensures forall p :: p in s <==> 1 <= p < n
  {
    if n <= 1 then {} else Below(n - 1) + {n - 1}
  }

  /** The pages met by following the free-list links from page p, as long as they are in `left` and not met before. */
  function Walk(d: Disk, p: int, left: set<int>): seq<int>
    decreases left
  {
    if p !in left || !(0 <= p < |d|) then [] else [p] + Walk(d, d[p].nextFree, left - {p})
  }

  /** The links lead from p through exactly the pages of the list, and then to -1. */
  predicate Links(d: Disk, p: int, free: seq<int>)
    decreases |free|
  {
    if free == [] then p == -1
    else p == free[0] && 0 <= p < |d| && Links(d, d[p].nextFree, free[1..])
  }

  predicate NoRepeats(s: seq<int>) {
    forall i, j :: 0 <= i < j < |s| ==> s[i] != s[j]
  }

  predicate Within(s: seq<int>, left: set<int>) {
    forall i :: 0 <= i < |s| ==> s[i] in left
  }

  lemma {:induction false} LinksWalk(d: Disk, p: int, free: seq<int>, left: set<int>)
    requires Links(d, p, free) && NoRepeats(free) && Within(free, left) && -1 !in left
    ensures Walk(d, p, left) == free
    decreases |free|
  {
    if free != [] {
      forall i | 0 <= i < |free[1..]|
        ensures free[1..][i] in left - {p}
      {
        assert free[1..][i] == free[i + 1];
      }
      LinksWalk(d, d[p].nextFree, free[1..], left - {p});
    }
  }

  lemma {:induction false} WalkFacts(d: Disk, p: int, left: set<int>)
    ensures NoRepeats(Walk(d, p, left)) && Within(Walk(d, p, left), left)
    decreases left
  {
    if p in left && 0 <= p < |d| {
      WalkFacts(d, d[p].nextFree, left - {p});
    }
  }

  /** The pages on the free list, first to last. */
  function FreeList(d: Disk): seq<int> {
    if d == [] then [] else Walk(d, d[0].nextFree, Below(|d|))
  }

  predicate Free(d: Disk, p: int) {
    p in FreeList(d)
  }

  /** The free list is acyclic, ends in -1, and holds user pages other than the first page of the file. */
  predicate Sound(d: Disk) {
    && d != [] && 1 <= d[0].numPages <= |d|
    && Links(d, d[0].nextFree, FreeList(d))
    && Within(FreeList(d), Below(d[0].numPages))
    && d[0].firstPage == (if d[0].numPages == 1 then -1 else 1)
    && !Free(d, 1)
  }

  /** The header names a user page, or no page, as the next to allocate. */
  predicate HeadOk(d: Disk) {
    d != [] && d[0].numPages >= 1 && (d[0].nextFree == -1 || d[0].nextFree >= 1)
  }

  /** The user pages that are not free. */
  predicate Allocated(d: Disk, p: int) {
    d != [] && 1 <= p < d[0].numPages && !Free(d, p)
  }

  /** A list of links that stays within the pages, repeats none and ends in -1 is the free list: there is only one. */
  lemma FreeListIs(d: Disk, free: seq<int>)
    requires d != [] && Links(d, d[0].nextFree, free) && NoRepeats(free) && Within(free, Below(|d|))
    ensures FreeList(d) == free
  {
    LinksWalk(d, d[0].nextFree, free, Below(|d|));
  }

  lemma FreeListFacts(d: Disk)
    ensures NoRepeats(FreeList(d)) && Within(FreeList(d), Below(|d|))
  {
    if d != [] {
      WalkFacts(d, d[0].nextFree, Below(|d|));
    }
  }

  /** The links of a list do not change when the pages on it do not. */
  lemma {:induction false} LinksKept(d: Disk, e: Disk, p: int, free: seq<int>)
    requires Links(d, p, free) && |d| <= |e|
    requires forall i :: 0 <= i < |free| && 0 <= free[i] < |d| ==> e[free[i]].nextFree == d[free[i]].nextFree
    ensures Links(e, p, free)
    decreases |free|
  {
    if free != [] {
      assert e[free[0]].nextFree == d[free[0]].nextFree;
      forall i | 0 <= i < |free[1..]| && 0 <= free[1..][i] < |d|
        ensures e[free[1..][i]].nextFree == d[free[1..][i]].nextFree
      {
        assert free[1..][i] == free[i + 1];
      }
      LinksKept(d, e, d[p].nextFree, free[1..]);
    }
  }

  /** Pages 1 to numPages - 1 are split between the free list and the allocated pages; page 1 is never free. */
  lemma Partition(d: Disk, p: int)
    requires Sound(d)
    ensures 1 <= p < d[0].numPages <==> (Allocated(d, p) || Free(d, p))
    ensures !(Allocated(d, p) && Free(d, p))
    ensures d[0].numPages > 1 ==> Allocated(d, d[0].firstPage)
  {
  }

  /** The header page File::create writes. */
  function NewFile(): Disk {
    [Zero().(nextFree := -1, firstPage := -1, numPages := 1)]
  }

  lemma NewFileSound()
    ensures Sound(NewFile()) && forall p :: !Allocated(NewFile(), p)
  {
    FreeListIs(NewFile(), []);
  }

  // ---- raw reads and writes ----

  /** Writing behind the end of the file leaves a hole of zeros. */
  function Grown(d: Disk, n: nat): (e: Disk)
    ensures |e| == (if |d| < n then n else |d|)
    ensures forall i :: 0 <= i < |d| ==> e[i] == d[i]
  {
    if |d| < n then d + seq(n - |d|, i => Zero()) else d
  }

  function Written(d: Disk, p: nat, x: Image): (e: Disk)
    ensures |e| == (if |d| <= p then p + 1 else |d|)
    ensures e[p] == x && forall i :: 0 <= i < |d| && i != p ==> e[i] == d[i]
  {
    Grown(d, p + 1)[p := x]
  }

  /** Writing a page that is neither the header nor on the free list changes no link: soundness, the free
      list and the allocated pages stay. */
  lemma WriteKeepsSound(d: Disk, p: nat, x: Image)
    requires Sound(d) && p >= 1 && !Free(d, p)
    ensures Sound(Written(d, p, x)) && FreeList(Written(d, p, x)) == FreeList(d)
  {
    var e, free := Written(d, p, x), FreeList(d);
    FreeListFacts(d);
    LinksKept(d, e, d[0].nextFree, free);
    FreeListIs(e, free);
  }

  // ---- allocatePage ----

  /** What a call of allocatePage may leave behind.  Failing to write the header after extending the file
      leaves a page nobody knows of. */
  predicate AllocateOutcome(d: Disk, status: Status, pageNo: int, e: Disk) {
    d != [] &&
    var h, n := d[0], d[0].numPages;
    if status != OK then status == UNIXERR && (e == d || (h.nextFree == -1 && n >= 0 && e == Written(d, n, Zero())))
    else if h.nextFree != -1 then
      && pageNo == h.nextFree && 0 <= pageNo < |d|
      && e == Written(d, 0, h.(nextFree := d[pageNo].nextFree))
    else
      && pageNo == n >= 0
      && e == Written(Written(d, n, Zero()), 0, h.(numPages := n + 1, firstPage := if h.firstPage == -1 then n else h.firstPage))
  }

  lemma PopFree(d: Disk, e: Disk, pageNo: int)
    requires Sound(d) && d[0].nextFree == pageNo != -1 && |d| == |e|
    requires 0 <= pageNo < |d| && e[0].nextFree == d[pageNo].nextFree
    requires forall i :: 1 <= i < |d| ==> e[i] == d[i]
    ensures FreeList(d) == [pageNo] + FreeList(e) && Links(e, e[0].nextFree, FreeList(e))
    ensures !Free(e, pageNo) && forall p :: Free(d, p) <==> Free(e, p) || p == pageNo
  {
    var free := FreeList(d);
    FreeListFacts(d);
    hide FreeList;
    LinksKept(d, e, d[pageNo].nextFree, free[1..]);
    FreeListIs(e, free[1..]);
    assert free == [pageNo] + free[1..];
  }

  /** allocatePage returns a page that was not allocated and allocates that page and no other; when it
      fails nothing is allocated.  The file is sound in any case, and no allocated page changes. */
  lemma AllocateTheorem(d: Disk, status: Status, pageNo: int, e: Disk)
    requires Sound(d) && AllocateOutcome(d, status, pageNo, e)
    ensures Sound(e)
    ensures status == OK ==> !Allocated(d, pageNo) && forall p :: Allocated(e, p) <==> Allocated(d, p) || p == pageNo
    ensures status != OK ==> forall p :: Allocated(e, p) <==> Allocated(d, p)
    ensures forall p :: Allocated(d, p) ==> p < |d| && p < |e| && e[p] == d[p]
  {
    if status != OK {
      if e != d {
        WriteKeepsSound(d, d[0].numPages, Zero());
      }
    } else if d[0].nextFree != -1 {
      PopFree(d, e, pageNo);
    } else {
      FreeListIs(d, []);
      FreeListIs(e, []);
    }
    hide FreeList, Links, Below, Zero, Grown;
  }

  /** Which page it is: the first of the free list, or, when the list is empty, one more at the end of the file, filled with
      zeros.  Nothing but a failed read or write stands in the way. */
  lemma AllocateOrder(d: Disk, status: Status, pageNo: int, e: Disk)
    requires Sound(d) && AllocateOutcome(d, status, pageNo, e)
    ensures status == OK || status == UNIXERR
    ensures status == OK && FreeList(d) != [] ==>
      pageNo == FreeList(d)[0] && FreeList(e) == FreeList(d)[1..] && e[0].numPages == d[0].numPages && e[pageNo] == d[pageNo]
    ensures status == OK && FreeList(d) == [] ==>
      pageNo == d[0].numPages && FreeList(e) == [] && e[0].numPages == d[0].numPages + 1
      && e[pageNo] == Image(0, 0, 0, seq(1012, i => 0))
    ensures status != OK ==> FreeList(e) == FreeList(d) && e[0] == d[0]
  {
    if status != OK {
      if e != d {
        WriteKeepsSound(d, d[0].numPages, Zero());
      }
    } else if d[0].nextFree != -1 {
      PopFree(d, e, pageNo);
    } else {
      FreeListIs(d, []);
      FreeListIs(e, []);
    }
    hide Below;
  }

  // ---- disposePage ----

  predicate DisposeOutcome(d: Disk, pageNo: int, status: Status, e: Disk) {
    if pageNo < 1 then status == BADPAGENO && e == d
    else
      d != [] &&
      var h := d[0];
      if status == UNIXERR then
        e == d || (h.firstPage != pageNo && pageNo < h.numPages && pageNo < |d|
                   && e == Written(d, pageNo, Zero().(nextFree := h.nextFree)))
      else if h.firstPage == pageNo || pageNo >= h.numPages then status == BADPAGENO && e == d
      else
        && status == OK && pageNo < |d|
        && e == Written(Written(d, pageNo, Zero().(nextFree := h.nextFree)), 0, h.(nextFree := pageNo))
  }

  lemma PushFree(d: Disk, e: Disk, pageNo: int)
    requires Sound(d) && !Free(d, pageNo) && 1 <= pageNo < |d| == |e|
    requires e[0].nextFree == pageNo && e[pageNo].nextFree == d[0].nextFree
    requires forall i :: 1 <= i < |d| && i != pageNo ==> e[i] == d[i]
    ensures Links(e, e[0].nextFree, FreeList(e)) && FreeList(e) == [pageNo] + FreeList(d)
  {
    var free := FreeList(d);
    FreeListFacts(d);
    hide FreeList;
    assert forall i :: 0 <= i < |free| ==> Free(d, free[i]);
    LinksKept(d, e, d[0].nextFree, free);
    assert ([pageNo] + free)[1..] == free;
    FreeListIs(e, [pageNo] + free);
  }

  /** Disposing of a page that is not free puts it at the head of the free list, so that it is the next page
      to be allocated.  When disposePage fails no page changes hands, but the page's bytes may be lost. */
  lemma DisposeTheorem(d: Disk, pageNo: int, status: Status, e: Disk)
    requires Sound(d) && DisposeOutcome(d, pageNo, status, e) && !Free(d, pageNo)
    ensures Sound(e)
    ensures FreeList(e) == if status == OK then [pageNo] + FreeList(d) else FreeList(d)
    ensures forall p :: Allocated(e, p) <==> Allocated(d, p) && !(status == OK && p == pageNo)
    ensures forall p :: Allocated(d, p) && p != pageNo ==> p < |d| && p < |e| && e[p] == d[p]
    ensures status == OK ==> Allocated(d, pageNo)
  {
    if e == d {
    } else if status != OK {
      WriteKeepsSound(d, pageNo, Zero().(nextFree := d[0].nextFree));
    } else {
      hide FreeList, Links, Grown, Below, Zero;
      PushFree(d, e, pageNo);
    }
  }

  /** Which pages can be disposed of: every user page but the first of the file.  Nothing but a failed read or write stands
      in the way. */
  lemma DisposeStatus(d: Disk, pageNo: int, status: Status, e: Disk)
    requires d != [] && DisposeOutcome(d, pageNo, status, e)
    ensures status == OK || status == BADPAGENO || status == UNIXERR
    ensures status == OK <==> status != UNIXERR && 1 <= pageNo < d[0].numPages && pageNo != d[0].firstPage
    ensures status == BADPAGENO <==> pageNo < 1 || (status != UNIXERR && (pageNo >= d[0].numPages || pageNo == d[0].firstPage))
    ensures status == BADPAGENO ==> e == d
  {
  }

  /** The page disposed of last is the next to be allocated, and then the free list is as it was. */
  lemma DisposedThenAllocated(d: Disk, pageNo: int, e: Disk, p: int, f: Disk)
    requires Sound(d) && !Free(d, pageNo) && DisposeOutcome(d, pageNo, OK, e) && AllocateOutcome(e, OK, p, f)
    ensures p == pageNo && FreeList(f) == FreeList(d)
  {
    DisposeTheorem(d, pageNo, OK, e);
    AllocateOrder(e, OK, p, f);
    hide FreeList, Sound, DisposeOutcome, AllocateOutcome;
  }

  lemma {:induction false} LinkAfter(d: Disk, p: int, free: seq<int>, i: nat)
    requires Links(d, p, free) && i < |free|
    ensures 0 <= free[i] < |d|
    ensures i + 1 < |free| ==> d[free[i]].nextFree == free[i + 1]
    decreases i
  {
    if i > 0 {
      LinkAfter(d, d[p].nextFree, free[1..], i - 1);
    }
  }

  /** The pages of the list link to one another in a ring. */
  predicate Ring(d: Disk, ring: seq<int>) {
    forall i :: 0 <= i < |ring| ==>
      0 <= ring[i] < |d| && d[ring[i]].nextFree == ring[if i + 1 < |ring| then i + 1 else 0]
  }

  lemma {:induction false} RingHasNoEnd(d: Disk, ring: seq<int>, i: nat, free: seq<int>)
    requires Ring(d, ring) && i < |ring|
    ensures !Links(d, ring[i], free)
    decreases |free|
  {
    if free != [] {
      RingHasNoEnd(d, ring, if i + 1 < |ring| then i + 1 else 0, free[1..]);
    }
  }

  /** Once a free page has been linked to the head of the list, the links run in a ring, whether or not the header
      has been written too. */
  lemma RingTied(d: Disk, pageNo: int, e: Disk, both: bool)
    requires Sound(d) && Free(d, pageNo) && 1 <= pageNo < |d|
    requires var away := Written(d, pageNo, Zero().(nextFree := d[0].nextFree));
      e == if both then Written(away, 0, d[0].(nextFree := pageNo)) else away
    ensures !Sound(e)
  {
    var free := FreeList(d);
    FreeListFacts(d);
    var k :| 0 <= k < |free| && free[k] == pageNo;
    LinkAfter(d, d[0].nextFree, free, 0);
    var ring := if both then [pageNo] + free[..k] else free[..k + 1];
    hide FreeList, Links, Below, Written, Zero;
    if both {
      forall i | 0 <= i < |ring|
        ensures 0 <= ring[i] < |e| && e[ring[i]].nextFree == ring[if i + 1 < |ring| then i + 1 else 0]
      {
        LinkInRing(d, free, k, pageNo, e, both, i - 1);
      }
    } else {
      forall i | 0 <= i < |ring|
        ensures 0 <= ring[i] < |e| && e[ring[i]].nextFree == ring[if i + 1 < |ring| then i + 1 else 0]
      {
        LinkInRing(d, free, k, pageNo, e, both, i);
      }
    }
    RingHasNoEnd(e, ring, 0, FreeList(e));
  }

  /** Where the pages of the free list up to the k-th, and pageNo, link to. */
  lemma LinkInRing(d: Disk, free: seq<int>, k: nat, pageNo: int, e: Disk, both: bool, i: int)
    requires d != [] && Links(d, d[0].nextFree, free) && NoRepeats(free) && Within(free, Below(|d|))
    requires k < |free| && free[k] == pageNo && -1 <= i <= k
    requires var away := Written(d, pageNo, Zero().(nextFree := d[0].nextFree));
      e == if both then Written(away, 0, d[0].(nextFree := pageNo)) else away
    ensures |e| == |d| && 1 <= pageNo < |d|
    ensures i >= 0 ==> 1 <= free[i] < |d|
    ensures 0 <= i < k ==> e[free[i]].nextFree == free[i + 1]
    ensures e[pageNo].nextFree == free[0]
  {
    if i >= 0 {
      LinkAfter(d, d[0].nextFree, free, i);
    }
  }

  /** Disposing of a page twice ruins the free list, even when the call fails on the header: the file stays sound
      exactly when the page was not free already or nothing has been written. */
  lemma DoubleDispose(d: Disk, pageNo: int, status: Status, e: Disk)
    requires Sound(d) && DisposeOutcome(d, pageNo, status, e)
    ensures Sound(e) <==> !Free(d, pageNo) || e == d
  {
    if !Free(d, pageNo) {
      DisposeTheorem(d, pageNo, status, e);
    } else if e != d {
      RingTied(d, pageNo, e, status == OK);
    }
  }

  /** Such a second disposal does come about: pages 1 and 2 are in use but 2 is free, and disposing of 2 again succeeds. */
  lemma DisposedTwice() returns (d: Disk, e: Disk)
    ensures Sound(d) && Free(d, 2) && DisposeOutcome(d, 2, OK, e) && !Sound(e)
  {
    d := [Zero().(nextFree := 2, firstPage := 1, numPages := 3), Zero(), Zero().(nextFree := -1)];
    FreeListIs(d, [2]);
    e := Written(Written(d, 2, Zero().(nextFree := 2)), 0, d[0].(nextFree := 2));
    DoubleDispose(d, 2, OK, e);
  }

  // ---- reading and writing ----

  /** The Unix files. */
  class UnixFiles {
    var files: map<FileId, Disk>
    ghost var failures: nat    // reads and writes that have failed

    constructor (fs: map<FileId, Disk>)
      ensures files == fs && failures == 0
    {
      files, failures := fs, 0;
    }

    /** A call that makes one attempt to read or write ends in UNIXERR exactly when the attempt failed. */
    ghost function After(status: Status): nat
      reads this`failures
    {
      failures + if status == UNIXERR then 1 else 0
    }

    /** A read gives the page as it is on disk, or fails and gives anything. */
    method IntRead(file: FileId, pageNo: int) returns (status: Status, page: Image)
      requires file in files
      modifies this`failures
      ensures status == OK || status == UNIXERR
      ensures failures == old(After(status))
      ensures status == OK ==> 0 <= pageNo < |files[file]| && page == files[file][pageNo]
    {
      var broken := *;
      page := *;
      if broken || !(0 <= pageNo < |files[file]|) {
        failures := failures + 1;
        return UNIXERR, page;
      }
      return OK, files[file][pageNo];
    }

    /** A write replaces the page, or fails and leaves the file as it is. */
    method IntWrite(file: FileId, pageNo: int, page: Image) returns (status: Status)
      requires file in files
      modifies this
      ensures status == OK || status == UNIXERR
      ensures failures == old(After(status))
      ensures status == OK ==> 0 <= pageNo && files == old(files)[file := Written(old(files)[file], pageNo, page)]
      ensures status != OK ==> files == old(files)
    {
      var broken := *;
      if broken || pageNo < 0 {
        failures := failures + 1;
        return UNIXERR;
      }
      files := files[file := Written(files[file], pageNo, page)];
      status := OK;
    }

    method ReadPage(file: FileId, pageNo: int) returns (status: Status, page: Image)
      requires file in files
      modifies this`failures
      ensures failures == old(After(status))
      ensures status == BADPAGENO <==> pageNo < 1
      ensures status == OK || status == UNIXERR || status == BADPAGENO
      ensures status == OK ==> 1 <= pageNo < |files[file]| && page == files[file][pageNo]
    {
      if pageNo < 1 {
        return BADPAGENO, Zero();
      }
      status, page := IntRead(file, pageNo);
    }

    method WritePage(file: FileId, pageNo: int, page: Image) returns (status: Status)
      requires file in files
      modifies this
      ensures failures == old(After(status))
      ensures status == BADPAGENO <==> pageNo < 1
      ensures status == OK || status == UNIXERR || status == BADPAGENO
      ensures status == OK ==> files == old(files)[file := Written(old(files)[file], pageNo, page)]
      ensures status != OK ==> files == old(files)
    {
      if pageNo < 1 {
        return BADPAGENO;
      }
      status := IntWrite(file, pageNo, page);
    }

    /** Take a page from the free list, or else extend the file. */
    method AllocatePage(file: FileId) returns (status: Status, pageNo: int)
      requires file in files && files[file] != []
      modifies this
      ensures failures == old(After(status))
      ensures file in files && files == old(files)[file := files[file]]
      ensures AllocateOutcome(old(files)[file], status, pageNo, files[file])
      ensures status == OK || status == UNIXERR
    {
      pageNo := -1;
      var header;
      status, header := IntRead(file, 0);
      if status != OK {
        return;
      }
      if header.nextFree != -1 {
        pageNo := header.nextFree;
        var firstFree;
        status, firstFree := IntRead(file, pageNo);
        if status != OK {
          return;
        }
        header := header.(nextFree := firstFree.nextFree);
      } else {
        pageNo := header.numPages;
        status := IntWrite(file, pageNo, Zero());
        if status != OK {
          return;
        }
        header := header.(numPages := header.numPages + 1);
        if header.firstPage == -1 {
          header := header.(firstPage := pageNo);
        }
      }
      status := IntWrite(file, 0, header);
    }

    /** Put a page at the head of the free list. */
    method DisposePage(file: FileId, pageNo: int) returns (status: Status)
      requires file in files && files[file] != []
      modifies this
      ensures failures == old(After(status))
      ensures file in files && files == old(files)[file := files[file]]
      ensures DisposeOutcome(old(files)[file], pageNo, status, files[file])
      ensures status == OK || status == BADPAGENO || status == UNIXERR
      ensures var h := old(files)[file][0];
        && (status == OK <==> status != UNIXERR && 1 <= pageNo < h.numPages && pageNo != h.firstPage)
        && (status == BADPAGENO <==> pageNo < 1 || (status != UNIXERR && (pageNo >= h.numPages || pageNo == h.firstPage)))
    {
      if pageNo < 1 {
        return BADPAGENO;
      }
      var header, away;
      status, header := IntRead(file, 0);
      if status != OK {
        return;
      }
      if header.firstPage == pageNo || pageNo >= header.numPages {
        return BADPAGENO;
      }
      status, away := IntRead(file, pageNo);
      if status != OK {
        return;
      }
      away := Zero().(nextFree := header.nextFree);
      header := header.(nextFree := pageNo);
      status := IntWrite(file, pageNo, away);
      if status != OK {
        return;
      }
      status := IntWrite(file, 0, header);
    }
  }
}
