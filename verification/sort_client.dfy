/** What a client of the external sort gets: all records in order, and again from a mark. */
module SortClients {
  import opened Bytes
  import opened ScanFilter
  import opened HeapView
  import opened PagedFiles
  import opened SortView
  import opened SortedFiles
  import opened SortBuilding

  /** The first n records, or all if there are fewer. */
  function Front(s: seq<bytes>, n: nat): seq<bytes> {
    if n <= |s| then s[..n] else s
  }

  function Behind(s: seq<bytes>, n: nat): seq<bytes> {
    if n <= |s| then s[n..] else []
  }

  /** What a mark set after n calls of next() brings back: the record the last call returned, and what comes behind it. */
  function FromMark(s: seq<bytes>, n: nat): seq<bytes> {
    if 1 <= n <= |s| then s[n - 1..] else []
  }

  /** Call next() until it returns FILEEOF. */
  method Drain(sorted: SortedFile) returns (out: seq<bytes>)
    requires sorted.Valid()
    modifies sorted`runs, Scans(sorted.runs), Files(sorted.runs)`pins, Files(sorted.runs)`unsaved
    ensures sorted.Valid() && SameScans(old(sorted.runs), sorted.runs)
    ensures out == old(sorted.Rest()) && sorted.Rest() == []
    ensures old(sorted.Marked()) ==> sorted.Marked() && sorted.MarkRest() == old(sorted.MarkRest())
  {
    hide SortedFile.Valid, SortedFile.Rest, SortedFile.Again, SortedFile.Marked, SortedFile.MarkRest, Scans, Files, Frames;
    out := [];
    var status, rec := CallNext(sorted);
    while status == OK
      invariant sorted.Valid() && SameScans(old(sorted.runs), sorted.runs)
      invariant old(sorted.Rest()) == out + (if status == OK then [rec] else []) + sorted.Rest()
      invariant status != OK ==> sorted.Rest() == []
      invariant old(sorted.Marked()) ==> sorted.Marked() && sorted.MarkRest() == old(sorted.MarkRest())
      decreases |sorted.Rest()|, status == OK
    {
      out := out + [rec];
      SameFrames(old(sorted.runs), sorted.runs);
      status, rec := CallNext(sorted);
    }
  }

  /** One call of next(). */
  method CallNext(sorted: SortedFile) returns (status: Status, rec: bytes)
    requires sorted.Valid()
    modifies sorted`runs, Scans(sorted.runs), Files(sorted.runs)`pins, Files(sorted.runs)`unsaved
    ensures sorted.Valid() && SameScans(old(sorted.runs), sorted.runs)
    ensures status == if old(sorted.Rest()) == [] then FILEEOF else OK
    ensures old(sorted.Rest()) == (if status == OK then [rec] else []) + sorted.Rest()
    ensures sorted.Again() == old(sorted.Rest())
    ensures old(sorted.Marked()) ==> sorted.Marked() && sorted.MarkRest() == old(sorted.MarkRest())
  {
    hide SortedFile.Valid, SortedFile.Rest, SortedFile.Again, SortedFile.Marked, SortedFile.MarkRest;
    status, rec := sorted.Next();
  }

  /** Call next() n times, past the end or not. */
  method Take(sorted: SortedFile, n: nat) returns (out: seq<bytes>)
    requires sorted.Valid()
    modifies sorted`runs, Scans(sorted.runs), Files(sorted.runs)`pins, Files(sorted.runs)`unsaved
    ensures sorted.Valid() && SameScans(old(sorted.runs), sorted.runs)
    ensures out == Front(old(sorted.Rest()), n) && sorted.Rest() == Behind(old(sorted.Rest()), n)
    ensures sorted.Again() == if n == 0 then old(sorted.Again()) else FromMark(old(sorted.Rest()), n)
    ensures old(sorted.Marked()) ==> sorted.Marked() && sorted.MarkRest() == old(sorted.MarkRest())
  {
    hide SortedFile.Valid, SortedFile.Rest, SortedFile.Again, SortedFile.Marked, SortedFile.MarkRest, Scans, Files, Frames;
    out := [];
    ghost var all := sorted.Rest();
    var i := 0;
    while i < n
      invariant i <= n && sorted.Valid() && SameScans(old(sorted.runs), sorted.runs)
      invariant out == Front(all, i) && sorted.Rest() == Behind(all, i)
      invariant sorted.Again() == if i == 0 then old(sorted.Again()) else FromMark(all, i)
      invariant old(sorted.Marked()) ==> sorted.Marked() && sorted.MarkRest() == old(sorted.MarkRest())
    {
      SameFrames(old(sorted.runs), sorted.runs);
      var status, rec := CallNext(sorted);
      if status == OK {
        out := out + [rec];
      }
      i := i + 1;
    }
  }

  /** Sort a file and read the result to its end: a permutation of the file's records; strings and floating-point numbers
      in ascending order, and integers too where no difference of two of them overflows. */
  method SortAll(src: PagedFile, offset: int, length: int, t: Datatype, maxItems: int, probes: seq<Status>)
      returns (status: Status, out: seq<bytes>)
    requires src.Valid() && src.WellFormed()
    requires Acceptable(offset, length, t) ==> AllOfFile(KeyOf(offset, length, t), src.View(), AllRecs(src.View()))
    modifies src`pins, src`unsaved
    ensures src.Valid() && src.WellFormed() && (status == OK ==> src.pins == old(src.pins))
    ensures status == BADSORTPARM <==> offset < 0 || length < 1 || ((t == INTEGER || t == FLOAT) && length != 4)
    ensures status == INSUFMEM <==> status != BADSORTPARM && maxItems < 2
    ensures status in {OK, BADSORTPARM, INSUFMEM} || (status in {FILEEXISTS, UNIXERR} && status in probes)
    ensures status == OK ==> Acceptable(offset, length, t) && multiset(out) == Bag(src.View())
    ensures status == OK && AllAgree(KeyOf(offset, length, t), Bag(src.View())) ==> Sorted(KeyOf(offset, length, t), out)
    ensures status == OK && t == STRING ==> AscendingStrings(out, offset, length)
    ensures status == OK && t == FLOAT ==> AscendingFloats(out, offset)
    ensures status == OK && t == INTEGER && NoneOverflows(Bag(src.View()), offset) ==> AscendingInts(out, offset)
  {
    hide PagedFile.Valid, PagedFile.WellFormed, PagedFile.View, AllRecs, AllOfFile, Bag;
    hide Sorted, AllAgree, SortedFile.Valid, SortedFile.Rest, SortedFile.Again, NoneOverflows;
    hide AscendingInts, AscendingFloats, AscendingStrings;
    var sorted;
    out := [];
    status, sorted := SortFile(src, offset, length, t, maxItems, probes);
    if status == OK {
      InOrder(sorted.key, Bag(src.View()), sorted.Rest());
      out := Drain(sorted);
    }
  }

  /** No difference of two of the integers at the offset leaves 32 bits. */
  ghost predicate NoneOverflows(m: multiset<bytes>, offset: int) {
    forall r, q :: r in m && q in m && 0 <= offset && offset + 4 <= |r| && offset + 4 <= |q| ==>
      -0x8000_0000 <= Int32(r[offset..offset + 4]) - Int32(q[offset..offset + 4]) < 0x8000_0000
  }

  /** The integers, numbers or strings at the offset are in order.  A string is greater than another if it is at the first
      place where they differ. */
  predicate IntsInOrder(r: bytes, q: bytes, offset: int) {
    && 0 <= offset && offset + 4 <= |r| && offset + 4 <= |q|
    && Int32(r[offset..offset + 4]) <= Int32(q[offset..offset + 4])
  }

  predicate FloatsInOrder(r: bytes, q: bytes, offset: int) {
    && 0 <= offset && offset + 4 <= |r| && offset + 4 <= |q|
    && FloatOf(r[offset..offset + 4]).Finite? && FloatOf(q[offset..offset + 4]).Finite?
    && FloatOf(r[offset..offset + 4]).r <= FloatOf(q[offset..offset + 4]).r
  }

  ghost predicate StringsInOrder(r: bytes, q: bytes, offset: int, length: int) {
    && 0 <= offset && 1 <= length && offset + length <= |r| && offset + length <= |q|
    && NotAfter(r[offset..offset + length], q[offset..offset + length])
  }

  ghost predicate AscendingInts(s: seq<bytes>, offset: int) {
    forall i, j :: 0 <= i < j < |s| ==> IntsInOrder(s[i], s[j], offset)
  }

  ghost predicate AscendingFloats(s: seq<bytes>, offset: int) {
    forall i, j :: 0 <= i < j < |s| ==> FloatsInOrder(s[i], s[j], offset)
  }

  ghost predicate AscendingStrings(s: seq<bytes>, offset: int, length: int) {
    forall i, j :: 0 <= i < j < |s| ==> StringsInOrder(s[i], s[j], offset, length)
  }

  /** The sort's own notion of order is this one. */
  lemma InOrder(k: SortKey, m: multiset<bytes>, s: seq<bytes>)
    requires Acceptable(k.offset, k.length, k.attrType) && (AllAgree(k, m) ==> Sorted(k, s))
    ensures k.attrType == STRING ==> AscendingStrings(s, k.offset, k.length)
    ensures k.attrType == FLOAT ==> AscendingFloats(s, k.offset)
    ensures k.attrType == INTEGER && NoneOverflows(m, k.offset) ==> AscendingInts(s, k.offset)
  {
    hide Sorted, AllAgree, FloatOf, Int32, IntsInOrder, FloatsInOrder, StringsInOrder;
    if k.attrType != INTEGER || NoneOverflows(m, k.offset) {
      AgreeMeans(k, m);
      forall i, j | 0 <= i < j < |s|
        ensures k.attrType == STRING ==> StringsInOrder(s[i], s[j], k.offset, k.length)
        ensures k.attrType == FLOAT ==> FloatsInOrder(s[i], s[j], k.offset)
        ensures k.attrType == INTEGER ==> IntsInOrder(s[i], s[j], k.offset)
      {
        PairInOrder(k, s, i, j);
      }
    }
  }

  lemma PairInOrder(k: SortKey, s: seq<bytes>, i: nat, j: nat)
    requires Acceptable(k.offset, k.length, k.attrType) && Sorted(k, s) && i < j < |s|
    ensures k.attrType == STRING ==> StringsInOrder(s[i], s[j], k.offset, k.length)
    ensures k.attrType == FLOAT ==> FloatsInOrder(s[i], s[j], k.offset)
    ensures k.attrType == INTEGER ==> IntsInOrder(s[i], s[j], k.offset)
  {
    hide Sorted, FloatOf, Int32;
    SortedMeans(k, s, i, j);
  }

  /** Read, mark, read on, go back and read to the end: what comes again starts with the record returned last before the
      mark.  When the last call before the mark was past the end, nothing comes again. */
  method ReadAgain(sorted: SortedFile, before: nat, between: nat) returns (head: seq<bytes>, skipped: seq<bytes>, again: seq<bytes>)
    requires sorted.Valid()
    modifies sorted`runs, Scans(sorted.runs), Files(sorted.runs)`pins, Files(sorted.runs)`unsaved
    ensures sorted.Valid() && SameScans(old(sorted.runs), sorted.runs)
    ensures head == Front(old(sorted.Rest()), before)
    ensures skipped == Front(Behind(old(sorted.Rest()), before), between)
    ensures again == if before == 0 then old(sorted.Again()) else FromMark(old(sorted.Rest()), before)
  {
    hide SortedFile.Valid, SortedFile.Rest, SortedFile.Again, SortedFile.Marked, SortedFile.MarkRest;
    ghost var runs := sorted.runs;
    head := Take(sorted, before);
    SameFrames(runs, sorted.runs);
    sorted.SetMark();
    SameFrames(runs, sorted.runs);
    skipped := Take(sorted, between);
    SameFrames(runs, sorted.runs);
    sorted.GotoMark();
    SameFrames(runs, sorted.runs);
    again := Drain(sorted);
  }

  /** The same from the source file on: a mark after `before` records brings back the sorted sequence from the last of
      them on, however much has been read in between, and a mark before the first record brings back nothing. */
  method SortAndReadAgain(src: PagedFile, key: SortKey, maxItems: int, probes: seq<Status>, before: nat, between: nat)
      returns (status: Status, ghost all: seq<bytes>, head: seq<bytes>, skipped: seq<bytes>, again: seq<bytes>)
    requires src.Valid() && src.WellFormed()
    requires Acceptable(key.offset, key.length, key.attrType) ==> AllOfFile(key, src.View(), AllRecs(src.View()))
    modifies src`pins, src`unsaved
    ensures src.Valid() && src.WellFormed() && (status == OK ==> src.pins == old(src.pins))
    ensures status == OK ==> multiset(all) == Bag(src.View()) && (AllAgree(key, Bag(src.View())) ==> Sorted(key, all))
    ensures status == OK ==> head == Front(all, before) && skipped == Front(Behind(all, before), between)
    ensures status == OK ==> again == FromMark(all, before)
  {
    hide PagedFile.Valid, PagedFile.WellFormed, PagedFile.View, AllRecs, AllOfFile, Bag, Front, Behind, FromMark;
    hide Sorted, AllAgree, SortedFile.Valid, SortedFile.Rest, SortedFile.Again;
    var sorted;
    head, skipped, again, all := [], [], [], [];
    status, sorted := SortFile(src, key.offset, key.length, key.attrType, maxItems, probes);
    if status == OK {
      all := sorted.Rest();
      NoMark(all);
      head, skipped, again := ReadAgain(sorted, before, between);
    }
  }

  lemma NoMark(s: seq<bytes>)
    ensures FromMark(s, 0) == []
  {
  }
}
