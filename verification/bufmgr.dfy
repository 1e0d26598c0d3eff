/** The buffer manager itself: frame table, pool and hash table changed in place. */
module BufferManager {
  import opened Bytes
  import opened FileLayer
  import opened Clock
  import opened BufferHash
  import opened BufferView
  import opened BufferSteps

  class BufMgr {
    const bufTable: array<Frame>
    const bufPool: array<Image>
    const hashTable: BufHashTbl
    const disk: UnixFiles
    var clockHand: nat

    ghost predicate Separate()
      reads this, hashTable, hashTable.ht, hashTable.Repr
    {
      hashTable.Valid() && bufTable.Length == bufPool.Length
    }

    ghost function State(): State
      reads this, bufTable, bufPool, hashTable`table, disk`files
    {
      BufferView.State(bufTable[..], bufPool[..], clockHand, hashTable.table, disk.files)
    }

    ghost predicate Valid()
      reads this, bufTable, bufPool, hashTable, hashTable.ht, hashTable.Repr, disk`files
    {
      Separate() && Wired(State())
    }

    /** The constructor: every frame is empty. */
    constructor (bufs: nat, files: UnixFiles)
      requires bufs > 0
      ensures Valid() && disk == files && hashTable.table == map[]
      ensures fresh(this) && fresh(bufTable) && fresh(bufPool) && fresh(hashTable) && fresh(hashTable.ht) && fresh(hashTable.Repr)
      ensures Tidy(State()) <==> FilesSound(files.files)
      ensures Coherent(State(), {})
    {
      bufTable := new Frame[bufs](i => Frame(None, 0, i, 0, false, false, false));
      bufPool := new Image[bufs](i => Zero());
      var htsize := ((bufs * 12 / 10) * 2) / 2 + 1;
      hashTable := new BufHashTbl(htsize);
      disk, clockHand := files, bufs - 1;
      new;
      assert forall i :: 0 <= i < bufs ==> FrameOk(State(), i) && FrameTidy(State(), i) && FrameCoherent(State(), {}, i);
    }

    /** The chosen frame's page leaves the pool: it is written back if it is dirty, and if that fails it stays. */
    method Vacate(v: nat) returns (status: Status)
      requires Valid() && v < bufTable.Length && bufTable[v].valid
      modifies bufTable, hashTable, hashTable.ht, hashTable.Repr, disk
      ensures disk.failures == old(disk.After(status))
      ensures hashTable.Repr == old(hashTable.Repr) && Separate()
      ensures status == OK || (status == UNIXERR && old(bufTable[v]).dirty)
      ensures FrameOk(old(State()), v)
      ensures State() == if status == OK then Evict(old(State()), v) else old(State())
    {
      hide Wired, Written, BufHashTbl.Valid;
      ghost var s := State();
      FrameFacts(s, v);
      var f := bufTable[v];
      if f.dirty {
        status := disk.WritePage(f.file.value, f.pageNo, bufPool[v]);
        if status != OK {
          return;
        }
      }
      var st := hashTable.Remove(KeyOf(f));
      bufTable[v] := f.Clear();
      status := OK;
    }

    lemma FrameFacts(s: State, v: nat)
      requires Wired(s) && v < |s.frames|
      ensures FrameOk(s, v)
    {
    }

    method UnderTheHand() returns (f: Frame)
      requires Separate() && clockHand < bufTable.Length
      ensures clockHand == State().hand < |State().frames| && f == State().frames[clockHand]
    {
      f := bufTable[clockHand];
    }

    method AdvanceClock()
      requires Separate() && clockHand < bufTable.Length
      modifies this`clockHand
      ensures Separate() && State() == old(State()).(hand := Advance(old(clockHand), bufTable.Length))
      ensures clockHand == Advance(old(clockHand), bufTable.Length)
    {
      clockHand := Advance(clockHand, bufTable.Length);
    }

    method Unreference()
      requires Separate() && clockHand < bufTable.Length
      modifies bufTable
      ensures Separate() && clockHand < |old(State()).frames|
      ensures State() == Repinned(old(State()), clockHand, old(State()).frames[clockHand].(refbit := false))
    {
      bufTable[clockHand] := bufTable[clockHand].(refbit := false);
    }

    /** allocBuf: let the clock find a frame, and empty it. */
    method AllocBuf() returns (status: Status, frame: nat)
      requires Valid()
      modifies this, bufTable, hashTable, hashTable.ht, hashTable.Repr, disk
      ensures disk.failures == old(disk.After(status))
      ensures Valid() && hashTable.Repr == old(hashTable.Repr)
      ensures AllocBufStep(old(State()), status, frame, State())
      ensures frame < bufTable.Length && (status == OK || status == BUFFEREXCEEDED || status == UNIXERR)
    {
      ghost var s, fs, start, n := State(), bufTable[..], clockHand, bufTable.Length;
      StartOver(fs, start);
      ShapeOf(s);
      assert Separate() && Wired(s) && s.frames == fs && s.hand == start && |fs| == n;
      assert s.(frames := fs, hand := start) == s;
      hide *;
      var i := 0;
      frame := 0;
      while i < 2 * bufTable.Length
        invariant i <= 2 * n && Separate() && hashTable.Repr == old(hashTable.Repr) && disk.failures == old(disk.failures)
        invariant clockHand == HandAt(start, i, n) < n && Searched(fs, start, i)
        invariant State() == s.(frames := Passed(fs, start, i), hand := clockHand)
      {
        SearchStep(s, i, State());
        var f := UnderTheHand();
        if !f.valid {
          frame := clockHand;
          status := OK;
          NowValid(status);
          return;
        } else if f.refbit {
          Unreference();
          AdvanceClock();
          i := i + 1;
        } else if f.pinCnt > 0 {
          AdvanceClock();
          i := i + 1;
        } else {
          frame := clockHand;
          status := TakeVictim(frame, s);
          return;
        }
      }
      SearchFails(s, State(), frame);
      status := BUFFEREXCEEDED;
      NowValid(status);
    }

    lemma NowValid(status: Status)
      requires Separate() && Wired(State())
      ensures Valid() && (status != UNIXERR ==> disk.After(status) == disk.failures)
    {
      hide Wired, BufHashTbl.Valid;
    }

    /** Empty the frame the clock stands on. */
    method TakeVictim(frame: nat, ghost s: State) returns (status: Status)
      requires Separate() && Wired(s) && frame < |s.frames| && Victim(s.frames, s.hand) == Some(frame) && s.frames[frame].valid
      requires State() == s.(frames := Swept(s.frames, s.hand), hand := frame)
      modifies bufTable, hashTable, hashTable.ht, hashTable.Repr, disk
      ensures disk.failures == old(disk.After(status))
      ensures Valid() && hashTable.Repr == old(hashTable.Repr)
      ensures AllocBufStep(s, status, frame, State()) && (status == OK || status == UNIXERR)
    {
      FoundFrame(s, State(), frame);
      ghost var t := State();
      EvictWired(t, frame);
      hide Victim, Swept, Wired, Evict, Emptied, Looked, BufHashTbl.Valid;
      status := Vacate(frame);
    }

    lemma StartOver(fs: Frames, start: nat)
      requires start < |fs|
      ensures Passed(fs, start, 0) == fs && Searched(fs, start, 0) && HandAt(start, 0, |fs|) == start
      ensures HandAt(start, 2 * |fs|, |fs|) == start
    {
    }

    lemma ShapeOf(s: State)
      requires Wired(s)
      ensures Shape(s) && forall j :: 0 <= j < |s.frames| ==> s.frames[j].pinCnt >= 0 && s.frames[j].frameNo == j
    {
      forall j | 0 <= j < |s.frames|
        ensures s.frames[j].pinCnt >= 0 && s.frames[j].frameNo == j
      {
        assert FrameOk(s, j);
      }
    }

    /** The clock stands on the frame it has chosen. */
    lemma FoundFrame(s: State, t: State, v: nat)
      requires Wired(s) && v < |s.frames| && Victim(s.frames, s.hand) == Some(v)
      requires t == s.(frames := Swept(s.frames, s.hand), hand := v)
      ensures t == Looked(s) && Wired(t) && |t.frames| == |s.frames| && t.frames[v].valid == s.frames[v].valid
      ensures t.frames[v].dirty == s.frames[v].dirty && FrameOk(t, v) && Emptied(s) == Evict(t, v)
    {
      LookedAlike(s);
      AlikeKeeps(s, t, {});
      hide Victim, Swept;
      assert FrameOk(t, v) && FrameOk(s, v);
    }

    /** One look of the search, at the frame under the hand. */
    lemma SearchStep(s: State, i: nat, t: State)
      requires Wired(s) && Searched(s.frames, s.hand, i) && i < 2 * |s.frames|
      requires t == s.(frames := Passed(s.frames, s.hand, i), hand := HandAt(s.hand, i, |s.frames|))
      ensures var h := t.hand; var f := t.frames[h];
        && (!f.valid ==> AllocBufStep(s, OK, h, t) && Wired(t))
        && (f.valid && !f.refbit && f.pinCnt <= 0 ==> Victim(s.frames, s.hand) == Some(h) && s.frames[h].valid)
        && (f.valid && !f.refbit && f.pinCnt <= 0 ==> t.frames == Swept(s.frames, s.hand))
        && (f.valid && (f.refbit || f.pinCnt > 0) ==> Searched(s.frames, s.hand, i + 1))
        && (f.valid && (f.refbit || f.pinCnt > 0) ==> Advance(h, |s.frames|) == HandAt(s.hand, i + 1, |s.frames|))
        && (f.valid && f.refbit ==> Passed(s.frames, s.hand, i + 1) == t.frames[h := f.(refbit := false)])
        && (f.valid && !f.refbit && f.pinCnt > 0 ==> Passed(s.frames, s.hand, i + 1) == t.frames)
    {
      ShapeOf(s);
      hide Passed, Searched, Victim, Swept, Wired, HandAt, Advance, AllocBufStep;
      UnderHand(s.frames, s.hand, i);
      HandAdvances(s.hand, i, |s.frames|);
      if !t.frames[t.hand].valid {
        FoundEmpty(s, t, t.hand);
      }
    }

    lemma FoundEmpty(s: State, t: State, v: nat)
      requires Wired(s) && v < |s.frames| && Victim(s.frames, s.hand) == Some(v) && !s.frames[v].valid
      requires t == s.(frames := Swept(s.frames, s.hand), hand := v)
      ensures AllocBufStep(s, OK, v, t) && Wired(t)
    {
      FoundFrame(s, t, v);
    }

    lemma SearchFails(s: State, t: State, v: nat)
      requires Wired(s) && Searched(s.frames, s.hand, 2 * |s.frames|)
      requires t == s.(frames := Passed(s.frames, s.hand, 2 * |s.frames|))
      ensures AllocBufStep(s, BUFFEREXCEEDED, v, t) && Wired(t)
    {
      NothingFound(s.frames, s.hand);
      NoFrameFacts(s, BUFFEREXCEEDED, t, {});
    }

    /** Find the entry of the frame table that carries the frame number. */
    method Target(frame: int) returns (target: nat)
      requires 0 <= frame < bufTable.Length && forall i :: 0 <= i < bufTable.Length ==> bufTable[i].frameNo == i
      ensures target == frame
    {
      target := 0;
      while target < bufTable.Length
        invariant target <= frame
      {
        if bufTable[target].frameNo == frame {
          return;
        }
        target := target + 1;
      }
    }

    /** readPage: the frame where the page is, pinned once more. */
    method ReadPage(file: FileId, pageNo: int) returns (status: Status, page: nat)
      requires Valid() && file in disk.files
      modifies this, bufTable, bufPool, hashTable, hashTable.ht, hashTable.Repr, disk
      ensures disk.failures == old(disk.After(status))
      ensures Valid() && fresh(hashTable.Repr - old(hashTable.Repr))
      ensures ReadStep(old(State()), Key(file, pageNo), status, State())
      ensures status == OK ==> Key(file, pageNo) in hashTable.table && hashTable.table[Key(file, pageNo)] == page
    {
      hide Wired, ReadStep, ReadInto, AllocBufStep, BufHashTbl.Valid;
      ghost var s := State();
      page := 0;
      var st, frame := hashTable.Lookup(Key(file, pageNo));
      if st != OK {
        var v;
        status, v := AllocBuf();
        if status != OK {
          MissFails(s, Key(file, pageNo), status, v, State());
          return;
        }
        ghost var u := State();
        FrameReady(s, Key(file, pageNo), v, u);
        status := ReadIn(file, pageNo, v);
        page := v;
        MissEnds(s, Key(file, pageNo), v, u, status, State());
      } else {
        EntryFacts(s, Key(file, pageNo));
        ShapeOf(s);
        var target := Target(frame);
        bufTable[target] := bufTable[target].(pinCnt := bufTable[target].pinCnt + 1, refbit := true);
        page := target;
        status := OK;
        Hit(s, Key(file, pageNo), State());
      }
    }

    /** Read the page into the empty frame v and enter it in the hash table. */
    method ReadIn(file: FileId, pageNo: int, v: nat) returns (status: Status)
      requires Valid() && v < bufTable.Length && !bufTable[v].valid && file in disk.files
      requires Key(file, pageNo) !in hashTable.table
      modifies bufTable, bufPool, hashTable, hashTable.ht, hashTable.Repr, disk`failures
      ensures disk.failures == old(disk.After(status))
      ensures Valid() && fresh(hashTable.Repr - old(hashTable.Repr))
      ensures ReadInto(old(State()), v, Key(file, pageNo), status, State())
      ensures status == OK ==> Key(file, pageNo) in hashTable.table && hashTable.table[Key(file, pageNo)] == v
    {
      ghost var u := State();
      var k := Key(file, pageNo);
      ShapeOf(u);
      hide Wired, ReadInto, BufHashTbl.Valid;
      var image;
      status, image := disk.ReadPage(file, pageNo);
      bufPool[v] := image;
      if status == OK {
        var target := Target(v);
        status := Enter(k, target);
      }
      ReadEnds(u, v, k, status, image, State());
    }

    lemma ReadEnds(u: State, v: nat, k: Key, status: Status, x: Image, t: State)
      requires Wired(u) && v < |u.frames| && !u.frames[v].valid && k !in u.table && k.file in u.files
      requires status == OK ==> k.pageNo >= 1 && OnDisk(u.files, k) == Some(x) && t == Install(u, v, k, x)
      requires status != OK ==> (status == UNIXERR || (status == BADPAGENO && k.pageNo < 1)) && t == Scribble(u, v, x)
      ensures ReadInto(u, v, k, status, t) && Wired(t)
    {
      ReadMiss(u, v, k, status, t, {});
    }

    /** Set up frame v for the page and enter the page in the hash table. */
    method Enter(k: Key, v: nat) returns (status: Status)
      requires Separate() && v < bufTable.Length
      modifies bufTable, hashTable, hashTable.ht, hashTable.Repr
      ensures Separate() && fresh(hashTable.Repr - old(hashTable.Repr))
      ensures status == if k in old(hashTable.table) then HASHTBLERROR else OK
      ensures var t := Install(old(State()), v, k, old(bufPool[v]));
        State() == if status == OK then t else t.(table := old(hashTable.table))
    {
      bufTable[v] := bufTable[v].Set(k.file, k.pageNo);
      status := hashTable.Insert(k, v);
    }

    lemma Hit(s: State, k: Key, t: State)
      requires Wired(s) && k in s.table && 0 <= s.table[k] < |s.frames|
      requires var f := s.frames[s.table[k]]; t == Repinned(s, s.table[k], f.(pinCnt := f.pinCnt + 1, refbit := true))
      ensures ReadStep(s, k, OK, t) && Wired(t)
    {
      ReadHit(s, k, t, {});
    }

    lemma MissFails(s: State, k: Key, status: Status, v: nat, t: State)
      requires Wired(s) && k !in s.table && status != OK && AllocBufStep(s, status, v, t)
      ensures ReadStep(s, k, status, t)
    {
    }

    lemma FrameReady(s: State, k: Key, v: nat, u: State)
      requires Wired(s) && k !in s.table && k.file in s.files && AllocBufStep(s, OK, v, u)
      ensures k !in u.table && k.file in u.files && v < |u.frames| && !u.frames[v].valid
    {
      EmptiedFacts(s, {});
    }

    lemma MissEnds(s: State, k: Key, v: nat, u: State, status: Status, t: State)
      requires Wired(s) && k !in s.table && AllocBufStep(s, OK, v, u) && ReadInto(u, v, k, status, t)
      ensures ReadStep(s, k, status, t)
    {
    }

    /** unPinPage: take one pin away, and remember that the page has been changed. */
    method UnPinPage(file: FileId, pageNo: int, dirty: bool) returns (status: Status)
      requires Valid()
      modifies bufTable
      ensures Valid()
      ensures UnpinStep(old(State()), Key(file, pageNo), dirty, status, State())
    {
      ghost var s, k := State(), Key(file, pageNo);
      hide Wired, UnpinStep, BufHashTbl.Valid;
      var frame;
      status, frame := hashTable.Lookup(Key(file, pageNo));
      if status != OK {
        UnpinDone(s, k, dirty, status, State());
        return;
      }
      EntryFacts(s, k);
      if bufTable[frame].pinCnt == 0 {
        UnpinDone(s, k, dirty, PAGENOTPINNED, State());
        return PAGENOTPINNED;
      }
      bufTable[frame] := bufTable[frame].(pinCnt := bufTable[frame].pinCnt - 1, dirty := bufTable[frame].dirty || dirty);
      status := OK;
      UnpinDone(s, k, dirty, status, State());
    }

    lemma UnpinDone(s: State, k: Key, dirty: bool, status: Status, t: State)
      requires Wired(s) && (k in s.table ==> 0 <= s.table[k] < |s.frames|)
      requires if k !in s.table then status == HASHNOTFOUND && t == s else
        var f := s.frames[s.table[k]];
        if f.pinCnt == 0 then status == PAGENOTPINNED && t == s
        else status == OK && t == Repinned(s, s.table[k], f.(pinCnt := f.pinCnt - 1, dirty := f.dirty || dirty))
      ensures UnpinStep(s, k, dirty, status, t) && Wired(t)
    {
      UnpinKeeps(s, k, dirty, status, t, {});
    }

    /** allocPage: a new page of the file in an emptied frame, pinned; HASHTBLERROR would mean that the page was in
        the pool already. */
    method AllocPage(file: FileId) returns (status: Status, pageNo: int, page: nat, ghost fileStatus: Status, ghost e: Disk)
      requires Valid() && file in disk.files && HeadOk(disk.files[file])
      modifies this, bufTable, hashTable, hashTable.ht, hashTable.Repr, disk
      ensures disk.failures == old(disk.After(status))
      ensures Separate() && fresh(hashTable.Repr - old(hashTable.Repr))
      ensures file in old(State()).files && AllocStep(old(State()), file, fileStatus, pageNo, e, status, State())
      ensures Valid() <==> status != HASHTBLERROR
      ensures status == OK ==> Key(file, pageNo) in hashTable.table && hashTable.table[Key(file, pageNo)] == page
    {
      ghost var s := State();
      hide Wired, AllocStep, AllocateOutcome, BufHashTbl.Valid, BufMgr.State;
      page := 0;
      status, pageNo, e := NewPage(file);
      fileStatus := status;
      if status != OK {
        AllocDone(s, file, fileStatus, pageNo, e, State(), 0, State(), status, State());
        return;
      }
      status, page := Admit(file, pageNo, s, e);
    }

    /** The file layer's part of allocPage. */
    method NewPage(file: FileId) returns (status: Status, pageNo: int, ghost e: Disk)
      requires Valid() && file in disk.files && HeadOk(disk.files[file])
      modifies disk
      ensures disk.failures == old(disk.After(status))
      ensures Valid() && file in old(State()).files && State() == old(State()).(files := old(State()).files[file := e])
      ensures AllocateOutcome(old(State()).files[file], status, pageNo, e)
      ensures status == OK ==> pageNo >= 1
    {
      ghost var s := State();
      hide Wired, AllocateOutcome, BufHashTbl.Valid;
      status, pageNo := disk.AllocatePage(file);
      e := disk.files[file];
      PageNumber(s, file, status, pageNo, e);
    }

    /** Find a frame for the new page and set it up. */
    method Admit(file: FileId, pageNo: int, ghost s: State, ghost e: Disk) returns (status: Status, page: nat)
      requires Valid() && Wired(s) && file in s.files && AllocateOutcome(s.files[file], OK, pageNo, e) && pageNo >= 1
      requires State() == s.(files := s.files[file := e])
      modifies this, bufTable, hashTable, hashTable.ht, hashTable.Repr, disk
      ensures disk.failures == old(disk.After(status))
      ensures Separate() && fresh(hashTable.Repr - old(hashTable.Repr))
      ensures AllocStep(s, file, OK, pageNo, e, status, State())
      ensures Wired(State()) <==> status != HASHTBLERROR
      ensures status == OK ==> Key(file, pageNo) in hashTable.table && hashTable.table[Key(file, pageNo)] == page
    {
      ghost var s1 := State();
      hide Wired, AllocStep, AllocBufStep, AllocateOutcome, Emptied, Victim, NoFrame, AllocInto, BufHashTbl.Valid;
      status, page := AllocBuf();
      ghost var u := State();
      if status == OK {
        status := Enter(Key(file, pageNo), page);
        Entered(u, page, Key(file, pageNo), status, State());
      }
      AllocDone(s, file, OK, pageNo, e, s1, page, u, status, State());
    }

    lemma AllocDone(s: State, file: FileId, fileStatus: Status, pageNo: int, e: Disk, s1: State, v: nat, u: State,
        status: Status, t: State)
      requires Wired(s) && file in s.files && AllocateOutcome(s.files[file], fileStatus, pageNo, e)
      requires fileStatus == OK ==> pageNo >= 1
      requires s1 == s.(files := s.files[file := e]) && Wired(s1)
      requires fileStatus != OK ==> status == fileStatus && t == s1
      requires fileStatus == OK && status != OK && status != HASHTBLERROR ==> AllocBufStep(s1, status, v, u) && t == u
      requires fileStatus == OK && (status == OK || status == HASHTBLERROR) ==>
        AllocBufStep(s1, OK, v, u) && v < |u.frames| == |u.pool| && AllocInto(u, v, Key(file, pageNo), status, t)
      ensures AllocStep(s, file, fileStatus, pageNo, e, status, t)
      ensures Wired(t) <==> status != HASHTBLERROR
    {
      hide AllocateOutcome, Emptied, Looked, Victim, Wired;
      AllocWired(s, file, fileStatus, pageNo, e, status, t);
    }

    /** disposePage: drop the frame, pinned or not, and free the page in its file. */
    method DisposePage(file: FileId, pageNo: int) returns (status: Status)
      requires Valid() && file in disk.files && disk.files[file] != []
      modifies bufTable, hashTable, hashTable.ht, hashTable.Repr, disk
      ensures disk.failures == old(disk.After(status))
      ensures Valid() && hashTable.Repr == old(hashTable.Repr)
      ensures DisposeStep(old(State()), Key(file, pageNo), status, State())
      ensures var h := old(disk.files)[file][0];
        status == OK <==> status != UNIXERR && 1 <= pageNo < h.numPages && pageNo != h.firstPage
    {
      ghost var s, k := State(), Key(file, pageNo);
      hide Wired, DisposeStep, DisposeOutcome, BufHashTbl.Valid;
      var frameNo;
      status, frameNo := hashTable.Lookup(Key(file, pageNo));
      if status == OK {
        EntryFacts(s, k);
        bufTable[frameNo] := bufTable[frameNo].Clear();
      }
      status := hashTable.Remove(Key(file, pageNo));
      ForgottenIs(s, k, State());
      status := disk.DisposePage(file, pageNo);
      DisposeDone(s, k, status, State());
    }

    lemma ForgottenIs(s: State, k: Key, t: State)
      requires Wired(s) && (k in s.table ==> 0 <= s.table[k] < |s.frames| && t == Drop(s, s.table[k], k))
      requires k !in s.table ==> t == s.(table := s.table - {k})
      ensures t == Forgotten(s, k)
    {
      assert k !in s.table ==> s.table - {k} == s.table;
    }

    lemma DisposeDone(s: State, k: Key, status: Status, t: State)
      requires Wired(s) && k.file in s.files && k.file in t.files
      requires t == Forgotten(s, k).(files := s.files[k.file := t.files[k.file]])
      requires DisposeOutcome(s.files[k.file], k.pageNo, status, t.files[k.file])
      ensures DisposeStep(s, k, status, t) && Wired(t)
    {
      DisposeWired(s, k, status, t);
    }

    /** flushFile: write back and drop every page of the file, stopping at the first that is pinned or cannot be
        written.  BADBUFFER, an invalid frame that names the file, cannot come up. */
    method FlushFile(file: FileId) returns (status: Status, ghost done: nat)
      requires Valid()
      modifies bufTable, hashTable, hashTable.ht, hashTable.Repr, disk
      ensures disk.failures == old(disk.After(status))
      ensures Valid() && hashTable.Repr == old(hashTable.Repr)
      ensures FlushStep(old(State()), file, done, status, State())
    {
      ghost var s := State();
      hide Wired, Evict, Flushed, BufHashTbl.Valid;
      FlushedNone(s, file);
      var i := 0;
      while i < bufTable.Length
        invariant i <= bufTable.Length == |s.frames| && Valid() && hashTable.Repr == old(hashTable.Repr)
        invariant disk.failures == old(disk.failures)
        invariant State() == Flushed(s, file, i) && forall j :: 0 <= j < i ==> FlushesAt(s, file, j)
      {
        FlushedNext(s, file, i);
        done := i;
        var tmpbuf := bufTable[i];
        if tmpbuf.valid && tmpbuf.file == Some(file) {
          if tmpbuf.pinCnt > 0 {
            return PAGEPINNED, done;
          }
          status := Vacate(i);
          if status != OK {
            return;
          }
          FlushedWired(s, file, i + 1);
        } else if !tmpbuf.valid && tmpbuf.file == Some(file) {
          status := BADBUFFER;
          assert false;
        }
        i := i + 1;
      }
      return OK, i;
    }

    lemma FlushedWired(s: State, file: FileId, n: nat)
      requires Wired(s) && n <= |s.frames|
      ensures Wired(Flushed(s, file, n))
    {
    }

    /** The destructor: write every dirty page back; a write that fails is passed over, and `missed` is the frames whose
        write has failed. */
    method Close() returns (ghost missed: set<nat>)
      requires Valid()
      modifies disk
      ensures |missed| == disk.failures - old(disk.failures)
      ensures forall i :: i in missed ==> i < bufTable.Length && bufTable[i].valid && bufTable[i].dirty
      ensures disk.files == Saved(old(State()), bufTable.Length, missed)
    {
      ghost var s := State();
      hide Wired, Written, Saved, BufHashTbl.Valid;
      SavedNone(s);
      missed := {};
      var i := 0;
      while i < bufTable.Length
        invariant i <= bufTable.Length && bufTable[..] == s.frames && bufPool[..] == s.pool
        invariant |missed| == disk.failures - old(disk.failures)
        invariant forall j :: j in missed ==> j < i && bufTable[j].valid && bufTable[j].dirty
        invariant disk.files == Saved(s, i, missed)
      {
        SavedNext(s, i, missed);
        var tmpbuf := bufTable[i];
        if tmpbuf.valid && tmpbuf.dirty {
          var status := disk.WritePage(tmpbuf.file.value, tmpbuf.pageNo, bufPool[i]);
          missed := if status == OK then missed else missed + {i};
        }
        i := i + 1;
      }
    }

    lemma SavedNone(s: State)
      requires Wired(s)
      ensures Saved(s, 0, {}) == s.files
    {
    }

    lemma {:induction false} SavedSame(s: State, n: nat, missed: set<nat>, m: nat)
      requires Wired(s) && n <= |s.frames| && n <= m
      ensures Saved(s, n, missed + {m}) == Saved(s, n, missed)
    {
      hide Wired, Written;
      if n > 0 {
        SavedSame(s, n - 1, missed, m);
      }
    }

    lemma SavedNext(s: State, i: nat, missed: set<nat>)
      requires Wired(s) && i < |s.frames| && forall j :: j in missed ==> j < i
      ensures |s.pool| == |s.frames| && FrameOk(s, i)
      ensures var f, files := s.frames[i], Saved(s, i, missed);
        && (f.valid && f.dirty ==>
            Saved(s, i + 1, missed) == files[f.file.value := Written(files[f.file.value], f.pageNo, s.pool[i])])
        && (!(f.valid && f.dirty) ==> Saved(s, i + 1, missed) == files)
        && Saved(s, i + 1, missed + {i}) == files
    {
      assert FrameOk(s, i);
      SavedSame(s, i, missed, i);
    }
  }
}
