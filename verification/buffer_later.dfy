/** The later buffer manager: its search advances the hand first, takes the victim out of the hash table before the
    page is written, and never clears the victim's frame. */
module LaterBuffer {
  import opened Bytes
  import opened FileLayer
  import opened Clock
  import opened BufferHash
  import opened BufferView
  import opened BufferSteps

  /** The state as the search of the other buffer manager would find it. */
  function Advanced(s: State): State
    requires Shape(s)
  {
    s.(hand := Advance(s.hand, |s.frames|))
  }

  function Choice(s: State): Option<nat>
    requires Shape(s)
  {
    Victim(s.frames, Advance(s.hand, |s.frames|))
  }

  /** The search has gone round. */
  function Searched6(s: State): State
    requires Shape(s)
  {
    s.(frames := Swept(s.frames, Advance(s.hand, |s.frames|)),
       hand := if Choice(s).Some? then Choice(s).value else s.hand)
  }

  /** A frame that holds a page has been chosen. */
  predicate TakesPage(s: State)
    requires Shape(s)
  {
    Choice(s).Some? && s.frames[Choice(s).value].valid
  }

  /** The entry of the chosen frame's page is gone; the frame itself is as it was. */
  function Unlisted(s: State): State
    requires Wired(s)
  {
    if TakesPage(s) then
      assert FrameOk(s, Choice(s).value);
      var f := s.frames[Choice(s).value];
      Searched6(s).(table := s.table - {KeyOf(f)})
    else Searched6(s)
  }

  /** The chosen frame's page, if dirty, has been written. */
  function Written6(s: State): State
    requires Wired(s) && Choice(s).Some?
  {
    assert FrameOk(s, Choice(s).value);
    var v := Choice(s).value;
    var f := s.frames[v];
    if f.dirty then Unlisted(s).(files := s.files[f.file.value := Written(s.files[f.file.value], f.pageNo, s.pool[v])])
    else Unlisted(s)
  }

  ghost predicate TakeStep(s: State, status: Status, v: int, t: State)
    requires Wired(s)
  {
    match Choice(s)
    case None => status == BUFFEREXCEEDED && t == Searched6(s)
    case Some(w) =>
      || (status == OK && v == w && t == Written6(s))
      || (status == UNIXERR && s.frames[w].dirty && t == Unlisted(s))
  }

  ghost predicate ReadStep6(s: State, k: Key, status: Status, t: State)
    requires Wired(s)
  {
    if k in s.table then ReadStep(s, k, status, t)
    else
      || (status != OK && TakeStep(s, status, -1, t))
      || (Choice(s).Some? && ReadInto(Written6(s), Choice(s).value, k, status, t))
  }

  ghost predicate AllocStep6(s: State, file: FileId, fileStatus: Status, pageNo: int, e: Disk, status: Status, t: State)
    requires Wired(s) && file in s.files
  {
    && AllocateOutcome(s.files[file], fileStatus, pageNo, e)
    && var s1 := s.(files := s.files[file := e]);
      FilesWired(s, file, e);
      if fileStatus != OK then status == fileStatus && t == s1
      else
        || (status != OK && TakeStep(s1, status, -1, t))
        || (Choice(s1).Some? && AllocInto(Written6(s1), Choice(s1).value, Key(file, pageNo), status, t))
  }

  /** The page is marked as changed before it is looked at whether it is pinned. */
  ghost predicate UnpinStep6(s: State, k: Key, dirty: bool, status: Status, t: State)
    requires Wired(s)
  {
    if k !in s.table then status == HASHNOTFOUND && t == s
    else
      assert EntryOk(s, k);
      var f := s.frames[s.table[k]].(dirty := s.frames[s.table[k]].dirty || dirty);
      if f.pinCnt == 0 then status == PAGENOTPINNED && t == Repinned(s, s.table[k], f)
      else status == OK && t == Repinned(s, s.table[k], f.(pinCnt := f.pinCnt - 1))
  }

  /** Nobody sees the difference: no page changes, and the pins are what they are with the other buffer manager. */
  lemma UnpinKeeps6(s: State, k: Key, dirty: bool, status: Status, t: State, owed: set<Key>)
    requires Wired(s) && UnpinStep6(s, k, dirty, status, t)
    ensures Wired(t) && t.files == s.files && t.table == s.table && (Tidy(s) ==> Tidy(t))
    ensures status == OK <==> Pins(s, k) > 0
    ensures Coherent(s, owed) && (k in owed && Pins(s, k) == 1 ==> dirty) ==> Coherent(t, Settled(owed, k, dirty, status))
    ensures SameView(s, t) && StayPut(s, t)
    ensures forall j :: Pins(t, j) == Pins(s, j) - if status == OK && j == k then 1 else 0
  {
    hide FilesSound, Allocated, OnDisk;
    if k in s.table {
      assert EntryOk(s, k) && FrameOk(s, s.table[k]);
      var f := s.frames[s.table[k]];
      if f.pinCnt == 0 {
        RepinKeeps(s, k, 0, f.dirty || dirty, f.refbit, owed);
        assert Coherent(s, owed) ==> FrameCoherent(s, owed, s.table[k]);
        assert Coherent(s, owed) ==> k !in owed;
        assert k !in owed ==> owed - {k} == owed;
      } else {
        RepinKeeps(s, k, f.pinCnt - 1, f.dirty || dirty, f.refbit, owed);
      }
    }
    forall j | Pins(s, j) > 0
      ensures StaysPut(s, t, j)
    {
    }
  }

  // ---- success: the same as the other buffer manager ----

  lemma AdvancedWired(s: State)
    requires Wired(s)
    ensures Wired(Advanced(s))
  {
    hide Advance;
    forall i | 0 <= i < |s.frames|
      ensures FrameOk(Advanced(s), i)
    {
      assert FrameOk(s, i);
    }
    forall k | k in s.table
      ensures EntryOk(Advanced(s), k)
    {
      assert EntryOk(s, k);
    }
  }

  /** The frame the search leaves alone, but for its reference bit. */
  lemma SweptFrame(s: State, v: nat)
    requires Wired(s) && v < |s.frames|
    ensures Shape(Searched6(s)) && |Searched6(s).frames| == |s.frames|
    ensures Searched6(s).frames[v].(refbit := s.frames[v].refbit) == s.frames[v]
  {
    hide Advance, Victim;
    LookedAlike(Advanced(s));
  }

  /** Putting a page into the chosen frame gives the same state whether the frame has been emptied first or not. */
  lemma InstallSame(s: State, k: Key, x: Image)
    requires Wired(s) && Choice(s).Some?
    ensures Wired(Advanced(s)) && Install(Written6(s), Choice(s).value, k, x) == Install(Emptied(Advanced(s)), Choice(s).value, k, x)
    ensures Written6(s).table == Emptied(Advanced(s)).table && Written6(s).files == Emptied(Advanced(s)).files
    ensures Written6(s).pool == Emptied(Advanced(s)).pool == s.pool
  {
    AdvancedWired(s);
    var v, a := Choice(s).value, Advanced(s);
    SweptFrame(s, v);
    assert FrameOk(s, v) && FrameOk(a, v);
    assert Looked(a) == Searched6(s);
    hide Advance, Victim, Swept, Written, Looked;
  }

  /** A readPage that has to fetch the page and succeeds takes the other buffer manager's step, from the advanced hand. */
  lemma ReadOkSame(s: State, k: Key, t: State)
    requires Wired(s) && k !in s.table && ReadStep6(s, k, OK, t)
    ensures Wired(Advanced(s)) && ReadStep(Advanced(s), k, OK, t)
  {
    var x := OnDisk(Written6(s).files, k).value;
    InstallSame(s, k, x);
    hide Emptied, Written6, Install, Wired, NoFrame, Victim;
  }

  /** So does a successful allocPage. */
  lemma AllocOkSame(s: State, file: FileId, fileStatus: Status, pageNo: int, e: Disk, t: State)
    requires Wired(s) && file in s.files && AllocStep6(s, file, fileStatus, pageNo, e, OK, t)
    ensures Wired(Advanced(s)) && AllocStep(Advanced(s), file, fileStatus, pageNo, e, OK, t)
  {
    var s1, k := s.(files := s.files[file := e]), Key(file, pageNo);
    FilesWired(s, file, e);
    AdvancedWired(s);
    FilesWired(Advanced(s), file, e);
    assert Advanced(s).(files := s.files[file := e]) == Advanced(s1);
    InstallSame(s1, k, s1.pool[Choice(s1).value]);
    hide Emptied, Written6, Install, Wired, NoFrame, Victim, AllocateOutcome;
  }

  // ---- failure: what is left ----

  /** A state that still holds the victim's page in its frame, but not in the table, is broken. */
  lemma LostEntry(s: State, t: State)
    requires Wired(s) && TakesPage(s) && t.table == Unlisted(s).table && t.frames == Unlisted(s).frames
    ensures !Wired(t)
  {
    var v := Choice(s).value;
    SweptFrame(s, v);
    assert FrameOk(s, v);
    hide Advance, Victim, Swept;
    assert v < |t.frames| ==> !FrameOk(t, v);
  }

  /** As long as no page has been taken out, nothing is broken. */
  lemma NothingTaken(s: State)
    requires Wired(s) && !TakesPage(s)
    ensures Wired(Searched6(s)) && Unlisted(s) == Searched6(s) && Searched6(s).table == s.table && Searched6(s).files == s.files
    ensures Choice(s).Some? ==> Written6(s) == Searched6(s)
    ensures Choice(s).Some? ==> Choice(s).value < |Searched6(s).frames| && !Searched6(s).frames[Choice(s).value].valid
  {
    hide Advance, Victim;
    AdvancedWired(s);
    LookedAlike(Advanced(s));
    AlikeKeeps(Advanced(s), Searched6(s), {});
    if Choice(s).Some? {
      assert FrameOk(s, Choice(s).value);
      SweptFrame(s, Choice(s).value);
    }
  }

  lemma ReadFailedWired(s: State, k: Key, status: Status, t: State)
    requires Wired(s) && Choice(s).Some? && status != OK && ReadInto(Written6(s), Choice(s).value, k, status, t)
    ensures Wired(t) <==> !TakesPage(s)
  {
    hide Advance, Victim, Swept;
    if TakesPage(s) {
      LostEntry(s, t);
    } else {
      NothingTaken(s);
      ScribbleKeeps(Searched6(s), Choice(s).value, t.pool[Choice(s).value], {});
    }
  }

  lemma TakeFailedWired(s: State, status: Status, t: State)
    requires Wired(s) && status != OK && TakeStep(s, status, -1, t)
    ensures Wired(t) <==> !TakesPage(s)
    ensures status == BUFFEREXCEEDED <==> !TakesPage(s)
  {
    hide Advance, Victim, Swept;
    assert Choice(s).Some? ==> FrameOk(s, Choice(s).value);
    if TakesPage(s) {
      LostEntry(s, t);
    } else {
      NothingTaken(s);
    }
  }

  /** When does readPage leave the hash table right?  If and only if it succeeds or has not taken a page out: the page was
      in the pool, no frame was found, or the frame found was empty. */
  lemma ReadWired6(s: State, k: Key, status: Status, t: State)
    requires Wired(s) && k.file in s.files && ReadStep6(s, k, status, t)
    ensures Wired(t) <==> status == OK || k in s.table || !TakesPage(s)
  {
    if k in s.table {
      ReadKeeps(s, k, status, t, {});
    } else if status == OK {
      ReadOkSame(s, k, t);
      ReadKeeps(Advanced(s), k, OK, t, {});
    } else if TakeStep(s, status, -1, t) {
      TakeFailedWired(s, status, t);
    } else {
      ReadFailedWired(s, k, status, t);
    }
  }

  lemma AllocIntoSame(s: State, k: Key, status: Status, t: State)
    requires Wired(s) && Choice(s).Some? && k.file in s.files && k.pageNo >= 1
    requires AllocInto(Written6(s), Choice(s).value, k, status, t)
    ensures Wired(t) <==> status == OK
    ensures status == OK || (status == HASHTBLERROR && k in s.table)
  {
    var v, a := Choice(s).value, Advanced(s);
    InstallSame(s, k, s.pool[v]);
    EmptiedFacts(a, {});
    assert AllocInto(Emptied(a), v, k, status, t);
    hide Emptied, Written6, Advance, Victim, AllocInto;
    AllocIntoWired(Emptied(a), v, k, status, t);
    hide Wired;
  }

  /** When does allocPage leave the hash table right?  If and only if it succeeds, or the file had no page, or no frame
      was found. */
  lemma AllocWired6(s: State, file: FileId, fileStatus: Status, pageNo: int, e: Disk, status: Status, t: State)
    requires Wired(s) && file in s.files && (fileStatus == OK ==> pageNo >= 1)
    requires AllocStep6(s, file, fileStatus, pageNo, e, status, t)
    ensures Wired(t) <==> status == OK || fileStatus != OK || status == BUFFEREXCEEDED
    ensures status == HASHTBLERROR ==> Key(file, pageNo) in s.table
  {
    var s1, k := s.(files := s.files[file := e]), Key(file, pageNo);
    FilesWired(s, file, e);
    hide Wired, AllocateOutcome, AllocInto, TakeStep, Written6;
    if fileStatus == OK {
      if status != OK && TakeStep(s1, status, -1, t) {
        TakeFailedWired(s1, status, t);
      } else {
        AllocIntoSame(s1, k, status, t);
      }
    }
  }

  /** It does come about: one frame with a clean page, and the read of another page fails. */
  lemma ReadLosesEntry() returns (s: State, k: Key, t: State)
    ensures Wired(s) && k.file in s.files && k !in s.table && ReadStep6(s, k, UNIXERR, t) && !Wired(t)
    ensures |t.frames| == 1 && t.frames[0].valid && t.table == map[]
  {
    s := State([Frame(Some(1), 1, 0, 0, false, true, false)], [Zero()], 0, map[Key(1, 1) := 0], map[1 := NewFile()]);
    k := Key(1, 2);
    assert FrameOk(s, 0) && EntryOk(s, Key(1, 1));
    VictimExists(s.frames, Advance(0, 1));
    SweptFrame(s, 0);
    t := Unlisted(s);
    assert t == Scribble(Written6(s), 0, t.pool[0]);
    assert ReadInto(Written6(s), 0, k, UNIXERR, t);
    ReadWired6(s, k, UNIXERR, t);
  }

  // ---- the calls themselves ----

  class LaterBufMgr {
    const clock: AdvancingClock
    const bufPool: array<Image>
    const hashTable: BufHashTbl
    const disk: UnixFiles

    ghost predicate Separate()
      reads hashTable, hashTable.ht, hashTable.Repr
    {
      hashTable.Valid() && clock.bufTable.Length == bufPool.Length
    }

    ghost function State(): State
      reads clock, clock.bufTable, bufPool, hashTable`table, disk`files
    {
      BufferView.State(clock.bufTable[..], bufPool[..], clock.clockHand, hashTable.table, disk.files)
    }

    constructor (c: AdvancingClock, pool: array<Image>, table: BufHashTbl, files: UnixFiles)
      ensures clock == c && bufPool == pool && hashTable == table && disk == files
    {
      clock, bufPool, hashTable, disk := c, pool, table, files;
    }

    lemma ClockReady(s: State)
      requires Separate() && Wired(s) && s == State()
      ensures Shape(s) && clock.Valid() && clock.Start() == Advance(s.hand, |s.frames|)
      ensures clock.bufTable[..] == s.frames && |s.frames| == clock.bufTable.Length
    {
      forall j | 0 <= j < clock.bufTable.Length
        ensures clock.bufTable[j].pinCnt >= 0
      {
        assert FrameOk(s, j) && clock.bufTable[j] == s.frames[j];
      }
    }

    /** What allocBuf finds in the frame it has chosen. */
    lemma ChosenFrame(s: State, v: nat)
      requires Wired(s) && Choice(s) == Some(v)
      ensures v < |s.frames| == |Searched6(s).frames| && FrameOk(s, v)
      ensures var f := Searched6(s).frames[v]; f == s.frames[v].(refbit := f.refbit)
      ensures var f := s.frames[v];
        && Unlisted(s) == (if f.valid then Searched6(s).(table := s.table - {KeyOf(f)}) else Searched6(s))
        && Written6(s) == (if f.dirty
             then Unlisted(s).(files := s.files[f.file.value := Written(s.files[f.file.value], f.pageNo, s.pool[v])])
             else Unlisted(s))
    {
      assert FrameOk(s, v);
      SweptFrame(s, v);
    }

    lemma Taken(s: State, status: Status, v: nat, t: State)
      requires Wired(s)
      requires match Choice(s)
        case None => status == BUFFEREXCEEDED && t == Searched6(s)
        case Some(w) =>
          v == w < |s.frames| && ((status == OK && t == Written6(s)) || (status == UNIXERR && s.frames[w].dirty && t == Unlisted(s)))
      ensures TakeStep(s, status, v, t) && (status == OK || status == BUFFEREXCEEDED || status == UNIXERR)
    {
    }

    /** The entry of the page leaves the hash table. */
    method Unlist(f: Frame)
      requires Separate() && f.file.Some? && KeyOf(f) in hashTable.table
      modifies hashTable, hashTable.ht, hashTable.Repr
      ensures Separate() && hashTable.Repr == old(hashTable.Repr)
      ensures State() == old(State()).(table := old(hashTable.table) - {KeyOf(f)})
    {
      hide BufHashTbl.Valid;
      var st := hashTable.Remove(KeyOf(f));
    }

    /** The search, on the whole state. */
    method FindFrame() returns (status: Status, frame: nat)
      requires Separate() && Wired(State())
      modifies clock, clock.bufTable
      ensures Separate() && State() == Searched6(old(State()))
      ensures status == (if Choice(old(State())) == None then BUFFEREXCEEDED else OK)
      ensures status == OK ==> Choice(old(State())) == Some(frame) && frame < clock.bufTable.Length
    {
      ghost var s := State();
      ClockReady(s);
      hide Advance, BufHashTbl.Valid, Victim, Swept, Wired, AdvancingClock.Start, AdvancingClock.Valid;
      status, frame := clock.Search();
    }

    /** allocBuf: find a frame; the entry of its page goes before its page is written. */
    method AllocBuf() returns (status: Status, frame: nat)
      requires Separate() && Wired(State())
      modifies clock, clock.bufTable, hashTable, hashTable.ht, hashTable.Repr, disk
      ensures Separate() && hashTable.Repr == old(hashTable.Repr) && disk.failures == old(disk.After(status))
      ensures TakeStep(old(State()), status, frame, State())
      ensures status == OK ==> frame < clock.bufTable.Length && Choice(old(State())) == Some(frame)
      ensures status == OK || status == BUFFEREXCEEDED || status == UNIXERR
    {
      ghost var s := State();
      hide BufHashTbl.Valid, Wired, Written, Choice, Searched6, Unlisted, Written6, TakeStep, Shape;
      status, frame := FindFrame();
      if status != OK {
        Taken(s, status, frame, State());
        return;
      }
      ChosenFrame(s, frame);
      var f := clock.bufTable[frame];
      assert f == State().frames[frame];
      if f.valid {
        Unlist(f);
      }
      if f.dirty {
        status := disk.WritePage(f.file.value, f.pageNo, bufPool[frame]);
      }
      Taken(s, status, frame, State());
    }

    lemma TakenOk(s: State, v: nat, t: State)
      requires Wired(s) && TakeStep(s, OK, v, t)
      ensures t == Written6(s) && |t.frames| == |t.pool| == |s.frames| && Choice(s) == Some(v)
      ensures forall k :: k !in s.table ==> k !in t.table
      ensures t.files.Keys == s.files.Keys
    {
      assert FrameOk(s, v);
      hide Swept, Advance, Victim, Written;
    }

    lemma ReadMissed(s: State, k: Key, status: Status, v: int, t: State)
      requires Wired(s) && k !in s.table && k.file in s.files && status != OK && TakeStep(s, status, v, t)
      ensures ReadStep6(s, k, status, t) && (Wired(t) <==> status == OK || k in s.table || !TakesPage(s))
    {
      ReadWired6(s, k, status, t);
    }

    lemma ReadEnded(s: State, k: Key, v: nat, u: State, x: Image, status: Status, t: State)
      requires Wired(s) && k !in s.table && k.file in s.files && TakeStep(s, OK, v, u)
      requires v < |u.frames| == |u.pool|
      requires status == OK ==> k.pageNo >= 1 && OnDisk(u.files, k) == Some(x) && t == Install(u, v, k, x)
      requires status != OK ==> (status == UNIXERR || (status == BADPAGENO && k.pageNo < 1)) && t == Scribble(u, v, x)
      ensures ReadStep6(s, k, status, t) && (Wired(t) <==> status == OK || k in s.table || !TakesPage(s))
    {
      TakenOk(s, v, u);
      hide Wired, Written6, Choice, TakesPage;
      assert t.pool[v] == x;
      ReadWired6(s, k, status, t);
    }

    /** Set up frame v for the page and enter the page in the hash table. */
    method Enter(k: Key, v: nat) returns (status: Status)
      requires Separate() && v < clock.bufTable.Length
      modifies clock.bufTable, hashTable, hashTable.ht, hashTable.Repr
      ensures Separate() && fresh(hashTable.Repr - old(hashTable.Repr))
      ensures status == if k in old(hashTable.table) then HASHTBLERROR else OK
      ensures var t := Install(old(State()), v, k, old(bufPool[v]));
        State() == if status == OK then t else t.(table := old(hashTable.table))
      ensures status == OK ==> k in hashTable.table && hashTable.table[k] == v
    {
      clock.bufTable[v] := clock.bufTable[v].Set(k.file, k.pageNo);
      status := hashTable.Insert(k, v);
    }

    /** readPage.  The hash table stays right if and only if the call succeeds, finds the page in the pool, or takes no page out. */
    method ReadPage(file: FileId, pageNo: int) returns (status: Status, page: nat)
      requires Separate() && Wired(State()) && file in disk.files
      modifies clock, clock.bufTable, bufPool, hashTable, hashTable.ht, hashTable.Repr, disk
      ensures Separate() && fresh(hashTable.Repr - old(hashTable.Repr)) && disk.failures == old(disk.After(status))
      ensures ReadStep6(old(State()), Key(file, pageNo), status, State())
      ensures Wired(State()) <==> status == OK || old(Key(file, pageNo) in hashTable.table || !TakesPage(State()))
      ensures status == OK ==> Key(file, pageNo) in hashTable.table && hashTable.table[Key(file, pageNo)] == page
    {
      ghost var s, k := State(), Key(file, pageNo);
      hide Wired, BufHashTbl.Valid, ReadStep6, TakeStep, TakesPage;
      var frameNo;
      status, frameNo := hashTable.Lookup(Key(file, pageNo));
      if status == OK {
        EntryFacts(s, k);
        var f := clock.bufTable[frameNo];
        clock.bufTable[frameNo] := f.(refbit := true, pinCnt := f.pinCnt + 1);
        page := frameNo;
        HitStep(s, k, State());
      } else {
        status, page := AllocBuf();
        if status != OK {
          ReadMissed(s, k, status, page, State());
          return;
        }
        ghost var u := State();
        TakenOk(s, page, u);
        var image;
        status, image := ReadIn(file, pageNo, page);
        ReadEnded(s, k, page, u, image, status, State());
      }
    }

    lemma HitStep(s: State, k: Key, t: State)
      requires Wired(s) && k in s.table && k.file in s.files && 0 <= s.table[k] < |s.frames|
      requires var f := s.frames[s.table[k]]; t == Repinned(s, s.table[k], f.(pinCnt := f.pinCnt + 1, refbit := true))
      ensures ReadStep6(s, k, OK, t) && Wired(t)
    {
      ReadWired6(s, k, OK, t);
    }

    /** Read the page into frame v and enter it in the hash table. */
    method ReadIn(file: FileId, pageNo: int, v: nat) returns (status: Status, image: Image)
      requires Separate() && v < clock.bufTable.Length && file in disk.files && Key(file, pageNo) !in hashTable.table
      modifies clock.bufTable, bufPool, hashTable, hashTable.ht, hashTable.Repr, disk`failures
      ensures Separate() && fresh(hashTable.Repr - old(hashTable.Repr)) && disk.failures == old(disk.After(status))
      ensures v < |old(State()).frames| == |old(State()).pool|
      ensures var u, k := old(State()), Key(file, pageNo);
        && (status == OK ==> k.pageNo >= 1 && OnDisk(u.files, k) == Some(image) && State() == Install(u, v, k, image))
        && (status != OK ==> (status == UNIXERR || (status == BADPAGENO && k.pageNo < 1)) && State() == Scribble(u, v, image))
      ensures status == OK ==> Key(file, pageNo) in hashTable.table && hashTable.table[Key(file, pageNo)] == v
    {
      hide BufHashTbl.Valid;
      status, image := disk.ReadPage(file, pageNo);
      bufPool[v] := image;
      if status == OK {
        status := Enter(Key(file, pageNo), v);
      }
    }

    /** unPinPage. */
    method UnPinPage(file: FileId, pageNo: int, dirty: bool) returns (status: Status)
      requires Separate() && Wired(State())
      modifies clock.bufTable
      ensures Separate() && Wired(State()) && UnpinStep6(old(State()), Key(file, pageNo), dirty, status, State())
    {
      ghost var s, k := State(), Key(file, pageNo);
      hide Wired, UnpinStep6, BufHashTbl.Valid;
      var frameNo;
      status, frameNo := hashTable.Lookup(Key(file, pageNo));
      if status != OK {
        Unpinned(s, k, dirty, status, State());
        return;
      }
      EntryFacts(s, k);
      var f := clock.bufTable[frameNo];
      if dirty {
        f := f.(dirty := true);
      }
      if f.pinCnt == 0 {
        status := PAGENOTPINNED;
      } else {
        f := f.(pinCnt := f.pinCnt - 1);
      }
      clock.bufTable[frameNo] := f;
      Unpinned(s, k, dirty, status, State());
    }

    lemma Unpinned(s: State, k: Key, dirty: bool, status: Status, t: State)
      requires Wired(s) && (k in s.table ==> 0 <= s.table[k] < |s.frames|)
      requires if k !in s.table then status == HASHNOTFOUND && t == s else
        var f := s.frames[s.table[k]].(dirty := s.frames[s.table[k]].dirty || dirty);
        if f.pinCnt == 0 then status == PAGENOTPINNED && t == Repinned(s, s.table[k], f)
        else status == OK && t == Repinned(s, s.table[k], f.(pinCnt := f.pinCnt - 1))
      ensures UnpinStep6(s, k, dirty, status, t) && Wired(t)
    {
      UnpinKeeps6(s, k, dirty, status, t, {});
    }

    /** allocPage.  The hash table stays right if and only if the call succeeds, the file has no page, or the pool no frame. */
    method AllocPage(file: FileId) returns (status: Status, pageNo: int, page: nat, ghost fileStatus: Status, ghost e: Disk)
      requires Separate() && Wired(State()) && file in disk.files && HeadOk(disk.files[file])
      modifies clock, clock.bufTable, hashTable, hashTable.ht, hashTable.Repr, disk
      ensures Separate() && fresh(hashTable.Repr - old(hashTable.Repr)) && disk.failures == old(disk.After(status))
      ensures fileStatus == OK ==> pageNo >= 1
      ensures file in old(State()).files && AllocStep6(old(State()), file, fileStatus, pageNo, e, status, State())
      ensures Wired(State()) <==> status == OK || fileStatus != OK || status == BUFFEREXCEEDED
      ensures status == OK ==> Key(file, pageNo) in hashTable.table && hashTable.table[Key(file, pageNo)] == page
    {
      ghost var s := State();
      hide Wired, AllocStep6, AllocateOutcome, BufHashTbl.Valid, LaterBufMgr.State;
      page := 0;
      status, pageNo, e := NewPage(file);
      fileStatus := status;
      if status != OK {
        AllocEnded(s, file, fileStatus, pageNo, e, State(), 0, State(), status, State());
        return;
      }
      status, page := Admit(file, pageNo, s, e);
    }

    /** The file layer's part of allocPage. */
    method NewPage(file: FileId) returns (status: Status, pageNo: int, ghost e: Disk)
      requires Separate() && Wired(State()) && file in disk.files && HeadOk(disk.files[file])
      modifies disk
      ensures Separate() && disk.failures == old(disk.After(status))
      ensures file in old(State()).files && State() == old(State()).(files := old(State()).files[file := e]) && Wired(State())
      ensures AllocateOutcome(old(State()).files[file], status, pageNo, e)
      ensures status == OK ==> pageNo >= 1
    {
      ghost var s := State();
      hide Wired, AllocateOutcome, BufHashTbl.Valid;
      status, pageNo := disk.AllocatePage(file);
      e := disk.files[file];
      PageNumber(s, file, status, pageNo, e);
    }

    /** Find a frame for the new page and set it up. */
    method Admit(file: FileId, pageNo: int, ghost s: State, ghost e: Disk) returns (status: Status, page: nat)
      requires Separate() && Wired(State()) && Wired(s) && file in s.files && AllocateOutcome(s.files[file], OK, pageNo, e) && pageNo >= 1
      requires State() == s.(files := s.files[file := e])
      modifies clock, clock.bufTable, hashTable, hashTable.ht, hashTable.Repr, disk
      ensures Separate() && fresh(hashTable.Repr - old(hashTable.Repr)) && disk.failures == old(disk.After(status))
      ensures AllocStep6(s, file, OK, pageNo, e, status, State())
      ensures Wired(State()) <==> status == OK || status == BUFFEREXCEEDED
      ensures status == OK ==> Key(file, pageNo) in hashTable.table && hashTable.table[Key(file, pageNo)] == page
    {
      ghost var s1 := State();
      hide Wired, AllocStep6, AllocateOutcome, BufHashTbl.Valid, TakeStep, AllocInto;
      status, page := AllocBuf();
      ghost var u := State();
      if status == OK {
        TakenOk(s1, page, u);
        hide Written6, Choice;
        status := Enter(Key(file, pageNo), page);
        Entered(u, page, Key(file, pageNo), status, State());
      }
      AllocEnded(s, file, OK, pageNo, e, s1, page, u, status, State());
    }

    lemma AllocEnded(s: State, file: FileId, fileStatus: Status, pageNo: int, e: Disk, s1: State, v: nat, u: State,
        status: Status, t: State)
      requires Wired(s) && file in s.files && AllocateOutcome(s.files[file], fileStatus, pageNo, e)
      requires s1 == s.(files := s.files[file := e]) && Wired(s1)
      requires fileStatus != OK ==> status == fileStatus && t == s1
      requires fileStatus == OK && status != OK && status != HASHTBLERROR ==> TakeStep(s1, status, v, t)
      requires fileStatus == OK && (status == OK || status == HASHTBLERROR) ==>
        TakeStep(s1, OK, v, u) && AllocInto(u, v, Key(file, pageNo), status, t)
      requires fileStatus == OK ==> pageNo >= 1
      ensures AllocStep6(s, file, fileStatus, pageNo, e, status, t)
      ensures Wired(t) <==> status == OK || fileStatus != OK || status == BUFFEREXCEEDED
    {
      hide Wired, AllocateOutcome, AllocInto, Written6;
      FilesWired(s, file, e);
      AllocWired6(s, file, fileStatus, pageNo, e, status, t);
    }
  }
}
