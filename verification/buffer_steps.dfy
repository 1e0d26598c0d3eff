/** The calls of the buffer manager as steps of the state machine, with every way a disk read or write may fail,
    and what holds over whole runs of calls. */
module BufferSteps {
  import opened Bytes
  import opened FileLayer
  import opened Clock
  import opened BufferView

  // ---- finding a frame ----

  /** The state after a frame has been found for a new page. */
  function Emptied(s: State): State
    requires Wired(s) && Victim(s.frames, s.hand).Some?
  {
    var v := Victim(s.frames, s.hand).value;
    LookedAlike(s);
    AlikeKeeps(s, Looked(s), {});
    assert FrameOk(Looked(s), v);
    Evict(Looked(s), v)
  }

  /** No frame is found: all are pinned, or the chosen one is dirty and cannot be written. */
  ghost predicate NoFrame(s: State, status: Status, t: State)
    requires Wired(s)
  {
    && t == Looked(s)
    && match Victim(s.frames, s.hand)
       case None => status == BUFFEREXCEEDED
       case Some(v) => status == UNIXERR && s.frames[v].valid && s.frames[v].dirty
  }

  ghost predicate AllocBufStep(s: State, status: Status, v: int, t: State)
    requires Wired(s)
  {
    if status == OK then Victim(s.frames, s.hand).Some? && v == Victim(s.frames, s.hand).value && t == Emptied(s)
    else NoFrame(s, status, t)
  }

  /** The emptied frame holds no page; everything else is as before, as far as clients can tell. */
  lemma EmptiedFacts(s: State, owed: set<Key>)
    requires Wired(s) && Victim(s.frames, s.hand).Some?
    ensures var t := Emptied(s); var v := Victim(s.frames, s.hand).value;
      && Wired(t) && |t.frames| == |s.frames| && !t.frames[v].valid && t.pool == s.pool && t.files.Keys == s.files.Keys
      && (forall k :: k in t.table ==> k in s.table)
      && (Tidy(s) ==> Tidy(t) && forall k :: Usable(t, k) <==> Usable(s, k))
      && (Tidy(s) && Coherent(s, owed) ==> Coherent(t, owed) && SameView(s, t) && SamePins(s, t) && StayPut(s, t))
  {
    var v, u := Victim(s.frames, s.hand).value, Looked(s);
    VictimExists(s.frames, s.hand);
    LookedAlike(s);
    AlikeKeeps(s, u, owed);
    hide Victim, Looked, Written, FilesSound, Allocated;
    assert FrameOk(s, v);
    EvictWired(u, v);
    assert u.frames[v].pinCnt == 0;
    if Tidy(s) {
      EvictTidy(u, v);
      if Coherent(s, owed) {
        EvictCoherent(u, owed, v);
        assert u.table == s.table;
      }
    }
  }

  ghost predicate SameView(s: State, t: State) {
    forall k :: Content(t, k) == Content(s, k)
  }

  ghost predicate SamePins(s: State, t: State) {
    forall k :: Pins(t, k) == Pins(s, k)
  }

  /** Pinned pages stay in their frames. */
  ghost predicate StayPut(s: State, t: State) {
    forall k :: Pins(s, k) > 0 ==> StaysPut(s, t, k)
  }

  predicate StaysPut(s: State, t: State, k: Key) {
    k in s.table && k in t.table && t.table[k] == s.table[k]
  }

  lemma NoFrameFacts(s: State, status: Status, t: State, owed: set<Key>)
    requires Wired(s) && NoFrame(s, status, t)
    ensures Wired(t) && (Tidy(s) ==> Tidy(t)) && (Coherent(s, owed) ==> Coherent(t, owed))
    ensures SameView(s, t) && SamePins(s, t) && StayPut(s, t) && t.files == s.files && t.table == s.table
    ensures status == BUFFEREXCEEDED <==> forall i :: 0 <= i < |s.frames| ==> s.frames[i].valid && s.frames[i].pinCnt > 0
  {
    LookedAlike(s);
    AlikeKeeps(s, t, owed);
    VictimExists(s.frames, s.hand);
    hide Victim, Looked, FilesSound, Allocated;
    forall i | 0 <= i < |s.frames|
      ensures s.frames[i].pinCnt >= 0
    {
      assert FrameOk(s, i);
    }
    forall k | Pins(s, k) > 0
      ensures StaysPut(s, t, k)
    {
    }
  }

  // ---- readPage ----

  ghost predicate ReadStep(s: State, k: Key, status: Status, t: State)
    requires Wired(s)
  {
    if k in s.table then
      assert EntryOk(s, k);
      var f := s.frames[s.table[k]];
      status == OK && t == Repinned(s, s.table[k], f.(pinCnt := f.pinCnt + 1, refbit := true))
    else
      NoFrame(s, status, t) || (Victim(s.frames, s.hand).Some? && ReadInto(Emptied(s), Victim(s.frames, s.hand).value, k, status, t))
  }

  /** The page is read into the emptied frame; a failed read may leave anything there. */
  ghost predicate ReadInto(u: State, v: nat, k: Key, status: Status, t: State) {
    && v < |u.frames| == |u.pool|
    && if status == OK then
         k.pageNo >= 1 && OnDisk(u.files, k).Some? && t == Install(u, v, k, OnDisk(u.files, k).value)
       else
         (status == UNIXERR || (status == BADPAGENO && k.pageNo < 1)) && |t.pool| == |u.pool| && t == Scribble(u, v, t.pool[v])
  }

  lemma ReadHit(s: State, k: Key, t: State, owed: set<Key>)
    requires Wired(s) && k in s.table && ReadStep(s, k, OK, t)
    ensures Wired(t) && t.files == s.files && t.table == s.table
    ensures Tidy(s) ==> Tidy(t)
    ensures Coherent(s, owed) ==> Coherent(t, owed) && SameView(s, t) && StayPut(s, t)
    ensures forall j :: Pins(t, j) == Pins(s, j) + if j == k then 1 else 0
    ensures Pins(t, k) > 0 && Content(t, k).Some?
  {
    hide FilesSound, Allocated, OnDisk;
    assert EntryOk(s, k);
    var f := s.frames[s.table[k]];
    assert FrameOk(s, s.table[k]);
    RepinKeeps(s, k, f.pinCnt + 1, f.dirty, true, owed);
    forall j | Pins(s, j) > 0
      ensures StaysPut(s, t, j)
    {
    }
  }

  lemma ReadMiss(u: State, v: nat, k: Key, status: Status, t: State, owed: set<Key>)
    requires Wired(u) && v < |u.frames| && !u.frames[v].valid && k !in u.table && k.file in u.files
    requires ReadInto(u, v, k, status, t)
    ensures Wired(t) && t.files == u.files
    ensures Tidy(u) && Usable(u, k) ==> Tidy(t)
    ensures Coherent(u, owed) ==> Coherent(t, owed) && SameView(u, t) && StayPut(u, t)
    ensures forall j :: Pins(t, j) == Pins(u, j) + if status == OK && j == k then 1 else 0
    ensures status == OK ==> k in t.table && Pins(t, k) == 1 && Content(t, k).Some?
  {
    hide FilesSound, Allocated, OnDisk;
    if status == OK {
      InstallKeeps(u, v, k, OnDisk(u.files, k).value, owed);
    } else {
      ScribbleKeeps(u, v, t.pool[v], owed);
    }
    forall j | Pins(u, j) > 0
      ensures StaysPut(u, t, j)
    {
    }
  }

  /** Reading a page changes nothing clients see; it pins the page if it succeeds. */
  lemma ReadKeeps(s: State, k: Key, status: Status, t: State, owed: set<Key>)
    requires Wired(s) && k.file in s.files && ReadStep(s, k, status, t)
    ensures Wired(t) && t.files.Keys == s.files.Keys
    ensures status == OK || status == BUFFEREXCEEDED || status == UNIXERR || status == BADPAGENO
    ensures Tidy(s) && Usable(s, k) ==> Tidy(t) && forall j :: Usable(t, j) <==> Usable(s, j)
    ensures Tidy(s) && Coherent(s, owed) ==> Coherent(t, owed) && SameView(s, t) && StayPut(s, t)
    ensures Tidy(s) && Coherent(s, owed) ==> forall j :: Pins(t, j) == Pins(s, j) + if status == OK && j == k then 1 else 0
    ensures status == OK ==> k in t.table && Pins(t, k) > 0 && Content(t, k).Some?
  {
    assert Shape(s);
    hide Victim, Looked, Emptied, FilesSound, Allocated, OnDisk, Wired, Tidy, Coherent, Content, Pins;
    if k in s.table {
      ReadHit(s, k, t, owed);
    } else if NoFrame(s, status, t) {
      NoFrameFacts(s, status, t, owed);
    } else {
      var u, v := Emptied(s), Victim(s.frames, s.hand).value;
      EmptiedFacts(s, owed);
      ReadMiss(u, v, k, status, t, owed);
    }
  }

  /** What readPage returns: BADPAGENO only for a page number below 1, BUFFEREXCEEDED if and only if the page is not in the
      pool and every frame is pinned. */
  lemma ReadStatus(s: State, k: Key, status: Status, t: State)
    requires Wired(s) && ReadStep(s, k, status, t)
    ensures status == OK || status == BUFFEREXCEEDED || status == UNIXERR || status == BADPAGENO
    ensures status == BADPAGENO ==> k.pageNo < 1 && k !in s.table
    ensures status == BUFFEREXCEEDED <==>
      k !in s.table && forall i :: 0 <= i < |s.frames| ==> s.frames[i].valid && s.frames[i].pinCnt != 0
    ensures k in s.table ==> status == OK
  {
    VictimExists(s.frames, s.hand);
    hide Emptied, Victim, Looked;
  }

  /** A page that has been read is referenced, so that the clock passes it over on its first visit. */
  lemma ReadReferences(s: State, k: Key, t: State)
    requires Wired(s) && ReadStep(s, k, OK, t)
    ensures k in t.table && 0 <= t.table[k] < |t.frames| && t.frames[t.table[k]].refbit
  {
    hide Emptied, Victim;
    if k in s.table {
      assert EntryOk(s, k);
    }
  }

  // ---- unPinPage ----

  ghost predicate UnpinStep(s: State, k: Key, dirty: bool, status: Status, t: State)
    requires Wired(s)
  {
    if k !in s.table then status == HASHNOTFOUND && t == s
    else
      assert EntryOk(s, k);
      var f := s.frames[s.table[k]];
      if f.pinCnt == 0 then status == PAGENOTPINNED && t == s
      else status == OK && t == Repinned(s, s.table[k], f.(pinCnt := f.pinCnt - 1, dirty := f.dirty || dirty))
  }

  /** What clients owe after unpinning: a page handed back as dirty is settled. */
  function Settled(owed: set<Key>, k: Key, dirty: bool, status: Status): set<Key> {
    if status == OK && dirty then owed - {k} else owed
  }

  /** Unpinning changes nothing clients see and takes one pin away.  The last pin of a changed page must be
      given back as dirty. */
  lemma UnpinKeeps(s: State, k: Key, dirty: bool, status: Status, t: State, owed: set<Key>)
    requires Wired(s) && UnpinStep(s, k, dirty, status, t)
    ensures Wired(t) && t.files == s.files && (Tidy(s) ==> Tidy(t))
    ensures status == OK <==> Pins(s, k) > 0
    ensures Coherent(s, owed) && (k in owed && Pins(s, k) == 1 ==> dirty) ==> Coherent(t, Settled(owed, k, dirty, status))
    ensures SameView(s, t) && StayPut(s, t)
    ensures forall j :: Pins(t, j) == Pins(s, j) - if status == OK && j == k then 1 else 0
  {
    hide FilesSound, Allocated, OnDisk;
    if k in s.table {
      assert EntryOk(s, k);
      var f := s.frames[s.table[k]];
      assert FrameOk(s, s.table[k]);
      if f.pinCnt > 0 {
        RepinKeeps(s, k, f.pinCnt - 1, f.dirty || dirty, f.refbit, owed);
      }
    }
    forall j | Pins(s, j) > 0
      ensures StaysPut(s, t, j)
    {
    }
  }

  // ---- allocPage ----

  lemma FilesWired(s: State, f: FileId, e: Disk)
    requires Wired(s) && f in s.files
    ensures Wired(s.(files := s.files[f := e]))
  {
    var t := s.(files := s.files[f := e]);
    forall i | 0 <= i < |t.frames|
      ensures FrameOk(t, i)
    {
      assert FrameOk(s, i);
    }
    forall k | k in t.table
      ensures EntryOk(t, k)
    {
      assert EntryOk(s, k);
    }
  }

  /** The file layer hands out page pageNo, leaving the file as e; then a frame is found for it.  The frame is
      neither cleared nor marked dirty. */
  ghost predicate AllocStep(s: State, file: FileId, fileStatus: Status, pageNo: int, e: Disk, status: Status, t: State)
    requires Wired(s) && file in s.files
  {
    && AllocateOutcome(s.files[file], fileStatus, pageNo, e)
    && var s1 := s.(files := s.files[file := e]);
      FilesWired(s, file, e);
      if fileStatus != OK then status == fileStatus && t == s1
      else
        || (status != OK && NoFrame(s1, status, t))
        || (Victim(s1.frames, s1.hand).Some? && AllocInto(Emptied(s1), Victim(s1.frames, s1.hand).value, Key(file, pageNo), status, t))
  }

  ghost predicate AllocInto(u: State, v: nat, k: Key, status: Status, t: State) {
    && v < |u.frames| == |u.pool|
    && if k in u.table then status == HASHTBLERROR && t == Install(u, v, k, u.pool[v]).(table := u.table)
       else status == OK && t == Install(u, v, k, u.pool[v])
  }

  /** What allocPage returns once the file layer has a page: BUFFEREXCEEDED if and only if every frame is pinned. */
  lemma AllocStatus(s: State, k: Key, fileStatus: Status, e: Disk, status: Status, t: State)
    requires Wired(s) && k.file in s.files && AllocStep(s, k.file, fileStatus, k.pageNo, e, status, t)
    ensures fileStatus != OK ==> status == fileStatus
    ensures fileStatus == OK ==> status == OK || status == BUFFEREXCEEDED || status == UNIXERR || status == HASHTBLERROR
    ensures fileStatus == OK ==> (status == BUFFEREXCEEDED <==>
      forall i :: 0 <= i < |s.frames| ==> s.frames[i].valid && s.frames[i].pinCnt != 0)
  {
    VictimExists(s.frames, s.hand);
    hide Emptied, Victim, Looked, AllocateOutcome;
  }

  lemma AllocReferences(s: State, k: Key, fileStatus: Status, e: Disk, t: State)
    requires Wired(s) && k.file in s.files && AllocStep(s, k.file, fileStatus, k.pageNo, e, OK, t)
    ensures k in t.table && 0 <= t.table[k] < |t.frames| && t.frames[t.table[k]].refbit
  {
    hide Emptied, Victim, NoFrame, AllocateOutcome;
  }

  lemma InPoolUsable(s: State, k: Key)
    requires Wired(s) && Tidy(s) && k in s.table
    ensures Usable(s, k)
  {
    hide FilesSound, Allocated;
    assert EntryOk(s, k) && FrameTidy(s, s.table[k]);
  }

  /** What allocatePage does to one page. */
  lemma AllocatedKey(s: State, k: Key, fileStatus: Status, e: Disk, j: Key)
    requires FilesSound(s.files) && k.file in s.files && AllocateOutcome(s.files[k.file], fileStatus, k.pageNo, e)
    ensures var t := s.(files := s.files[k.file := e]);
      && (Usable(t, j) <==> Usable(s, j) || (fileStatus == OK && j == k))
      && (Usable(s, j) ==> OnDisk(t.files, j) == OnDisk(s.files, j))
      && (Usable(s, j) && j.file == k.file ==> j.pageNo < |e| && j.pageNo < |s.files[k.file]|)
      && (Usable(s, j) && j.file == k.file ==> j.pageNo >= 1 && e[j.pageNo] == s.files[k.file][j.pageNo])
      && (j.file == k.file ==> (Usable(t, j) <==> Allocated(e, j.pageNo)))
  {
    var d := s.files[k.file];
    AllocateTheorem(d, fileStatus, k.pageNo, e);
    hide Sound, AllocateOutcome, FreeList;
    assert Allocated(e, j.pageNo) <==> Allocated(d, j.pageNo) || (fileStatus == OK && j.pageNo == k.pageNo);
  }

  lemma AllocatedFiles(s: State, k: Key, fileStatus: Status, e: Disk)
    requires FilesSound(s.files) && k.file in s.files && AllocateOutcome(s.files[k.file], fileStatus, k.pageNo, e)
    ensures Sound(e)
    ensures var t := s.(files := s.files[k.file := e]);
      && (fileStatus == OK ==> !Usable(s, k) && Usable(t, k) && k.pageNo >= 1)
      && (forall j :: Usable(t, j) <==> Usable(s, j) || (fileStatus == OK && j == k))
      && (forall j :: Usable(s, j) ==> OnDisk(t.files, j) == OnDisk(s.files, j))
      && (forall j :: Usable(s, j) && j.file == k.file ==>
          j.pageNo < |e| && j.pageNo < |s.files[k.file]| && e[j.pageNo] == s.files[k.file][j.pageNo])
      && (forall j: Key :: j.file == k.file ==> (Usable(t, j) <==> Allocated(e, j.pageNo)))
  {
    AllocateTheorem(s.files[k.file], fileStatus, k.pageNo, e);
    AllocatedNew(s, k, fileStatus, e);
    var t := s.(files := s.files[k.file := e]);
    hide *;
    forall j: Key
      ensures Usable(t, j) <==> Usable(s, j) || (fileStatus == OK && j == k)
      ensures Usable(s, j) ==> OnDisk(t.files, j) == OnDisk(s.files, j)
      ensures Usable(s, j) && j.file == k.file ==>
        0 <= j.pageNo < |e| && j.pageNo < |s.files[k.file]| && e[j.pageNo] == s.files[k.file][j.pageNo]
      ensures j.file == k.file ==> (Usable(t, j) <==> Allocated(e, j.pageNo))
    {
      AllocatedKey(s, k, fileStatus, e, j);
    }
  }

  lemma AllocatedNew(s: State, k: Key, fileStatus: Status, e: Disk)
    requires FilesSound(s.files) && k.file in s.files && AllocateOutcome(s.files[k.file], fileStatus, k.pageNo, e)
    ensures fileStatus == OK ==> !Usable(s, k) && Usable(s.(files := s.files[k.file := e]), k) && k.pageNo >= 1
  {
    AllocateTheorem(s.files[k.file], fileStatus, k.pageNo, e);
    hide Sound, AllocateOutcome, FreeList;
    assert fileStatus == OK ==> Allocated(e, k.pageNo);
  }

  /** The file has changed as allocatePage says: the pool still fits it, and the new page is not in the pool. */
  lemma FileAllocates(s: State, file: FileId, fileStatus: Status, pageNo: int, e: Disk, owed: set<Key>)
    requires Wired(s) && Tidy(s) && Coherent(s, owed) && file in s.files
    requires AllocateOutcome(s.files[file], fileStatus, pageNo, e)
    ensures var k := Key(file, pageNo); var t := s.(files := s.files[file := e]);
      && Wired(t) && Tidy(t) && Coherent(t, owed)
      && (fileStatus == OK ==> !Usable(s, k) && Usable(t, k) && k !in s.table && pageNo >= 1)
      && (forall j :: Usable(t, j) <==> Usable(s, j) || (fileStatus == OK && j == k))
      && (forall j :: Usable(s, j) ==> Content(t, j) == Content(s, j))
      && SamePins(s, t) && StayPut(s, t)
  {
    var k, t := Key(file, pageNo), s.(files := s.files[file := e]);
    AllocatedFiles(s, k, fileStatus, e);
    hide Sound, AllocateOutcome, Usable, Tidy, Coherent, OnDisk, Wired;
    forall j | j in s.table
      ensures Usable(s, j)
    {
      InPoolUsable(s, j);
    }
    FileKeeps(s, file, e, owed);
    hide Pins;
    forall j | Pins(s, j) > 0
      ensures StaysPut(s, t, j)
    {
      PinnedInTable(s, j);
    }
  }

  lemma PinnedInTable(s: State, k: Key)
    requires Pins(s, k) > 0
    ensures k in s.table
  {
  }

  lemma AllocTakes(u: State, v: nat, k: Key, status: Status, t: State, owed: set<Key>)
    requires Wired(u) && Tidy(u) && Coherent(u, owed) && v < |u.frames| && !u.frames[v].valid && Usable(u, k) && k.pageNo >= 1
    requires k !in u.table && AllocInto(u, v, k, status, t)
    ensures status == OK && Wired(t) && Tidy(t) && Coherent(t, owed + {k}) && t.files == u.files
    ensures forall j :: j != k ==> Content(t, j) == Content(u, j)
    ensures forall j :: Pins(t, j) == Pins(u, j) + if j == k then 1 else 0
    ensures StayPut(u, t)
  {
    hide FilesSound, Allocated, OnDisk;
    InstallKeeps(u, v, k, u.pool[v], owed);
    OweMore(t, if OnDisk(u.files, k) == Some(u.pool[v]) then owed else owed + {k}, k);
    assert owed + {k} + {k} == owed + {k};
    forall j | Pins(u, j) > 0
      ensures StaysPut(u, t, j)
    {
    }
  }

  /** A pinned page may be owed without need. */
  lemma OweMore(s: State, owed: set<Key>, k: Key)
    requires Wired(s) && Coherent(s, owed) && k in s.table && Pins(s, k) > 0
    ensures Coherent(s, owed + {k})
  {
    hide OnDisk;
    assert EntryOk(s, k);
    forall i | 0 <= i < |s.frames|
      ensures FrameCoherent(s, owed + {k}, i)
    {
      assert FrameCoherent(s, owed, i) && FrameOk(s, i);
    }
  }

  /** Allocating a page: it was nobody's before and is not in the pool, so HASHTBLERROR cannot come up; afterwards it
      is pinned and owed, and no other page has changed. */
  lemma AllocKeeps(s: State, file: FileId, fileStatus: Status, pageNo: int, e: Disk, status: Status, t: State, owed: set<Key>)
    requires Wired(s) && Tidy(s) && Coherent(s, owed) && file in s.files
    requires AllocStep(s, file, fileStatus, pageNo, e, status, t)
    ensures Wired(t) && Tidy(t) && t.files.Keys == s.files.Keys
    ensures status == OK || status == BUFFEREXCEEDED || status == UNIXERR
    ensures var k := Key(file, pageNo);
      && Coherent(t, if status == OK then owed + {k} else owed)
      && (fileStatus == OK ==> !Usable(s, k) && Usable(t, k) && k !in s.table)
      && (forall j :: Usable(t, j) <==> Usable(s, j) || (fileStatus == OK && j == k))
      && (forall j :: Usable(s, j) ==> Content(t, j) == Content(s, j))
      && (forall j :: Pins(t, j) == Pins(s, j) + if status == OK && j == k then 1 else 0)
      && StayPut(s, t)
  {
    var k, s1 := Key(file, pageNo), s.(files := s.files[file := e]);
    FileAllocates(s, file, fileStatus, pageNo, e, owed);
    assert fileStatus != OK ==> fileStatus == UNIXERR;
    assert Shape(s1);
    hide Victim, Looked, Emptied, AllocateOutcome, Wired, Tidy, Coherent, Content, Pins, Usable, AllocInto;
    if fileStatus == OK {
      if status != OK && NoFrame(s1, status, t) {
        NoFrameFacts(s1, status, t, owed);
        SameUsable(s1, t);
      } else {
        EmptiedFacts(s1, owed);
        var u, v := Emptied(s1), Victim(s1.frames, s1.hand).value;
        AllocTakes(u, v, k, status, t, owed);
        SameUsable(u, t);
      }
    }
  }

  lemma SameUsable(s: State, t: State)
    requires t.files == s.files
    ensures forall j :: Usable(t, j) <==> Usable(s, j)
  {
    hide Allocated;
  }

  /** Without any assumption on what clients do: the hash table stays right unless the new page was in the pool already,
      and then the call says HASHTBLERROR. */
  lemma AllocWired(s: State, file: FileId, fileStatus: Status, pageNo: int, e: Disk, status: Status, t: State)
    requires Wired(s) && file in s.files && (fileStatus == OK ==> pageNo >= 1)
    requires AllocStep(s, file, fileStatus, pageNo, e, status, t)
    ensures Wired(t) <==> status != HASHTBLERROR
    ensures status == HASHTBLERROR ==> Key(file, pageNo) in s.table
  {
    var k, s1 := Key(file, pageNo), s.(files := s.files[file := e]);
    FilesWired(s, file, e);
    assert Shape(s1);
    hide AllocateOutcome, Victim, Looked, Emptied;
    if fileStatus == OK {
      if status != OK && NoFrame(s1, status, t) {
        NoFrameFacts(s1, status, t, {});
      } else {
        EmptiedFacts(s1, {});
        AllocIntoWired(Emptied(s1), Victim(s1.frames, s1.hand).value, k, status, t);
      }
    }
  }

  lemma AllocIntoWired(u: State, v: nat, k: Key, status: Status, t: State)
    requires Wired(u) && v < |u.frames| && !u.frames[v].valid && k.file in u.files && k.pageNo >= 1 && AllocInto(u, v, k, status, t)
    ensures Wired(t) <==> status != HASHTBLERROR
  {
    if k in u.table {
      assert EntryOk(u, k);
      assert t.table[k] != v;
      assert !FrameOk(t, v);
    } else {
      InstallKeeps(u, v, k, u.pool[v], {});
    }
  }

  // ---- disposePage ----

  /** The page's frame is dropped, pinned or not, and then the file layer frees the page. */
  ghost predicate DisposeStep(s: State, k: Key, status: Status, t: State)
    requires Wired(s) && k.file in s.files
  {
    && k.file in t.files && DisposeOutcome(s.files[k.file], k.pageNo, status, t.files[k.file])
    && t == Forgotten(s, k).(files := s.files[k.file := t.files[k.file]])
  }

  function Forgotten(s: State, k: Key): State
    requires Wired(s)
  {
    if k in s.table then
      assert EntryOk(s, k);
      Drop(s, s.table[k], k)
    else s
  }

  lemma ForgottenKeeps(s: State, k: Key, owed: set<Key>)
    requires Wired(s)
    ensures var t := Forgotten(s, k);
      && Wired(t) && (Tidy(s) ==> Tidy(t)) && (Coherent(s, owed) ==> Coherent(t, owed - {k}))
      && t.files == s.files && t.table == s.table - {k}
      && (forall j :: j != k ==> Content(t, j) == Content(s, j))
      && (forall j :: Pins(t, j) == if j == k then 0 else Pins(s, j))
      && (forall j :: j != k && Pins(s, j) > 0 ==> StaysPut(s, t, j))
  {
    hide FilesSound, Allocated, OnDisk;
    if k in s.table {
      DropKeeps(s, k, owed);
    } else {
      assert owed - {k} == owed || k in owed;
    }
  }

  /** What disposePage does to one page. */
  lemma DisposedKey(u: State, k: Key, status: Status, e: Disk, j: Key)
    requires FilesSound(u.files) && Usable(u, k) && DisposeOutcome(u.files[k.file], k.pageNo, status, e)
    ensures var t := u.(files := u.files[k.file := e]);
      && (Usable(t, j) <==> Usable(u, j) && !(status == OK && j == k))
      && (Usable(u, j) && j != k ==> OnDisk(t.files, j) == OnDisk(u.files, j))
      && (Usable(u, j) && j.file == k.file ==> j.pageNo >= 1)
      && (Usable(u, j) && j != k && j.file == k.file ==> j.pageNo < |e| && j.pageNo < |u.files[k.file]|)
      && (Usable(u, j) && j != k && j.file == k.file ==> e[j.pageNo] == u.files[k.file][j.pageNo])
      && (j.file == k.file ==> (Usable(t, j) <==> Allocated(e, j.pageNo)))
  {
    var d := u.files[k.file];
    DisposeTheorem(d, k.pageNo, status, e);
    hide Sound, DisposeOutcome, FreeList;
    assert Allocated(e, j.pageNo) <==> Allocated(d, j.pageNo) && !(status == OK && j.pageNo == k.pageNo);
  }

  lemma DisposedFiles(u: State, k: Key, status: Status, e: Disk)
    requires FilesSound(u.files) && Usable(u, k) && DisposeOutcome(u.files[k.file], k.pageNo, status, e)
    ensures Sound(e)
    ensures var t := u.(files := u.files[k.file := e]);
      && (forall j :: Usable(t, j) <==> Usable(u, j) && !(status == OK && j == k))
      && (forall j :: Usable(u, j) && j != k ==> OnDisk(t.files, j) == OnDisk(u.files, j))
      && (forall j :: Usable(u, j) && j != k && j.file == k.file ==>
          j.pageNo < |e| && j.pageNo < |u.files[k.file]| && e[j.pageNo] == u.files[k.file][j.pageNo])
      && (forall j: Key :: j.file == k.file ==> (Usable(t, j) <==> Allocated(e, j.pageNo)))
  {
    DisposeTheorem(u.files[k.file], k.pageNo, status, e);
    assert k.file in u.files;
    var t := u.(files := u.files[k.file := e]);
    hide *;
    forall j: Key
      ensures Usable(t, j) <==> Usable(u, j) && !(status == OK && j == k)
      ensures Usable(u, j) && j != k ==> OnDisk(t.files, j) == OnDisk(u.files, j)
      ensures Usable(u, j) && j != k && j.file == k.file ==>
        0 <= j.pageNo < |e| && j.pageNo < |u.files[k.file]| && e[j.pageNo] == u.files[k.file][j.pageNo]
      ensures j.file == k.file ==> (Usable(t, j) <==> Allocated(e, j.pageNo))
    {
      DisposedKey(u, k, status, e, j);
    }
  }

  /** Whatever page is disposed of and however the call ends, the hash table stays right. */
  lemma DisposeWired(s: State, k: Key, status: Status, t: State)
    requires Wired(s) && k.file in s.files && DisposeStep(s, k, status, t)
    ensures Wired(t) && k !in t.table
  {
    ForgottenKeeps(s, k, {});
    hide Wired, Forgotten;
    FilesWired(Forgotten(s, k), k.file, t.files[k.file]);
  }

  lemma FileDisposes(u: State, k: Key, status: Status, e: Disk, owed: set<Key>)
    requires Wired(u) && Tidy(u) && Coherent(u, owed) && Usable(u, k) && k !in u.table
    requires DisposeOutcome(u.files[k.file], k.pageNo, status, e)
    ensures var t := u.(files := u.files[k.file := e]);
      && Wired(t) && Tidy(t) && Coherent(t, owed)
      && (forall j :: Usable(t, j) <==> Usable(u, j) && !(status == OK && j == k))
      && (forall j :: Usable(u, j) && j != k ==> Content(t, j) == Content(u, j))
      && SamePins(u, t)
  {
    DisposedFiles(u, k, status, e);
    hide Sound, DisposeOutcome, Usable, Tidy, Coherent, OnDisk, Wired;
    forall j | j in u.table
      ensures Usable(u, j)
    {
      InPoolUsable(u, j);
    }
    FileKeeps(u, k.file, e, owed);
  }

  /** Disposing of a page clients may use: nothing about the other pages changes, whatever the file layer says.
      When it succeeds the page is free, otherwise its bytes may be lost. */
  lemma DisposeKeeps(s: State, k: Key, status: Status, t: State, owed: set<Key>)
    requires Wired(s) && Tidy(s) && Coherent(s, owed) && Usable(s, k) && DisposeStep(s, k, status, t)
    ensures Wired(t) && Tidy(t) && Coherent(t, owed - {k}) && t.files.Keys == s.files.Keys
    ensures forall j :: Usable(t, j) <==> Usable(s, j) && !(status == OK && j == k)
    ensures forall j :: Usable(s, j) && j != k ==> Content(t, j) == Content(s, j)
    ensures forall j :: Pins(t, j) == if j == k then 0 else Pins(s, j)
    ensures forall j :: j != k && Pins(s, j) > 0 ==> StaysPut(s, t, j)
  {
    assert k.file in s.files;
    hide Forgotten, DisposeOutcome, Wired, Tidy, Coherent, Content, Pins, Usable;
    var u := Forgotten(s, k);
    ForgottenKeeps(s, k, owed);
    SameUsable(s, u);
    FileDisposes(u, k, status, t.files[k.file], owed - {k});
  }

  /** Every page clients may use can be disposed of but the first of its file, unless a read or write fails. */
  lemma DisposeFrees(s: State, k: Key, status: Status, t: State)
    requires Wired(s) && Usable(s, k) && DisposeStep(s, k, status, t)
    ensures s.files[k.file] != []
    ensures status == OK <==> status != UNIXERR && k.pageNo != s.files[k.file][0].firstPage
    ensures status == OK || status == BADPAGENO || status == UNIXERR
  {
    DisposeStatus(s.files[k.file], k.pageNo, status, t.files[k.file]);
    hide Forgotten, DisposeOutcome;
  }

  // ---- flushFile ----

  /** The state after the first n frames have been flushed. */
  function Flushed(s: State, file: FileId, n: nat): (t: State)
    requires Wired(s) && n <= |s.frames|
    ensures Wired(t) && |t.frames| == |s.frames| && |t.pool| == |s.pool| && t.files.Keys == s.files.Keys
    ensures t.pool == s.pool
  {
    if n == 0 then s
    else
      var u := Flushed(s, file, n - 1);
      assert FrameOk(u, n - 1);
      EvictWired(u, n - 1);
      if u.frames[n - 1].valid && u.frames[n - 1].file == Some(file) then Evict(u, n - 1) else u
  }

  /** flushFile gets through the first n frames, and either these are all or something stops it at frame n. */
  ghost predicate FlushStep(s: State, file: FileId, n: nat, status: Status, t: State)
    requires Wired(s)
  {
    && n <= |s.frames| && t == Flushed(s, file, n)
    && (forall i :: 0 <= i < n ==> FlushesAt(s, file, i))
    && match status
       case OK => n == |s.frames|
       case PAGEPINNED => n < |s.frames| && s.frames[n].valid && s.frames[n].file == Some(file) && s.frames[n].pinCnt > 0
       case UNIXERR => n < |s.frames| && s.frames[n].valid && s.frames[n].file == Some(file) && s.frames[n].dirty
       case _ => false
  }

  predicate FlushesAt(s: State, file: FileId, i: nat)
    requires i < |s.frames|
  {
    s.frames[i].valid && s.frames[i].file == Some(file) ==> s.frames[i].pinCnt == 0
  }

  /** Clients cannot tell the states apart. */
  ghost predicate Unseen(s: State, t: State, owed: set<Key>) {
    && (Tidy(s) ==> Tidy(t) && forall j :: Usable(t, j) <==> Usable(s, j))
    && (Tidy(s) && Coherent(s, owed) ==> Coherent(t, owed) && SameView(s, t) && SamePins(s, t) && StayPut(s, t))
  }

  lemma UnseenTransitive(s: State, t: State, u: State, owed: set<Key>)
    requires Unseen(s, t, owed) && Unseen(t, u, owed)
    ensures Unseen(s, u, owed)
  {
    hide Tidy, Coherent, Usable, Content, Pins;
  }

  lemma UnseenSame(s: State, owed: set<Key>)
    ensures Unseen(s, s, owed)
  {
    hide Tidy, Coherent, Usable, Content;
    forall k | Pins(s, k) > 0
      ensures StaysPut(s, s, k)
    {
    }
  }

  lemma UnseenEvict(s: State, i: nat, owed: set<Key>)
    requires Wired(s) && i < |s.frames| && s.frames[i].pinCnt == 0
    ensures FrameOk(s, i) && Unseen(s, Evict(s, i), owed)
  {
    assert FrameOk(s, i);
    if Tidy(s) {
      EvictTidy(s, i);
      if Coherent(s, owed) {
        EvictCoherent(s, owed, i);
      }
    }
    hide FrameOk, Tidy, Coherent, Allocated, Content, Pins, Wired, Evict;
  }

  lemma FlushedNext(s: State, file: FileId, n: nat)
    requires Wired(s) && n < |s.frames|
    ensures var u := Flushed(s, file, n);
      && n < |u.frames| && n < |u.pool| && u.frames[n] == s.frames[n] && FrameOk(u, n)
      && Flushed(s, file, n + 1) == if s.frames[n].valid && s.frames[n].file == Some(file) then Evict(u, n) else u
  {
    assert FrameOk(Flushed(s, file, n), n);
    FlushedSame(s, file, n, n);
    hide Evict;
  }

  /** Frames that have not had their turn are as they were. */
  lemma {:induction false} FlushedSame(s: State, file: FileId, n: nat, i: nat)
    requires Wired(s) && n <= i < |s.frames|
    ensures Flushed(s, file, n).frames[i] == s.frames[i]
  {
    hide Wired, Written;
    if n > 0 {
      FlushedSame(s, file, n - 1, i);
    }
  }

  lemma {:induction false} FlushedKeeps(s: State, file: FileId, n: nat, owed: set<Key>)
    requires Wired(s) && n <= |s.frames| && forall i :: 0 <= i < n ==> FlushesAt(s, file, i)
    ensures Unseen(s, Flushed(s, file, n), owed)
  {
    hide Unseen, Wired, Evict;
    if n == 0 {
      UnseenSame(s, owed);
    } else {
      FlushedKeeps(s, file, n - 1, owed);
      var u := Flushed(s, file, n - 1);
      assert FlushesAt(s, file, n - 1);
      FlushedNext(s, file, n - 1);
      hide Flushed;
      if s.frames[n - 1].valid && s.frames[n - 1].file == Some(file) {
        UnseenEvict(u, n - 1, owed);
        UnseenTransitive(s, u, Evict(u, n - 1), owed);
      }
    }
  }

  predicate GoneAt(t: State, file: FileId, i: nat)
    requires i < |t.frames|
  {
    !(t.frames[i].valid && t.frames[i].file == Some(file))
  }

  lemma {:induction false} FlushedGone(s: State, file: FileId, n: nat)
    requires Wired(s) && n <= |s.frames|
    ensures forall i :: 0 <= i < n ==> GoneAt(Flushed(s, file, n), file, i)
  {
    if n > 0 {
      FlushedGone(s, file, n - 1);
      var u, t := Flushed(s, file, n - 1), Flushed(s, file, n);
      hide Wired, Written;
      forall i | 0 <= i < n
        ensures GoneAt(t, file, i)
      {
        assert i < n - 1 ==> GoneAt(u, file, i);
      }
    }
  }

  /** flushFile changes nothing clients see, even when it stops half way.  When it succeeds no page of the file is in
      the pool any more, so what clients see is on disk. */
  /** What flushFile returns: unless a write fails, OK if and only if no page of the file is pinned, and else PAGEPINNED. */
  lemma FlushStatus(s: State, file: FileId, n: nat, status: Status, t: State)
    requires Wired(s) && FlushStep(s, file, n, status, t)
    ensures status == OK || status == PAGEPINNED || status == UNIXERR
    ensures status == OK ==> forall k: Key :: k.file == file ==> Pins(s, k) == 0
    ensures status == PAGEPINNED ==> exists k: Key :: k.file == file && Pins(s, k) > 0
  {
    hide Flushed;
    if status == OK {
      forall k: Key | k.file == file
        ensures Pins(s, k) == 0
      {
        if k in s.table {
          assert EntryOk(s, k) && FlushesAt(s, file, s.table[k]);
        }
      }
    } else if status == PAGEPINNED {
      assert FrameOk(s, n);
      assert Pins(s, KeyOf(s.frames[n])) > 0;
    }
  }

  lemma FlushKeeps(s: State, file: FileId, n: nat, status: Status, t: State, owed: set<Key>)
    requires Wired(s) && FlushStep(s, file, n, status, t)
    ensures Wired(t) && t.files.Keys == s.files.Keys
    ensures status == OK || status == PAGEPINNED || status == UNIXERR
    ensures Tidy(s) ==> Tidy(t) && forall j :: Usable(t, j) <==> Usable(s, j)
    ensures Tidy(s) && Coherent(s, owed) ==> Coherent(t, owed) && SameView(s, t) && SamePins(s, t) && StayPut(s, t)
    ensures status == OK ==> forall k :: k in t.table ==> k.file != file
    ensures Tidy(s) && Coherent(s, owed) && status == OK ==> forall k: Key :: k.file == file ==> OnDisk(t.files, k) == Content(s, k)
  {
    hide FilesSound, Allocated, OnDisk, Flushed, StayPut, SamePins, Tidy, Coherent;
    FlushedKeeps(s, file, n, owed);
    FlushedGone(s, file, n);
    if status == OK {
      forall k | k in t.table
        ensures k.file != file
      {
        assert EntryOk(t, k) && GoneAt(t, file, t.table[k]);
      }
      if Tidy(s) && Coherent(s, owed) {
        forall k: Key | k.file == file
          ensures OnDisk(t.files, k) == Content(s, k)
        {
          assert Content(t, k) == Content(s, k);
        }
      }
    }
  }

  // ---- giving a changed page back as clean ----

  /** What evicting frame j does to page k on disk. */
  lemma EvictDisk(u: State, j: nat, k: Key)
    requires Wired(u) && Tidy(u) && j < |u.frames|
    ensures FrameOk(u, j)
    ensures OnDisk(Evict(u, j).files, k)
      == if u.frames[j].valid && u.frames[j].dirty && k == KeyOf(u.frames[j]) then Some(u.pool[j]) else OnDisk(u.files, k)
  {
    assert FrameOk(u, j) && FrameTidy(u, j);
    if u.frames[j].valid && u.frames[j].dirty {
      WriteBack(u.files, KeyOf(u.frames[j]), u.pool[j]);
    }
    hide OnDisk, Allocated, Written, FilesSound;
  }

  lemma FlushedTidy(s: State, file: FileId, n: nat)
    requires Wired(s) && Tidy(s) && n <= |s.frames| && forall j :: 0 <= j < n ==> FlushesAt(s, file, j)
    ensures Tidy(Flushed(s, file, n))
  {
    hide Wired, Tidy, Flushed, Coherent;
    FlushedKeeps(s, file, n, {});
  }

  ghost predicate FlushesAll(s: State, file: FileId, n: nat)
    requires n <= |s.frames|
  {
    forall j :: 0 <= j < n ==> FlushesAt(s, file, j)
  }

  lemma FlushesFewer(s: State, file: FileId, n: nat)
    requires Wired(s) && Tidy(s) && 0 < n <= |s.frames| && FlushesAll(s, file, n)
    ensures FlushesAll(s, file, n - 1) && Tidy(Flushed(s, file, n - 1)) && |s.frames| == |s.pool|
  {
    hide Tidy, Flushed, FlushesAt;
    FlushedTidy(s, file, n - 1);
  }

  /** What flushing the first n frames does to the page of frame i on disk. */
  lemma {:induction false} FlushedDisk(s: State, file: FileId, n: nat, i: nat)
    requires Wired(s) && Tidy(s) && n <= |s.frames| && FlushesAll(s, file, n)
    requires i < |s.frames| && s.frames[i].valid && s.frames[i].file == Some(file) && |s.frames| == |s.pool|
    ensures OnDisk(Flushed(s, file, n).files, KeyOf(s.frames[i]))
      == if i < n && s.frames[i].dirty then Some(s.pool[i]) else OnDisk(s.files, KeyOf(s.frames[i]))
  {
    hide *;
    if n == 0 {
      FlushedNone(s, file);
    } else {
      FlushesFewer(s, file, n);
      FlushedDisk(s, file, n - 1, i);
      FlushedDiskNext(s, file, n - 1, i);
    }
  }

  lemma FlushedDiskNext(s: State, file: FileId, n: nat, i: nat)
    requires Wired(s) && n < |s.frames| == |s.pool| && Tidy(Flushed(s, file, n))
    requires i < |s.frames| && s.frames[i].valid && s.frames[i].file == Some(file)
    ensures OnDisk(Flushed(s, file, n + 1).files, KeyOf(s.frames[i]))
      == if i == n && s.frames[i].dirty then Some(s.pool[i]) else OnDisk(Flushed(s, file, n).files, KeyOf(s.frames[i]))
  {
    hide *;
    var u, k := Flushed(s, file, n), KeyOf(s.frames[i]);
    FlushedNext(s, file, n);
    EvictDisk(u, n, k);
    if i != n && s.frames[n].valid {
      FramesApart(s, i, n);
    }
  }

  lemma FlushedNone(s: State, file: FileId)
    requires Wired(s)
    ensures Flushed(s, file, 0) == s
  {
  }

  /** A page whose last pin is given back as clean: when it has to leave the pool, clients see the same bytes again
      exactly when the frame was dirty already or agreed with the disk. */
  lemma CleanUnpin(s: State, k: Key, t: State)
    requires Wired(s) && Tidy(s) && k in s.table && Pins(s, k) == 1 && UnpinStep(s, k, false, OK, t)
    ensures EntryOk(s, k) && Wired(t) && s.table[k] < |t.frames| && FrameOk(t, s.table[k])
    ensures Content(Evict(t, s.table[k]), k) == Content(s, k) <==>
      s.frames[s.table[k]].dirty || OnDisk(s.files, k) == Some(s.pool[s.table[k]])
  {
    assert EntryOk(s, k);
    UnpinKeeps(s, k, false, OK, t, {});
    hide OnDisk, Wired, Tidy, Coherent, Written;
    EvictionVisible(t, s.table[k]);
  }

  /** The same for a successful flushFile: the disk then holds what clients saw in exactly these cases. */
  lemma CleanUnpinFlushed(s: State, k: Key, t: State, u: State)
    requires Wired(s) && Tidy(s) && k in s.table && Pins(s, k) == 1 && UnpinStep(s, k, false, OK, t)
    requires Wired(t) && FlushStep(t, k.file, |t.frames|, OK, u)
    ensures EntryOk(s, k)
    ensures OnDisk(u.files, k) == Content(s, k) <==>
      s.frames[s.table[k]].dirty || OnDisk(s.files, k) == Some(s.pool[s.table[k]])
  {
    assert EntryOk(s, k);
    UnpinKeeps(s, k, false, OK, t, {});
    hide OnDisk, Wired, Tidy, Coherent, Flushed;
    FlushedDisk(t, k.file, |t.frames|, s.table[k]);
  }

  /** Such a page can be lost: a new file, one frame whose old bytes are not a page of zeros, allocPage, an unpin that
      does not say dirty, and the frame is needed for another page. */
  lemma LostPage() returns (s: State, k: Key, e: Disk, t: State, u: State)
    ensures Wired(s) && Tidy(s) && Coherent(s, {}) && k.file in s.files && s.files[k.file] == NewFile()
    ensures AllocStep(s, k.file, OK, k.pageNo, e, OK, t) && Wired(t)
    ensures UnpinStep(t, k, false, OK, u) && Wired(u) && |u.frames| == 1 && FrameOk(u, 0)
    ensures Content(u, k) == Content(t, k) && Content(Evict(u, 0), k) != Content(u, k)
  {
    var d, junk := NewFile(), Zero().(nextFree := 7);
    k := Key(1, 1);
    NewFileSound();
    s := State([Frame(None, 0, 0, 0, false, false, false)], [junk], 0, map[], map[1 := d]);
    assert FrameOk(s, 0) && FrameTidy(s, 0) && FrameCoherent(s, {}, 0);
    e := Written(Written(d, 1, Zero()), 0, d[0].(numPages := 2, firstPage := 1));
    var s1 := s.(files := s.files[1 := e]);
    FilesWired(s, 1, e);
    VictimExists(s1.frames, 0);
    EmptiedFacts(s1, {});
    var v := Victim(s1.frames, 0).value;
    assert v == 0;
    t := Install(Emptied(s1), 0, k, junk);
    AllocKeeps(s, 1, OK, 1, e, OK, t, {});
    u := Repinned(t, 0, t.frames[0].(pinCnt := 0));
    assert t.frames[0].pinCnt == 1 && t.table[k] == 0;
    UnpinKeeps(t, k, false, OK, u, {k});
    assert FrameOk(u, 0);
    assert OnDisk(u.files, k) == Some(Zero());
    CleanUnpin(t, k, u);
  }

  // ---- clients ----

  /** A client that has the page pinned changes its bytes. */
  ghost predicate ChangeStep(s: State, k: Key, x: Image, t: State)
    requires Wired(s)
  {
    k in s.table && Pins(s, k) > 0 && 0 <= s.table[k] < |s.pool| && t == Scribble(s, s.table[k], x)
  }

  lemma ChangeKeeps(s: State, k: Key, x: Image, t: State, owed: set<Key>)
    requires Wired(s) && ChangeStep(s, k, x, t)
    ensures Wired(t) && (Tidy(s) ==> Tidy(t)) && (Coherent(s, owed) ==> Coherent(t, owed + {k})) && t.files == s.files
    ensures forall j :: Content(t, j) == if j == k then Some(x) else Content(s, j)
    ensures SamePins(s, t) && StayPut(s, t)
  {
    hide FilesSound, Allocated, OnDisk;
    assert EntryOk(s, k) && FrameOk(s, s.table[k]);
    ScribbleKeeps(s, s.table[k], x, owed);
    assert KeyOf(s.frames[s.table[k]]) == k;
    forall j | Pins(s, j) > 0
      ensures StaysPut(s, t, j)
    {
    }
  }

  // ---- the destructor ----

  /** The files after the dirty pages of the first n frames have been written, except those of the frames missed. */
  function Saved(s: State, n: nat, missed: set<nat>): (files: Files)
    requires Wired(s) && n <= |s.frames|
    ensures files.Keys == s.files.Keys
  {
    if n == 0 then s.files
    else
      assert FrameOk(s, n - 1);
      var f, files := s.frames[n - 1], Saved(s, n - 1, missed);
      if f.valid && f.dirty && n - 1 !in missed
      then files[f.file.value := Written(files[f.file.value], f.pageNo, s.pool[n - 1])] else files
  }

  /** Page k once the first n frames have been saved. */
  function SavedPage(s: State, k: Key, n: nat, missed: set<nat>): Option<Image> {
    if k in s.table && 0 <= s.table[k] < n && s.table[k] < |s.frames| == |s.pool| && s.frames[s.table[k]].dirty
      && s.table[k] !in missed
    then Some(s.pool[s.table[k]]) else OnDisk(s.files, k)
  }

  /** What is known about the disk once the first n frames have been saved. */
  ghost predicate SavedOk(s: State, files: Files, n: nat, missed: set<nat>) {
    && FilesSound(files) && files.Keys == s.files.Keys
    && (forall f, p :: f in s.files && f in files ==> (Allocated(files[f], p) <==> Allocated(s.files[f], p)))
    && (forall k :: OnDisk(files, k) == SavedPage(s, k, n, missed))
  }

  predicate Saves(s: State, i: nat, missed: set<nat>)
    requires i < |s.frames|
  {
    s.frames[i].valid && s.frames[i].file.Some? && s.frames[i].dirty && i !in missed
  }

  lemma SavedPageNext(s: State, i: nat, missed: set<nat>, k: Key)
    requires Wired(s) && i < |s.frames|
    ensures SavedPage(s, k, i + 1, missed)
      == if Saves(s, i, missed) && k == KeyOf(s.frames[i]) then Some(s.pool[i]) else SavedPage(s, k, i, missed)
  {
    hide OnDisk;
    assert FrameOk(s, i);
    if k in s.table {
      assert EntryOk(s, k);
    }
  }

  lemma SaveOne(s: State, files: Files, i: nat, missed: set<nat>)
    requires Wired(s) && Tidy(s) && i < |s.frames| && SavedOk(s, files, i, missed)
    ensures FrameOk(s, i)
    ensures var f := s.frames[i];
      SavedOk(s, if f.valid && f.dirty && i !in missed
        then files[f.file.value := Written(files[f.file.value], f.pageNo, s.pool[i])] else files, i + 1, missed)
  {
    assert FrameOk(s, i) && FrameTidy(s, i);
    var f := s.frames[i];
    if Saves(s, i, missed) {
      WriteBack(files, KeyOf(f), s.pool[i]);
    }
    hide FilesSound, Allocated, OnDisk, Written, SavedPage, Wired, Tidy;
    forall k: Key
      ensures SavedPage(s, k, i + 1, missed)
        == if Saves(s, i, missed) && k == KeyOf(f) then Some(s.pool[i]) else SavedPage(s, k, i, missed)
    {
      SavedPageNext(s, i, missed, k);
    }
  }

  /** Which pages reach the disk: those of the dirty frames not missed; every other page stays as it was on disk.  The
      files stay sound whichever writes fail. */
  lemma {:induction false} SavedPages(s: State, n: nat, missed: set<nat>)
    requires Wired(s) && Tidy(s) && n <= |s.frames|
    ensures SavedOk(s, Saved(s, n, missed), n, missed)
  {
    hide SavedOk, Written;
    if n > 0 {
      SavedPages(s, n - 1, missed);
      SaveOne(s, Saved(s, n - 1, missed), n - 1, missed);
    } else {
      NoneSaved(s, missed);
    }
  }

  lemma NoneSaved(s: State, missed: set<nat>)
    requires Tidy(s)
    ensures SavedOk(s, s.files, 0, missed)
  {
  }

  /** After the destructor the disk holds what clients saw of every page that is not still owed and whose frame's write
      has not failed. */
  lemma AllSaved(s: State, owed: set<Key>, missed: set<nat>, k: Key)
    requires Wired(s) && Tidy(s) && Coherent(s, owed) && k !in owed && (k in s.table ==> s.table[k] !in missed)
    ensures OnDisk(Saved(s, |s.frames|, missed), k) == Content(s, k)
  {
    SavedPages(s, |s.frames|, missed);
    if k in s.table {
      assert EntryOk(s, k) && FrameCoherent(s, owed, s.table[k]);
    }
  }

  lemma EntryFacts(s: State, k: Key)
    requires Wired(s) && k in s.table
    ensures 0 <= s.table[k] < |s.frames|
  {
    assert EntryOk(s, k);
  }

  lemma PageNumber(s: State, file: FileId, fileStatus: Status, pageNo: int, e: Disk)
    requires Wired(s) && file in s.files && HeadOk(s.files[file]) && AllocateOutcome(s.files[file], fileStatus, pageNo, e)
    ensures fileStatus == OK ==> pageNo >= 1
    ensures Wired(s.(files := s.files[file := e]))
  {
    FilesWired(s, file, e);
  }

  lemma Entered(u: State, v: nat, k: Key, status: Status, t: State)
    requires v < |u.frames| == |u.pool| && status == if k in u.table then HASHTBLERROR else OK
    requires t == if status == OK then Install(u, v, k, u.pool[v]) else Install(u, v, k, u.pool[v]).(table := u.table)
    ensures AllocInto(u, v, k, status, t)
  {
  }
}
