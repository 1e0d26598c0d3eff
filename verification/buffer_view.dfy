/** The buffer pool as a state machine: frames, the pages in them, the hash table and the files below. */
module BufferView {
  import opened Bytes
  import opened FileLayer
  import opened Clock

  type Files = map<FileId, Disk>

  datatype State = State(frames: Frames, pool: seq<Image>, hand: nat, table: map<Key, int>, files: Files)

  function KeyOf(f: Frame): Key
    requires f.file.Some?
  {
    Key(f.file.value, f.pageNo)
  }

  function OnDisk(files: Files, k: Key): Option<Image> {
    if k.file in files && 0 <= k.pageNo < |files[k.file]| then Some(files[k.file][k.pageNo]) else None
  }

  // ---- the invariants ----

  predicate Shape(s: State) {
    0 < |s.frames| == |s.pool| && s.hand < |s.frames|
  }

  /** A valid frame is in the hash table under its own number; an invalid one is unused and clean. */
  predicate FrameOk(s: State, i: nat)
    requires i < |s.frames|
  {
    var f := s.frames[i];
    && f.frameNo == i && f.pinCnt >= 0
    && (f.valid ==> f.file.Some? && KeyOf(f) in s.table && s.table[KeyOf(f)] == i && f.file.value in s.files && f.pageNo >= 1)
    && (!f.valid ==> f.file == None && !f.dirty && f.pinCnt == 0)
  }

  /** An entry of the hash table leads to the valid frame that holds the page. */
  predicate EntryOk(s: State, k: Key)
    requires k in s.table
  {
    var i := s.table[k];
    0 <= i < |s.frames| && s.frames[i].valid && s.frames[i].file == Some(k.file) && s.frames[i].pageNo == k.pageNo
  }

  /** The hash table maps exactly the pages of the valid frames, each to its frame. */
  predicate Wired(s: State) {
    && Shape(s)
    && (forall i :: 0 <= i < |s.frames| ==> FrameOk(s, i))
    && (forall k :: k in s.table ==> EntryOk(s, k))
  }

  /** The frame's page is allocated in its file. */
  predicate FrameTidy(s: State, i: nat)
    requires i < |s.frames|
  {
    var f := s.frames[i];
    f.valid ==> f.file.Some? && f.file.value in s.files && Allocated(s.files[f.file.value], f.pageNo)
  }

  predicate FilesSound(files: Files) {
    forall f :: f in files ==> Sound(files[f])
  }

  /** The files are sound, and no frame holds a free page. */
  predicate Tidy(s: State) {
    && FilesSound(s.files)
    && (forall i :: 0 <= i < |s.frames| ==> FrameTidy(s, i))
  }

  /** A frame that is clean, and whose page no client still has to hand back as dirty, agrees with the disk;
      pages to be handed back are pinned. */
  predicate FrameCoherent(s: State, owed: set<Key>, i: nat)
    requires i < |s.frames| == |s.pool|
  {
    var f := s.frames[i];
    f.valid && f.file.Some? ==>
      && (KeyOf(f) in owed ==> f.pinCnt > 0)
      && (!f.dirty && KeyOf(f) !in owed ==> OnDisk(s.files, KeyOf(f)) == Some(s.pool[i]))
  }

  predicate Coherent(s: State, owed: set<Key>) {
    && |s.frames| == |s.pool|
    && (forall i :: 0 <= i < |s.frames| ==> FrameCoherent(s, owed, i))
    && (forall k :: k in owed ==> k in s.table)
  }

  /** The page as clients see it: the frame's bytes if it is in the pool, else what is on disk. */
  function Content(s: State, k: Key): Option<Image> {
    if k in s.table && 0 <= s.table[k] < |s.pool| then Some(s.pool[s.table[k]]) else OnDisk(s.files, k)
  }

  function Pins(s: State, k: Key): int {
    if k in s.table && 0 <= s.table[k] < |s.frames| then s.frames[s.table[k]].pinCnt else 0
  }

  /** Is the page one a client may use? */
  predicate Usable(s: State, k: Key) {
    k.file in s.files && Allocated(s.files[k.file], k.pageNo)
  }

  // ---- the elementary changes ----

  /** The clock has gone round: reference bits are off, the hand has moved. */
  function Looked(s: State): State
    requires Shape(s)
  {
    var v := Victim(s.frames, s.hand);
    s.(frames := Swept(s.frames, s.hand), hand := if v.Some? then v.value else s.hand)
  }

  /** The frame's page, written back if dirty, leaves the pool. */
  function Evict(s: State, i: nat): State
    requires i < |s.frames| && i < |s.pool|
    requires s.frames[i].valid ==> s.frames[i].file.Some? && s.frames[i].file.value in s.files && s.frames[i].pageNo >= 0
  {
    var f := s.frames[i];
    if !f.valid then s
    else s.(
      frames := s.frames[i := f.Clear()],
      table := s.table - {KeyOf(f)},
      files := if f.dirty then s.files[f.file.value := Written(s.files[f.file.value], f.pageNo, s.pool[i])] else s.files)
  }

  /** The page is put into frame i. */
  function Install(s: State, i: nat, k: Key, x: Image): State
    requires i < |s.frames| && i < |s.pool|
  {
    s.(frames := s.frames[i := s.frames[i].Set(k.file, k.pageNo)], pool := s.pool[i := x], table := s.table[k := i])
  }

  /** The frame's page leaves the pool without being written. */
  function Drop(s: State, i: nat, k: Key): State
    requires i < |s.frames|
  {
    s.(frames := s.frames[i := s.frames[i].Clear()], table := s.table - {k})
  }

  function Repinned(s: State, i: nat, f: Frame): State
    requires i < |s.frames|
  {
    s.(frames := s.frames[i := f])
  }

  function Scribble(s: State, i: nat, x: Image): State
    requires i < |s.pool|
  {
    s.(pool := s.pool[i := x])
  }

  // ---- what each change keeps ----

  /** Searching for a frame changes nothing that matters. */
  predicate Alike(s: State, t: State) {
    && |t.frames| == |s.frames| && t.pool == s.pool && t.table == s.table && t.files == s.files && Shape(t)
    && forall i :: 0 <= i < |s.frames| ==> t.frames[i].(refbit := s.frames[i].refbit) == s.frames[i]
  }

  lemma AlikeKeeps(s: State, t: State, owed: set<Key>)
    requires Alike(s, t) && Shape(s)
    ensures Wired(s) ==> Wired(t)
    ensures Tidy(s) ==> Tidy(t)
    ensures Coherent(s, owed) ==> Coherent(t, owed)
    ensures forall k :: Content(t, k) == Content(s, k) && Pins(t, k) == Pins(s, k)
  {
    hide FilesSound, Allocated, OnDisk;
    forall i | 0 <= i < |s.frames|
      ensures FrameOk(s, i) ==> FrameOk(t, i)
      ensures FrameTidy(s, i) ==> FrameTidy(t, i)
      ensures FrameCoherent(s, owed, i) ==> FrameCoherent(t, owed, i)
    {
      assert t.frames[i].(refbit := s.frames[i].refbit) == s.frames[i];
    }
    forall k | k in s.table
      ensures EntryOk(s, k) ==> EntryOk(t, k)
      ensures Pins(t, k) == Pins(s, k)
    {
      var i := s.table[k];
      assert 0 <= i < |s.frames| ==> t.frames[i].(refbit := s.frames[i].refbit) == s.frames[i];
    }
  }

  lemma LookedAlike(s: State)
    requires Shape(s)
    ensures Alike(s, Looked(s))
  {
    hide FirstTakeable, Victim;
  }

  lemma EvictWired(s: State, i: nat)
    requires Wired(s) && i < |s.frames|
    ensures FrameOk(s, i)
    ensures Wired(Evict(s, i)) && !Evict(s, i).frames[i].valid
    ensures Evict(s, i).table == if s.frames[i].valid then s.table - {KeyOf(s.frames[i])} else s.table
  {
    hide Written;
    assert FrameOk(s, i);
    var t := Evict(s, i);
    forall j | 0 <= j < |t.frames|
      ensures FrameOk(t, j)
    {
      assert FrameOk(s, j);
    }
    forall k | k in t.table
      ensures EntryOk(t, k)
    {
      assert EntryOk(s, k);
    }
  }

  /** Writing an allocated page to disk changes that page only: no other page, no free list, no allocation. */
  lemma WriteBack(files: Files, k: Key, x: Image)
    requires FilesSound(files) && k.file in files && Allocated(files[k.file], k.pageNo)
    ensures var gs := files[k.file := Written(files[k.file], k.pageNo, x)];
      && FilesSound(gs)
      && (forall f :: f in files ==> FreeList(gs[f]) == FreeList(files[f]))
      && (forall f, p :: f in files ==> (Allocated(gs[f], p) <==> Allocated(files[f], p)))
      && OnDisk(gs, k) == Some(x) && forall j :: j != k ==> OnDisk(gs, j) == OnDisk(files, j)
  {
    WriteKeepsSound(files[k.file], k.pageNo, x);
    hide FreeList, Links, Within, Below, Grown;
  }

  /** Evicting a page keeps every free list: no link is overwritten. */
  lemma EvictTidy(s: State, i: nat)
    requires Wired(s) && Tidy(s) && i < |s.frames|
    ensures FrameOk(s, i) && Tidy(Evict(s, i))
    ensures var t := Evict(s, i);
      && t.files.Keys == s.files.Keys
      && (forall f :: f in s.files ==> FreeList(t.files[f]) == FreeList(s.files[f]))
      && (forall f, p :: f in s.files ==> (Allocated(t.files[f], p) <==> Allocated(s.files[f], p)))
  {
    assert FrameOk(s, i) && FrameTidy(s, i);
    if s.frames[i].valid && s.frames[i].dirty {
      WriteBack(s.files, KeyOf(s.frames[i]), s.pool[i]);
    }
    hide FilesSound, Allocated, FreeList, Written;
    var t := Evict(s, i);
    forall j | 0 <= j < |t.frames|
      ensures FrameTidy(t, j)
    {
      assert FrameTidy(s, j);
    }
  }

  /** Two frames hold different pages. */
  lemma FramesApart(s: State, i: nat, j: nat)
    requires Wired(s) && i < |s.frames| && j < |s.frames| && i != j && s.frames[i].valid && s.frames[j].valid
    ensures s.frames[i].file.Some? && s.frames[j].file.Some? && KeyOf(s.frames[i]) != KeyOf(s.frames[j])
  {
    assert FrameOk(s, i) && FrameOk(s, j);
  }

  /** Does eviction keep what clients see?  Exactly when the frame is dirty or agrees with the disk. */
  lemma EvictionVisible(s: State, i: nat)
    requires Wired(s) && Tidy(s) && i < |s.frames| && s.frames[i].valid
    ensures FrameOk(s, i)
    ensures (forall k :: Content(Evict(s, i), k) == Content(s, k)) <==>
      s.frames[i].dirty || OnDisk(s.files, KeyOf(s.frames[i])) == Some(s.pool[i])
    ensures forall k :: k != KeyOf(s.frames[i]) ==> Content(Evict(s, i), k) == Content(s, k)
  {
    assert FrameOk(s, i) && FrameTidy(s, i);
    var t, k0 := Evict(s, i), KeyOf(s.frames[i]);
    if s.frames[i].dirty {
      WriteBack(s.files, k0, s.pool[i]);
    }
    hide FilesSound, Allocated, Written;
    assert Content(s, k0) == Some(s.pool[i]) && Content(t, k0) == OnDisk(t.files, k0);
    forall k | k != k0
      ensures Content(t, k) == Content(s, k)
    {
      assert k in s.table ==> EntryOk(s, k);
    }
  }

  /** Evicting an unpinned frame keeps what clients see, and what they owe. */
  lemma EvictCoherent(s: State, owed: set<Key>, i: nat)
    requires Wired(s) && Tidy(s) && Coherent(s, owed) && i < |s.frames| && s.frames[i].pinCnt == 0
    ensures FrameOk(s, i) && Coherent(Evict(s, i), owed)
    ensures forall k :: Content(Evict(s, i), k) == Content(s, k) && Pins(Evict(s, i), k) == Pins(s, k)
    ensures forall k :: Pins(s, k) > 0 ==> k in s.table && k in Evict(s, i).table && Evict(s, i).table[k] == s.table[k]
  {
    assert FrameOk(s, i) && FrameTidy(s, i) && FrameCoherent(s, owed, i);
    var t := Evict(s, i);
    if s.frames[i].valid {
      EvictionVisible(s, i);
      if s.frames[i].dirty {
        WriteBack(s.files, KeyOf(s.frames[i]), s.pool[i]);
      }
    }
    hide FilesSound, Allocated, Written, Content, OnDisk;
    forall j | 0 <= j < |t.frames|
      ensures FrameCoherent(t, owed, j)
    {
      assert FrameOk(s, j) && FrameCoherent(s, owed, j);
      if j != i && s.frames[i].valid && s.frames[j].valid {
        FramesApart(s, i, j);
      }
    }
    forall k
      ensures Pins(t, k) == Pins(s, k) && (Pins(s, k) > 0 ==> k in s.table && k in t.table && t.table[k] == s.table[k])
    {
      assert k in s.table ==> EntryOk(s, k);
    }
  }

  lemma InstallKeeps(s: State, i: nat, k: Key, x: Image, owed: set<Key>)
    requires Wired(s) && i < |s.frames| && !s.frames[i].valid && k !in s.table && k.file in s.files && k.pageNo >= 1
    ensures Wired(Install(s, i, k, x))
    ensures Tidy(s) && Usable(s, k) ==> Tidy(Install(s, i, k, x))
    ensures Coherent(s, owed) ==> Coherent(Install(s, i, k, x), if OnDisk(s.files, k) == Some(x) then owed else owed + {k})
    ensures Content(Install(s, i, k, x), k) == Some(x) && Pins(Install(s, i, k, x), k) == 1
    ensures forall j :: j != k ==> Content(Install(s, i, k, x), j) == Content(s, j) && Pins(Install(s, i, k, x), j) == Pins(s, j)
  {
    hide FilesSound, Allocated;
    var t, owed' := Install(s, i, k, x), if OnDisk(s.files, k) == Some(x) then owed else owed + {k};
    forall j | 0 <= j < |t.frames|
      ensures FrameOk(t, j)
      ensures Tidy(s) && Usable(s, k) ==> FrameTidy(t, j)
      ensures Coherent(s, owed) ==> FrameCoherent(t, owed', j)
    {
      assert FrameOk(s, j);
      assert Tidy(s) ==> FrameTidy(s, j);
      assert Coherent(s, owed) ==> FrameCoherent(s, owed, j);
    }
    forall j | j in t.table
      ensures EntryOk(t, j)
    {
      assert j != k ==> EntryOk(s, j);
    }
    forall j | j != k
      ensures Content(t, j) == Content(s, j) && Pins(t, j) == Pins(s, j)
    {
      assert j in s.table ==> EntryOk(s, j);
    }
  }

  lemma DropKeeps(s: State, k: Key, owed: set<Key>)
    requires Wired(s) && k in s.table
    ensures EntryOk(s, k) && Wired(Drop(s, s.table[k], k))
    ensures Tidy(s) ==> Tidy(Drop(s, s.table[k], k))
    ensures Coherent(s, owed) ==> Coherent(Drop(s, s.table[k], k), owed - {k})
    ensures forall j :: j != k ==> Content(Drop(s, s.table[k], k), j) == Content(s, j)
    ensures forall j :: Pins(Drop(s, s.table[k], k), j) == if j == k then 0 else Pins(s, j)
  {
    hide FilesSound, Allocated, OnDisk;
    assert EntryOk(s, k);
    var t := Drop(s, s.table[k], k);
    forall j | 0 <= j < |t.frames|
      ensures FrameOk(t, j) && (Tidy(s) ==> FrameTidy(t, j)) && (Coherent(s, owed) ==> FrameCoherent(t, owed - {k}, j))
    {
      assert FrameOk(s, j);
      assert Tidy(s) ==> FrameTidy(s, j);
      assert Coherent(s, owed) ==> FrameCoherent(s, owed, j);
    }
    forall j | j in s.table
      ensures EntryOk(s, j) && (j != k ==> EntryOk(t, j))
    {
      assert EntryOk(s, j);
    }
  }

  /** Pinning, unpinning and marking the frame of page k. */
  lemma RepinKeeps(s: State, k: Key, p: int, dirty: bool, refbit: bool, owed: set<Key>)
    requires Wired(s) && k in s.table && p >= 0
    ensures EntryOk(s, k)
    ensures var t := Repinned(s, s.table[k], s.frames[s.table[k]].(pinCnt := p, dirty := dirty, refbit := refbit));
      && Wired(t) && (Tidy(s) ==> Tidy(t))
      && (forall j :: Content(t, j) == Content(s, j) && Pins(t, j) == (if j == k then p else Pins(s, j)))
      && (Coherent(s, owed) && dirty == s.frames[s.table[k]].dirty && (p == 0 ==> k !in owed) ==> Coherent(t, owed))
      && (Coherent(s, owed) && dirty ==> Coherent(t, owed - {k}))
  {
    hide FilesSound, Allocated, OnDisk;
    assert EntryOk(s, k);
    var i := s.table[k];
    var t := Repinned(s, i, s.frames[i].(pinCnt := p, dirty := dirty, refbit := refbit));
    forall j | 0 <= j < |t.frames|
      ensures FrameOk(t, j) && (Tidy(s) ==> FrameTidy(t, j))
      ensures Coherent(s, owed) && dirty == s.frames[i].dirty && (p == 0 ==> k !in owed) ==> FrameCoherent(t, owed, j)
      ensures Coherent(s, owed) && dirty ==> FrameCoherent(t, owed - {k}, j)
    {
      assert FrameOk(s, j);
      assert Tidy(s) ==> FrameTidy(s, j);
      assert Coherent(s, owed) ==> FrameCoherent(s, owed, j);
    }
    forall j | j in s.table
      ensures EntryOk(t, j) && Pins(t, j) == if j == k then p else Pins(s, j)
    {
      assert EntryOk(s, j);
    }
  }

  /** Bytes change in a frame: in one that holds no page nothing is seen of it; in a pinned one the page changes. */
  lemma ScribbleKeeps(s: State, i: nat, x: Image, owed: set<Key>)
    requires Wired(s) && i < |s.frames|
    ensures FrameOk(s, i) && Wired(Scribble(s, i, x))
    ensures Tidy(s) ==> Tidy(Scribble(s, i, x))
    ensures forall j :: Pins(Scribble(s, i, x), j) == Pins(s, j)
    ensures var t := Scribble(s, i, x);
      forall j :: Content(t, j) == if s.frames[i].valid && j == KeyOf(s.frames[i]) then Some(x) else Content(s, j)
    ensures Coherent(s, owed) && !s.frames[i].valid ==> Coherent(Scribble(s, i, x), owed)
    ensures Coherent(s, owed) && s.frames[i].valid && s.frames[i].pinCnt > 0
      ==> Coherent(Scribble(s, i, x), owed + {KeyOf(s.frames[i])})
  {
    hide FilesSound, Allocated, OnDisk;
    assert FrameOk(s, i);
    var t := Scribble(s, i, x);
    forall j | 0 <= j < |t.frames|
      ensures FrameOk(t, j) && (Tidy(s) ==> FrameTidy(t, j))
      ensures Coherent(s, owed) && !s.frames[i].valid ==> FrameCoherent(t, owed, j)
      ensures Coherent(s, owed) && s.frames[i].valid && s.frames[i].pinCnt > 0
        ==> FrameCoherent(t, owed + {KeyOf(s.frames[i])}, j)
    {
      assert FrameOk(s, j);
      assert Tidy(s) ==> FrameTidy(s, j);
      assert Coherent(s, owed) ==> FrameCoherent(s, owed, j);
    }
    forall j | j in s.table
      ensures EntryOk(t, j)
      ensures s.frames[i].valid ==> (s.table[j] == i <==> j == KeyOf(s.frames[i]))
      ensures !s.frames[i].valid ==> s.table[j] != i
    {
      assert EntryOk(s, j);
    }
  }

  /** The file layer allocates or frees a page: allocated pages that stay allocated keep their bytes. */
  lemma FileKeeps(s: State, f: FileId, e: Disk, owed: set<Key>)
    requires Wired(s) && f in s.files
    requires forall k :: k in s.table && k.file == f && Usable(s, k) ==>
      k.pageNo < |e| && k.pageNo < |s.files[f]| && e[k.pageNo] == s.files[f][k.pageNo]
    ensures var t := s.(files := s.files[f := e]);
      && Wired(t)
      && (Tidy(s) && Coherent(s, owed) ==> Coherent(t, owed))
      && (forall j :: Pins(t, j) == Pins(s, j))
      && (Tidy(s) && Sound(e) && (forall k :: k in s.table && k.file == f ==> Allocated(e, k.pageNo)) ==> Tidy(t))
  {
    hide Sound, Allocated;
    var t := s.(files := s.files[f := e]);
    forall i | 0 <= i < |t.frames|
      ensures FrameOk(t, i)
      ensures Tidy(s) && Coherent(s, owed) ==> FrameCoherent(t, owed, i)
      ensures Tidy(s) && (forall k :: k in s.table && k.file == f ==> Allocated(e, k.pageNo)) ==> FrameTidy(t, i)
    {
      assert FrameOk(s, i);
      assert Tidy(s) ==> FrameTidy(s, i);
      assert Coherent(s, owed) ==> FrameCoherent(s, owed, i);
    }
    forall k | k in t.table
      ensures EntryOk(t, k)
    {
      assert EntryOk(s, k);
    }
  }
}
