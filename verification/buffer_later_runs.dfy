/** Runs of the later buffer manager: as long as no call loses a page's entry, clients cannot tell it from the other. */
module LaterRuns {
  import opened Bytes
  import opened FileLayer
  import opened Clock
  import opened BufferView
  import opened BufferSteps
  import opened BufferRuns
  import opened LaterBuffer

  /** flushFile and disposePage are the same code in both buffer managers. */
  ghost predicate Step6(s: State, ev: Event, t: State)
    requires Wired(s) && Allowed(s, ev)
  {
    match ev
    case Read(k, status) => ReadStep6(s, k, status, t)
    case Unpin(k, dirty, status) => UnpinStep6(s, k, dirty, status, t)
    case Alloc(k, fileStatus, e, status) => AllocStep6(s, k.file, fileStatus, k.pageNo, e, status, t)
    case Dispose(k, status) => DisposeStep(s, k, status, t)
    case Flush(file, n, status) => FlushStep(s, file, n, status, t)
    case Change(k, x) => ChangeStep(s, k, x, t)
  }

  /** The call has succeeded, or has failed without having taken a page out of the pool. */
  predicate LosesNothing(s: State, ev: Event)
    requires Shape(s)
  {
    match ev
    case Read(k, status) => status == OK || k in s.table || !TakesPage(s)
    case Alloc(k, fileStatus, e, status) => status == OK || fileStatus != OK || status == BUFFEREXCEEDED
    case _ => true
  }

  /** The hand does not matter to what clients see. */
  lemma HandAside(s: State, h: nat, owed: set<Key>)
    requires s.hand < |s.frames| && h < |s.frames|
    ensures var t := s.(hand := h);
      && (Wired(t) <==> Wired(s)) && (Tidy(t) <==> Tidy(s)) && (Coherent(t, owed) <==> Coherent(s, owed))
      && (forall k :: Content(t, k) == Content(s, k) && Pins(t, k) == Pins(s, k) && (Usable(t, k) <==> Usable(s, k)))
  {
    hide OnDisk, Allocated, FilesSound;
    var t := s.(hand := h);
    assert forall i :: 0 <= i < |s.frames| ==> (FrameOk(s, i) <==> FrameOk(t, i));
    assert forall i :: 0 <= i < |s.frames| ==> (FrameTidy(s, i) <==> FrameTidy(t, i));
    assert |s.frames| == |s.pool| ==>
      forall i :: 0 <= i < |s.frames| ==> (FrameCoherent(s, owed, i) <==> FrameCoherent(t, owed, i));
    assert forall k :: k in s.table ==> (EntryOk(s, k) <==> EntryOk(t, k));
  }

  /** A readPage or allocPage that loses nothing is one of the other buffer manager, from the advanced hand, except for
      where the hand ends when no frame is found. */
  lemma ReadRefines(s: State, k: Key, status: Status, t: State) returns (h: nat)
    requires Wired(s) && k !in s.table && ReadStep6(s, k, status, t) && (status == OK || !TakesPage(s))
    ensures h < |t.frames| && t.hand < |t.frames| && Wired(Advanced(s)) && ReadStep(Advanced(s), k, status, t.(hand := h))
  {
    AdvancedWired(s);
    if status == OK {
      ReadOkSame(s, k, t);
      h := t.hand;
      ReadShape(Advanced(s), k, t);
    } else {
      NothingTaken(s);
      h := FailRefines(s, k, status, t);
    }
  }

  lemma ReadShape(s: State, k: Key, t: State)
    requires Wired(s) && k !in s.table && ReadStep(s, k, OK, t)
    ensures t.hand < |t.frames|
  {
    EmptiedFacts(s, {});
    hide Victim, Emptied;
  }

  lemma FailRefines(s: State, k: Key, status: Status, t: State) returns (h: nat)
    requires Wired(s) && k !in s.table && ReadStep6(s, k, status, t) && status != OK && !TakesPage(s)
    ensures h < |t.frames| && t.hand < |t.frames| && Wired(Advanced(s)) && ReadStep(Advanced(s), k, status, t.(hand := h))
  {
    AdvancedWired(s);
    NothingTaken(s);
    h := if Choice(s).Some? then t.hand else Advance(s.hand, |s.frames|);
    hide Victim, Swept, Advance;
    if Choice(s).Some? {
      assert FrameOk(s, Choice(s).value);
    }
  }

  lemma AllocRefines(s: State, k: Key, fileStatus: Status, e: Disk, status: Status, t: State) returns (h: nat)
    requires Wired(s) && k.file in s.files && AllocStep6(s, k.file, fileStatus, k.pageNo, e, status, t)
    requires status == OK || fileStatus != OK || status == BUFFEREXCEEDED
    ensures h < |t.frames| && t.hand < |t.frames| && Wired(Advanced(s))
    ensures AllocStep(Advanced(s), k.file, fileStatus, k.pageNo, e, status, t.(hand := h))
  {
    AdvancedWired(s);
    if status == OK {
      AllocOkSame(s, k.file, fileStatus, k.pageNo, e, t);
      h := t.hand;
      AllocShape(Advanced(s), k, fileStatus, e, t);
    } else {
      h := AllocFailRefines(s, k, fileStatus, e, status, t);
    }
  }

  lemma AllocShape(s: State, k: Key, fileStatus: Status, e: Disk, t: State)
    requires Wired(s) && k.file in s.files && AllocStep(s, k.file, fileStatus, k.pageNo, e, OK, t)
    ensures t.hand < |t.frames|
  {
    var s1 := s.(files := s.files[k.file := e]);
    FilesWired(s, k.file, e);
    if fileStatus == OK {
      EmptiedFacts(s1, {});
    }
    hide Victim, Emptied, AllocateOutcome;
  }

  lemma AllocFailRefines(s: State, k: Key, fileStatus: Status, e: Disk, status: Status, t: State) returns (h: nat)
    requires Wired(s) && k.file in s.files && AllocStep6(s, k.file, fileStatus, k.pageNo, e, status, t)
    requires status != OK && (fileStatus != OK || status == BUFFEREXCEEDED)
    ensures h < |t.frames| && t.hand < |t.frames| && Wired(Advanced(s))
    ensures AllocStep(Advanced(s), k.file, fileStatus, k.pageNo, e, status, t.(hand := h))
  {
    var s1 := s.(files := s.files[k.file := e]);
    AdvancedWired(s);
    FilesWired(s, k.file, e);
    FilesWired(Advanced(s), k.file, e);
    assert Advanced(s).(files := s.files[k.file := e]) == Advanced(s1);
    h := Advance(s.hand, |s.frames|);
    hide Victim, Swept, Advance, AllocateOutcome, AllocInto, Written6, Wired;
    if fileStatus == OK {
      assert Choice(s1) == None ==> t == Searched6(s1);
      if Choice(s1).Some? {
        ExceededOnly(s1, k, t);
      }
    }
  }

  /** Only a pool without a frame to take gives BUFFEREXCEEDED. */
  lemma ExceededOnly(s: State, k: Key, t: State)
    requires Wired(s) && Choice(s).Some?
    ensures !TakeStep(s, BUFFEREXCEEDED, -1, t)
    ensures !AllocInto(Written6(s), Choice(s).value, k, BUFFEREXCEEDED, t)
  {
    assert FrameOk(s, Choice(s).value);
    hide Victim, Swept, Advance;
  }

  /** One call, whatever its outcome.  The invariants hold afterwards if and only if it has lost nothing, and then it has
      done to each page's content, pins and frame what its kind of call does. */
  lemma StepKeeps6(s: State, owed: set<Key>, ev: Event, t: State, k: Key)
    requires Inv(s, owed) && Allowed(s, ev) && Settles(s, owed, ev) && Step6(s, ev, t)
    ensures Inv(t, Owed(owed, ev)) <==> LosesNothing(s, ev)
    ensures LosesNothing(s, ev) && Usable(s, k) && !Disposes(ev, k) ==>
      Usable(t, k) && Content(t, k) == Expected(Content(s, k), ev, k)
    ensures LosesNothing(s, ev) && !Disposes(ev, k) ==>
      Pins(t, k) == Pins(s, k) + Delta(ev, k) && (Pins(s, k) > 0 ==> StaysPut(s, t, k))
    ensures LosesNothing(s, ev) && Disposes(ev, k) ==> Pins(t, k) == 0
  {
    hide Wired, Tidy, Coherent, Usable, Content, Pins, StaysPut, TakesPage;
    hide ReadStep6, UnpinStep6, AllocStep6, ReadStep, AllocStep, DisposeStep, FlushStep, ChangeStep;
    match ev
    case Read(j, status) =>
      ReadKeeps6(s, owed, j, status, t, k);
    case Unpin(j, dirty, status) =>
      UnpinKeeps6(s, j, dirty, status, t, owed);
      SameUsable(s, t);
    case Alloc(j, fileStatus, e, status) =>
      AllocKeeps6(s, owed, ev, t, k);
    case Dispose(j, status) =>
      StepKeeps(s, owed, ev, t, k);
    case Flush(file, n, status) =>
      StepKeeps(s, owed, ev, t, k);
    case Change(j, x) =>
      StepKeeps(s, owed, ev, t, k);
  }

  lemma ReadKeeps6(s: State, owed: set<Key>, j: Key, status: Status, t: State, k: Key)
    requires Inv(s, owed) && Usable(s, j) && ReadStep6(s, j, status, t)
    ensures Inv(t, owed) <==> LosesNothing(s, Read(j, status))
    ensures LosesNothing(s, Read(j, status)) ==>
      && (Usable(s, k) ==> Usable(t, k) && Content(t, k) == Content(s, k))
      && Pins(t, k) == Pins(s, k) + Delta(Read(j, status), k) && (Pins(s, k) > 0 ==> StaysPut(s, t, k))
  {
    hide Tidy, Coherent, Usable, Content, Pins;
    UsableFile(s, j);
    ReadWired6(s, j, status, t);
    if j in s.table {
      StepKeeps(s, owed, Read(j, status), t, k);
    } else if LosesNothing(s, Read(j, status)) {
      var h := ReadRefines(s, j, status, t);
      FromAdvanced(s, owed, Read(j, status), t, h, k);
    }
  }

  lemma AllocKeeps6(s: State, owed: set<Key>, ev: Event, t: State, k: Key)
    requires Inv(s, owed) && Allowed(s, ev) && ev.Alloc? && Step6(s, ev, t)
    ensures Inv(t, Owed(owed, ev)) <==> LosesNothing(s, ev)
    ensures LosesNothing(s, ev) ==>
      && (Usable(s, k) ==> Usable(t, k) && Content(t, k) == Content(s, k))
      && Pins(t, k) == Pins(s, k) + Delta(ev, k) && (Pins(s, k) > 0 ==> StaysPut(s, t, k))
  {
    hide Tidy, Coherent, Usable, Content, Pins, AllocStep6;
    NewPageNumber(s, ev, t);
    AllocWired6(s, ev.k.file, ev.fileStatus, ev.k.pageNo, ev.disk, ev.status, t);
    if LosesNothing(s, ev) {
      var h := AllocRefines(s, ev.k, ev.fileStatus, ev.disk, ev.status, t);
      FromAdvanced(s, owed, ev, t, h, k);
    }
  }

  lemma NewPageNumber(s: State, ev: Event, t: State)
    requires Wired(s) && Tidy(s) && ev.Alloc? && ev.k.file in s.files
    requires AllocStep6(s, ev.k.file, ev.fileStatus, ev.k.pageNo, ev.disk, ev.status, t)
    ensures ev.fileStatus == OK ==> ev.k.pageNo >= 1
  {
    hide AllocateOutcome, TakeStep, AllocInto;
    AllocatedNew(s, ev.k, ev.fileStatus, ev.disk);
  }

  /** What StepKeeps says of the other buffer manager's step holds with the hands as they are here. */
  lemma FromAdvanced(s: State, owed: set<Key>, ev: Event, t: State, h: nat, k: Key)
    requires Inv(s, owed) && Allowed(s, ev) && (ev.Read? || ev.Alloc?)
    requires h < |t.frames| && t.hand < |t.frames|
    requires Wired(Advanced(s)) && Allowed(Advanced(s), ev) ==> Step(Advanced(s), ev, t.(hand := h))
    ensures Inv(t, Owed(owed, ev))
    ensures Usable(s, k) ==> Usable(t, k) && Content(t, k) == Content(s, k)
    ensures Pins(t, k) == Pins(s, k) + Delta(ev, k) && (Pins(s, k) > 0 ==> StaysPut(s, t, k))
  {
    var a, b := Advanced(s), t.(hand := h);
    HandAside(s, a.hand, owed);
    HandAside(t, h, Owed(owed, ev));
    assert StaysPut(a, b, k) == StaysPut(s, t, k);
    hide Wired, Tidy, Coherent, Usable, Content, Pins, StaysPut, Step, Advanced;
    StepKeeps(a, owed, ev, b, k);
  }

  // ---- runs ----

  /** Each call takes the state to the next one of the path and loses nothing, and clients keep to the rules. */
  ghost predicate Run6(s: State, owed: set<Key>, evs: seq<Event>, path: seq<State>)
    requires |evs| == |path|
    decreases |evs|
  {
    evs != [] ==>
      && Wired(s) && Allowed(s, evs[0]) && Settles(s, owed, evs[0]) && Step6(s, evs[0], path[0]) && LosesNothing(s, evs[0])
      && Run6(path[0], Owed(owed, evs[0]), evs[1..], path[1..])
  }

  /** Over any run in which no call loses anything, all invariants hold, a page that is not disposed of holds what was last
      written to it, and its pin count is what the calls say. */
  lemma {:induction false} RunCoherent6(s: State, owed: set<Key>, evs: seq<Event>, path: seq<State>, k: Key)
    requires |evs| == |path| && Inv(s, owed) && Run6(s, owed, evs, path) && Keeps(evs, k)
    ensures Inv(Last(s, path), OwedAfter(owed, evs))
    ensures Usable(s, k) ==> Usable(Last(s, path), k) && Content(Last(s, path), k) == LastWritten(Content(s, k), evs, k)
    ensures Pins(Last(s, path), k) == Pins(s, k) + NetPins(evs, k)
    decreases |evs|
  {
    hide Inv, Step6, Allowed, Settles, Wired, Usable, Content, Pins, Expected, Delta, Disposes, LosesNothing;
    if evs != [] {
      StepKeeps6(s, owed, evs[0], path[0], k);
      RunCoherent6(path[0], Owed(owed, evs[0]), evs[1..], path[1..], k);
    }
  }
}
