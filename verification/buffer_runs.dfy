/** Runs of the buffer manager: any sequence of calls by clients that keep to the rules. */
module BufferRuns {
  import opened Bytes
  import opened FileLayer
  import opened Clock
  import opened BufferView
  import opened BufferSteps

  datatype Event =
    | Read(k: Key, status: Status)
    | Unpin(k: Key, dirty: bool, status: Status)
    | Alloc(k: Key, fileStatus: Status, disk: Disk, status: Status)
    | Dispose(k: Key, status: Status)
    | Flush(file: FileId, frames: nat, status: Status)
    | Change(k: Key, x: Image)

  ghost predicate Step(s: State, ev: Event, t: State)
    requires Wired(s) && Allowed(s, ev)
  {
    match ev
    case Read(k, status) => ReadStep(s, k, status, t)
    case Unpin(k, dirty, status) => UnpinStep(s, k, dirty, status, t)
    case Alloc(k, fileStatus, e, status) => AllocStep(s, k.file, fileStatus, k.pageNo, e, status, t)
    case Dispose(k, status) => DisposeStep(s, k, status, t)
    case Flush(file, n, status) => FlushStep(s, file, n, status, t)
    case Change(k, x) => ChangeStep(s, k, x, t)
  }

  /** Clients touch only allocated pages. */
  predicate Allowed(s: State, ev: Event) {
    match ev
    case Read(k, _) => Usable(s, k)
    case Alloc(k, _, _, _) => k.file in s.files
    case Dispose(k, _) => Usable(s, k)
    case _ => true
  }

  /** The last pin of a page that has been changed or allocated is given back as dirty. */
  predicate Settles(s: State, owed: set<Key>, ev: Event) {
    match ev
    case Unpin(k, dirty, _) => k in owed && Pins(s, k) == 1 ==> dirty
    case _ => true
  }

  function Owed(owed: set<Key>, ev: Event): set<Key> {
    match ev
    case Unpin(k, dirty, status) => Settled(owed, k, dirty, status)
    case Alloc(k, _, _, status) => if status == OK then owed + {k} else owed
    case Dispose(k, _) => owed - {k}
    case Change(k, _) => owed + {k}
    case _ => owed
  }

  /** Pins a call adds to page k. */
  function Delta(ev: Event, k: Key): int {
    match ev
    case Read(j, status) => if status == OK && j == k then 1 else 0
    case Unpin(j, _, status) => if status == OK && j == k then -1 else 0
    case Alloc(j, _, _, status) => if status == OK && j == k then 1 else 0
    case _ => 0
  }

  /** What a client that knows page k to hold x expects after the call. */
  function Expected(x: Option<Image>, ev: Event, k: Key): Option<Image> {
    if ev.Change? && ev.k == k then Some(ev.x) else x
  }

  predicate Disposes(ev: Event, k: Key) {
    ev.Dispose? && ev.k == k
  }

  ghost predicate Inv(s: State, owed: set<Key>) {
    Wired(s) && Tidy(s) && Coherent(s, owed)
  }

  /** One call, whatever its outcome. */
  lemma StepKeeps(s: State, owed: set<Key>, ev: Event, t: State, k: Key)
    requires Inv(s, owed) && Allowed(s, ev) && Settles(s, owed, ev) && Step(s, ev, t)
    ensures Inv(t, Owed(owed, ev))
    ensures Usable(s, k) && !Disposes(ev, k) ==> Usable(t, k) && Content(t, k) == Expected(Content(s, k), ev, k)
    ensures !Disposes(ev, k) ==> Pins(t, k) == Pins(s, k) + Delta(ev, k) && (Pins(s, k) > 0 ==> StaysPut(s, t, k))
    ensures Disposes(ev, k) ==> Pins(t, k) == 0
  {
    hide Wired, Tidy, Coherent, Usable, Content, Pins, StaysPut, ReadStep, UnpinStep, AllocStep, DisposeStep, FlushStep, ChangeStep;
    match ev
    case Read(j, status) =>
      UsableFile(s, j);
      ReadKeeps(s, j, status, t, owed);
    case Unpin(j, dirty, status) =>
      UnpinKeeps(s, j, dirty, status, t, owed);
      SameUsable(s, t);
    case Alloc(j, fileStatus, e, status) =>
      AllocKeeps(s, j.file, fileStatus, j.pageNo, e, status, t, owed);
    case Dispose(j, status) =>
      DisposeKeeps(s, j, status, t, owed);
    case Flush(file, n, status) =>
      FlushKeeps(s, file, n, status, t, owed);
    case Change(j, x) =>
      ChangeKeeps(s, j, x, t, owed);
      SameUsable(s, t);
  }

  lemma UsableFile(s: State, k: Key)
    requires Usable(s, k)
    ensures k.file in s.files
  {
  }

  // ---- runs ----

  /** Each call takes the state to the next one of the path, and clients keep to the rules. */
  ghost predicate Run(s: State, owed: set<Key>, evs: seq<Event>, path: seq<State>)
    requires |evs| == |path|
    decreases |evs|
  {
    evs != [] ==>
      && Wired(s) && Allowed(s, evs[0]) && Settles(s, owed, evs[0]) && Step(s, evs[0], path[0])
      && Run(path[0], Owed(owed, evs[0]), evs[1..], path[1..])
  }

  function Last(s: State, path: seq<State>): State
    decreases |path|
  {
    if path == [] then s else Last(path[0], path[1..])
  }

  function OwedAfter(owed: set<Key>, evs: seq<Event>): set<Key>
    decreases |evs|
  {
    if evs == [] then owed else OwedAfter(Owed(owed, evs[0]), evs[1..])
  }

  /** The last thing written to page k during the run, or else what was there before. */
  function LastWritten(x: Option<Image>, evs: seq<Event>, k: Key): Option<Image>
    decreases |evs|
  {
    if evs == [] then x else LastWritten(Expected(x, evs[0], k), evs[1..], k)
  }

  /** Successful readPage and allocPage calls on page k minus successful unPinPage calls. */
  function NetPins(evs: seq<Event>, k: Key): int {
    if evs == [] then 0 else Delta(evs[0], k) + NetPins(evs[1..], k)
  }

  predicate Keeps(evs: seq<Event>, k: Key) {
    evs != [] ==> !Disposes(evs[0], k) && Keeps(evs[1..], k)
  }

  predicate PinnedThroughout(s: State, path: seq<State>, k: Key)
    decreases |path|
  {
    Pins(s, k) > 0 && (path != [] ==> PinnedThroughout(path[0], path[1..], k))
  }

  /** After any run the hash table matches the frames, no frame holds a free page, the files are sound, and frames
      agree with the disk unless they are dirty or owed. */
  lemma {:induction false} RunKeeps(s: State, owed: set<Key>, evs: seq<Event>, path: seq<State>)
    requires |evs| == |path| && Inv(s, owed) && Run(s, owed, evs, path)
    ensures Inv(Last(s, path), OwedAfter(owed, evs))
    decreases |evs|
  {
    hide Inv, Step, Allowed, Settles, Wired;
    if evs != [] {
      StepKeeps(s, owed, evs[0], path[0], Key(0, 0));
      RunKeeps(path[0], Owed(owed, evs[0]), evs[1..], path[1..]);
    }
  }

  /** Cache coherence: a page that is not disposed of holds what was last written to it, whatever has been read,
      evicted, flushed or has failed in the meantime. */
  lemma {:induction false} RunCoherent(s: State, owed: set<Key>, evs: seq<Event>, path: seq<State>, k: Key)
    requires |evs| == |path| && Inv(s, owed) && Run(s, owed, evs, path) && Usable(s, k) && Keeps(evs, k)
    ensures Usable(Last(s, path), k) && Content(Last(s, path), k) == LastWritten(Content(s, k), evs, k)
    decreases |evs|
  {
    hide Inv, Step, Allowed, Settles, Wired, Usable, Content, Expected, Disposes;
    if evs != [] {
      StepKeeps(s, owed, evs[0], path[0], k);
      RunCoherent(path[0], Owed(owed, evs[0]), evs[1..], path[1..], k);
    }
  }

  /** The pin count is what the calls say it is. */
  lemma {:induction false} RunPins(s: State, owed: set<Key>, evs: seq<Event>, path: seq<State>, k: Key)
    requires |evs| == |path| && Inv(s, owed) && Run(s, owed, evs, path) && Keeps(evs, k)
    ensures Pins(Last(s, path), k) == Pins(s, k) + NetPins(evs, k)
    decreases |evs|
  {
    hide Inv, Step, Allowed, Settles, Wired, Pins, Delta, Disposes;
    if evs != [] {
      StepKeeps(s, owed, evs[0], path[0], k);
      RunPins(path[0], Owed(owed, evs[0]), evs[1..], path[1..], k);
    }
  }

  /** A page stays in its frame as long as it is pinned and not disposed of. */
  lemma {:induction false} RunStaysPut(s: State, owed: set<Key>, evs: seq<Event>, path: seq<State>, k: Key)
    requires |evs| == |path| && Inv(s, owed) && Run(s, owed, evs, path) && Keeps(evs, k) && PinnedThroughout(s, path, k)
    ensures StaysPut(s, Last(s, path), k)
    decreases |evs|
  {
    hide Inv, Step, Allowed, Settles, Wired, Disposes, Owed;
    if evs != [] {
      StepKeeps(s, owed, evs[0], path[0], k);
      RunStaysPut(path[0], Owed(owed, evs[0]), evs[1..], path[1..], k);
    }
  }

  /** After flushFile has returned OK, the disk holds what was last written. */
  lemma RunThenFlush(s: State, owed: set<Key>, evs: seq<Event>, path: seq<State>, k: Key, n: nat, t: State)
    requires |evs| == |path| && Inv(s, owed) && Run(s, owed, evs, path) && Usable(s, k) && Keeps(evs, k)
    requires Wired(Last(s, path)) && FlushStep(Last(s, path), k.file, n, OK, t)
    ensures OnDisk(t.files, k) == LastWritten(Content(s, k), evs, k)
  {
    RunKeeps(s, owed, evs, path);
    RunCoherent(s, owed, evs, path, k);
    hide Wired, Tidy, Coherent, FlushStep, Run, Content, OnDisk, LastWritten, Last, Keeps, Usable;
    FlushKeeps(Last(s, path), k.file, n, OK, t, OwedAfter(owed, evs));
  }

  /** After the destructor the disk holds what was last written to every page nobody still owes, except those whose
      write has failed. */
  lemma RunThenClose(s: State, owed: set<Key>, evs: seq<Event>, path: seq<State>, k: Key, missed: set<nat>)
    requires |evs| == |path| && Inv(s, owed) && Run(s, owed, evs, path) && Usable(s, k) && Keeps(evs, k)
    requires k !in OwedAfter(owed, evs)
    requires var t := Last(s, path); k in t.table ==> t.table[k] !in missed
    ensures var t := Last(s, path);
      Wired(t) && OnDisk(Saved(t, |t.frames|, missed), k) == LastWritten(Content(s, k), evs, k)
  {
    RunKeeps(s, owed, evs, path);
    RunCoherent(s, owed, evs, path, k);
    hide Wired, Tidy, Coherent, Run, Content, OnDisk, LastWritten, Last, Keeps, Usable;
    AllSaved(Last(s, path), OwedAfter(owed, evs), missed, k);
  }
}
