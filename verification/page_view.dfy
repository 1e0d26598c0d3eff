/** What a slotted page means to its clients: a sequence of slots, each empty or
    holding the bytes of one record.  Slot numbers are positions in the sequence. */
module PageView {
  import opened Bytes

  const DATASIZE := 1004   // PAGESIZE - DPFIXED
  const SLOTSIZE := 4      // sizeof(slot_t)

  type Slots = seq<Option<bytes>>

  datatype PageView = PageView(slots: Slots, nextPage: int, curPage: int)

  datatype RID = RID(pageNo: int, slotNo: int)

  const NULLRID := RID(-1, -1)

  predicate Live(s: Slots, k: int) {
    0 <= k < |s| && s[k].Some?
  }

  function Size(o: Option<bytes>): nat {
    if o.Some? then |o.value| else 0
  }

  /** Number of record bytes on the page. */
  function Used(s: Slots): nat {
    if s == [] then 0 else Used(s[..|s| - 1]) + Size(s[|s| - 1])
  }

  /** Free bytes: every slot of the directory is paid for, also an empty one. */
  function Free(s: Slots): int {
    DATASIZE - Used(s) - 4 * |s|
  }

  /** The last slot of the directory is in use and no stored record is empty. */
  ghost predicate WellFormed(s: Slots) {
    && (s != [] ==> s[|s| - 1].Some?)
    && NoEmptyRecord(s)
    && Free(s) >= 0
  }

  ghost predicate NoEmptyRecord(s: Slots) {
    forall k :: Live(s, k) ==> s[k].value != []
  }

  /** The first slot at or after position i that is live, or the length of the directory. */
  function NextLive(s: Slots, i: nat): (j: nat)
    ensures i <= |s| ==> i <= j <= |s|
    ensures i > |s| ==> j == i
    ensures j < |s| ==> Live(s, j)
    ensures forall k :: i <= k < j ==> !Live(s, k)
    decreases |s| - i
  {
    if i >= |s| || s[i].Some? then i else NextLive(s, i + 1)
  }

  /** The first empty slot at or after position i, or the length of the directory. */
  function FirstEmpty(s: Slots, i: nat): (j: nat)
    requires i <= |s|
    ensures i <= j <= |s|
    ensures j < |s| ==> s[j].None?
    ensures forall k :: i <= k < j ==> s[k].Some?
    decreases |s| - i
  {
    if i == |s| || s[i].None? then i else FirstEmpty(s, i + 1)
  }

  function Put(s: Slots, k: nat, r: bytes): (t: Slots)
    requires k <= |s|
    ensures |t| >= |s| && k < |t|
    ensures t[k] == Some(r)
    ensures forall j :: 0 <= j < |t| && j != k ==> j < |s| && t[j] == s[j]
  {
    if k == |s| then s + [Some(r)] else s[k := Some(r)]
  }

  /** Does a record of the given length fit?  A new directory slot is always charged. */
  predicate Fits(s: Slots, len: nat) {
    len + SLOTSIZE <= Free(s)
  }

  /** In numbers: the record and four bytes for a slot, in what the records and slots leave of 1004 bytes. */
  lemma FitsMeans(s: Slots, len: nat)
    ensures Fits(s, len) <==> len + 4 <= 1004 - Used(s) - 4 * |s|
  {
  }

  function Insert(s: Slots, r: bytes): Slots {
    Put(s, FirstEmpty(s, 0), r)
  }

  /** Drop the empty slots at the end of the directory. */
  function Trim(s: Slots): (t: Slots)
    ensures |t| <= |s| && t == s[..|t|]
    ensures forall k :: |t| <= k < |s| ==> s[k].None?
    ensures t != [] ==> t[|t| - 1].Some?
  {
    if s != [] && s[|s| - 1].None? then Trim(s[..|s| - 1]) else s
  }

  function Delete(s: Slots, k: nat): (t: Slots)
    requires Live(s, k)
    ensures |t| <= |s|
    ensures forall j :: Live(t, j) <==> Live(s, j) && j != k
    ensures forall j :: Live(t, j) ==> t[j] == s[j]
    ensures t != [] ==> t[|t| - 1].Some?
  {
    var u := s[k := None];
    var t := Trim(u);
    assert forall j :: 0 <= j < |s| && j != k ==> u[j] == s[j];
    assert forall j :: |t| <= j < |s| && j != k ==> s[j] == u[j];
    t
  }

  /** The map from slot numbers to record bytes that the directory stands for. */
  function Recs(s: Slots): (m: map<int, bytes>)
    ensures forall k :: k in m <==> Live(s, k)
    ensures forall k :: k in m ==> Live(s, k) && m[k] == s[k].value
  {
    map k | 0 <= k < |s| && Live(s, k) :: s[k].value
  }

  // ---- facts about space ----

  lemma {:induction false} UsedAppend(s: Slots, o: Option<bytes>)
    ensures Used(s + [o]) == Used(s) + Size(o)
  {
    var t := s + [o];
    assert t[..|t| - 1] == s;
  }

  lemma {:induction false} UsedUpdate(s: Slots, k: nat, o: Option<bytes>)
    requires k < |s|
    ensures Used(s[k := o]) == Used(s) - Size(s[k]) + Size(o)
  {
    var n := |s| - 1;
    if k == n {
      assert s[k := o][..n] == s[..n];
    } else {
      UsedUpdate(s[..n], k, o);
      assert s[k := o][..n] == s[..n][k := o];
    }
  }

  lemma {:induction false} UsedTrim(s: Slots)
    ensures Used(Trim(s)) == Used(s)
  {
    if s != [] && s[|s| - 1].None? {
      UsedTrim(s[..|s| - 1]);
    }
  }

  /** A page without live records has its whole space back. */
  lemma {:induction false} EmptyRestored(s: Slots)
    requires WellFormed(s)
    requires forall k :: !Live(s, k)
    ensures s == [] && Free(s) == DATASIZE
  {
    if s != [] {
      assert Live(s, |s| - 1);
    }
  }

  lemma {:induction false} SizeAtMostUsed(s: Slots, k: nat)
    requires k < |s|
    ensures Size(s[k]) <= Used(s)
  {
    if k < |s| - 1 {
      SizeAtMostUsed(s[..|s| - 1], k);
    }
  }

  /** Every record on a well-formed page has between 1 and 1000 bytes. */
  lemma RecordLength(s: Slots, k: nat)
    requires WellFormed(s) && Live(s, k)
    ensures 1 <= |s[k].value| <= DATASIZE - SLOTSIZE
  {
    SizeAtMostUsed(s, k);
  }

  // ---- insert and delete on the map ----

  lemma UsedPut(s: Slots, k: nat, r: bytes)
    requires k == |s| || (k < |s| && s[k].None?)
    ensures Used(Put(s, k, r)) == Used(s) + |r|
  {
    if k == |s| {
      UsedAppend(s, Some(r));
    } else {
      UsedUpdate(s, k, Some(r));
    }
  }

  lemma NoEmptyRecordPut(s: Slots, k: nat, r: bytes)
    requires NoEmptyRecord(s) && r != [] && k <= |s|
    ensures NoEmptyRecord(Put(s, k, r))
  {
    var t := Put(s, k, r);
    forall j | Live(t, j)
      ensures t[j].value != []
    {
      assert j != k ==> Live(s, j);
    }
  }

  lemma InsertRefines(s: Slots, r: bytes)
    requires WellFormed(s) && r != [] && Fits(s, |r|)
    ensures WellFormed(Insert(s, r))
    ensures FirstEmpty(s, 0) !in Recs(s)
    ensures Recs(Insert(s, r)) == Recs(s)[FirstEmpty(s, 0) := r]
  {
    var k := FirstEmpty(s, 0);
    UsedPut(s, k, r);
    NoEmptyRecordPut(s, k, r);
    RecsPut(s, k, r);
  }

  lemma RecsPut(s: Slots, k: nat, r: bytes)
    requires k == |s| || (k < |s| && s[k].None?)
    ensures k !in Recs(s)
    ensures Recs(Put(s, k, r)) == Recs(s)[k := r]
  {
    var m, m' := Recs(s)[k := r], Recs(Put(s, k, r));
    forall j
      ensures j in m <==> j in m'
      ensures j in m ==> m[j] == m'[j]
    {
      assert j in m' <==> Live(Put(s, k, r), j);
    }
  }

  lemma DeleteRefines(s: Slots, k: nat)
    requires WellFormed(s) && Live(s, k)
    ensures WellFormed(Delete(s, k))
    ensures Recs(Delete(s, k)) == Recs(s) - {k}
    ensures Used(Delete(s, k)) == Used(s) - |s[k].value|
  {
    DeletedRecords(s, k);
    UsedUpdate(s, k, None);
    UsedTrim(s[k := None]);
  }

  lemma DeletedRecords(s: Slots, k: nat)
    requires WellFormed(s) && Live(s, k)
    ensures NoEmptyRecord(Delete(s, k)) && Recs(Delete(s, k)) == Recs(s) - {k}
  {
    var t := Delete(s, k);
    hide Used;
    forall j | Live(t, j)
      ensures t[j].value != []
    {
      assert Live(s, j) && t[j] == s[j];
    }
  }

  /** Two directories that agree up to a live last slot, with only empty slots after it, trim alike. */
  lemma {:induction false} TrimIs(s: Slots, m: nat)
    requires m <= |s|
    requires forall k :: m <= k < |s| ==> s[k].None?
    requires m > 0 ==> s[m - 1].Some?
    ensures Trim(s) == s[..m]
  {
    if m < |s| {
      var p := s[..|s| - 1];
      TrimIs(p, m);
      assert p[..m] == s[..m];
    }
  }

  // ---- runs of operations ----

  datatype Op = InsertOp(rec: bytes) | DeleteOp(slot: int)

  /** One client call: an insert that does not fit and a delete of a slot that is not live change nothing. */
  function Apply(s: Slots, op: Op): Slots {
    match op
    case InsertOp(r) => if Fits(s, |r|) then Insert(s, r) else s
    case DeleteOp(k) => if Live(s, k) then Delete(s, k) else s
  }

  function Run(s: Slots, ops: seq<Op>): Slots
    decreases |ops|
  {
    if ops == [] then s else Run(Apply(s, ops[0]), ops[1..])
  }

  ghost predicate Legal(ops: seq<Op>) {
    forall i :: 0 <= i < |ops| ==> (ops[i].InsertOp? ==> ops[i].rec != [])
  }

  lemma ApplyWellFormed(s: Slots, op: Op)
    requires WellFormed(s) && (op.InsertOp? ==> op.rec != [])
    ensures WellFormed(Apply(s, op))
  {
    match op
    case InsertOp(r) => if Fits(s, |r|) { InsertRefines(s, r); }
    case DeleteOp(k) => if Live(s, k) { DeleteRefines(s, k); }
  }

  /** Over every run: the directory stays well formed, and a record that no call deletes
      keeps its slot number and its bytes, whatever is inserted or deleted around it. */
  lemma {:induction false} Survives(s: Slots, ops: seq<Op>, k: nat)
    requires WellFormed(s) && Legal(ops) && Live(s, k)
    requires forall i :: 0 <= i < |ops| ==> ops[i] != DeleteOp(k)
    ensures WellFormed(Run(s, ops))
    ensures Live(Run(s, ops), k) && Run(s, ops)[k] == s[k]
    decreases |ops|
  {
    if ops != [] {
      ApplyWellFormed(s, ops[0]);
      Survives(Apply(s, ops[0]), ops[1..], k);
    }
  }

  /** Over every run: nothing appears on the page that no call inserted. */
  lemma {:induction false} NothingAppears(s: Slots, ops: seq<Op>, k: nat)
    requires Live(Run(s, ops), k)
    ensures (Live(s, k) && Run(s, ops)[k] == s[k])
         || exists i :: 0 <= i < |ops| && ops[i] == InsertOp(Run(s, ops)[k].value)
    decreases |ops|
  {
    if ops != [] {
      var t := Apply(s, ops[0]);
      NothingAppears(t, ops[1..], k);
      if Live(t, k) && Run(s, ops)[k] == t[k] {
        if !(Live(s, k) && t[k] == s[k]) {
          assert ops[0] == InsertOp(t[k].value);
        }
      } else {
        var i :| 0 <= i < |ops[1..]| && ops[1..][i] == InsertOp(Run(s, ops)[k].value);
        assert ops[i + 1] == ops[1..][i];
      }
    }
  }

  /** Over every run: a page whose live records have all been deleted, in any order, is the empty page again. */
  lemma {:induction false} RunEmptied(s: Slots, ops: seq<Op>)
    requires WellFormed(s) && Legal(ops)
    ensures WellFormed(Run(s, ops))
    ensures (forall k :: !Live(Run(s, ops), k)) ==> Run(s, ops) == [] && Free(Run(s, ops)) == DATASIZE
    decreases |ops|
  {
    if ops != [] {
      ApplyWellFormed(s, ops[0]);
      RunEmptied(Apply(s, ops[0]), ops[1..]);
    } else if forall k :: !Live(s, k) {
      EmptyRestored(s);
    }
  }
}
