/** The order records are sorted in, sorting, and merging sorted lists. */
module SortView {
  import opened Bytes
  import opened ScanFilter

  datatype SortKey = SortKey(offset: nat, length: nat, attrType: Datatype)

  function Field(k: SortKey, r: bytes): bytes {
    if k.offset + k.length <= |r| then r[k.offset..k.offset + k.length] else []
  }

  /** Can the record be compared?  Its sort attribute lies inside it, and a FLOAT is a finite number. */
  predicate Sortable(k: SortKey, r: bytes) {
    && k.offset + k.length <= |r|
    && (k.attrType.FLOAT? ==> k.length == 4 && FloatOf(Field(k, r)).Finite?)
    && (k.attrType.INTEGER? ==> k.length == 4)
  }

  /** memcmp from position i on. */
  function MemCmp(a: bytes, b: bytes, i: nat): (c: int)
    requires i <= |a| == |b|
    ensures -1 <= c <= 1
    decreases |a| - i
  {
    if i == |a| then 0
    else if a[i] < b[i] then -1 else if a[i] > b[i] then 1
    else MemCmp(a, b, i + 1)
  }

  predicate Comparable(k: SortKey, f: bytes) {
    && |f| == k.length
    && (k.attrType.FLOAT? ==> k.length == 4 && FloatOf(f).Finite?)
    && (k.attrType.INTEGER? ==> k.length == 4)
  }

  /** How two attribute values compare as values of their type. */
  function ValueCmp(k: SortKey, a: bytes, b: bytes): (c: int)
    requires Comparable(k, a) && Comparable(k, b)
    ensures -1 <= c <= 1
  {
    match k.attrType
    case INTEGER => Sign(CompareInt(Int32(a), Int32(b)))
    case FLOAT => (var x, y := FloatOf(a).r, FloatOf(b).r; if x < y then -1 else if x > y then 1 else 0)
    case STRING => MemCmp(a, b, 0)
  }

  /** reccmp on two attribute values: the sign of their difference, which for integers is taken in 32 bits. */
  function FieldCmp(k: SortKey, a: bytes, b: bytes): (c: int)
    requires Comparable(k, a) && Comparable(k, b)
    ensures -1 <= c <= 1
  {
    if k.attrType.INTEGER? then Sign(CompareInt(Wrap32(Int32(a) - Int32(b)), 0)) else ValueCmp(k, a, b)
  }

  function Sign(o: Ordering): int {
    if o == Less then -1 else if o == Greater then 1 else 0
  }

  predicate Leq(k: SortKey, a: bytes, b: bytes) {
    Comparable(k, a) && Comparable(k, b) && ValueCmp(k, a, b) <= 0
  }

  /** The strings agree before position x, and there the first is greater. */
  predicate GreaterAt(a: bytes, b: bytes, x: nat) {
    x < |a| && x < |b| && a[..x] == b[..x] && a[x] > b[x]
  }

  ghost predicate NotAfter(a: bytes, b: bytes) {
    forall x: nat :: !GreaterAt(a, b, x)
  }

  /** What the order is: integers and floating-point numbers by their values, strings by the first byte that differs. */
  lemma LeqMeans(k: SortKey, a: bytes, b: bytes)
    requires Comparable(k, a) && Comparable(k, b)
    ensures k.attrType == INTEGER ==> (Leq(k, a, b) <==> Int32(a) <= Int32(b))
    ensures k.attrType == FLOAT ==> (Leq(k, a, b) <==> FloatOf(a).r <= FloatOf(b).r)
    ensures k.attrType == STRING ==> (Leq(k, a, b) <==> NotAfter(a, b))
  {
    hide FloatOf;
    if k.attrType == STRING {
      var i := MemCmpAt(a, b, 0);
      if MemCmp(a, b, 0) > 0 {
        assert a[..i] == b[..i];
        assert GreaterAt(a, b, i);
      }
      forall j: nat | GreaterAt(a, b, j)
        ensures MemCmp(a, b, 0) > 0
      {
        MemCmpFirst(a, b, 0, j);
      }
    }
  }

  lemma {:induction false} MemCmpAt(a: bytes, b: bytes, i: nat) returns (p: nat)
    requires i <= |a| == |b|
    ensures MemCmp(a, b, i) > 0 ==> i <= p < |a| && a[i..p] == b[i..p] && a[p] > b[p]
    decreases |a| - i
  {
    p := i;
    if i < |a| && a[i] == b[i] {
      p := MemCmpAt(a, b, i + 1);
      if MemCmp(a, b, i) > 0 {
        assert a[i..p] == [a[i]] + a[i + 1..p] && b[i..p] == [b[i]] + b[i + 1..p];
      }
    }
  }

  lemma {:induction false} MemCmpFirst(a: bytes, b: bytes, i: nat, j: nat)
    requires i <= j < |a| == |b| && a[..j] == b[..j] && a[j] > b[j]
    ensures MemCmp(a, b, i) > 0
    decreases j - i
  {
    if i < j {
      assert a[..j][i] == b[..j][i];
      MemCmpFirst(a, b, i + 1, j);
    }
  }

  /** The differences reccmp takes of the two values, either way round, fit in 32 bits. */
  predicate Agree(k: SortKey, a: bytes, b: bytes) {
    k.attrType.INTEGER? && Comparable(k, a) && Comparable(k, b) ==>
      IsInt32(Int32(a) - Int32(b)) && IsInt32(Int32(b) - Int32(a))
  }

  /** reccmp is the order of the values, either way round, exactly when the differences fit. */
  lemma FieldCmpIsOrder(k: SortKey, a: bytes, b: bytes)
    requires Comparable(k, a) && Comparable(k, b)
    ensures FieldCmp(k, a, b) == ValueCmp(k, a, b) && FieldCmp(k, b, a) == ValueCmp(k, b, a) <==> Agree(k, a, b)
  {
    if k.attrType.INTEGER? {
      DifferenceSign(Int32(a), Int32(b));
      DifferenceSign(Int32(b), Int32(a));
    }
  }

  /** With overflow reccmp is not even transitive: of these three values each is below the next, and the last below the first. */
  lemma OverflowCycle() returns (k: SortKey, a: bytes, b: bytes, c: bytes)
    ensures Comparable(k, a) && Comparable(k, b) && Comparable(k, c)
    ensures FieldCmp(k, a, b) < 0 && FieldCmp(k, b, c) < 0 && FieldCmp(k, c, a) < 0
  {
    k := SortKey(0, 4, INTEGER);
    a, b, c := [0, 0, 0, 0x80], [0, 0, 0, 0], [0xff, 0xff, 0xff, 0x7f];
    assert Int32(a) == -0x8000_0000 && Int32(b) == 0 && Int32(c) == 0x7fff_ffff;
  }

  lemma {:induction false} MemCmpSwap(a: bytes, b: bytes, i: nat)
    requires i <= |a| == |b|
    ensures MemCmp(a, b, i) == -MemCmp(b, a, i)
    decreases |a| - i
  {
    if i < |a| {
      MemCmpSwap(a, b, i + 1);
    }
  }

  lemma {:induction false} MemCmpTransitive(a: bytes, b: bytes, c: bytes, i: nat)
    requires i <= |a| == |b| == |c|
    requires MemCmp(a, b, i) <= 0 && MemCmp(b, c, i) <= 0
    ensures MemCmp(a, c, i) <= 0
    decreases |a| - i
  {
    if i < |a| && a[i] == b[i] == c[i] {
      MemCmpTransitive(a, b, c, i + 1);
    }
  }

  lemma ValueCmpSwap(k: SortKey, a: bytes, b: bytes)
    requires Comparable(k, a) && Comparable(k, b)
    ensures ValueCmp(k, a, b) == -ValueCmp(k, b, a)
  {
    if k.attrType.STRING? {
      MemCmpSwap(a, b, 0);
    }
  }

  lemma LeqTransitive(k: SortKey, a: bytes, b: bytes, c: bytes)
    requires Leq(k, a, b) && Leq(k, b, c)
    ensures Leq(k, a, c)
  {
    if k.attrType.STRING? {
      MemCmpTransitive(a, b, c, 0);
    }
  }

  lemma LeqTotal(k: SortKey, a: bytes, b: bytes)
    requires Comparable(k, a) && Comparable(k, b)
    ensures Leq(k, a, b) || Leq(k, b, a)
    ensures Leq(k, a, a)
  {
    ValueCmpSwap(k, a, b);
    ValueCmpSwap(k, a, a);
  }

  /** Where no difference overflows, reccmp is a total preorder. */
  lemma ReccmpPreorder(k: SortKey, a: bytes, b: bytes, c: bytes)
    requires Comparable(k, a) && Comparable(k, b) && Comparable(k, c)
    requires Agree(k, a, b) && Agree(k, b, c) && Agree(k, a, c)
    ensures FieldCmp(k, a, b) == -FieldCmp(k, b, a)
    ensures FieldCmp(k, a, b) <= 0 && FieldCmp(k, b, c) <= 0 ==> FieldCmp(k, a, c) <= 0
  {
    FieldCmpIsOrder(k, a, b);
    FieldCmpIsOrder(k, b, c);
    FieldCmpIsOrder(k, a, c);
    ValueCmpSwap(k, a, b);
    if Leq(k, a, b) && Leq(k, b, c) {
      LeqTransitive(k, a, b, c);
    }
  }

  predicate RecLeq(k: SortKey, a: bytes, b: bytes) {
    Leq(k, Field(k, a), Field(k, b))
  }

  // ---- sorted lists of records ----

  ghost predicate AllSortable(k: SortKey, s: seq<bytes>) {
    forall i :: 0 <= i < |s| ==> Sortable(k, s[i])
  }

  ghost predicate Sorted(k: SortKey, s: seq<bytes>) {
    forall i, j :: 0 <= i < j < |s| ==> RecLeq(k, s[i], s[j])
  }

  ghost predicate RecAgree(k: SortKey, r: bytes, q: bytes) {
    Agree(k, Field(k, r), Field(k, q))
  }

  /** No two of the records have sort attributes whose difference overflows. */
  ghost predicate AllAgree(k: SortKey, m: multiset<bytes>) {
    forall r, q :: r in m && q in m ==> RecAgree(k, r, q)
  }

  /** What being sorted means, by the bytes of the attribute. */
  lemma SortedMeans(k: SortKey, s: seq<bytes>, i: nat, j: nat)
    requires Sorted(k, s) && i < j < |s| && k.length >= 1
    ensures k.offset + k.length <= |s[i]| && k.offset + k.length <= |s[j]|
    ensures var a, b := s[i][k.offset..k.offset + k.length], s[j][k.offset..k.offset + k.length];
      && (k.attrType == INTEGER ==> k.length == 4 && Int32(a) <= Int32(b))
      && (k.attrType == FLOAT ==> k.length == 4 && FloatOf(a).Finite? && FloatOf(b).Finite? && FloatOf(a).r <= FloatOf(b).r)
      && (k.attrType == STRING ==> NotAfter(a, b))
  {
    hide FloatOf;
    assert RecLeq(k, s[i], s[j]);
    LeqMeans(k, Field(k, s[i]), Field(k, s[j]));
  }

  /** Only integers have differences that overflow. */
  lemma AgreeMeans(k: SortKey, m: multiset<bytes>)
    requires k.attrType == INTEGER ==> forall r, q ::
      r in m && q in m && k.offset + k.length <= |r| && k.offset + k.length <= |q| && k.length == 4 ==>
        var d := Int32(r[k.offset..k.offset + k.length]) - Int32(q[k.offset..k.offset + k.length]);
        -0x8000_0000 <= d < 0x8000_0000
    ensures AllAgree(k, m)
  {
    forall r, q | r in m && q in m
      ensures RecAgree(k, r, q)
    {
    }
  }

  ghost predicate AtMostAll(k: SortKey, r: bytes, s: seq<bytes>) {
    forall i :: 0 <= i < |s| ==> RecLeq(k, r, s[i])
  }

  lemma SortedCons(k: SortKey, r: bytes, s: seq<bytes>)
    requires Sorted(k, s) && AtMostAll(k, r, s)
    ensures Sorted(k, [r] + s)
  {
    hide RecLeq;
  }

  // ---- merging ----

  type Lists = seq<seq<bytes>>

  ghost predicate GoodLists(k: SortKey, ls: Lists) {
    forall i :: 0 <= i < |ls| ==> AllSortable(k, ls[i])
  }

  ghost predicate SortedLists(k: SortKey, ls: Lists) {
    forall i :: 0 <= i < |ls| ==> Sorted(k, ls[i])
  }

  ghost predicate HeadsAgree(k: SortKey, ls: Lists) {
    forall i, j :: 0 <= i < |ls| && 0 <= j < |ls| && ls[i] != [] && ls[j] != [] ==> RecAgree(k, ls[i][0], ls[j][0])
  }

  /** Among the first n lists, the one whose head next() ends up with; -1 when all are empty. */
  function Best(k: SortKey, ls: Lists, n: nat): (b: int)
    requires n <= |ls| && GoodHeads(k, ls)
    ensures -1 <= b < n
    ensures b == -1 ==> forall i :: 0 <= i < n ==> ls[i] == []
    ensures b >= 0 ==> ls[b] != []
  {
    if n == 0 then -1
    else
      var b := Best(k, ls, n - 1);
      if ls[n - 1] == [] then b
      else if b == -1 then n - 1
      else if FieldCmp(k, Field(k, ls[b][0]), Field(k, ls[n - 1][0])) > 0 then n - 1
      else b
  }

  predicate GoodHeads(k: SortKey, ls: Lists) {
    forall i :: 0 <= i < |ls| && ls[i] != [] ==> Sortable(k, ls[i][0])
  }

  /** Where no difference overflows, the chosen head is smallest among the heads seen. */
  lemma {:induction false} BestIsSmallest(k: SortKey, ls: Lists, n: nat)
    requires n <= |ls| && GoodHeads(k, ls) && HeadsAgree(k, ls)
    ensures var b := Best(k, ls, n);
      forall i :: 0 <= i < n && ls[i] != [] ==> b >= 0 && RecLeq(k, ls[b][0], ls[i][0])
  {
    if n > 0 {
      BestIsSmallest(k, ls, n - 1);
      var b, c := Best(k, ls, n - 1), Best(k, ls, n);
      forall i | 0 <= i < n && ls[i] != []
        ensures c >= 0 && RecLeq(k, ls[c][0], ls[i][0])
      {
        BestStep(k, ls, n, i);
      }
    }
  }

  lemma BestStep(k: SortKey, ls: Lists, n: nat, i: nat)
    requires i < n <= |ls| && GoodHeads(k, ls) && HeadsAgree(k, ls) && ls[i] != []
    requires var b := Best(k, ls, n - 1); i < n - 1 ==> b >= 0 && RecLeq(k, ls[b][0], ls[i][0])
    ensures var c := Best(k, ls, n); c >= 0 && RecLeq(k, ls[c][0], ls[i][0])
  {
    var b, c := Best(k, ls, n - 1), Best(k, ls, n);
    LeqTotal(k, Field(k, ls[i][0]), Field(k, ls[i][0]));
    if b >= 0 && ls[n - 1] != [] {
      var x, y, z := Field(k, ls[b][0]), Field(k, ls[n - 1][0]), Field(k, ls[i][0]);
      assert RecAgree(k, ls[b][0], ls[n - 1][0]);
      FieldCmpIsOrder(k, x, y);
      ValueCmpSwap(k, x, y);
      if c == n - 1 && i < n - 1 {
        LeqTransitive(k, y, x, z);
      }
    }
  }

  function Total(ls: Lists): nat {
    if ls == [] then 0 else Total(ls[..|ls| - 1]) + |ls[|ls| - 1]|
  }

  lemma {:induction false} TotalTail(ls: Lists, i: nat)
    requires i < |ls| && ls[i] != []
    ensures Total(ls[i := ls[i][1..]]) == Total(ls) - 1
  {
    var n := |ls| - 1;
    if i == n {
      assert ls[i := ls[i][1..]][..n] == ls[..n];
    } else {
      TotalTail(ls[..n], i);
      assert ls[i := ls[i][1..]][..n] == ls[..n][i := ls[i][1..]];
    }
  }

  /** All records of all lists. */
  ghost function Everything(ls: Lists): multiset<bytes> {
    if ls == [] then multiset{} else Everything(ls[..|ls| - 1]) + multiset(ls[|ls| - 1])
  }

  lemma {:induction false} EverythingTail(ls: Lists, i: nat)
    requires i < |ls| && ls[i] != []
    ensures Everything(ls) == Everything(ls[i := ls[i][1..]]) + multiset{ls[i][0]}
  {
    var n := |ls| - 1;
    var head, tail := ls[i][0], ls[i][1..];
    assert ls[i] == [head] + tail;
    if i == n {
      assert ls[i := tail][..n] == ls[..n];
    } else {
      EverythingTail(ls[..n], i);
      assert ls[i := tail][..n] == ls[..n][i := tail];
    }
  }

  lemma {:induction false} EverythingEmpty(ls: Lists)
    requires forall i :: 0 <= i < |ls| ==> ls[i] == []
    ensures Everything(ls) == multiset{}
  {
    if ls != [] {
      EverythingEmpty(ls[..|ls| - 1]);
    }
  }

  lemma {:induction false} InEverything(ls: Lists, r: bytes) returns (i: nat, j: nat)
    requires r in Everything(ls)
    ensures i < |ls| && j < |ls[i]| && ls[i][j] == r
  {
    var n := |ls| - 1;
    if r in multiset(ls[n]) {
      i := n;
      j :| 0 <= j < |ls[n]| && ls[n][j] == r;
    } else {
      i, j := InEverything(ls[..n], r);
    }
  }

  lemma GoodHeadsOf(k: SortKey, ls: Lists)
    requires GoodLists(k, ls)
    ensures GoodHeads(k, ls)
  {
    hide Sorted, Sortable;
  }

  lemma GoodTail(k: SortKey, ls: Lists, i: nat)
    requires GoodLists(k, ls) && i < |ls| && ls[i] != []
    ensures GoodLists(k, ls[i := ls[i][1..]])
  {
    hide RecLeq, Sortable;
  }

  /** Repeatedly take the smallest head, the first of equals. */
  ghost function Merged(k: SortKey, ls: Lists): seq<bytes>
    requires GoodLists(k, ls)
    decreases Total(ls)
  {
    GoodHeadsOf(k, ls);
    var b := Best(k, ls, |ls|);
    if b == -1 then []
    else
      GoodTail(k, ls, b);
      TotalTail(ls, b);
      [ls[b][0]] + Merged(k, ls[b := ls[b][1..]])
  }

  /** Merging loses and adds nothing. */
  lemma {:induction false} MergedBag(k: SortKey, ls: Lists)
    requires GoodLists(k, ls)
    ensures multiset(Merged(k, ls)) == Everything(ls)
    decreases Total(ls)
  {
    GoodHeadsOf(k, ls);
    var b := Best(k, ls, |ls|);
    if b == -1 {
      EverythingEmpty(ls);
    } else {
      GoodTail(k, ls, b);
      TotalTail(ls, b);
      EverythingTail(ls, b);
      MergedBag(k, ls[b := ls[b][1..]]);
    }
  }

  lemma SortedTail(k: SortKey, ls: Lists, i: nat)
    requires SortedLists(k, ls) && i < |ls| && ls[i] != []
    ensures SortedLists(k, ls[i := ls[i][1..]])
  {
    hide RecLeq;
  }

  lemma AgreeingHeads(k: SortKey, ls: Lists)
    requires AllAgree(k, Everything(ls))
    ensures HeadsAgree(k, ls)
  {
    hide RecAgree, Everything;
    forall i | 0 <= i < |ls| && ls[i] != []
      ensures ls[i][0] in Everything(ls)
    {
      EverythingTail(ls, i);
    }
  }

  /** Merging sorted lists gives a sorted list, where no difference overflows. */
  lemma {:induction false} MergedSorted(k: SortKey, ls: Lists)
    requires GoodLists(k, ls) && SortedLists(k, ls) && AllAgree(k, Everything(ls))
    ensures Sorted(k, Merged(k, ls))
    decreases Total(ls)
  {
    GoodHeadsOf(k, ls);
    var b := Best(k, ls, |ls|);
    if b != -1 {
      GoodTail(k, ls, b);
      SortedTail(k, ls, b);
      TotalTail(ls, b);
      EverythingTail(ls, b);
      var ms := ls[b := ls[b][1..]];
      hide Everything, Best, Sorted, SortedLists, GoodLists, RecAgree;
      MergedSorted(k, ms);
      SmallestFirst(k, ls, b, Merged(k, ms));
      SortedCons(k, ls[b][0], Merged(k, ms));
    }
  }

  lemma SmallestFirst(k: SortKey, ls: Lists, b: nat, rest: seq<bytes>)
    requires GoodLists(k, ls) && SortedLists(k, ls) && AllAgree(k, Everything(ls))
    requires GoodHeads(k, ls) && b == Best(k, ls, |ls|)
    requires GoodLists(k, ls[b := ls[b][1..]]) && rest == Merged(k, ls[b := ls[b][1..]])
    ensures AtMostAll(k, ls[b][0], rest)
  {
    var ms := ls[b := ls[b][1..]];
    hide Merged, Best, RecLeq, Sorted, Everything, Sortable, AllAgree;
    MergedBag(k, ms);
    AgreeingHeads(k, ls);
    BestIsSmallest(k, ls, |ls|);
    forall x | 0 <= x < |rest|
      ensures RecLeq(k, ls[b][0], rest[x])
    {
      assert rest[x] in multiset(rest);
      var i, j := InEverything(ms, rest[x]);
      HeadAtMost(k, ls, b, i, if i == b then j + 1 else j);
    }
  }

  lemma HeadAtMost(k: SortKey, ls: Lists, b: nat, i: nat, j: nat)
    requires SortedLists(k, ls) && b < |ls| && ls[b] != [] && i < |ls| && j < |ls[i]|
    requires RecLeq(k, ls[b][0], ls[i][0])
    ensures RecLeq(k, ls[b][0], ls[i][j])
  {
    if j > 0 {
      LeqTransitive(k, Field(k, ls[b][0]), Field(k, ls[i][0]), Field(k, ls[i][j]));
    }
  }
}
