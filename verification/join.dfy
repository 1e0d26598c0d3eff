/** The nested-loops join operator. */
module JoinOperator {
  import opened Bytes
  import opened PageView
  import opened ScanFilter
  import opened HeapView
  import opened PagedFiles
  import opened HeapFileScans
  import opened InsertFileScans

  /** An attribute as the catalog describes it. */
  datatype AttrDesc = AttrDesc(relName: string, offset: nat, length: nat, attrType: Datatype)

  datatype Query = Query(proj: seq<AttrDesc>, attr1: AttrDesc, op: Operator, attr2: AttrDesc)

  function AttrValue(rec: bytes, a: AttrDesc): bytes {
    if a.offset + a.length <= |rec| then rec[a.offset..a.offset + a.length] else []
  }

  /** Does the pair satisfy outer.attr1 op inner.attr2, by the order of the values?  An inner record too short for its
      attribute joins with nothing. */
  predicate Joins(q: Query, o: bytes, i: bytes)
    requires Wide(q.attr2.attrType, AttrValue(o, q.attr1)) && Acceptable(q.attr2.offset, q.attr2.length, q.attr2.attrType)
  {
    q.attr2.offset + q.attr2.length <= |i| &&
    Holds(q.op, Order(q.attr2.attrType, AttrValue(o, q.attr1), AttrValue(i, q.attr2), q.attr2.length))
  }

  /** The output record: the projected attributes side by side, each from the relation it names. */
  function Project(q: Query, proj: seq<AttrDesc>, o: bytes, i: bytes): bytes {
    if proj == [] then []
    else Project(q, proj[..|proj| - 1], o, i) +
         (var a := proj[|proj| - 1]; AttrValue(if a.relName == q.attr1.relName then o else i, a))
  }

  function Width(proj: seq<AttrDesc>): nat {
    if proj == [] then 0 else Width(proj[..|proj| - 1]) + proj[|proj| - 1].length
  }

  /** The join attribute and every attribute projected from the outer relation lie inside the record. */
  predicate OuterFits(q: Query, o: bytes) {
    && q.attr1.offset + q.attr1.length <= |o|
    && forall a :: a in q.proj && a.relName == q.attr1.relName ==> a.offset + a.length <= |o|
  }

  predicate InnerFits(q: Query, i: bytes) {
    forall a :: a in q.proj && a.relName != q.attr1.relName ==> a.offset + a.length <= |i|
  }

  ghost predicate OuterOk(q: Query, rs: seq<Rec>) {
    forall k :: 0 <= k < |rs| ==> OuterFits(q, rs[k].data)
  }

  ghost predicate InnerOk(q: Query, rs: seq<Rec>) {
    forall k :: 0 <= k < |rs| ==> InnerFits(q, rs[k].data)
  }

  /** Equal type and length, and scan parameters that make sense. */
  predicate Joinable(q: Query) {
    && q.attr1.attrType == q.attr2.attrType && q.attr1.length == q.attr2.length
    && Acceptable(q.attr2.offset, q.attr2.length, q.attr2.attrType)
  }

  /** The operator the inner scan runs with: the sides of the comparison are swapped. */
  function Flip(op: Operator): Operator {
    match op
    case EQ => EQ
    case GT => LT
    case GTE => LTE
    case LT => GT
    case LTE => GTE
    case NE => NE
  }

  function InnerFilter(q: Query, o: bytes): ScanFilter
    requires Joinable(q) && OuterFits(q, o)
  {
    Attribute(q.attr2.offset, q.attr2.length, q.attr2.attrType, AttrValue(o, q.attr1), Flip(q.op))
  }

  /** In a join of a relation with itself every attribute is taken from the outer record: which inner record it is
      paired with does not show in the row. */
  lemma {:induction false} SelfJoinProjects(q: Query, proj: seq<AttrDesc>, o: bytes, i: bytes, j: bytes)
    requires forall k :: 0 <= k < |proj| ==> proj[k].relName == q.attr1.relName
    ensures Project(q, proj, o, i) == Project(q, proj, o, j)
  {
    if proj != [] {
      SelfJoinProjects(q, proj[..|proj| - 1], o, i, j);
    }
  }

  /** Does the inner scan return the record? */
  predicate Hits(q: Query, o: bytes, i: bytes)
    requires Joinable(q) && OuterFits(q, o)
  {
    Match(InnerFilter(q, o), i)
  }

  /** The rows the code makes for one outer record. */
  ghost function RowsFor(q: Query, o: bytes, rs: seq<Rec>): seq<bytes>
    requires Joinable(q) && OuterFits(q, o)
  {
    if rs == [] then []
    else (if Hits(q, o, rs[0].data) then [Project(q, q.proj, o, rs[0].data)] else []) + RowsFor(q, o, rs[1..])
  }

  /** The rows the code makes for all outer records. */
  ghost function ScanRows(q: Query, os: seq<Rec>, rs: seq<Rec>): seq<bytes>
    requires Joinable(q) && OuterOk(q, os)
  {
    if os == [] then [] else RowsFor(q, os[0].data, rs) + ScanRows(q, os[1..], rs)
  }

  /** The rows one outer record has in the join. */
  ghost function PairsFor(q: Query, o: bytes, rs: seq<Rec>): seq<bytes>
    requires Joinable(q) && OuterFits(q, o)
  {
    if rs == [] then []
    else (if Joins(q, o, rs[0].data) then [Project(q, q.proj, o, rs[0].data)] else []) + PairsFor(q, o, rs[1..])
  }

  /** The join, by definition: over all pairs, the projections of those that satisfy the condition. */
  ghost function JoinRows(q: Query, os: seq<Rec>, rs: seq<Rec>): seq<bytes>
    requires Joinable(q) && OuterOk(q, os)
  {
    if os == [] then [] else PairsFor(q, os[0].data, rs) + JoinRows(q, os[1..], rs)
  }

  /** The inner record is too short for its attribute, only equality is asked for, or the difference the code takes fits. */
  predicate PairDecided(q: Query, o: bytes, i: bytes) {
    Joinable(q) && OuterFits(q, o) && q.attr2.offset + q.attr2.length <= |i| ==>
      AsksEqual(q.op) || Exact(q.attr2.attrType, AttrValue(i, q.attr2), AttrValue(o, q.attr1))
  }

  ghost predicate AllDecided(q: Query, os: seq<Rec>, rs: seq<Rec>) {
    forall x, y :: 0 <= x < |os| && 0 <= y < |rs| ==> PairDecided(q, os[x].data, rs[y].data)
  }

  lemma FlipSwap(op: Operator, o: Ordering)
    ensures Holds(Flip(op), Swap(o)) == Holds(op, o)
  {
  }

  /** The inner scan with the flipped operator returns a record exactly when the pair satisfies the condition, if and
      only if the difference the code takes fits in 32 bits or does not matter. */
  lemma FlippedScan(q: Query, o: bytes, i: bytes)
    requires Joinable(q) && OuterFits(q, o)
    ensures Hits(q, o, i) == Joins(q, o, i) <==> PairDecided(q, o, i)
  {
    if q.attr2.offset + q.attr2.length <= |i| {
      var x, y := AttrValue(o, q.attr1), AttrValue(i, q.attr2);
      OrderSwap(q.attr2.attrType, y, x, q.attr2.length);
      FlipSwap(q.op, Order(q.attr2.attrType, x, y, q.attr2.length));
      HoldsOfOrder(Flip(q.op), q.attr2.attrType, y, x, q.attr2.length);
    }
  }

  /** What the join condition means: INTEGER attributes by their values. */
  lemma JoinsInteger(q: Query, o: bytes, i: bytes)
    requires Joinable(q) && OuterFits(q, o) && q.attr2.attrType == INTEGER && q.attr2.offset + q.attr2.length <= |i|
    ensures var x := Int32(o[q.attr1.offset..q.attr1.offset + q.attr1.length]);
      var y := Int32(i[q.attr2.offset..q.attr2.offset + q.attr2.length]);
      && (q.op == LT ==> (Joins(q, o, i) <==> x < y)) && (q.op == LTE ==> (Joins(q, o, i) <==> x <= y))
      && (q.op == EQ ==> (Joins(q, o, i) <==> x == y)) && (q.op == NE ==> (Joins(q, o, i) <==> x != y))
      && (q.op == GTE ==> (Joins(q, o, i) <==> x >= y)) && (q.op == GT ==> (Joins(q, o, i) <==> x > y))
  {
  }

  /** FLOAT attributes that are numbers by their values; with NaN only NE holds. */
  lemma JoinsFloat(q: Query, o: bytes, i: bytes)
    requires Joinable(q) && OuterFits(q, o) && q.attr2.attrType == FLOAT && q.attr2.offset + q.attr2.length <= |i|
    ensures var x := FloatOf(o[q.attr1.offset..q.attr1.offset + q.attr1.length]);
      var y := FloatOf(i[q.attr2.offset..q.attr2.offset + q.attr2.length]);
      && (x.Finite? && y.Finite? ==>
          && (q.op == LT ==> (Joins(q, o, i) <==> x.r < y.r)) && (q.op == LTE ==> (Joins(q, o, i) <==> x.r <= y.r))
          && (q.op == EQ ==> (Joins(q, o, i) <==> x.r == y.r)) && (q.op == NE ==> (Joins(q, o, i) <==> x.r != y.r))
          && (q.op == GTE ==> (Joins(q, o, i) <==> x.r >= y.r)) && (q.op == GT ==> (Joins(q, o, i) <==> x.r > y.r)))
      && (x.NaN? || y.NaN? || (x.Infinity? && y == x) ==> (Joins(q, o, i) <==> q.op == NE))
      && (!x.NaN? && !y.NaN? && x != y && (x == Infinity(true) || y == Infinity(false)) ==>
          (Joins(q, o, i) <==> q.op == LT || q.op == LTE || q.op == NE))
      && (!x.NaN? && !y.NaN? && x != y && (x == Infinity(false) || y == Infinity(true)) ==>
          (Joins(q, o, i) <==> q.op == GT || q.op == GTE || q.op == NE))
  {
    hide FloatOf;
  }

  /** STRING attributes over their whole length, or up to the zero byte that ends both. */
  lemma JoinsString(q: Query, o: bytes, i: bytes)
    requires Joinable(q) && OuterFits(q, o) && q.attr2.attrType == STRING && q.attr2.offset + q.attr2.length <= |i|
    ensures var n, x := q.attr2.length, o[q.attr1.offset..q.attr1.offset + q.attr1.length];
      var y := i[q.attr2.offset..q.attr2.offset + q.attr2.length];
      && (q.op == LT ==> (Joins(q, o, i) <==> Before(x, y, n))) && (q.op == GT ==> (Joins(q, o, i) <==> Before(y, x, n)))
      && (q.op == LTE ==> (Joins(q, o, i) <==> !Before(y, x, n))) && (q.op == GTE ==> (Joins(q, o, i) <==> !Before(x, y, n)))
      && (q.op == EQ ==> (Joins(q, o, i) <==> SameString(x, y, n))) && (q.op == NE ==> (Joins(q, o, i) <==> !SameString(x, y, n)))
  {
    CompareStringIs(AttrValue(o, q.attr1), AttrValue(i, q.attr2), q.attr2.length);
    hide CompareString, Before, SameString;
  }

  /** An inner record that ends before its attribute does joins with nothing. */
  lemma JoinsShort(q: Query, o: bytes, i: bytes)
    requires Joinable(q) && OuterFits(q, o) && q.attr2.offset + q.attr2.length > |i|
    ensures !Joins(q, o, i) && !Hits(q, o, i)
  {
    FlippedScan(q, o, i);
  }

  // ---- the rows, counted ----

  /** The places of the inner records that make the given row with the outer record. */
  ghost function Partners(q: Query, o: bytes, rs: seq<Rec>, row: bytes): set<int>
    requires Joinable(q) && OuterFits(q, o)
  {
    set y | 0 <= y < |rs| && Hits(q, o, rs[y].data) && Project(q, q.proj, o, rs[y].data) == row
  }

  /** The pairs of places that make the given row. */
  ghost function Pairs(q: Query, os: seq<Rec>, rs: seq<Rec>, row: bytes): set<(int, int)>
    requires Joinable(q) && OuterOk(q, os)
  {
    set x, y | 0 <= x < |os| && 0 <= y < |rs| && Hits(q, os[x].data, rs[y].data)
      && Project(q, q.proj, os[x].data, rs[y].data) == row :: (x, y)
  }

  lemma {:induction false} RowsForLast(q: Query, o: bytes, rs: seq<Rec>, r: Rec)
    requires Joinable(q) && OuterFits(q, o)
    ensures RowsFor(q, o, rs + [r])
      == RowsFor(q, o, rs) + if Hits(q, o, r.data) then [Project(q, q.proj, o, r.data)] else []
  {
    hide Hits, Project, Joinable, OuterFits;
    if rs == [] {
      assert rs + [r] == [r];
      assert RowsFor(q, o, [r][1..]) == [];
    } else {
      RowsForLast(q, o, rs[1..], r);
      assert (rs + [r])[1..] == rs[1..] + [r];
    }
  }

  lemma PartnersLast(q: Query, o: bytes, rs: seq<Rec>, r: Rec, row: bytes)
    requires Joinable(q) && OuterFits(q, o)
    ensures |Partners(q, o, rs + [r], row)| == |Partners(q, o, rs, row)|
      + if Hits(q, o, r.data) && Project(q, q.proj, o, r.data) == row then 1 else 0
  {
    hide Hits, Project, Joinable, OuterFits;
    var all := rs + [r];
    assert all[|rs|] == r && forall y :: 0 <= y < |rs| ==> all[y] == rs[y];
    assert Partners(q, o, all, row)
      == Partners(q, o, rs, row) + if Hits(q, o, r.data) && Project(q, q.proj, o, r.data) == row then {|rs|} else {};
  }

  lemma {:induction false} RowsForCount(q: Query, o: bytes, rs: seq<Rec>, row: bytes)
    requires Joinable(q) && OuterFits(q, o)
    ensures multiset(RowsFor(q, o, rs))[row] == |Partners(q, o, rs, row)|
    decreases |rs|
  {
    if rs == [] {
      assert Partners(q, o, rs, row) == {};
    } else {
      hide Hits, Project, Joinable, OuterFits, RowsFor, Partners;
      var front, r := rs[..|rs| - 1], rs[|rs| - 1];
      assert rs == front + [r];
      RowsForLast(q, o, front, r);
      RowsForCount(q, o, front, row);
      PartnersLast(q, o, front, r, row);
    }
  }

  lemma {:induction false} ScanRowsLast(q: Query, os: seq<Rec>, o: Rec, rs: seq<Rec>)
    requires Joinable(q) && OuterOk(q, os + [o])
    ensures OuterOk(q, os) && OuterFits(q, o.data)
    ensures ScanRows(q, os + [o], rs) == ScanRows(q, os, rs) + RowsFor(q, o.data, rs)
  {
    hide RowsFor, Joinable, OuterFits;
    assert (os + [o])[|os|] == o && forall k :: 0 <= k < |os| ==> (os + [o])[k] == os[k];
    if os == [] {
      assert os + [o] == [o];
      assert ScanRows(q, [o][1..], rs) == [];
    } else {
      assert (os + [o])[1..] == os[1..] + [o];
      ScanRowsLast(q, os[1..], o, rs);
    }
  }

  lemma PairsLast(q: Query, os: seq<Rec>, o: Rec, rs: seq<Rec>, row: bytes)
    requires Joinable(q) && OuterOk(q, os + [o])
    ensures OuterOk(q, os) && OuterFits(q, o.data)
    ensures |Pairs(q, os + [o], rs, row)| == |Pairs(q, os, rs, row)| + |Partners(q, o.data, rs, row)|
  {
    hide Hits, Project, Joinable, OuterFits;
    var all := os + [o];
    assert all[|os|] == o;
    var ys := Partners(q, o.data, rs, row);
    assert forall x :: 0 <= x < |os| ==> all[x] == os[x];
    assert Pairs(q, all, rs, row) == Pairs(q, os, rs, row) + Beside(|os|, ys);
    BesideSize(|os|, ys, |rs|);
  }

  /** Each row comes out as often as there are pairs of an outer and an inner record that make it. */
  lemma {:induction false} ScanCounts(q: Query, os: seq<Rec>, rs: seq<Rec>, row: bytes)
    requires Joinable(q) && OuterOk(q, os)
    ensures ScanBag(q, os, rs)[row] == |Pairs(q, os, rs, row)|
    decreases |os|
  {
    if os == [] {
      assert Pairs(q, os, rs, row) == {};
    } else {
      hide Hits, Project, Joinable, OuterFits, OuterOk, RowsFor, ScanRows, Pairs, Partners;
      var front, o := os[..|os| - 1], os[|os| - 1];
      assert os == front + [o];
      ScanRowsLast(q, front, o, rs);
      ScanCounts(q, front, rs, row);
      RowsForCount(q, o.data, rs, row);
      PairsLast(q, front, o, rs, row);
    }
  }

  ghost function Beside(x: int, ys: set<int>): set<(int, int)> {
    set y | y in ys :: (x, y)
  }

  lemma {:induction false} BesideSize(x: int, ys: set<int>, n: nat)
    requires forall y :: y in ys ==> 0 <= y < n
    ensures |Beside(x, ys)| == |ys|
  {
    if n == 0 {
      NoneBelow(ys);
      assert Beside(x, ys) == {};
    } else if n - 1 in ys {
      var rest := ys - {n - 1};
      BesideSize(x, rest, n - 1);
      assert Beside(x, ys) == Beside(x, rest) + {(x, n - 1)};
      assert (x, n - 1) !in Beside(x, rest);
    } else {
      BesideSize(x, ys, n - 1);
    }
  }

  lemma NoneBelow(ys: set<int>)
    requires forall y :: y in ys ==> 0 <= y < 0
    ensures ys == {}
  {
    var none: set<int> := {};
    forall y: int
      ensures y in ys <==> y in none
    {
    }
    assert ys == none;
  }

  lemma {:induction false} RowsArePairs(q: Query, o: bytes, rs: seq<Rec>)
    requires Joinable(q) && OuterFits(q, o) && forall y :: 0 <= y < |rs| ==> PairDecided(q, o, rs[y].data)
    ensures RowsFor(q, o, rs) == PairsFor(q, o, rs)
  {
    if rs != [] {
      hide Hits, Joins, PairDecided, Joinable, OuterFits, Project;
      FlippedScan(q, o, rs[0].data);
      RowsArePairs(q, o, rs[1..]);
    }
  }

  /** Without overflow the code computes the join. */
  lemma {:induction false} ScanIsJoin(q: Query, os: seq<Rec>, rs: seq<Rec>)
    requires Joinable(q) && OuterOk(q, os) && AllDecided(q, os, rs)
    ensures ScanRows(q, os, rs) == JoinRows(q, os, rs)
  {
    if os != [] {
      hide PairDecided, Joinable, OuterFits, PairsFor, RowsFor;
      RowsArePairs(q, os[0].data, rs);
      ScanIsJoin(q, os[1..], rs);
    }
  }

  ghost function ProjectAll(q: Query, o: bytes, rs: seq<Rec>): seq<bytes> {
    if rs == [] then [] else [Project(q, q.proj, o, rs[0].data)] + ProjectAll(q, o, rs[1..])
  }

  lemma {:induction false} RowsAreScanHits(q: Query, o: bytes, rs: seq<Rec>)
    requires Joinable(q) && OuterFits(q, o)
    ensures ProjectAll(q, o, Pick(rs, InnerFilter(q, o), true)) == RowsFor(q, o, rs)
  {
    if rs != [] {
      hide Match, InnerFilter, Project, OuterFits, Joinable, ProjectAll;
      RowsAreScanHits(q, o, rs[1..]);
      ProjectFirst(q, o, rs[0], Pick(rs[1..], InnerFilter(q, o), true));
      assert [] + Pick(rs[1..], InnerFilter(q, o), true) == Pick(rs[1..], InnerFilter(q, o), true);
    } else {
      assert ProjectAll(q, o, []) == [];
    }
  }

  lemma ProjectFirst(q: Query, o: bytes, r: Rec, rs: seq<Rec>)
    ensures ProjectAll(q, o, [r] + rs) == [Project(q, q.proj, o, r.data)] + ProjectAll(q, o, rs)
  {
    hide Project;
    assert ([r] + rs)[1..] == rs;
  }

  // ---- building an output record ----

  lemma {:induction false} ProjectStep(q: Query, proj: seq<AttrDesc>, k: nat, o: bytes, i: bytes)
    requires k < |proj|
    ensures Project(q, proj[..k + 1], o, i) == Project(q, proj[..k], o, i)
      + AttrValue(if proj[k].relName == q.attr1.relName then o else i, proj[k])
    ensures Width(proj[..k + 1]) == Width(proj[..k]) + proj[k].length
  {
    assert proj[..k + 1][..k] == proj[..k];
  }

  lemma {:induction false} WidthPrefix(proj: seq<AttrDesc>, k: nat)
    requires k <= |proj|
    ensures Width(proj[..k]) <= Width(proj)
    decreases |proj| - k
  {
    if k == |proj| {
      assert proj[..k] == proj;
    } else {
      WidthPrefix(proj, k + 1);
      assert proj[..k + 1][..k] == proj[..k];
    }
  }

  lemma {:induction false} ProjectLength(q: Query, k: nat, o: bytes, i: bytes)
    requires k <= |q.proj| && OuterFits(q, o) && InnerFits(q, i)
    ensures |Project(q, q.proj[..k], o, i)| == Width(q.proj[..k])
  {
    if k > 0 {
      ProjectLength(q, k - 1, o, i);
      ProjectStep(q, q.proj, k - 1, o, i);
      assert q.proj[k - 1] in q.proj;
    }
  }

  /** The k-th projected attribute lies behind those before it, with the bytes it has in its own relation. */
  lemma {:induction false} ProjectAt(q: Query, n: nat, k: nat, o: bytes, i: bytes)
    requires k < n <= |q.proj| && OuterFits(q, o) && InnerFits(q, i)
    ensures var a, at := q.proj[k], Width(q.proj[..k]);
      var source := if a.relName == q.attr1.relName then o else i;
      && a.offset + a.length <= |source| && at + a.length <= |Project(q, q.proj[..n], o, i)|
      && Project(q, q.proj[..n], o, i)[at..at + a.length] == source[a.offset..a.offset + a.length]
  {
    hide Project, Width, AttrValue, OuterFits, InnerFits;
    Source(q, k, o, i);
    ProjectStep(q, q.proj, n - 1, o, i);
    if k < n - 1 {
      ProjectAt(q, n - 1, k, o, i);
    } else {
      ProjectLength(q, k, o, i);
    }
  }

  lemma Source(q: Query, k: nat, o: bytes, i: bytes)
    requires k < |q.proj| && OuterFits(q, o) && InnerFits(q, i)
    ensures var a := q.proj[k];
      var source := if a.relName == q.attr1.relName then o else i;
      a.offset + a.length <= |source| && AttrValue(source, a) == source[a.offset..a.offset + a.length]
  {
    assert q.proj[k] in q.proj;
  }

  /** Copy the projected attributes into the output buffer, one behind the other. */
  method FillOutput(q: Query, o: bytes, i: bytes, output: array<byte>)
    requires OuterFits(q, o) && InnerFits(q, i) && output.Length == Width(q.proj)
    modifies output
    ensures output[..] == Project(q, q.proj, o, i)
  {
    var outputOffset := 0;
    for k := 0 to |q.proj|
      invariant outputOffset == Width(q.proj[..k]) <= output.Length
      invariant output[..outputOffset] == Project(q, q.proj[..k], o, i)
    {
      var a := q.proj[k];
      assert a in q.proj;
      ProjectStep(q, q.proj, k, o, i);
      WidthPrefix(q.proj, k + 1);
      if a.relName == q.attr1.relName {
        CopyField(output, outputOffset, o, a);
      } else {
        CopyField(output, outputOffset, i, a);
      }
      outputOffset := outputOffset + a.length;
    }
    assert q.proj[..|q.proj|] == q.proj;
    assert output[..] == output[..outputOffset];
  }

  /** memcpy of one attribute. */
  method CopyField(output: array<byte>, at: nat, rec: bytes, a: AttrDesc)
    requires a.offset + a.length <= |rec| && at + a.length <= output.Length
    modifies output
    ensures output[..at + a.length] == old(output[..at]) + AttrValue(rec, a)
  {
    forall x | 0 <= x < a.length {
      output[at + x] := rec[a.offset + x];
    }
  }

  // ---- the operator ----

  /** Add one output record to the result relation. */
  method EmitRow(q: Query, o: bytes, i: bytes, resultRel: InsertFileScan)
    requires resultRel.Ok() && OuterFits(q, o) && InnerFits(q, i) && 1 <= Width(q.proj) <= MAXRECORD
    modifies resultRel, resultRel.file, resultRel.file.Repr
    ensures resultRel.Ok() && fresh(resultRel.file.Repr - old(resultRel.file.Repr))
    ensures Bag(resultRel.file.View()) == old(Bag(resultRel.file.View())) + multiset{Project(q, q.proj, o, i)}
    ensures resultRel.Others() == old(resultRel.Others()) && (old(resultRel.Flagged()) ==> resultRel.Flagged())
  {
    hide InsertFileScan.Ok, InsertFileScan.Others, InsertFileScan.Flagged, PagedFile.View, Bag, InsertRec, InsertedAt;
    var outputData := new byte[Width(q.proj)];
    FillOutput(q, o, i, outputData);
    ProjectLength(q, |q.proj|, o, i);
    assert q.proj[..|q.proj|] == q.proj;
    resultRel.NonEmpty();
    ghost var ps := resultRel.file.View();
    var status, rid := resultRel.InsertRecord(outputData[..]);
    InsertBag(ps, Project(q, q.proj, o, i), resultRel.curPageNo);
  }

  /** A scan of the relation `source` and the inserter of the result stay out of each other's way. */
  ghost predicate Independent(scan: HeapFileScan, resultRel: InsertFileScan)
    reads scan, scan.file, resultRel, resultRel.file
  {
    && Separate(scan.file, resultRel.file)
    && scan !in resultRel.file.Repr && resultRel !in scan.file.Repr
  }

  /** One turn of the inner loop: fetch the next match and emit the pair.  `goal` is what the result relation will hold
      when the loop ends. */
  method EmitNext(q: Query, o: bytes, innerScan: HeapFileScan, resultRel: InsertFileScan, ghost goal: multiset<bytes>)
      returns (status: Status)
    requires innerScan.Ok() && resultRel.Ok() && Independent(innerScan, resultRel)
    requires OuterFits(q, o) && 1 <= Width(q.proj) <= MAXRECORD && InnerOk(q, innerScan.Pending())
    requires Bag(resultRel.file.View()) + multiset(ProjectAll(q, o, innerScan.Pending())) == goal
    modifies innerScan, innerScan.file`pins, innerScan.file`unsaved, resultRel, resultRel.file, resultRel.file.Repr
    ensures innerScan.Ok() && resultRel.Ok() && Independent(innerScan, resultRel)
    ensures fresh(resultRel.file.Repr - old(resultRel.file.Repr))
    ensures status == if old(innerScan.Pending()) == [] then FILEEOF else OK
    ensures innerScan.Pending() == if status == OK then old(innerScan.Pending())[1..] else []
    ensures InnerOk(q, innerScan.Pending())
    ensures Bag(resultRel.file.View()) + multiset(ProjectAll(q, o, innerScan.Pending())) == goal
    ensures innerScan.Others() == old(innerScan.Others()) && (old(innerScan.Flagged()) ==> innerScan.Flagged())
    ensures innerScan.file.unsaved <= old(innerScan.file.unsaved)
    ensures resultRel.Others() == old(resultRel.Others()) && (old(resultRel.Flagged()) ==> resultRel.Flagged())
  {
    hide InsertFileScan.Ok, InsertFileScan.Others, InsertFileScan.Flagged, PagedFile.View, Bag, OuterFits, InnerFits;
    hide HeapFileScan.Ok, HeapFileScan.Others, HeapFileScan.Flagged, HeapFileScan.At, HeapFileScan.Pending;
    hide Project, Width, ProjectAll;
    ghost var todo := innerScan.Pending();
    ProjectAllFirst(q, o, todo);
    var innerRID;
    status, innerRID := innerScan.ScanNext();
    if status == OK {
      var st, innerRec := innerScan.GetRecord();
      EmitRow(q, o, innerRec, resultRel);
    }
  }

  /** The inner loop: one output record for each record its scan returns. */
  method EmitMatches(q: Query, o: bytes, innerScan: HeapFileScan, resultRel: InsertFileScan)
    requires innerScan.Ok() && resultRel.Ok() && Independent(innerScan, resultRel)
    requires OuterFits(q, o) && 1 <= Width(q.proj) <= MAXRECORD && InnerOk(q, innerScan.Pending())
    modifies innerScan, innerScan.file`pins, innerScan.file`unsaved, resultRel, resultRel.file, resultRel.file.Repr
    ensures innerScan.Ok() && resultRel.Ok() && Independent(innerScan, resultRel)
    ensures fresh(resultRel.file.Repr - old(resultRel.file.Repr))
    ensures Bag(resultRel.file.View()) == old(Bag(resultRel.file.View())) + multiset(ProjectAll(q, o, old(innerScan.Pending())))
    ensures innerScan.Others() == old(innerScan.Others()) && (old(innerScan.Flagged()) ==> innerScan.Flagged())
    ensures innerScan.file.unsaved <= old(innerScan.file.unsaved)
    ensures resultRel.Others() == old(resultRel.Others()) && (old(resultRel.Flagged()) ==> resultRel.Flagged())
  {
    hide InsertFileScan.Ok, InsertFileScan.Others, InsertFileScan.Flagged, PagedFile.View, Bag, OuterFits, InnerFits;
    hide HeapFileScan.Ok, HeapFileScan.Others, HeapFileScan.Flagged, HeapFileScan.At, HeapFileScan.Pending;
    hide Project, Width, Independent, InnerOk, ProjectAll;
    var result := resultRel.file;
    ghost var goal := Bag(result.View()) + multiset(ProjectAll(q, o, innerScan.Pending()));
    var status := OK;
    while status == OK
      invariant innerScan.Ok() && resultRel.Ok() && Independent(innerScan, resultRel)
      invariant InnerOk(q, innerScan.Pending())
      invariant fresh(result.Repr - old(result.Repr))
      invariant status == OK || innerScan.Pending() == []
      invariant Bag(result.View()) + multiset(ProjectAll(q, o, innerScan.Pending())) == goal
      invariant innerScan.Others() == old(innerScan.Others()) && (old(innerScan.Flagged()) ==> innerScan.Flagged())
      invariant innerScan.file.unsaved <= old(innerScan.file.unsaved)
      invariant resultRel.Others() == old(resultRel.Others()) && (old(resultRel.Flagged()) ==> resultRel.Flagged())
      decreases |innerScan.Pending()|, status == OK
    {
      status := EmitNext(q, o, innerScan, resultRel, goal);
    }
    ProjectAllFirst(q, o, innerScan.Pending());
  }

  lemma ProjectAllFirst(q: Query, o: bytes, rs: seq<Rec>)
    ensures rs == [] ==> multiset(ProjectAll(q, o, rs)) == multiset{}
    ensures rs != [] ==>
      multiset(ProjectAll(q, o, rs)) == multiset{Project(q, q.proj, o, rs[0].data)} + multiset(ProjectAll(q, o, rs[1..]))
  {
    hide Project;
  }

  /** The inner relation as a join needs it. */
  ghost predicate InnerReady(q: Query, inner: PagedFile, resultRel: InsertFileScan)
    reads inner, inner.Repr, resultRel, resultRel.file
  {
    && inner.Valid() && inner.WellFormed()
    && Separate(inner, resultRel.file) && resultRel !in inner.Repr
    && InnerOk(q, AllRecs(inner.View()))
  }

  lemma InnerOkPick(q: Query, rs: seq<Rec>, f: ScanFilter)
    requires InnerOk(q, rs)
    ensures InnerOk(q, Pick(rs, f, true))
  {
    hide InnerFits, Match;
    if rs != [] {
      InnerOkPick(q, rs[1..], f);
    }
  }

  /** Join one outer record with the whole inner relation. */
  method JoinOne(q: Query, o: bytes, inner: PagedFile, resultRel: InsertFileScan) returns (status: Status)
    requires InnerReady(q, inner, resultRel) && resultRel.Ok()
    requires q.attr1.attrType == q.attr2.attrType && q.attr1.length == q.attr2.length
    requires OuterFits(q, o) && 1 <= Width(q.proj) <= MAXRECORD
    modifies inner`pins, inner`unsaved, resultRel, resultRel.file, resultRel.file.Repr
    ensures InnerReady(q, inner, resultRel) && resultRel.Ok()
    ensures fresh(resultRel.file.Repr - old(resultRel.file.Repr))
    ensures status == if Acceptable(q.attr2.offset, q.attr2.length, q.attr2.attrType) then OK else BADSCANPARM
    ensures Bag(resultRel.file.View()) == old(Bag(resultRel.file.View()))
      + if status == OK then multiset(RowsFor(q, o, AllRecs(inner.View()))) else multiset{}
    ensures inner.pins == old(inner.pins) && inner.unsaved <= old(inner.unsaved)
    ensures resultRel.Others() == old(resultRel.Others()) && (old(resultRel.Flagged()) ==> resultRel.Flagged())
  {
    hide InsertFileScan.Ok, InsertFileScan.Others, InsertFileScan.Flagged, PagedFile.View, Bag, OuterFits, InnerFits;
    hide HeapFileScan.Ok, HeapFileScan.Others, HeapFileScan.Flagged, HeapFileScan.Future, HeapFileScan.Positioned;
    hide Width, PagedFile.Valid, GoodFile, AllRecs, InnerOk, RowsFor, HeapFileScan.At, PagedFile.WellFormed;
    var innerScan;
    status, innerScan := OpenInner(q, o, inner, resultRel);
    if status == OK {
      RunInner(q, o, innerScan, resultRel);
    }
    innerScan.Close();
  }

  /** Start the scan of the inner relation with the flipped operator. */
  method OpenInner(q: Query, o: bytes, inner: PagedFile, resultRel: InsertFileScan) returns (status: Status, innerScan: HeapFileScan)
    requires InnerReady(q, inner, resultRel) && resultRel.Ok() && OuterFits(q, o)
    requires q.attr1.attrType == q.attr2.attrType && q.attr1.length == q.attr2.length
    modifies inner`pins
    ensures fresh(innerScan) && innerScan.file == inner && innerScan.Ok()
    ensures InnerReady(q, inner, resultRel) && Independent(innerScan, resultRel)
    ensures status == if Acceptable(q.attr2.offset, q.attr2.length, q.attr2.attrType) then OK else BADSCANPARM
    ensures status == OK ==> Joinable(q) && innerScan.filter == InnerFilter(q, o)
    ensures innerScan.Future() == AllRecs(inner.View()) && innerScan.Others() == old(inner.pins)
    ensures inner.unsaved == {} ==> innerScan.Flagged()
  {
    hide InsertFileScan.Ok, PagedFile.View, OuterFits, InnerOk, AllRecs, PagedFile.Valid, PagedFile.WellFormed;
    hide HeapFileScan.Ok, HeapFileScan.Others, HeapFileScan.Flagged, HeapFileScan.Future;
    inner.NotOwn();
    var myop := Flip(q.op);
    FieldWide(q, o);
    innerScan := HeapFileScan.Open(inner);
    status := innerScan.StartScan(q.attr2.offset, q.attr2.length, q.attr2.attrType, Some(AttrValue(o, q.attr1)), myop);
  }

  lemma FieldWide(q: Query, o: bytes)
    requires OuterFits(q, o)
    ensures |AttrValue(o, q.attr1)| == q.attr1.length
  {
  }

  /** The inner scan has been started with the flipped operator. */
  method RunInner(q: Query, o: bytes, innerScan: HeapFileScan, resultRel: InsertFileScan)
    requires innerScan.Ok() && resultRel.Ok() && Independent(innerScan, resultRel)
    requires Joinable(q) && OuterFits(q, o) && 1 <= Width(q.proj) <= MAXRECORD
    requires InnerOk(q, AllRecs(innerScan.file.View()))
    requires innerScan.Future() == AllRecs(innerScan.file.View()) && innerScan.filter == InnerFilter(q, o)
    modifies innerScan, innerScan.file`pins, innerScan.file`unsaved, resultRel, resultRel.file, resultRel.file.Repr
    ensures innerScan.Ok() && resultRel.Ok() && Independent(innerScan, resultRel)
    ensures fresh(resultRel.file.Repr - old(resultRel.file.Repr))
    ensures Bag(resultRel.file.View())
      == old(Bag(resultRel.file.View())) + multiset(RowsFor(q, o, AllRecs(innerScan.file.View())))
    ensures innerScan.Others() == old(innerScan.Others()) && (old(innerScan.Flagged()) ==> innerScan.Flagged())
    ensures innerScan.file.unsaved <= old(innerScan.file.unsaved)
    ensures resultRel.Others() == old(resultRel.Others()) && (old(resultRel.Flagged()) ==> resultRel.Flagged())
  {
    hide InsertFileScan.Ok, InsertFileScan.Others, InsertFileScan.Flagged, PagedFile.View, Bag, OuterFits, InnerFits;
    hide HeapFileScan.Ok, HeapFileScan.Others, HeapFileScan.Flagged, HeapFileScan.Future;
    hide Width, AllRecs, ProjectAll, Pick, InnerOk, RowsFor, InnerFilter, Joinable;
    InnerOkPick(q, AllRecs(innerScan.file.View()), innerScan.filter);
    RowsAreScanHits(q, o, AllRecs(innerScan.file.View()));
    EmitMatches(q, o, innerScan, resultRel);
  }

  /** The outer loop's state: both scans and the inserter are independent of each other. */
  ghost predicate Ready(q: Query, outerScan: HeapFileScan, inner: PagedFile, resultRel: InsertFileScan)
    reads outerScan, outerScan.file, outerScan.file.Repr, inner, inner.Repr, resultRel, resultRel.file, resultRel.file.Repr
  {
    && outerScan.Ok() && resultRel.Ok()
    && InnerReady(q, inner, resultRel)
    && Independent(outerScan, resultRel)
    && (outerScan.file == inner || Separate(outerScan.file, inner)) && outerScan !in inner.Repr
    && outerScan.filter == NoFilter && OuterOk(q, outerScan.Pending())
  }

  /** Join the outer record with the inner relation, which may be the outer one: the outer scan stays where it is. */
  method JoinCurrent(q: Query, o: bytes, outerScan: HeapFileScan, inner: PagedFile, resultRel: InsertFileScan)
      returns (status: Status)
    requires Ready(q, outerScan, inner, resultRel)
    requires q.attr1.attrType == q.attr2.attrType && q.attr1.length == q.attr2.length
    requires OuterFits(q, o) && 1 <= Width(q.proj) <= MAXRECORD
    modifies outerScan.file`pins, outerScan.file`unsaved, inner`pins, inner`unsaved
    modifies resultRel, resultRel.file, resultRel.file.Repr
    ensures Ready(q, outerScan, inner, resultRel) && outerScan.Pending() == old(outerScan.Pending())
    ensures fresh(resultRel.file.Repr - old(resultRel.file.Repr))
    ensures status == if Acceptable(q.attr2.offset, q.attr2.length, q.attr2.attrType) then OK else BADSCANPARM
    ensures Bag(resultRel.file.View()) == old(Bag(resultRel.file.View()))
      + if status == OK then multiset(RowsFor(q, o, AllRecs(inner.View()))) else multiset{}
    ensures outerScan.file.pins == old(outerScan.file.pins) && outerScan.file.unsaved <= old(outerScan.file.unsaved)
    ensures inner.View() == old(inner.View()) && outerScan.file.View() == old(outerScan.file.View())
    ensures inner.pins == old(inner.pins) && inner.unsaved <= old(inner.unsaved)
    ensures outerScan.Others() == old(outerScan.Others()) && (old(outerScan.Flagged()) ==> outerScan.Flagged())
    ensures resultRel.Others() == old(resultRel.Others()) && (old(resultRel.Flagged()) ==> resultRel.Flagged())
  {
    hide InsertFileScan.Ok, InsertFileScan.Others, InsertFileScan.Flagged, PagedFile.View, Bag, OuterFits, OuterOk, InnerOk;
    hide HeapFileScan.Pending, HeapFileScan.At, HeapFileScan.Positioned, FlaggedOf, PinsOf;
    hide Width, AllRecs, RowsFor, PagedFile.Valid, PagedFile.WellFormed, Acceptable;
    status := JoinOne(q, o, inner, resultRel);
  }

  /** One turn of the outer loop. */
  method JoinNext(q: Query, outerScan: HeapFileScan, inner: PagedFile, resultRel: InsertFileScan) returns (status: Status)
    requires Ready(q, outerScan, inner, resultRel)
    requires q.attr1.attrType == q.attr2.attrType && q.attr1.length == q.attr2.length
    requires 1 <= Width(q.proj) <= MAXRECORD
    modifies outerScan, outerScan.file`pins, outerScan.file`unsaved, inner`pins, inner`unsaved
    modifies resultRel, resultRel.file, resultRel.file.Repr
    ensures Ready(q, outerScan, inner, resultRel)
    ensures fresh(resultRel.file.Repr - old(resultRel.file.Repr))
    ensures status == if old(outerScan.Pending()) == [] then FILEEOF
      else if Acceptable(q.attr2.offset, q.attr2.length, q.attr2.attrType) then OK else BADSCANPARM
    ensures outerScan.Pending() == if status == FILEEOF then [] else old(outerScan.Pending())[1..]
    ensures Bag(resultRel.file.View()) == old(Bag(resultRel.file.View())) + if status != OK then multiset{}
      else multiset(RowsFor(q, old(outerScan.Pending())[0].data, AllRecs(inner.View())))
    ensures inner.View() == old(inner.View()) && outerScan.file.View() == old(outerScan.file.View())
    ensures inner != outerScan.file ==> inner.pins == old(inner.pins)
    ensures inner.unsaved <= old(inner.unsaved) && outerScan.file.unsaved <= old(outerScan.file.unsaved)
    ensures outerScan.Others() == old(outerScan.Others()) && (old(outerScan.Flagged()) ==> outerScan.Flagged())
    ensures resultRel.Others() == old(resultRel.Others()) && (old(resultRel.Flagged()) ==> resultRel.Flagged())
  {
    hide InsertFileScan.Ok, InsertFileScan.Others, InsertFileScan.Flagged, PagedFile.View, Bag, OuterOk, InnerOk;
    hide HeapFileScan.Ok, HeapFileScan.Others, HeapFileScan.Flagged, HeapFileScan.Pending, HeapFileScan.At;
    hide Width, AllRecs, RowsFor, PagedFile.Valid, PagedFile.WellFormed, Acceptable, Ready, OuterFits;
    ghost var todo := outerScan.Pending();
    var outerRID;
    status, outerRID := FetchOuter(q, outerScan, inner, resultRel);
    if status == OK {
      var st, outerRec := outerScan.GetRecord();
      status := JoinCurrent(q, outerRec, outerScan, inner, resultRel);
    }
  }

  /** The next record of the outer scan. */
  method FetchOuter(q: Query, outerScan: HeapFileScan, inner: PagedFile, resultRel: InsertFileScan)
      returns (status: Status, rid: RID)
    requires Ready(q, outerScan, inner, resultRel)
    modifies outerScan, outerScan.file`pins, outerScan.file`unsaved
    ensures Ready(q, outerScan, inner, resultRel) && outerScan.Ok()
    ensures status == if old(outerScan.Pending()) == [] then FILEEOF else OK
    ensures if status == OK then outerScan.At(old(outerScan.Pending())[0]) && outerScan.Pending() == old(outerScan.Pending())[1..]
      else outerScan.Pending() == []
    ensures status == OK ==> outerScan.curPage != null && outerScan.curRec.slotNo >= 0
    ensures status == OK ==> OuterFits(q, old(outerScan.Pending())[0].data)
    ensures outerScan.file.unsaved <= old(outerScan.file.unsaved)
    ensures outerScan.Others() == old(outerScan.Others()) && (old(outerScan.Flagged()) ==> outerScan.Flagged())
    ensures resultRel.Others() == old(resultRel.Others()) && (old(resultRel.Flagged()) ==> resultRel.Flagged())
  {
    hide InsertFileScan.Ok, InsertFileScan.Others, InsertFileScan.Flagged, PagedFile.View, OuterFits, InnerOk;
    hide HeapFileScan.Ok, HeapFileScan.Others, HeapFileScan.Flagged, HeapFileScan.Pending, HeapFileScan.At;
    hide AllRecs, PagedFile.Valid, PagedFile.WellFormed;
    outerScan.Holdings();
    status, rid := outerScan.ScanNext();
  }

  /** What the join adds to the result relation. */
  ghost function ScanBag(q: Query, os: seq<Rec>, rs: seq<Rec>): multiset<bytes>
    requires OuterOk(q, os)
  {
    if Joinable(q) then multiset(ScanRows(q, os, rs)) else multiset{}
  }

  /** The join as a multiset of rows; empty when the attributes cannot be compared. */
  ghost function JoinBag(q: Query, os: seq<Rec>, rs: seq<Rec>): multiset<bytes>
    requires OuterOk(q, os)
  {
    if Joinable(q) then multiset(JoinRows(q, os, rs)) else multiset{}
  }

  lemma ScanBagIsJoin(q: Query, os: seq<Rec>, rs: seq<Rec>)
    requires OuterOk(q, os)
    ensures AllDecided(q, os, rs) ==> ScanBag(q, os, rs) == JoinBag(q, os, rs)
  {
    if AllDecided(q, os, rs) && Joinable(q) {
      ScanIsJoin(q, os, rs);
    }
  }

  lemma ScanBagFirst(q: Query, os: seq<Rec>, rs: seq<Rec>)
    requires Joinable(q) && OuterOk(q, os) && os != []
    ensures ScanBag(q, os, rs) == multiset(RowsFor(q, os[0].data, rs)) + ScanBag(q, os[1..], rs)
  {
    hide OuterFits, Joinable, RowsFor;
  }

  /** The outer loop. */
  method RunOuter(q: Query, outerScan: HeapFileScan, inner: PagedFile, resultRel: InsertFileScan) returns (status: Status)
    requires Ready(q, outerScan, inner, resultRel)
    requires q.attr1.attrType == q.attr2.attrType && q.attr1.length == q.attr2.length
    requires 1 <= Width(q.proj) <= MAXRECORD
    modifies outerScan, outerScan.file`pins, outerScan.file`unsaved, inner`pins, inner`unsaved
    modifies resultRel, resultRel.file, resultRel.file.Repr
    ensures Ready(q, outerScan, inner, resultRel)
    ensures fresh(resultRel.file.Repr - old(resultRel.file.Repr))
    ensures status == if Joinable(q) || old(outerScan.Pending()) == [] then OK else BADSCANPARM
    ensures Bag(resultRel.file.View())
      == old(Bag(resultRel.file.View())) + ScanBag(q, old(outerScan.Pending()), AllRecs(inner.View()))
    ensures inner.View() == old(inner.View()) && outerScan.file.View() == old(outerScan.file.View())
    ensures inner != outerScan.file ==> inner.pins == old(inner.pins)
    ensures inner.unsaved <= old(inner.unsaved) && outerScan.file.unsaved <= old(outerScan.file.unsaved)
    ensures outerScan.Others() == old(outerScan.Others()) && (old(outerScan.Flagged()) ==> outerScan.Flagged())
    ensures resultRel.Others() == old(resultRel.Others()) && (old(resultRel.Flagged()) ==> resultRel.Flagged())
  {
    hide InsertFileScan.Ok, InsertFileScan.Others, InsertFileScan.Flagged, PagedFile.View, Bag, OuterOk, InnerReady;
    hide HeapFileScan.Ok, HeapFileScan.Others, HeapFileScan.Flagged, HeapFileScan.Pending, Independent;
    hide Width, AllRecs, RowsFor, Acceptable, ScanBag;
    ghost var todo, rs := outerScan.Pending(), AllRecs(inner.View());
    status := OK;
    while status == OK
      invariant Ready(q, outerScan, inner, resultRel)
      invariant inner.View() == old(inner.View()) && outerScan.file.View() == old(outerScan.file.View())
      invariant fresh(resultRel.file.Repr - old(resultRel.file.Repr))
      invariant status == OK || status == FILEEOF || status == BADSCANPARM
      invariant status == FILEEOF ==> outerScan.Pending() == []
      invariant status == BADSCANPARM ==> !Joinable(q) && todo != []
      invariant !Joinable(q) && status == OK ==> outerScan.Pending() == todo
      invariant !Joinable(q) && status == FILEEOF ==> todo == []
      invariant Bag(resultRel.file.View()) + ScanBag(q, outerScan.Pending(), rs)
        == old(Bag(resultRel.file.View())) + ScanBag(q, todo, rs)
      invariant inner != outerScan.file ==> inner.pins == old(inner.pins)
      invariant inner.unsaved <= old(inner.unsaved) && outerScan.file.unsaved <= old(outerScan.file.unsaved)
      invariant outerScan.Others() == old(outerScan.Others()) && (old(outerScan.Flagged()) ==> outerScan.Flagged())
      invariant resultRel.Others() == old(resultRel.Others()) && (old(resultRel.Flagged()) ==> resultRel.Flagged())
      decreases |outerScan.Pending()|, status == OK
    {
      ScanBagStep(q, outerScan.Pending(), rs);
      status := JoinNext(q, outerScan, inner, resultRel);
    }
    ScanBagEnd(q, outerScan.Pending(), rs);
    if status == FILEEOF {
      status := OK;
    }
  }

  lemma ScanBagStep(q: Query, os: seq<Rec>, rs: seq<Rec>)
    requires OuterOk(q, os)
    ensures os != [] ==> OuterOk(q, os[1..]) && OuterFits(q, os[0].data)
    ensures Joinable(q) && os != [] ==>
      ScanBag(q, os, rs) == multiset(RowsFor(q, os[0].data, rs)) + ScanBag(q, os[1..], rs)
    ensures !Joinable(q) && os != [] ==> ScanBag(q, os[1..], rs) == multiset{}
    ensures !Joinable(q) ==> ScanBag(q, os, rs) == multiset{}
  {
    hide OuterFits, Joinable, RowsFor;
    if Joinable(q) && os != [] {
      ScanBagFirst(q, os, rs);
    }
  }

  lemma ScanBagEnd(q: Query, os: seq<Rec>, rs: seq<Rec>)
    requires OuterOk(q, os)
    ensures os == [] || !Joinable(q) ==> ScanBag(q, os, rs) == multiset{}
  {
  }

  /** The result relation is open. */
  method JoinOpened(q: Query, outer: PagedFile, inner: PagedFile, resultRel: InsertFileScan) returns (status: Status)
    requires outer.Valid() && outer.WellFormed() && OuterOk(q, AllRecs(outer.View())) && resultRel.Ok()
    requires InnerReady(q, inner, resultRel) && (outer == inner || Separate(outer, inner))
    requires Separate(outer, resultRel.file) && resultRel !in outer.Repr
    requires q.attr1.attrType == q.attr2.attrType && q.attr1.length == q.attr2.length
    requires 1 <= Width(q.proj) <= MAXRECORD
    modifies outer`pins, outer`unsaved, inner`pins, inner`unsaved, resultRel, resultRel.file, resultRel.file.Repr
    ensures outer.Valid() && outer.WellFormed() && InnerReady(q, inner, resultRel) && resultRel.Ok()
    ensures fresh(resultRel.file.Repr - old(resultRel.file.Repr))
    ensures status == if Joinable(q) || AllRecs(outer.View()) == [] then OK else BADSCANPARM
    ensures Bag(resultRel.file.View())
      == old(Bag(resultRel.file.View())) + ScanBag(q, AllRecs(outer.View()), AllRecs(inner.View()))
    ensures outer.View() == old(outer.View()) && inner.View() == old(inner.View())
    ensures outer.pins == old(outer.pins) && (old(outer.unsaved) == {} ==> outer.unsaved == {})
    ensures inner.pins == old(inner.pins) && inner.unsaved <= old(inner.unsaved)
    ensures resultRel.Others() == old(resultRel.Others()) && (old(resultRel.Flagged()) ==> resultRel.Flagged())
  {
    hide InsertFileScan.Ok, InsertFileScan.Others, InsertFileScan.Flagged, PagedFile.View, Bag, OuterOk, InnerOk;
    hide HeapFileScan.Ok, HeapFileScan.Others, HeapFileScan.Flagged, HeapFileScan.Future;
    hide Width, AllRecs, Acceptable, ScanBag, PagedFile.Valid, PagedFile.WellFormed, HeapFileScan.Positioned, Pick;
    var outerScan := OpenOuter(q, outer, inner, resultRel);
    status := RunOuter(q, outerScan, inner, resultRel);
    hide *;
    outerScan.Close();
  }

  /** Start the scan of the outer relation, which may be the inner one. */
  method OpenOuter(q: Query, outer: PagedFile, inner: PagedFile, resultRel: InsertFileScan) returns (outerScan: HeapFileScan)
    requires outer.Valid() && outer.WellFormed() && OuterOk(q, AllRecs(outer.View())) && resultRel.Ok()
    requires InnerReady(q, inner, resultRel) && (outer == inner || Separate(outer, inner))
    requires Separate(outer, resultRel.file) && resultRel !in outer.Repr
    modifies outer`pins
    ensures fresh(outerScan) && outerScan.file == outer && Ready(q, outerScan, inner, resultRel)
    ensures outerScan.Pending() == AllRecs(outer.View())
    ensures outerScan.Others() == old(outer.pins) && (old(outer.unsaved) == {} ==> outerScan.Flagged())
  {
    hide InsertFileScan.Ok, PagedFile.View, OuterOk, InnerOk, HeapFileScan.At, HeapFileScan.Positioned, Pick, Match, AllRecs;
    hide HeapFileScan.Ok, HeapFileScan.Others, HeapFileScan.Flagged, HeapFileScan.Future, PagedFile.Valid, PagedFile.WellFormed;
    outer.NotOwn();
    outerScan := HeapFileScan.Open(outer);
    var status := outerScan.StartScan(0, 0, STRING, None, EQ);
    PickAll(AllRecs(outer.View()));
  }

  /** QU_NL_Join: the result relation gains exactly the projections of the pairs the inner scans return.  These are all
      pairs with outer.attr1 op inner.attr2, each as often as there are such pairs, unless the operator asks for more
      than equality and the difference of two INTEGER attributes overflows.  Neither source relation changes. */
  method QU_NL_Join(q: Query, outer: PagedFile, inner: PagedFile, result: PagedFile) returns (status: Status)
    requires outer.Valid() && outer.WellFormed() && inner.Valid() && inner.WellFormed() && result.Valid() && result.WellFormed()
    requires outer == inner || Separate(outer, inner)
    requires Separate(outer, result) && Separate(inner, result)
    requires OuterOk(q, AllRecs(outer.View())) && InnerOk(q, AllRecs(inner.View()))
    requires 1 <= Width(q.proj) <= MAXRECORD
    modifies outer`pins, outer`unsaved, inner`pins, inner`unsaved, result, result.Repr
    ensures outer.Valid() && outer.WellFormed() && inner.Valid() && inner.WellFormed() && result.Valid() && result.WellFormed()
    ensures fresh(result.Repr - old(result.Repr))
    ensures outer.View() == old(outer.View()) && inner.View() == old(inner.View())
    ensures status == if q.attr1.attrType != q.attr2.attrType || q.attr1.length != q.attr2.length then ATTRTYPEMISMATCH
      else if Joinable(q) || AllRecs(outer.View()) == [] then OK else BADSCANPARM
    ensures status == BADSCANPARM ==>
      q.attr2.length < 1 || ((q.attr2.attrType == INTEGER || q.attr2.attrType == FLOAT) && q.attr2.length != 4)
    ensures status == OK && AllRecs(outer.View()) != [] ==>
      q.attr2.length >= 1 && (q.attr2.attrType == INTEGER || q.attr2.attrType == FLOAT ==> q.attr2.length == 4)
    ensures Bag(result.View()) == old(Bag(result.View())) + ScanBag(q, AllRecs(outer.View()), AllRecs(inner.View()))
    ensures AllDecided(q, AllRecs(outer.View()), AllRecs(inner.View())) ==>
      Bag(result.View()) == old(Bag(result.View())) + JoinBag(q, AllRecs(outer.View()), AllRecs(inner.View()))
    ensures outer.pins == old(outer.pins) && inner.pins == old(inner.pins) && result.pins == old(result.pins)
    ensures old(outer.unsaved) == {} ==> outer.unsaved == {}
    ensures old(inner.unsaved) == {} ==> inner.unsaved == {}
    ensures old(result.unsaved) == {} ==> result.unsaved == {}
  {
    hide InsertFileScan.Ok, InsertFileScan.Others, InsertFileScan.Flagged, PagedFile.View, Bag, OuterOk, InnerOk;
    hide HeapFileScan.Ok, HeapFileScan.Others, HeapFileScan.Flagged, HeapFileScan.Future;
    hide Width, AllRecs, ScanBag, JoinBag, AllDecided, PagedFile.Valid, PagedFile.WellFormed, HeapFileScan.Positioned, Pick;
    ScanBagIsJoin(q, AllRecs(outer.View()), AllRecs(inner.View()));
    ScanBagEnd(q, AllRecs(outer.View()), AllRecs(inner.View()));
    if q.attr1.attrType != q.attr2.attrType || q.attr1.length != q.attr2.length {
      return ATTRTYPEMISMATCH;
    }
    var resultRel := InsertFileScan.Open(result);
    status := JoinOpened(q, outer, inner, resultRel);
    resultRel.Close();
  }
}
