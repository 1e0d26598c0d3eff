/** Scan predicates: how an attribute of a record compares with a search value. */
module ScanFilter {
  import opened Bytes

  datatype Datatype = STRING | INTEGER | FLOAT

  datatype Operator = LT | LTE | EQ | GTE | GT | NE

  /** The sign of the difference of two attribute values; a difference that is not a number has none. */
  datatype Ordering = Less | Equal | Greater | Unordered

  function CompareInt(a: int, b: int): Ordering {
    if a < b then Less else if a == b then Equal else Greater
  }

  /** A 32-bit difference, as it wraps around. */
  function Wrap32(x: int): int {
    (x + 0x8000_0000) % 0x1_0000_0000 - 0x8000_0000
  }

  predicate IsInt32(x: int) {
    -0x8000_0000 <= x < 0x8000_0000
  }

  /** The code subtracts two 32-bit integers and looks at the sign: that is their order exactly when the
      difference fits in 32 bits. */
  lemma DifferenceSign(a: int, b: int)
    requires IsInt32(a) && IsInt32(b)
    ensures CompareInt(Wrap32(a - b), 0) == CompareInt(a, b) <==> IsInt32(a - b)
  {
    if a - b >= 0x8000_0000 {
      assert Wrap32(a - b) == a - b - 0x1_0000_0000;
    } else if a - b < -0x8000_0000 {
      assert Wrap32(a - b) == a - b + 0x1_0000_0000;
    } else {
      assert Wrap32(a - b) == a - b;
    }
  }

  datatype Float = NaN | Infinity(negative: bool) | Finite(r: real)

  function Scale(m: real, e: int): real
    decreases if e < 0 then -e else e
  {
    if e == 0 then m else if e > 0 then Scale(m * 2.0, e - 1) else Scale(m / 2.0, e + 1)
  }

  /** The IEEE 754 single-precision number in the first four bytes of b. */
  function FloatOf(b: bytes): Float
    requires |b| >= 4
  {
    var u := Int32(b) % 0x1_0000_0000;
    var negative := u >= 0x8000_0000;
    var exponent := (u / 0x80_0000) % 256;
    var mantissa := u % 0x80_0000;
    if exponent == 255 then
      (if mantissa == 0 then Infinity(negative) else NaN)
    else
      var magnitude := if exponent == 0 then Scale(mantissa as real, -149)
                       else Scale((0x80_0000 + mantissa) as real, exponent - 150);
      Finite(if negative then -magnitude else magnitude)
  }

  function Pow2(n: nat): (p: nat)
    ensures p > 0
  {
    if n == 0 then 1 else 2 * Pow2(n - 1)
  }

  lemma {:induction false} Pow2Sum(a: nat, b: nat)
    ensures Pow2(a + b) == Pow2(a) * Pow2(b)
  {
    if a > 0 {
      Pow2Sum(a - 1, b);
    }
  }

  lemma {:induction false} ScaleUp(m: real, e: nat)
    ensures Scale(m, e) == m * Pow2(e) as real
    decreases e
  {
    if e > 0 {
      ScaleUp(m * 2.0, e - 1);
    }
  }

  lemma {:induction false} ScaleDown(m: real, j: nat)
    ensures Scale(m, 0 - j) * Pow2(j) as real == m
    decreases j
  {
    if j > 0 {
      ScaleDown(m / 2.0, j - 1);
      assert Scale(m, 0 - j) == Scale(m / 2.0, 0 - (j - 1));
    }
  }

  lemma Product(a: nat, b: nat, s: real, m: real)
    ensures (a * b) as real == a as real * b as real
    ensures (s * a as real) * b as real == s * (a * b) as real
  {
    var p, q := a as real, b as real;
    assert (a * b) as real == p * q;
    assert (s * p) * q == s * (p * q);
  }

  /** Scaling in units of the smallest positive number. */
  lemma ScaleUnits(m: real, k: nat)
    ensures Scale(m, k - 149) * Pow2(149) as real == m * Pow2(k) as real
  {
    hide Scale, Pow2;
    if k <= 149 {
      ScaleDown(m, 149 - k);
      Pow2Sum(149 - k, k);
      Product(Pow2(149 - k), Pow2(k), Scale(m, k - 149), m);
    } else {
      ScaleUp(m, k - 149);
      Pow2Sum(k - 149, 149);
      Product(Pow2(k - 149), Pow2(149), m, m);
    }
  }

  /** A number in units of two to the power of -149. */
  function Units(r: real): real {
    r * Pow2(149) as real
  }

  /** The size of a number in these units, from its exponent and mantissa. */
  function Size(exponent: nat, mantissa: nat): real {
    if exponent == 0 then mantissa as real else (0x80_0000 + mantissa) as real * Pow2(exponent - 1) as real
  }

  lemma MagnitudeUnits(exponent: nat, mantissa: nat)
    ensures var magnitude := if exponent == 0 then Scale(mantissa as real, -149)
                             else Scale((0x80_0000 + mantissa) as real, exponent - 150);
      Units(magnitude) == Size(exponent, mantissa) && Units(-magnitude) == -Size(exponent, mantissa)
  {
    assert Pow2(0) == 1;
    hide Scale, Pow2, Units;
    if exponent == 0 {
      UnitsOf(mantissa as real, 0);
    } else {
      UnitsOf((0x80_0000 + mantissa) as real, exponent - 1);
    }
  }

  lemma UnitsOf(m: real, k: nat)
    ensures Units(Scale(m, k - 149)) == m * Pow2(k) as real && Units(-Scale(m, k - 149)) == -(m * Pow2(k) as real)
  {
    hide Scale, Pow2;
    ScaleUnits(m, k);
    Negated(Scale(m, k - 149), Pow2(149) as real);
  }

  lemma Negated(x: real, y: real)
    ensures (-x) * y == -(x * y)
  {
  }

  /** The number four bytes stand for: the sign is the top bit, the exponent the next eight, the mantissa the other 23, with
      a leading one unless the exponent is zero; the highest exponent is that of infinities and NaN. */
  lemma FloatFields(b: bytes)
    requires |b| >= 4
    ensures var b0: int, b1: int, b2: int, b3: int := b[0], b[1], b[2], b[3];
      var exponent, mantissa := b3 % 0x80 * 2 + b2 / 0x80, b2 % 0x80 * 0x1_0000 + b1 * 0x100 + b0;
      && (FloatOf(b) == NaN <==> exponent == 255 && mantissa != 0)
      && (FloatOf(b).Infinity? <==> exponent == 255 && mantissa == 0)
      && (FloatOf(b).Infinity? ==> (FloatOf(b).negative <==> b3 >= 0x80))
      && (FloatOf(b).Finite? ==>
          Units(FloatOf(b).r) == if b3 >= 0x80 then -Size(exponent, mantissa) else Size(exponent, mantissa))
  {
    var b0: int, b1: int, b2: int, b3: int := b[0], b[1], b[2], b[3];
    var exponent, mantissa := b3 % 0x80 * 2 + b2 / 0x80, b2 % 0x80 * 0x1_0000 + b1 * 0x100 + b0;
    hide Int32, Scale, Units, Size;
    FloatBits(b);
    MagnitudeUnits(exponent, mantissa);
  }

  lemma FloatBits(b: bytes)
    requires |b| >= 4
    ensures var b0: int, b1: int, b2: int, b3: int := b[0], b[1], b[2], b[3];
      var u := Int32(b) % 0x1_0000_0000;
      && (u >= 0x8000_0000 <==> b3 >= 0x80)
      && u / 0x80_0000 % 256 == b3 % 0x80 * 2 + b2 / 0x80
      && u % 0x80_0000 == b2 % 0x80 * 0x1_0000 + b1 * 0x100 + b0
  {
    var b0: int, b1: int, b2: int, b3: int := b[0], b[1], b[2], b[3];
    var low, high := b2 % 0x80 * 0x1_0000 + b1 * 0x100 + b0, b3 * 2 + b2 / 0x80;
    assert Int32(b) % 0x1_0000_0000 == b0 + 0x100 * b1 + 0x1_0000 * b2 + 0x100_0000 * b3;
    hide Int32;
    assert b2 == b2 % 0x80 + 0x80 * (b2 / 0x80);
    Parts(Int32(b) % 0x1_0000_0000, low, high);
    assert high % 256 == b3 % 0x80 * 2 + b2 / 0x80;
  }

  lemma Parts(u: int, low: nat, high: nat)
    requires u == low + 0x80_0000 * high && low < 0x80_0000
    ensures u % 0x80_0000 == low && u / 0x80_0000 == high
  {
  }

  /** The sign of x - y in floating point: two equal infinities have no difference. */
  function CompareFloat(x: Float, y: Float): Ordering {
    match (x, y)
    case (NaN, _) => Unordered
    case (_, NaN) => Unordered
    case (Infinity(s), Infinity(t)) => if s == t then Unordered else if s then Less else Greater
    case (Infinity(s), Finite(_)) => if s then Less else Greater
    case (Finite(_), Infinity(t)) => if t then Greater else Less
    case (Finite(r), Finite(q)) => if r < q then Less else if r == q then Equal else Greater
  }

  /** Byte i of a C string: past its end there is a zero byte. */
  function CharAt(s: bytes, i: nat): (c: byte)
    ensures i < |s| ==> c == s[i]
    ensures i >= |s| ==> c == 0
  {
    if i < |s| then s[i] else 0
  }

  /** strncmp from position i on: at most n positions count, and a common zero byte ends both strings. */
  function CompareString(s: bytes, t: bytes, i: nat, n: nat): Ordering
    requires i <= n
    decreases n - i
  {
    if i == n then Equal
    else if CharAt(s, i) != CharAt(t, i) then CompareInt(CharAt(s, i), CharAt(t, i))
    else if CharAt(s, i) == 0 then Equal
    else CompareString(s, t, i + 1, n)
  }

  predicate Wide(t: Datatype, a: bytes) {
    t.STRING? || |a| >= 4
  }

  /** The comparison the code makes: the sign of the difference of the two attribute values. */
  function Compare(t: Datatype, a: bytes, b: bytes, n: nat): Ordering
    requires Wide(t, a) && Wide(t, b)
  {
    match t
    case INTEGER => CompareInt(Wrap32(Int32(a) - Int32(b)), 0)
    case FLOAT => CompareFloat(FloatOf(a), FloatOf(b))
    case STRING => CompareString(a, b, 0, n)
  }

  /** How the two attribute values compare as values of their type. */
  function Order(t: Datatype, a: bytes, b: bytes, n: nat): Ordering
    requires Wide(t, a) && Wide(t, b)
  {
    if t.INTEGER? then CompareInt(Int32(a), Int32(b)) else Compare(t, a, b, n)
  }

  /** The difference of two INTEGER values fits in 32 bits. */
  predicate Exact(t: Datatype, a: bytes, b: bytes)
    requires Wide(t, a) && Wide(t, b)
  {
    t.INTEGER? ==> IsInt32(Int32(a) - Int32(b))
  }

  /** The code's comparison is the order of the values exactly when their difference fits. */
  lemma CompareIsOrder(t: Datatype, a: bytes, b: bytes, n: nat)
    requires Wide(t, a) && Wide(t, b)
    ensures Compare(t, a, b, n) == Order(t, a, b, n) <==> Exact(t, a, b)
    ensures Compare(t, a, b, n) == Equal <==> Order(t, a, b, n) == Equal
  {
    if t.INTEGER? {
      DifferenceSign(Int32(a), Int32(b));
    }
  }

  /** The operators that only ask whether the values are equal. */
  predicate AsksEqual(op: Operator) {
    op == EQ || op == NE
  }

  /** An operator holds of the code's comparison as it does of the order, exactly when the difference fits or only
      equality is asked for. */
  lemma HoldsOfOrder(op: Operator, t: Datatype, a: bytes, b: bytes, n: nat)
    requires Wide(t, a) && Wide(t, b)
    ensures Holds(op, Compare(t, a, b, n)) == Holds(op, Order(t, a, b, n)) <==> AsksEqual(op) || Exact(t, a, b)
  {
    CompareIsOrder(t, a, b, n);
  }

  function Holds(op: Operator, o: Ordering): bool {
    match op
    case LT => o == Less
    case LTE => o == Less || o == Equal
    case EQ => o == Equal
    case GTE => o == Greater || o == Equal
    case GT => o == Greater
    case NE => o != Equal
  }

  datatype Filter = NoFilter | Attribute(offset: int, length: int, attrType: Datatype, value: bytes, op: Operator)

  /** The parameters startScan accepts. */
  predicate Acceptable(offset: int, length: int, t: Datatype) {
    offset >= 0 && length >= 1 && (t.INTEGER? || t.FLOAT? ==> length == 4)
  }

  type ScanFilter = f: Filter | f.Attribute? ==> Acceptable(f.offset, f.length, f.attrType) && Wide(f.attrType, f.value)
    witness NoFilter

  /** Does a record satisfy the scan predicate?  A record too short to hold the attribute does not. */
  predicate Match(f: ScanFilter, rec: bytes) {
    f.Attribute? ==>
      f.offset + f.length - 1 < |rec| &&
      Holds(f.op, Compare(f.attrType, rec[f.offset..f.offset + f.length], f.value, f.length))
  }

  /** Does a record satisfy the scan predicate as the order of values has it? */
  predicate Satisfies(f: ScanFilter, rec: bytes) {
    f.Attribute? ==>
      f.offset + f.length - 1 < |rec| &&
      Holds(f.op, Order(f.attrType, rec[f.offset..f.offset + f.length], f.value, f.length))
  }

  /** The record is too short for its attribute, only equality is asked for, or the difference fits. */
  predicate Decided(f: ScanFilter, rec: bytes) {
    f.Attribute? && f.offset + f.length - 1 < |rec| ==>
      AsksEqual(f.op) || Exact(f.attrType, rec[f.offset..f.offset + f.length], f.value)
  }

  /** When does matchRec accept exactly the records that satisfy the predicate? */
  lemma MatchMeans(f: ScanFilter, rec: bytes)
    ensures Match(f, rec) == Satisfies(f, rec) <==> Decided(f, rec)
  {
    if f.Attribute? && f.offset + f.length - 1 < |rec| {
      HoldsOfOrder(f.op, f.attrType, rec[f.offset..f.offset + f.length], f.value, f.length);
    }
  }

  // ---- what the comparisons mean ----

  /** Both strings have the same non-zero bytes from position i up to p. */
  predicate Common(s: bytes, t: bytes, i: nat, p: nat) {
    forall m :: i <= m < p ==> CharAt(s, m) == CharAt(t, m) && CharAt(s, m) != 0
  }

  /** p is the first position from i on, and before n, where the strings differ; neither has ended before it. */
  predicate FirstDifference(s: bytes, t: bytes, i: nat, p: nat, n: nat) {
    i <= p < n && Common(s, t, i, p) && CharAt(s, p) != CharAt(t, p)
  }

  /** Among the first n characters s comes before t. */
  ghost predicate Before(s: bytes, t: bytes, n: nat) {
    exists p: nat :: FirstDifference(s, t, 0, p, n) && CharAt(s, p) < CharAt(t, p)
  }

  /** Among the first n characters the strings agree on every position up to and including the first zero byte. */
  ghost predicate SameString(s: bytes, t: bytes, n: nat) {
    forall p: nat :: p < n && (forall m: nat :: m < p ==> CharAt(s, m) != 0) ==> CharAt(s, p) == CharAt(t, p)
  }

  lemma {:induction false} CompareStringFrom(s: bytes, t: bytes, i: nat, n: nat) returns (p: nat)
    requires i <= n
    ensures var o := CompareString(s, t, i, n);
      && o != Unordered
      && (o == Equal ==> forall q: nat :: !FirstDifference(s, t, i, q, n))
      && (o != Equal ==> FirstDifference(s, t, i, p, n))
      && (o == Less ==> CharAt(s, p) < CharAt(t, p)) && (o == Greater ==> CharAt(s, p) > CharAt(t, p))
    decreases n - i
  {
    p := i;
    if i < n && CharAt(s, i) == CharAt(t, i) != 0 {
      p := CompareStringFrom(s, t, i + 1, n);
      forall q: nat | FirstDifference(s, t, i, q, n)
        ensures FirstDifference(s, t, i + 1, q, n)
      {
      }
    }
  }

  lemma OneFirstDifference(s: bytes, t: bytes, p: nat, q: nat, n: nat)
    requires FirstDifference(s, t, 0, p, n) && (FirstDifference(s, t, 0, q, n) || FirstDifference(t, s, 0, q, n))
    ensures p == q
  {
  }

  /** strncmp finds two strings equal if and only if they agree up to the first zero byte or the n-th character, and otherwise
      in the order of the first characters that differ. */
  lemma CompareStringIs(s: bytes, t: bytes, n: nat)
    ensures CompareString(s, t, 0, n) == Equal <==> SameString(s, t, n)
    ensures CompareString(s, t, 0, n) == Less <==> Before(s, t, n)
    ensures CompareString(s, t, 0, n) == Greater <==> Before(t, s, n)
    ensures CompareString(s, t, 0, n) != Unordered
  {
    var p := CompareStringFrom(s, t, 0, n);
    if CompareString(s, t, 0, n) == Equal {
      forall q: nat | q < n && forall m: nat :: m < q ==> CharAt(s, m) != 0
        ensures CharAt(s, q) == CharAt(t, q)
      {
        SameSoFar(s, t, q, n);
      }
    } else {
      assert FirstDifference(t, s, 0, p, n);
      forall q: nat | FirstDifference(s, t, 0, q, n) || FirstDifference(t, s, 0, q, n)
        ensures p == q
      {
        OneFirstDifference(s, t, p, q, n);
      }
    }
  }

  lemma {:induction false} SameSoFar(s: bytes, t: bytes, q: nat, n: nat)
    requires q < n && (forall m: nat :: m < q ==> CharAt(s, m) != 0)
    requires forall p: nat :: !FirstDifference(s, t, 0, p, n)
    ensures Common(s, t, 0, q) && CharAt(s, q) == CharAt(t, q)
  {
    if q > 0 {
      SameSoFar(s, t, q - 1, n);
    }
    assert !FirstDifference(s, t, 0, q, n);
  }

  /** Without a filter every record is accepted; a record that ends before its attribute does is not. */
  lemma MatchAny(f: ScanFilter, rec: bytes)
    ensures f == NoFilter ==> Match(f, rec)
    ensures f.Attribute? && f.offset + f.length > |rec| ==> !Match(f, rec)
  {
  }

  /** An INTEGER attribute whose difference to the filter value fits in 32 bits. */
  lemma MatchInteger(f: ScanFilter, rec: bytes)
    requires f.Attribute? && f.attrType == INTEGER && f.offset + f.length <= |rec|
    requires var x, v := Int32(rec[f.offset..f.offset + f.length]), Int32(f.value); -0x8000_0000 <= x - v < 0x8000_0000
    ensures var x, v := Int32(rec[f.offset..f.offset + f.length]), Int32(f.value);
      && (f.op == LT ==> (Match(f, rec) <==> x < v)) && (f.op == LTE ==> (Match(f, rec) <==> x <= v))
      && (f.op == EQ ==> (Match(f, rec) <==> x == v)) && (f.op == NE ==> (Match(f, rec) <==> x != v))
      && (f.op == GTE ==> (Match(f, rec) <==> x >= v)) && (f.op == GT ==> (Match(f, rec) <==> x > v))
  {
    var d := Int32(rec[f.offset..f.offset + f.length]) - Int32(f.value);
    assert Wrap32(d) == d;
  }

  /** When the difference does not fit, the order comes out the wrong way round. */
  lemma MatchOverflow(f: ScanFilter, rec: bytes)
    requires f.Attribute? && f.attrType == INTEGER && f.offset + f.length <= |rec|
    requires var x, v := Int32(rec[f.offset..f.offset + f.length]), Int32(f.value); x - v < -0x8000_0000 || x - v >= 0x8000_0000
    ensures var x, v := Int32(rec[f.offset..f.offset + f.length]), Int32(f.value);
      && (f.op == LT || f.op == LTE ==> (Match(f, rec) <==> x > v))
      && (f.op == GT || f.op == GTE ==> (Match(f, rec) <==> x < v))
      && (f.op == EQ ==> !Match(f, rec)) && (f.op == NE ==> Match(f, rec))
  {
    var d := Int32(rec[f.offset..f.offset + f.length]) - Int32(f.value);
    assert Wrap32(d) == if d < 0 then d + 0x1_0000_0000 else d - 0x1_0000_0000;
  }

  /** A FLOAT attribute: numbers compare as reals, infinities lie outside all of them, and when the difference is not a
      number only NE holds. */
  lemma MatchFloat(f: ScanFilter, rec: bytes)
    requires f.Attribute? && f.attrType == FLOAT && f.offset + f.length <= |rec|
    ensures var x, v := FloatOf(rec[f.offset..f.offset + f.length]), FloatOf(f.value);
      && (x.Finite? && v.Finite? ==>
          && (f.op == LT ==> (Match(f, rec) <==> x.r < v.r)) && (f.op == LTE ==> (Match(f, rec) <==> x.r <= v.r))
          && (f.op == EQ ==> (Match(f, rec) <==> x.r == v.r)) && (f.op == NE ==> (Match(f, rec) <==> x.r != v.r))
          && (f.op == GTE ==> (Match(f, rec) <==> x.r >= v.r)) && (f.op == GT ==> (Match(f, rec) <==> x.r > v.r)))
      && (x.NaN? || v.NaN? || (x.Infinity? && v == x) ==> (Match(f, rec) <==> f.op == NE))
      && (!x.NaN? && !v.NaN? && x != v && (x == Infinity(true) || v == Infinity(false)) ==>
          (Match(f, rec) <==> f.op == LT || f.op == LTE || f.op == NE))
      && (!x.NaN? && !v.NaN? && x != v && (x == Infinity(false) || v == Infinity(true)) ==>
          (Match(f, rec) <==> f.op == GT || f.op == GTE || f.op == NE))
  {
    hide FloatOf;
  }

  /** A STRING attribute. */
  lemma MatchString(f: ScanFilter, rec: bytes)
    requires f.Attribute? && f.attrType == STRING && f.offset + f.length <= |rec|
    ensures var x, v, n := rec[f.offset..f.offset + f.length], f.value, f.length;
      && (f.op == LT ==> (Match(f, rec) <==> Before(x, v, n))) && (f.op == GT ==> (Match(f, rec) <==> Before(v, x, n)))
      && (f.op == LTE ==> (Match(f, rec) <==> !Before(v, x, n))) && (f.op == GTE ==> (Match(f, rec) <==> !Before(x, v, n)))
      && (f.op == EQ ==> (Match(f, rec) <==> SameString(x, v, n))) && (f.op == NE ==> (Match(f, rec) <==> !SameString(x, v, n)))
  {
    CompareStringIs(rec[f.offset..f.offset + f.length], f.value, f.length);
    hide CompareString, Before, SameString;
  }

  // ---- swapping the sides of a comparison ----

  function Swap(o: Ordering): Ordering {
    match o
    case Less => Greater
    case Greater => Less
    case Equal => Equal
    case Unordered => Unordered
  }

  lemma {:induction false} CompareStringSwap(s: bytes, t: bytes, i: nat, n: nat)
    requires i <= n
    ensures CompareString(s, t, i, n) == Swap(CompareString(t, s, i, n))
    decreases n - i
  {
    if i < n && CharAt(s, i) == CharAt(t, i) != 0 {
      CompareStringSwap(s, t, i + 1, n);
    }
  }

  lemma OrderSwap(t: Datatype, a: bytes, b: bytes, n: nat)
    requires Wide(t, a) && Wide(t, b)
    ensures Order(t, a, b, n) == Swap(Order(t, b, a, n))
  {
    if t.STRING? {
      CompareStringSwap(a, b, 0, n);
    }
  }
}
