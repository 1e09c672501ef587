/** Long division of multi-precision integers (Knuth's algorithm D with the
    divisor's top limb at least a quarter of the base). */
module Division {
  import opened Powers
  import opened Limbs
  import opened Mpi
  import opened Bits
  import opened LimbDivision

  /** Division truncating towards zero, as C defines it. */
  function TruncDiv(a: int, b: int): int
    requires b != 0
  {
    if (a < 0) == (b < 0) then AbsOf(a) / AbsOf(b) else 0 - AbsOf(a) / AbsOf(b)
  }

  /** The remainder that takes the sign of the dividend. */
  function TruncRem(a: int, b: int): int
    requires b != 0
  {
    if a < 0 then 0 - AbsOf(a) % AbsOf(b) else AbsOf(a) % AbsOf(b)
  }

  function AbsOf(x: int): nat {
    if x < 0 then -x else x
  }

  /** What makes q and r the quotient and remainder of a by b: nothing else does. */
  lemma TruncUnique(a: int, b: int, q: int, r: int)
    requires b != 0
    ensures q == TruncDiv(a, b) && r == TruncRem(a, b)
       <==> a == q * b + r && AbsOf(r) < AbsOf(b) && (r != 0 ==> (r < 0) == (a < 0))
  {
    var m, n := AbsOf(a), AbsOf(b);
    DivBounds(m, n);
    assert a == TruncDiv(a, b) * b + TruncRem(a, b);
    if a == q * b + r && AbsOf(r) < n && (r != 0 ==> (r < 0) == (a < 0)) {
      TruncOnly(a, b, q, r);
    }
  }

  lemma TruncOnly(a: int, b: int, q: int, r: int)
    requires b != 0 && a == q * b + r && AbsOf(r) < AbsOf(b) && (r != 0 ==> (r < 0) == (a < 0))
    ensures q == TruncDiv(a, b) && r == TruncRem(a, b)
  {
    var q' := if (a < 0) == (b < 0) then q else -q;
    MulSigns(q, b);
    if a < 0 {
      DivModUnique(-a, AbsOf(b), q', -r);
    } else {
      DivModUnique(a, AbsOf(b), q', r);
    }
  }

  lemma MulSigns(x: int, y: int)
    ensures (-x) * y == -(x * y) && x * (-y) == -(x * y) && (-x) * (-y) == x * y
  {}

  // ----- the trial quotient digit -----

  /** y and x are known by their top two and top three limbs (z and w, in units
      of u after scaling by m). If q * z exceeds w then q is too large. */
  lemma TestSound(m: int, q: int, y: int, x: int, z: int, w: int, u: int)
    requires m > 0 && u > 0 && q >= 0
    requires z * u <= m * y && m * x < (w + 1) * u
    requires q * z > w
    ensures q * y > x
  {
    MulGe(w + 1, q * z, u);
    MulGe(z * u, m * y, q);
    assert (q * z) * u == (z * u) * q && (m * y) * q == m * (q * y);
    if q * y <= x { MulGe(q * y, x, m); assert false; }
  }

  /** If the test passes, q is at most one too large. */
  lemma TestClose(m: int, q: int, y: int, x: int, z: int, w: int, u: int, b: int)
    requires m > 0 && u > 0 && 0 <= q < b && b <= z
    requires z * u <= m * y < (z + 1) * u && w * u <= m * x
    requires q * z <= w
    ensures q * y - x < y
  {
    TestProduct(m * y, q, m * x, z, w, u);
    MulAssoc(m, y, q);
    MulComm(y, q);
    Distribute(m, x, y);
    MulComm(m, q * y);
    MulComm(m, x + y);
    CancelBelow(q * y, x + y, m);
  }

  lemma TestProduct(y: int, q: int, x: int, z: int, w: int, u: int)
    requires u > 0 && 0 <= q < z && z * u <= y < (z + 1) * u && w * u <= x && q * z <= w
    ensures y * q < x + y
  {
    MulGe(y, (z + 1) * u, q);
    assert ((z + 1) * u) * q == (q * z) * u + q * u;
    MulGe(q * z, w, u);
    MulGt(q, z, u);
  }

  /** The top-limb estimate is never too small. */
  lemma EstimateHigh(x: int, y: int, w: int, z: int, u: int, q: int)
    requires u > 0 && z > 0 && w >= 0 && x < (w + 1) * u && z * u <= y && q == w / z
    ensures x < (q + 1) * y
  {
    DivBounds(w, z);
    assert w + 1 <= (q + 1) * z by { assert z * (q + 1) == z * q + z; }
    MulGe(w + 1, (q + 1) * z, u);
    MulGe(z * u, y, q + 1);
    assert ((q + 1) * z) * u == (z * u) * (q + 1);
  }

  /** The top two limbs of the divisor, as the source reads them. */
  function Top2(p: seq<Limb>, t: nat): nat
    requires t < |p|
  {
    Val([if t < 1 then 0 else p[t - 1], p[t]])
  }

  /** The top three limbs of the running remainder, as the source reads them. */
  function Top3(p: seq<Limb>, i: nat): nat
    requires 1 <= i < |p|
  {
    Val([if i < 2 then 0 else p[i - 2], p[i - 1], p[i]])
  }

  /** Val(p), cut at limb k, lies within one unit of its upper part. */
  lemma UpperPart(p: seq<Limb>, k: nat, hi: seq<Limb>)
    requires k + |hi| <= |p| && p[k..k + |hi|] == hi
    requires forall j :: k + |hi| <= j < |p| ==> p[j] == 0
    ensures Val(hi) * BPow(k) <= Val(p) < (Val(hi) + 1) * BPow(k)
  {
    hide Val;
    var q := p[..k + |hi|];
    ValHighZeros(p, k + |hi|);
    ValSplit(q, k);
    assert q[..k] == p[..k] && q[k..] == hi;
    ValBound(p[..k]);
    Distribute(BPow(k), Val(hi), 1);
    MulComm(BPow(k), Val(hi));
  }

  /** The scale m and unit u in which Top3 at i measures the remainder. */
  function Scale(i: nat): (m: nat)
    ensures m > 0
  {
    if i < 2 then Base() else 1
  }

  function Unit(i: nat): (u: nat)
    ensures u > 0
  {
    if i < 2 then 1 else BPow(i - 2)
  }

  lemma Top3View(p: seq<Limb>, i: nat)
    requires 1 <= i < |p| && (forall j :: i < j < |p| ==> p[j] == 0)
    ensures Top3(p, i) * Unit(i) <= Scale(i) * Val(p) < (Top3(p, i) + 1) * Unit(i)
  {
    hide Val, Base;
    if i >= 2 {
      UpperPart(p, i - 2, [p[i - 2], p[i - 1], p[i]]);
    } else {
      WholeValue(p, [p[0], p[1]]);
      ShiftInZero([p[0], p[1]], [0, p[0], p[1]]);
      BetweenUnits(Base() * Val(p));
    }
  }

  lemma ShiftInZero(p: seq<Limb>, q: seq<Limb>)
    requires q == [0] + p
    ensures Val(q) == Base() * Val(p)
  {
    assert q[1..] == p;
  }

  lemma BetweenUnits(x: int)
    ensures x * 1 <= x < (x + 1) * 1
  {}

  lemma WholeValue(p: seq<Limb>, hi: seq<Limb>)
    requires |hi| <= |p| && p[..|hi|] == hi && (forall j :: |hi| <= j < |p| ==> p[j] == 0)
    ensures Val(p) == Val(hi)
  {
    ValHighZeros(p, |hi|);
  }

  lemma Top2View(p: seq<Limb>, t: nat, i: nat, y: nat)
    requires t < |p| && t < i && (forall j :: t < j < |p| ==> p[j] == 0)
    requires y == Val(p) * BPow(i - t - 1)
    ensures Top2(p, t) * Unit(i) <= Scale(i) * y < (Top2(p, t) + 1) * Unit(i)
  {
    hide Base;
    if t >= 1 {
      Top2Tall(p, t, i, y);
    } else {
      WholeValue(p, [p[0]]);
      ValOne(p[0]);
      assert [0, p[0]][1..] == [p[0]];
      if i >= 2 {
        BPowSucc(i - 2);
        Top2Low(p[0], Base(), BPow(i - 2), y);
      } else {
        BetweenUnits(Base() * p[0]);
      }
    }
  }

  lemma Top2Tall(p: seq<Limb>, t: nat, i: nat, y: nat)
    requires 1 <= t < |p| && t < i && (forall j :: t < j < |p| ==> p[j] == 0)
    requires y == Val(p) * BPow(i - t - 1)
    ensures Top2(p, t) * BPow(i - 2) <= y < (Top2(p, t) + 1) * BPow(i - 2)
  {
    UpperPart(p, t - 1, [p[t - 1], p[t]]);
    BPowAdd(t - 1, i - t - 1);
    ScaleView(Val(p), Top2(p, t), BPow(t - 1), BPow(i - t - 1));
  }

  lemma Top2Low(x: int, b: int, u: int, y: int)
    requires u > 0 && y == x * (b * u)
    ensures (b * x) * u <= y < (b * x + 1) * u
  {
    assert x * (b * u) == (b * x) * u;
    Distribute(u, b * x, 1);
  }

  lemma ScaleView(y: int, z: int, w: int, e: int)
    requires e > 0 && z * w <= y < (z + 1) * w
    ensures z * (w * e) <= y * e < (z + 1) * (w * e)
  {
    MulGe(z * w, y, e);
    MulGt(y, (z + 1) * w, e);
    MulAssoc(z, w, e);
    MulAssoc(z + 1, w, e);
  }

  // ----- one quotient digit -----

  /** The divisor y has its top limb, a large one, at t. */
  ghost predicate Normal(y: seq<Limb>, t: nat) {
    t < |y| && 4 * y[t] >= Base() && forall j :: t < j < |y| ==> y[j] == 0
  }

  /** The remainder x is below the divisor moved up to start at limb i. */
  ghost predicate Reduced(x: seq<Limb>, y: seq<Limb>, i: nat, t: nat) {
    t <= i < |x| && Val(x) < Val(y) * BPow(i - t)
  }

  lemma NormalBounds(y: seq<Limb>, t: nat)
    requires Normal(y, t)
    ensures y[t] * BPow(t) <= Val(y) < BPow(t + 1) && Top2(y, t) >= Base() && y[t] > 0
  {
    WholeValue(y, y[..t + 1]);
    ValBound(y[..t + 1]);
    ValAtLeast(y, t);
    ValTwo(if t < 1 then 0 else y[t - 1], y[t]);
    MulGe(1, y[t], Base());
    MulComm(y[t], Base());
  }

  lemma ReducedHigh(x: seq<Limb>, y: seq<Limb>, i: nat, t: nat)
    requires Normal(y, t) && Reduced(x, y, i, t)
    ensures forall j :: i < j < |x| ==> x[j] == 0
    ensures Val(x) < BPow(i + 1)
  {
    NormalBounds(y, t);
    BPowAdd(t + 1, i - t);
    MulGe(Val(y), BPow(t + 1), BPow(i - t));
    ValLowBound(x, i + 1);
  }

  lemma LowLimbs(n: nat, a: Limb, b: Limb)
    requires n >= 2
    ensures Val(Zeros(n)[0 := a][1 := b]) == Val([a, b])
  {
    var z := Zeros(n)[0 := a][1 := b];
    assert z == [a, b] + Zeros(n - 2);
    ValPadded([a, b], n - 2);
  }

  lemma LowThreeLimbs(n: nat, a: Limb, b: Limb, c: Limb)
    requires n >= 3
    ensures Val(Zeros(n)[0 := a][1 := b][2 := c]) == Val([a, b, c])
  {
    var z := Zeros(n)[0 := a][1 := b][2 := c];
    assert z == [a, b, c] + Zeros(n - 3);
    ValPadded([a, b, c], n - 3);
  }

  /** The divisor's top two limbs. */
  method SetTop2(T1: Num, Y: Num, t: nat)
    requires Y != T1 && t < |Y.p| && |T1.p| >= 2
    modifies T1
    ensures T1.s == 1 && Val(T1.p) == Top2(Y.p, t) && |T1.p| == old(|T1.p|)
  {
    hide Base;
    Lset(T1, 0);
    LowLimbs(|T1.p|, if t < 1 then 0 else Y.p[t - 1], Y.p[t]);
    T1.p := T1.p[0 := if t < 1 then 0 else Y.p[t - 1]];
    T1.p := T1.p[1 := Y.p[t]];
  }

  /** Compares q times the divisor's top two limbs with the remainder's top three. */
  method TestDigit(X: Num, Y: Num, T1: Num, T2: Num, i: nat, t: nat, q: Limb) returns (c: int)
    requires X != T1 && X != T2 && Y != T1 && Y != T2 && T1 != T2
    requires 1 <= i < |X.p| && t < |Y.p| && |T1.p| >= 2 && |T2.p| >= 3
    modifies T1, T2
    ensures c == SignOf(q * Top2(Y.p, t) - Top3(X.p, i))
    ensures |T1.p| >= 2 && |T2.p| >= 3
  {
    hide Base;
    SetTop2(T1, Y, t);
    MulInt(T1, T1, q);
    Lset(T2, 0);
    LowThreeLimbs(|T2.p|, if i < 2 then 0 else X.p[i - 2], X.p[i - 1], X.p[i]);
    T2.p := T2.p[0 := if i < 2 then 0 else X.p[i - 2]];
    T2.p := T2.p[1 := if i < 1 then 0 else X.p[i - 1]];
    T2.p := T2.p[2 := X.p[i]];
    c := Cmp(T1, T2);
    MulComm(q, Top2(Y.p, t));
  }

  /** The estimate from the top limbs alone: not below the true digit. */
  method FirstEstimate(X: Num, Y: Num, i: nat, t: nat, ghost y: nat) returns (q: Limb)
    requires t < i && Normal(Y.p, t) && Reduced(X.p, Y.p, i, t)
    requires y == Val(Y.p) * BPow(i - t - 1)
    ensures Val(X.p) < (q + 1) * y
  {
    hide BPow, Base;
    ReducedHigh(X.p, Y.p, i, t);
    NormalBounds(Y.p, t);
    if X.p[i] >= Y.p[t] {
      q := Base() - 1;
      BPowSucc(i - t - 1);
      FullDigit(Val(Y.p), Base(), BPow(i - t - 1), y);
    } else {
      var r;
      q, r := IntDivInt(X.p[i], X.p[i - 1], Y.p[t]);
      UpperPart(X.p, i - 1, [X.p[i - 1], X.p[i]]);
      ValTwo(X.p[i - 1], X.p[i]);
      MulComm(Base(), X.p[i]);
      BPowAdd(t, i - t - 1);
      ScaleLow(Val(Y.p), Y.p[t], BPow(t), BPow(i - t - 1), y);
      EstimateHigh(Val(X.p), y, X.p[i] * Base() + X.p[i - 1], Y.p[t], BPow(i - 1), q);
    }
  }

  lemma FullDigit(v: int, b: int, w: int, y: int)
    requires y == v * w
    ensures v * (b * w) == (b - 1 + 1) * y
  {
    assert v * (b * w) == b * (v * w);
  }

  lemma ScaleLow(v: int, x: int, w: int, e: int, y: int)
    requires x * w <= v && e > 0 && y == v * e
    ensures x * (w * e) <= y
  {
    MulGe(x * w, v, e);
    MulAssoc(x, w, e);
  }

  /** Sets digit i - t - 1 of Z to the true quotient digit or one above it. */
  method TrialDigit(X: Num, Y: Num, Z: Num, T1: Num, T2: Num, i: nat, t: nat, ghost y: nat)
    requires X != T1 && X != T2 && Y != T1 && Y != T2 && T1 != T2
    requires Z != X && Z != Y && Z != T1 && Z != T2
    requires t < i && Normal(Y.p, t) && Reduced(X.p, Y.p, i, t) && i - t - 1 < |Z.p|
    requires |T1.p| >= 2 && |T2.p| >= 3 && y == Val(Y.p) * BPow(i - t - 1)
    modifies Z, T1, T2
    ensures Z.s == old(Z.s) && |Z.p| == old(|Z.p|)
    ensures Z.p == old(Z.p)[i - t - 1 := Z.p[i - t - 1]]
    ensures Val(X.p) < (Z.p[i - t - 1] + 1) * y && Z.p[i - t - 1] * y - Val(X.p) < y
    ensures |T1.p| >= 2 && |T2.p| >= 3
  {
    hide Val, BPow, Base;
    var k := i - t - 1;
    var q: Limb := FirstEstimate(X, Y, i, t, y);
    Z.p := Z.p[k := q];
    Z.p := Z.p[k := WrapAdd(Z.p[k], 1)];
    while true
      invariant |Z.p| == old(|Z.p|) && Z.s == old(Z.s) && Z.p[k] == WrapAdd(q, 1)
      invariant Z.p == old(Z.p)[k := Z.p[k]]
      invariant Val(X.p) < (q + 1) * y
      invariant |T1.p| >= 2 && |T2.p| >= 3
      decreases q
    {
      Z.p := Z.p[k := WrapSub(Z.p[k], 1)];
      var c := TestDigit(X, Y, T1, T2, i, t, Z.p[k]);
      TestVerdict(X.p, Y.p, i, t, y, q);
      if c <= 0 { break; }
      q := q - 1;
    }
  }

  /** What the three-by-two-limb test says about the digit q. */
  lemma TestVerdict(x: seq<Limb>, y: seq<Limb>, i: nat, t: nat, v: nat, q: Limb)
    requires t < i && Normal(y, t) && Reduced(x, y, i, t) && v == Val(y) * BPow(i - t - 1)
    ensures q * Top2(y, t) - Top3(x, i) > 0 ==> q >= 1 && Val(x) < (q - 1 + 1) * v
    ensures q * Top2(y, t) - Top3(x, i) <= 0 ==> q * v - Val(x) < v
  {
    TrialViews(x, y, i, t, v);
    if q * Top2(y, t) > Top3(x, i) {
      TestSound(Scale(i), q, v, Val(x), Top2(y, t), Top3(x, i), Unit(i));
      PositiveDigit(q, v, Val(x));
    } else {
      TestClose(Scale(i), q, v, Val(x), Top2(y, t), Top3(x, i), Unit(i), Base());
    }
  }

  lemma PositiveDigit(q: int, y: int, x: int)
    requires q >= 0 && q * y > x >= 0
    ensures q >= 1 && x < (q - 1 + 1) * y
  {}

  lemma TrialViews(x: seq<Limb>, y: seq<Limb>, i: nat, t: nat, v: nat)
    requires t < i && Normal(y, t) && Reduced(x, y, i, t) && v == Val(y) * BPow(i - t - 1)
    ensures Top3(x, i) * Unit(i) <= Scale(i) * Val(x) < (Top3(x, i) + 1) * Unit(i)
    ensures Top2(y, t) * Unit(i) <= Scale(i) * v < (Top2(y, t) + 1) * Unit(i)
    ensures Top2(y, t) >= Base()
  {
    ReducedHigh(x, y, i, t);
    NormalBounds(y, t);
    Top3View(x, i);
    Top2View(y, t, i, v);
  }

  /** Subtracts the trial digit times the divisor, and puts one divisor back if
      that was too much. */
  method ReduceDigit(X: Num, Y: Num, Z: Num, T1: Num, i: nat, t: nat, ghost y: nat)
    requires X != Y && X != Z && X != T1 && Y != Z && Y != T1 && Z != T1
    requires t < i && X.p != [] && Y.p != [] && i - t - 1 < |Z.p| && X.V() == X.Abs() && Y.s == 1
    requires y == Val(Y.p) * BPow(i - t - 1) && |T1.p| >= 2
    requires X.Abs() < (Z.p[i - t - 1] + 1) * y && Z.p[i - t - 1] * y - X.Abs() < y
    modifies X, Z, T1
    ensures X.V() == X.Abs() < y && |X.p| >= old(|X.p|) && |T1.p| >= 2
    ensures Z.s == old(Z.s) && |Z.p| == old(|Z.p|)
    ensures Z.p == old(Z.p)[i - t - 1 := Z.p[i - t - 1]]
    ensures X.Abs() + Z.p[i - t - 1] * y == old(X.Abs())
  {
    var k := i - t - 1;
    ghost var x, q := X.Abs(), Z.p[k];
    ShiftedMultiple(T1, Y, Z.p[k], k, y);
    Sub(X, X, T1);
    var c := CmpInt(X, 0);
    if c < 0 {
      ShiftedCopy(T1, Y, k, y);
      Add(X, X, T1);
      TooLargeByOne(q, y, x);
      Z.p := Z.p[k := WrapSub(Z.p[k], 1)];
    }
  }

  /** T = q * Y, moved up k limbs. */
  method ShiftedMultiple(T: Num, Y: Num, q: Limb, k: nat, ghost y: nat)
    requires T != Y && Y.s == 1 && |T.p| >= 2 && y == Val(Y.p) * BPow(k)
    modifies T
    ensures T.V() == q * y && |T.p| >= 2
  {
    hide BitsIn, Val;
    BPowBits(k);
    MulInt(T, Y, q);
    ShiftL(T, BitsIn(k));
    ScaledDigit(Val(Y.p), q, BPow(k), y);
    MulNonNeg(q, y);
    MulNonNeg(Val(Y.p), q);
  }

  /** T = Y, moved up k limbs. */
  method ShiftedCopy(T: Num, Y: Num, k: nat, ghost y: nat)
    requires T != Y && Y.s == 1 && Y.p != [] && |T.p| >= 2 && y == Val(Y.p) * BPow(k)
    modifies T
    ensures T.V() == y && |T.p| >= 2
  {
    BPowBits(k);
    Copy(T, Y);
    ShiftL(T, BitsIn(k));
  }

  lemma ScaledDigit(v: int, q: int, w: int, y: int)
    requires y == v * w
    ensures (v * q) * w == q * y
  {}

  lemma TooLargeByOne(q: int, y: int, x: int)
    requires q >= 0 && x >= 0 && x - q * y < 0
    ensures q >= 1 && (q - 1) * y == q * y - y
  {}

  // ----- the whole division -----

  /** The record has exactly the limbs its value needs. */
  ghost predicate Tight(p: seq<Limb>) {
    |p| == LimbsFor(BitCount(Val(p)))
  }

  lemma TopLimbTight(p: seq<Limb>)
    requires p != []
    ensures Val(p) > 0 && Tight(p) <==> p[|p| - 1] != 0
  {
    if p[|p| - 1] != 0 { TopLimbSet(p); } else if Val(p) > 0 { TopLimbClear(p); }
  }

  lemma TopLimbSet(p: seq<Limb>)
    requires p != [] && p[|p| - 1] != 0
    ensures Val(p) > 0 && Tight(p)
  {
    hide BitCount, BitsIn;
    var n, m := |p|, BitCount(Val(p));
    ValBound(p);
    BPowBits(n);
    BPowBits(n - 1);
    LimbsForLeast(m, n);
    LimbsForLeast(m, n - 1);
    ValAtLeast(p, n - 1);
    Pow2Strict(BitsIn(n - 1), m);
    Pow2Strict(m - 1, BitsIn(n));
  }

  lemma TopLimbClear(p: seq<Limb>)
    requires p != [] && p[|p| - 1] == 0 && Val(p) > 0
    ensures !Tight(p)
  {
    var n, m := |p|, BitCount(Val(p));
    BPowBits(n - 1);
    LimbsForLeast(m, n - 1);
    ValHighZeros(p, n - 1);
    ValBound(p[..n - 1]);
    Pow2Strict(m - 1, BitsIn(n - 1));
  }

  lemma BitCountShift(x: nat, k: nat, y: nat)
    requires x > 0 && y == x * Pow2(k)
    ensures y > 0 && BitCount(y) == BitCount(x) + k
  {
    var m := BitCount(x);
    assert m > 0;
    Pow2Add(m, k);
    Pow2Add(m - 1, k);
    ScaleBits(Pow2(m - 1), x, Pow2(m), Pow2(k), y);
    HasBitsUnique(y, m + k, BitCount(y));
  }

  lemma ScaleBits(lo: int, x: int, hi: int, w: int, y: int)
    requires 0 < lo <= x < hi && w > 0 && y == x * w
    ensures lo * w <= y < hi * w && y > 0
  {
    MulGe(lo, x, w);
    MulGt(x, hi, w);
    MulGt(0, lo, w);
  }

  lemma LimbsForMono(i: nat, j: nat)
    requires i <= j
    ensures LimbsFor(i) <= LimbsFor(j)
  {
    LimbsForLeast(j, LimbsFor(j));
    LimbsForLeast(i, LimbsFor(j));
  }

  /** A left shift keeps a tight record tight. */
  lemma ShiftTight(p: seq<Limb>, q: seq<Limb>, k: nat)
    requires Val(p) > 0 && Tight(p) && Val(q) == Val(p) * Pow2(k)
    requires |q| == Max(|p|, LimbsFor(BitCount(Val(p)) + k))
    ensures Val(q) > 0 && Tight(q)
  {
    hide LimbsFor, BitCount, Val;
    BitCountShift(Val(p), k, Val(q));
    LimbsForMono(BitCount(Val(p)), BitCount(Val(p)) + k);
  }

  /** With biL - 1 bits in the top limb, that limb is a quarter of the base or more. */
  lemma TopLimbLarge(p: seq<Limb>)
    requires Val(p) > 0 && Tight(p) && BitCount(Val(p)) % BIL == BIL - 1
    ensures p != [] && 4 * p[|p| - 1] >= Base()
  {
    var m := BitCount(Val(p));
    var t := m / BIL;
    DivBounds(m, BIL);
    TopLimbHighBits(p, t, m);
  }

  lemma TopLimbHighBits(p: seq<Limb>, t: nat, m: nat)
    requires |p| == t + 1 && m == BitsIn(t) + (BIL - 1) && HasBits(Val(p), m)
    ensures 4 * p[t] >= Base()
  {
    assert p[..t + 1] == p;
    ValSnoc(p, t);
    ValBound(p[..t]);
    BPowBits(t);
    Pow2Add(BitsIn(t), BIL - 2);
    BaseBits();
    assert Pow2(BIL) == 2 * Pow2(BIL - 1);
    TopQuarter(Val(p[..t]), p[t], BPow(t), Pow2(BIL - 2));
  }

  lemma TopQuarter(v: int, x: int, w: int, g: int)
    requires 0 <= v < w && v + x * w >= w * g
    ensures x >= g
  {
    if x < g {
      MulGe(x + 1, g, w);
      Distribute(w, x, 1);
      MulComm(g, w);
    }
  }

  /** A left shift of a tight record, which stays tight. */
  method ShiftTop(X: Num, k: nat)
    requires X.p != [] && X.p[|X.p| - 1] != 0 && k < BIL
    modifies X
    ensures X.s == old(X.s) && X.Abs() == old(X.Abs()) * Pow2(k)
    ensures BitCount(X.Abs()) == BitCount(old(X.Abs())) + k
    ensures X.p != [] && X.p[|X.p| - 1] != 0 && old(|X.p|) <= |X.p| <= old(|X.p|) + 1
  {
    hide LimbsFor, BitCount;
    ghost var p := X.p;
    TopLimbTight(p);
    ShiftL(X, k);
    ShiftTight(p, X.p, k);
    BitCountShift(Val(p), k, Val(X.p));
    OneMoreLimb(BitCount(Val(p)), k, |p|);
    TopLimbTight(X.p);
  }

  /** Moves both operands up until the divisor's top limb is large. */
  method NormaliseBoth(X: Num, Y: Num) returns (k: nat)
    requires X != Y && X.p != [] && Y.p != [] && X.p[|X.p| - 1] != 0 && Y.p[|Y.p| - 1] != 0
    modifies X, Y
    ensures X.s == old(X.s) && Y.s == old(Y.s)
    ensures X.Abs() == old(X.Abs()) * Pow2(k) && Y.Abs() == old(Y.Abs()) * Pow2(k)
    ensures X.p != [] && X.p[|X.p| - 1] != 0 && |X.p| <= old(|X.p|) + 1
    ensures Y.p != [] && Normal(Y.p, |Y.p| - 1)
  {
    hide Val, BitCount, Pow2;
    var m := BitLen(Y);
    k := m % BIL;
    if k < BIL - 1 {
      k := BIL - 1 - k;
      PadBits(m, k);
      ShiftTop(X, k);
      ShiftTop(Y, k);
    } else {
      k := 0;
      TimesOne(X.Abs());
      TimesOne(Y.Abs());
    }
    LargeTop(Y.p);
  }

  lemma LargeTop(p: seq<Limb>)
    requires p != [] && p[|p| - 1] != 0 && BitCount(Val(p)) % BIL == BIL - 1
    ensures Normal(p, |p| - 1)
  {
    TopLimbTight(p);
    TopLimbLarge(p);
  }

  lemma TimesOne(x: int)
    ensures x * Pow2(0) == x
  {}

  lemma PadBits(m: nat, k: nat)
    requires m % BIL < BIL - 1 && k == BIL - 1 - m % BIL
    ensures (m + k) % BIL == BIL - 1
  {
    DivOf(m + k, BIL, m / BIL, BIL - 1);
  }

  lemma OneMoreLimb(b: nat, k: nat, n: nat)
    requires k < BIL && n == LimbsFor(b)
    ensures LimbsFor(b + k) <= n + 1
  {
    LimbsForLeast(b, n);
    BitsInSucc(n);
    LimbsForLeast(b + k, n + 1);
  }

  /** Counts how often the divisor, moved up to the top of the dividend, goes
      into it: at most three times. */
  method TopDigit(X: Num, Y: Num, Z: Num, n: nat, t: nat)
    requires X != Y && X != Z && Y != Z && X.V() == X.Abs() && Y.s == 1
    requires |X.p| == n + 1 && t <= n && |Y.p| == t + 1 && Normal(Y.p, t)
    requires n - t < |Z.p| && Val(Z.p) == 0
    modifies X, Y, Z
    ensures X.V() == X.Abs() && |X.p| >= n + 1 && Reduced(X.p, Y.p, n, t)
    ensures Y.s == 1 && |Y.p| >= t + 1 && Val(Y.p) == old(Val(Y.p)) && Normal(Y.p, t)
    ensures Z.s == old(Z.s) && |Z.p| == old(|Z.p|) && (forall j :: 0 <= j < n - t ==> Z.p[j] == 0)
    ensures Val(X.p) + Val(Z.p) * Val(Y.p) == old(Val(X.p))
  {
    hide Val, BPow, Base, Pow2;
    var k := n - t;
    ghost var y, yp, zp, x := Val(Y.p), Y.p, Z.p, Val(X.p);
    ghost var w := y * BPow(k);
    BPowBits(k);
    TopDigitBound(X.p, yp, n, t);
    ShiftL(Y, BitsIn(k));
    ValZeroConverse(Z.p);
    CountTop(X, Y, Z, k, w);
    ShiftR(Y, BitsIn(k));
    DivModUnique(w, BPow(k), y, 0);
    SameTop(Y.p, yp, t);
    ValUpdate(zp, k, Z.p[k]);
    Regroup3(Z.p[k], BPow(k), y, w);
  }

  lemma Regroup3(z: int, u: int, y: int, w: int)
    requires w == y * u
    ensures (z * u) * y == z * w
  {}

  /** The counting loop of TopDigit. */
  method CountTop(X: Num, Y: Num, Z: Num, k: nat, ghost w: nat)
    requires X != Y && X != Z && Y != Z && X.V() == X.Abs() && Y.V() == w > 0
    requires k < |Z.p| && Z.p[k] == 0 && X.Abs() < 4 * w && X.p != [] && Y.p != []
    modifies X, Z
    ensures X.V() == X.Abs() < w && |X.p| >= old(|X.p|)
    ensures Z.s == old(Z.s) && |Z.p| == old(|Z.p|) && Z.p == old(Z.p)[k := Z.p[k]]
    ensures X.Abs() + Z.p[k] * w == old(X.Abs())
  {
    ghost var x := X.Abs();
    var c := Cmp(X, Y);
    while c >= 0
      invariant Z.s == old(Z.s) && |Z.p| == old(|Z.p|) && Z.p == old(Z.p)[k := Z.p[k]]
      invariant X.V() == X.Abs() && |X.p| >= old(|X.p|)
      invariant X.Abs() + Z.p[k] * w == x
      invariant c == SignOf(X.Abs() - w)
      decreases X.Abs()
    {
      CountBound(X.Abs(), Z.p[k], w, x);
      Z.p := Z.p[k := WrapAdd(Z.p[k], 1)];
      Sub(X, X, Y);
      c := Cmp(X, Y);
    }
  }

  /** Equal values have equal limbs where both have limbs. */
  lemma SameTop(p: seq<Limb>, q: seq<Limb>, t: nat)
    requires |q| == t + 1 <= |p| && Val(p) == Val(q) && Normal(q, t)
    ensures Normal(p, t)
  {
    ValBound(q);
    ValLowBound(p, t + 1);
    ValInjective(p[..t + 1], q);
  }

  lemma TopDigitBound(xp: seq<Limb>, yp: seq<Limb>, n: nat, t: nat)
    requires |xp| == n + 1 && t <= n && |yp| == t + 1 && Normal(yp, t)
    ensures Val(xp) < 4 * (Val(yp) * BPow(n - t)) && Val(yp) * BPow(n - t) > 0
  {
    ValBound(xp);
    NormalBounds(yp, t);
    BPowAdd(t, n - t);
    BPowSucc(n);
    QuarterBound(Val(yp), yp[t], BPow(t), BPow(n - t), BPow(n), Base());
  }

  lemma QuarterBound(v: int, top: int, w: int, e: int, u: int, b: int)
    requires top * w <= v && e > 0 && w > 0 && u == w * e && 4 * top >= b > 0
    ensures b * u <= 4 * (v * e) && v * e > 0
  {
    MulGe(top * w, v, e);
    MulAssoc(top, w, e);
    MulGt(0, w, e);
    MulGe(b, 4 * top, u);
    MulGt(0, b, u);
    assert (4 * top) * u == 4 * (top * u);
  }

  lemma CountBound(x: int, z: int, w: int, a: int)
    requires w > 0 && z >= 0 && x >= w && x + z * w == a && a < 4 * w
    ensures z < 3 && (x - w) + (z + 1) * w == a
  {
    if z >= 3 { MulGe(3, z, w); }
    Distribute(w, z, 1);
  }

  /** The digit loop: leaves the quotient in Z and the remainder in X. */
  method LongDivide(X: Num, Y: Num, Z: Num, n: nat, t: nat)
    requires X != Y && X != Z && Y != Z
    requires t <= n < |X.p| && n - t <= |Z.p| && Normal(Y.p, t) && Reduced(X.p, Y.p, n, t)
    requires X.V() == X.Abs() && Y.s == 1
    requires forall j :: 0 <= j < n - t ==> Z.p[j] == 0
    modifies X, Z
    ensures X.V() == X.Abs() < Val(Y.p) && Z.s == old(Z.s)
    ensures |X.p| >= old(|X.p|) && |Z.p| == old(|Z.p|)
    ensures X.Abs() + Val(Z.p) * Val(Y.p) == old(X.Abs()) + old(Val(Z.p)) * Val(Y.p)
  {
    hide Normal, Val, Base;
    var T1 := new Num();
    var T2 := new Num();
    Grow(T1, 2);
    Grow(T2, 3);
    ghost var a := X.Abs() + Val(Z.p) * Val(Y.p);
    var i := n;
    while i > t
      invariant t <= i <= n && |X.p| >= old(|X.p|) && |Z.p| == old(|Z.p|) && Z.s == old(Z.s)
      invariant X.V() == X.Abs() && Reduced(X.p, Y.p, i, t)
      invariant forall j :: 0 <= j < i - t ==> Z.p[j] == 0
      invariant |T1.p| >= 2 && |T2.p| >= 3
      invariant X.Abs() + Val(Z.p) * Val(Y.p) == a
    {
      DivideStep(X, Y, Z, T1, T2, i, t);
      i := i - 1;
    }
    TimesOneBPow(Val(Y.p));
  }

  lemma TimesOneBPow(x: int)
    ensures x * BPow(0) == x
  {}

  /** One round of the digit loop. */
  method DivideStep(X: Num, Y: Num, Z: Num, T1: Num, T2: Num, i: nat, t: nat)
    requires X != Y && X != Z && X != T1 && X != T2 && Y != Z && Y != T1 && Y != T2
    requires Z != T1 && Z != T2 && T1 != T2
    requires t < i && i - t - 1 < |Z.p| && Normal(Y.p, t) && Reduced(X.p, Y.p, i, t)
    requires X.V() == X.Abs() && Y.s == 1 && |T1.p| >= 2 && |T2.p| >= 3 && Z.p[i - t - 1] == 0
    modifies X, Z, T1, T2
    ensures X.V() == X.Abs() && Reduced(X.p, Y.p, i - 1, t) && |X.p| >= old(|X.p|)
    ensures Z.s == old(Z.s) && |Z.p| == old(|Z.p|) && |T1.p| >= 2 && |T2.p| >= 3
    ensures Z.p == old(Z.p)[i - t - 1 := Z.p[i - t - 1]]
    ensures X.Abs() + Val(Z.p) * Val(Y.p) == old(X.Abs()) + old(Val(Z.p)) * Val(Y.p)
  {
    var k := i - t - 1;
    ghost var y, zp := Val(Y.p) * BPow(k), Z.p;
    TrialDigit(X, Y, Z, T1, T2, i, t, y);
    ReduceDigit(X, Y, Z, T1, i, t, y);
    assert Z.p == zp[k := Z.p[k]];
    ValUpdate(zp, k, Z.p[k]);
    QuotientGrows(Val(zp), Val(Z.p), Z.p[k], BPow(k), Val(Y.p), y);
  }

  lemma QuotientGrows(z: int, z': int, q: int, w: int, v: int, y: int)
    requires z' == z + (q - 0) * w && y == v * w
    ensures z' * v == z * v + q * y
  {
    Distribute(v, z, q * w);
    Regroup3(q, w, v, y);
  }

  /** The work of the division when the dividend is not the smaller operand:
      the quotient's magnitude in Z and the remainder's in X. */
  method DivideAbs(A: Num, B: Num) returns (Z: Num, X: Num)
    requires A.Abs() >= B.Abs() > 0
    ensures fresh(Z) && fresh(X) && Z != X && Z.p != [] && X.p != []
    ensures Z.Abs() == A.Abs() / B.Abs() && X.Abs() == A.Abs() % B.Abs()
  {
    hide Val, Pow2;
    X := new Num();
    var Y := new Num();
    Copy(X, A);
    Copy(Y, B);
    X.s := 1;
    Y.s := 1;
    Z := new Num();
    CopiedLimbs(X.p, A.p);
    Grow(Z, |A.p| + 2);
    Lset(Z, 0);
    assert Z.p == Zeros(|A.p| + 2);
    var k := DivideCopies(X, Y, Z);
    Denormalise(Val(Z.p), Val(X.p), A.Abs(), B.Abs(), Pow2(k));
    ShiftR(X, k);
  }

  lemma CopiedLimbs(x: seq<Limb>, a: seq<Limb>)
    requires x != [] && x[|x| - 1] != 0 && Val(x) == Val(a)
    ensures |x| <= |a|
  {
    ValAtLeast(x, |x| - 1);
    ValBound(a);
    if |x| > |a| { BPowMono(|a|, |x| - 1); }
  }

  method DivideCopies(X: Num, Y: Num, Z: Num) returns (k: nat)
    requires X != Y && X != Z && Y != Z && X.s == 1 && Y.s == 1
    requires X.p != [] && Y.p != [] && X.p[|X.p| - 1] != 0 && Y.p[|Y.p| - 1] != 0
    requires X.Abs() >= Y.Abs() && |Z.p| >= |X.p| + 2 && Val(Z.p) == 0
    modifies X, Y, Z
    ensures X.p != [] && Z.p != [] && 0 <= Val(X.p) < old(Y.Abs()) * Pow2(k)
    ensures Val(Z.p) * (old(Y.Abs()) * Pow2(k)) + Val(X.p) == old(X.Abs()) * Pow2(k)
  {
    k := NormaliseBoth(X, Y);
    LengthOrder(X.p, Y.p, old(X.Abs()), old(Y.Abs()), Pow2(k));
    DivideNormal(X, Y, Z);
  }

  method DivideNormal(X: Num, Y: Num, Z: Num)
    requires X != Y && X != Z && Y != Z && X.s == 1 && Y.s == 1
    requires Y.p != [] && |Y.p| <= |X.p| < |Z.p| && Normal(Y.p, |Y.p| - 1) && Val(Z.p) == 0
    modifies X, Y, Z
    ensures X.p != [] && Z.p != [] && Val(X.p) < old(Val(Y.p))
    ensures Val(X.p) + Val(Z.p) * old(Val(Y.p)) == old(Val(X.p))
  {
    var n, t := |X.p| - 1, |Y.p| - 1;
    TopDigit(X, Y, Z, n, t);
    LongDivide(X, Y, Z, n, t);
  }

  lemma LengthOrder(x: seq<Limb>, y: seq<Limb>, a: nat, b: nat, p: nat)
    requires x != [] && y != [] && Normal(y, |y| - 1) && a >= b && p > 0
    requires Val(x) == a * p && Val(y) == b * p
    ensures |y| <= |x|
  {
    MulGe(b, a, p);
    NormalBounds(y, |y| - 1);
    ValAtLeast(y, |y| - 1);
    ValBound(x);
    if |y| > |x| { BPowMono(|x|, |y| - 1); }
  }

  /** A = Q * B + R, truncating towards zero. Q and R are optional; R may be an
      operand, Q may not. */
  method Div(Q: Num?, R: Num?, A: Num, B: Num) returns (ret: Status)
    requires Q != null ==> Q != A && Q != B && Q != R
    modifies if Q == null then {} else {Q}, if R == null then {} else {R}
    ensures ret == if old(B.V()) == 0 then DivisionByZero else Ok
    ensures ret == Ok && Q != null ==> Q.V() == TruncDiv(old(A.V()), old(B.V()))
    ensures ret == Ok && R != null ==>
      R.V() == TruncRem(old(A.V()), old(B.V())) && (old(A.p) != [] ==> R.p != [] && |R.p| >= old(|R.p|))
    ensures ret == Ok && R != null && (old(A.s) == 1 || (R.V() == 0 && old(A.Abs()) >= old(B.Abs()))) ==> R.s == 1
    ensures ret != Ok && Q != null ==> Q.p == old(Q.p) && Q.s == old(Q.s)
    ensures ret != Ok && R != null ==> R.p == old(R.p) && R.s == old(R.s)
  {
    var z := CmpInt(B, 0);
    if z == 0 { return DivisionByZero; }
    var c := CmpAbs(A, B);
    DivModCases(A.V(), B.V());
    hide TruncDiv, TruncRem;
    if c < 0 {
      if Q != null { Lset(Q, 0); }
      if R != null { Copy(R, A); }
      return Ok;
    }
    DivLarge(Q, R, A, B);
    ret := Ok;
  }

  method DivLarge(Q: Num?, R: Num?, A: Num, B: Num)
    requires Q != null ==> Q != A && Q != B && Q != R
    requires A.Abs() >= B.Abs() > 0
    modifies if Q == null then {} else {Q}, if R == null then {} else {R}
    ensures Q != null ==> Q.V() == TruncDiv(old(A.V()), old(B.V()))
    ensures R != null ==> R.V() == TruncRem(old(A.V()), old(B.V()))
    ensures R != null ==> R.p != [] && |R.p| >= old(|R.p|)
    ensures R != null && (old(A.s) == 1 || R.V() == 0) ==> R.s == 1
  {
    var Z, X := DivideAbs(A, B);
    DivSigns(A.V(), B.V(), Z.Abs(), X.Abs());
    hide TruncDiv, TruncRem;
    if Q != null { WriteQuotient(Q, Z, A, B); }
    if R != null { WriteRemainder(R, X, A); }
  }

  method WriteQuotient(Q: Num, Z: Num, A: Num, B: Num)
    requires Q != Z && Q != A && Q != B && Z.p != []
    modifies Q
    ensures Q.Abs() == Z.Abs() && Q.s == SignProduct(A.s, B.s)
  {
    Copy(Q, Z);
    Q.s := SignProduct(A.s, B.s);
  }

  method WriteRemainder(R: Num, X: Num, A: Num)
    requires R != X && X != A && X.p != []
    modifies R, X
    ensures R.Abs() == old(X.Abs()) && R.p != [] && |R.p| >= old(|R.p|)
    ensures R.s == if old(X.Abs()) == 0 then 1 else old(A.s)
  {
    X.s := A.s;
    Copy(R, X);
    var r := CmpInt(R, 0);
    if r == 0 { R.s := 1; }
  }

  lemma DivSigns(a: int, b: int, z: nat, x: nat)
    requires b != 0 && z == AbsOf(a) / AbsOf(b) && x == AbsOf(a) % AbsOf(b)
    ensures TruncDiv(a, b) == if (a < 0) == (b < 0) then z else 0 - z
    ensures TruncRem(a, b) == if a < 0 then 0 - x else x
  {}

  lemma DivModCases(a: int, b: int)
    requires b != 0
    ensures AbsOf(a) < AbsOf(b) ==> TruncDiv(a, b) == 0 && TruncRem(a, b) == a
  {
    if AbsOf(a) < AbsOf(b) { DivModUnique(AbsOf(a), AbsOf(b), 0, AbsOf(a)); }
  }

  /** R = A mod B for a positive B, in 0..B-1 whatever the sign of A. */
  method Mod(R: Num, A: Num, B: Num) returns (ret: Status)
    requires R != B
    modifies R
    ensures ret == if B.V() < 0 then NegativeValue else if B.V() == 0 then DivisionByZero else Ok
    ensures ret == Ok ==> R.V() == old(A.V()) % B.V()
    ensures ret == Ok && old(A.p) != [] ==> R.p != [] && |R.p| >= old(|R.p|)
    ensures ret == Ok && old(A.s) == 1 ==> R.s == 1
    ensures ret != Ok ==> R.p == old(R.p) && R.s == old(R.s)
  {
    hide TruncRem, TruncDiv, Base;
    var c := CmpInt(B, 0);
    if c < 0 { return NegativeValue; }
    ret := Div(null, R, A, B);
    if ret != Ok { return; }
    ghost var a, b := old(A.V()), B.V();
    TruncRemCongruent(a, b);
    c := CmpInt(R, 0);
    while c < 0
      invariant R.V() < b && c == SignOf(R.V()) && R.V() % b == a % b
      invariant old(A.p) != [] ==> R.p != [] && |R.p| >= old(|R.p|)
      invariant old(A.s) == 1 ==> R.s == 1
      decreases b - R.V()
    {
      ModPlus(R.V(), b);
      Add(R, R, B);
      c := CmpInt(R, 0);
    }
    c := Cmp(R, B);
    ghost var bound := 2 * b;
    while c >= 0
      invariant 0 <= R.V() <= bound && c == SignOf(R.V() - b) && R.V() % b == a % b
      invariant old(A.p) != [] ==> R.p != [] && |R.p| >= old(|R.p|)
      invariant old(A.s) == 1 ==> R.s == 1
      decreases bound
    {
      ModPlus(R.V() - b, b);
      Sub(R, R, B);
      c := Cmp(R, B);
      bound := R.V();
    }
    DivModUnique(R.V(), b, 0, R.V());
  }

  lemma ModPlus(x: int, b: int)
    requires b > 0
    ensures (x + b) % b == x % b
  {
    ModShift(x, b, 1);
  }

  lemma TruncRemCongruent(a: int, b: int)
    requires b > 0
    ensures TruncRem(a, b) % b == a % b && -b < TruncRem(a, b) < b
  {
    TruncUnique(a, b, TruncDiv(a, b), TruncRem(a, b));
    MulComm(TruncDiv(a, b), b);
    ModShift(TruncRem(a, b), b, TruncDiv(a, b));
  }
}
