/** Binary gcd and the modular inverse by the binary extended algorithm. */
module ModInverse {
  import opened Powers
  import opened Limbs
  import opened Divisors
  import opened Congruence
  import opened Mpi
  import opened Bits
  import opened LimbDivision
  import opened Division

  /** What the binary gcd returns: its loop runs A down to zero and leaves B's
      part, which is zero when B is. */
  function GcdOrZero(a: nat, b: nat): nat {
    if b == 0 then 0 else Gcd(a, b)
  }

  /** The second number may not be zero: for 1 and 0 the result is not the gcd. */
  lemma ZeroSecond()
    ensures GcdOrZero(1, 0) == 0 && Gcd(1, 0) == 1
  {}

  /** G = gcd(A, B), unless only B is zero. */
  method BinaryGcd(G: Num, A: Num, B: Num)
    modifies G
    ensures G.V() == GcdOrZero(old(A.Abs()), old(B.Abs()))
    ensures G.V() == Gcd(old(A.Abs()), old(B.Abs())) <==> old(B.V()) != 0 || old(A.V()) == 0
  {
    var TA := new Num();
    var TB := new Num();
    Copy(TA, A);
    Copy(TB, B);
    ghost var a, b := A.Abs(), B.Abs();
    var lz := Lsb(TA);
    var lzt := Lsb(TB);
    ghost var la := lz;
    if lzt < lz { lz := lzt; }
    ShiftR(TA, lz);
    ShiftR(TB, lz);
    TA.s := 1;
    TB.s := 1;
    CommonTwos(a, b, la, lzt, lz, TA.Abs(), TB.Abs());
    GcdLoop(TA, TB);
    ShiftL(TB, lz);
    Copy(G, TB);
  }

  /** Taking the shared twos out leaves at least one odd number. */
  lemma CommonTwos(a: nat, b: nat, la: nat, lb: nat, lz: nat, ta: nat, tb: nat)
    requires ta == a / Pow2(lz) && tb == b / Pow2(lz) && lz == if lb < la then lb else la
    requires if a == 0 then la == 0 else EndsInZeros(a, la)
    requires if b == 0 then lb == 0 else EndsInZeros(b, lb)
    ensures a > 0 && b > 0 ==> ta > 0 && tb > 0 && (ta % 2 == 1 || tb % 2 == 1)
    ensures a == 0 || b == 0 ==> ta == a && tb == b
    ensures b > 0 ==> tb > 0 && Gcd(a, b) == Gcd(ta, tb) * Pow2(lz)
  {
    if a == 0 || b == 0 {
      DivOf(a, 1, a, 0);
      DivOf(b, 1, b, 0);
      assert Pow2(0) == 1;
    } else {
      FewerZeros(a, la, lz);
      FewerZeros(b, lb, lz);
      MulComm(Pow2(lz), ta);
      MulComm(Pow2(lz), tb);
      GcdScale(ta, tb, lz);
    }
  }

  lemma FewerZeros(x: nat, l: nat, k: nat)
    requires x > 0 && EndsInZeros(x, l) && k <= l
    ensures x == Pow2(k) * (x / Pow2(k)) && x / Pow2(k) > 0
  {
    Pow2Add(k, l - k);
    FactorOut(x, Pow2(l), Pow2(k), Pow2(l - k));
  }

  lemma FactorOut(x: int, w: int, u: int, v: int)
    requires x > 0 && u > 0 && v > 0 && w == u * v && w > 0 && x % w == 0
    ensures x == u * (x / u) && x / u > 0
  {
    var q := x / w;
    assert x == w * q;
    MulAssoc(u, v, q);
    DivOf(x, u, v * q, 0);
    if x / u <= 0 { MulGe(x / u, 0, u); MulComm(u, x / u); }
  }

  /** The subtract-and-shift loop. */
  method GcdLoop(TA: Num, TB: Num)
    requires TA != TB && TA.s == 1 && TB.s == 1
    requires TA.Abs() == 0 || TB.Abs() == 0 || TA.Abs() % 2 == 1 || TB.Abs() % 2 == 1
    modifies TA, TB
    ensures TB.s == 1
    ensures TB.Abs() == if old(TB.Abs()) == 0 then 0 else Gcd(old(TA.Abs()), old(TB.Abs()))
  {
    ghost var a, b := TA.Abs(), TB.Abs();
    var c := CmpInt(TA, 0);
    while c != 0
      invariant TA.s == 1 && TB.s == 1 && c == SignOf(TA.V())
      invariant b == 0 ==> TB.Abs() == 0
      invariant b > 0 ==> TB.Abs() > 0 && Gcd(TA.Abs(), TB.Abs()) == Gcd(a, b)
      invariant b > 0 && TA.Abs() > 0 ==> TA.Abs() % 2 == 1 || TB.Abs() % 2 == 1
      decreases TA.Abs() + TB.Abs()
    {
      GcdRound(TA, TB);
      c := CmpInt(TA, 0);
    }
    GcdSymmetric(0, TB.Abs());
  }

  method GcdRound(TA: Num, TB: Num)
    requires TA != TB && TA.s == 1 && TB.s == 1 && TA.Abs() > 0
    requires TB.Abs() > 0 ==> TA.Abs() % 2 == 1 || TB.Abs() % 2 == 1
    modifies TA, TB
    ensures TA.s == 1 && TB.s == 1 && TA.Abs() + TB.Abs() < old(TA.Abs()) + old(TB.Abs())
    ensures old(TB.Abs()) == 0 ==> TB.Abs() == 0
    ensures old(TB.Abs()) > 0 ==> TB.Abs() > 0 && (TA.Abs() % 2 == 1 || TB.Abs() % 2 == 1)
    ensures old(TB.Abs()) > 0 ==> Gcd(TA.Abs(), TB.Abs()) == Gcd(old(TA.Abs()), old(TB.Abs()))
  {
    hide Gcd;
    ghost var ta, tb := TA.Abs(), TB.Abs();
    var k := Lsb(TA);
    ShiftR(TA, k);
    var k' := Lsb(TB);
    ShiftR(TB, k');
    RoundStrip(ta, tb, k, k', TA.Abs(), TB.Abs());
    var c := Cmp(TA, TB);
    if c >= 0 {
      ghost var x, y := TA.Abs(), TB.Abs();
      var r := SubAbs(TA, TA, TB);
      ShiftR(TA, 1);
      RoundSubtract(x, y, TA.Abs());
    } else {
      ghost var x, y := TB.Abs(), TA.Abs();
      var r := SubAbs(TB, TB, TA);
      ShiftR(TB, 1);
      RoundSubtract(x, y, TB.Abs());
      GcdSymmetric(x, y);
      GcdSymmetric(TB.Abs(), y);
    }
  }

  /** Taking twos out of both numbers of a round. */
  lemma RoundStrip(a: nat, b: nat, k: nat, k': nat, a': nat, b': nat)
    requires a > 0 && EndsInZeros(a, k) && a' == a / Pow2(k) && b' == b / Pow2(k')
    requires b == 0 ==> k' == 0
    requires b > 0 ==> EndsInZeros(b, k') && (a % 2 == 1 || b % 2 == 1)
    ensures 0 < a' <= a && a' % 2 == 1
    ensures b == 0 ==> b' == 0
    ensures b > 0 ==> 0 < b' <= b && b' % 2 == 1 && Gcd(a', b') == Gcd(a, b)
  {
    DivBounds(a, Pow2(k));
    DivBounds(b, Pow2(k'));
    if b == 0 {
      DivOf(0, 1, 0, 0);
    } else {
      if b % 2 == 0 {
        OddLsb(a, k);
        DivOf(a, 1, a, 0);
      } else {
        GcdStrip(a, b, k);
      }
      GcdSymmetric(a', b);
      GcdStrip(b, a', k');
      GcdSymmetric(b', a');
    }
  }

  lemma OddLsb(x: nat, k: nat)
    requires x % 2 == 1 && EndsInZeros(x, k)
    ensures k == 0
  {
    DivBounds(x, Pow2(k));
    if k > 0 { EvenMultiple(x, Pow2(k - 1), x / Pow2(k)); }
  }

  lemma EvenMultiple(x: int, w: int, q: int)
    requires x == (2 * w) * q
    ensures x % 2 == 0
  {
    assert (2 * w) * q == 2 * (w * q);
  }

  /** Subtracting one odd number from another and halving. */
  lemma RoundSubtract(x: nat, y: nat, z: nat)
    requires x >= y && x % 2 == 1 && (y == 0 || y % 2 == 1) && z == (x - y) / Pow2(1)
    ensures z < x
    ensures y > 0 ==> Gcd(z, y) == Gcd(x, y) && (x > y ==> z > 0)
  {
    assert Pow2(1) == 2;
    hide Pow2, Gcd;
    HalfDifference(x, y, z);
    if y > 0 {
      GcdSubtract(x, y);
      if x > y { GcdHalve(x - y, y); }
    }
  }

  lemma HalfDifference(x: int, y: int, z: int)
    requires x >= y >= 0 && x % 2 == 1 && (y == 0 || y % 2 == 1) && z == (x - y) / 2
    ensures z < x && (y > 0 ==> (x - y) % 2 == 0) && (y > 0 && x > y ==> z > 0)
  {}

  // ----- modular inverse -----

  /** A * x = 1 modulo n. */
  ghost predicate Inverse(x: int, a: int, n: int)
    requires n > 0
  {
    0 <= x < n && Cong(a * x, 1, n)
  }

  /** U1 * TA + U2 * TB = TU, with TU running down. */
  ghost predicate Bezout(u1: int, u2: int, ta: int, tb: int, tu: int) {
    u1 * ta + u2 * tb == tu
  }

  /** When a Bezout sum is even and one of the numbers is odd, either both
      coefficients are even or both become so. */
  lemma BezoutEven(u1: int, u2: int, ta: int, tb: int, tu: int)
    requires Bezout(u1, u2, ta, tb, tu) && tu % 2 == 0 && (ta % 2 == 1 || tb % 2 == 1)
    ensures u1 % 2 == 0 && u2 % 2 == 0 ==> Bezout(u1 / 2, u2 / 2, ta, tb, tu / 2)
    ensures u1 % 2 == 1 || u2 % 2 == 1 ==>
      (u1 + tb) % 2 == 0 && (u2 - ta) % 2 == 0 && Bezout((u1 + tb) / 2, (u2 - ta) / 2, ta, tb, tu / 2)
  {
    if u1 % 2 == 0 && u2 % 2 == 0 {
      HalfBezout(u1 / 2, u2 / 2, ta, tb, tu / 2, u1, u2, tu);
    } else {
      BezoutParity(u1, u2, ta, tb, tu);
      BezoutMove(u1, u2, ta, tb, tu);
      HalfBezout((u1 + tb) / 2, (u2 - ta) / 2, ta, tb, tu / 2, u1 + tb, u2 - ta, tu);
    }
  }

  lemma BezoutParity(u1: int, u2: int, ta: int, tb: int, tu: int)
    requires Bezout(u1, u2, ta, tb, tu) && tu % 2 == 0 && (ta % 2 == 1 || tb % 2 == 1)
    requires u1 % 2 == 1 || u2 % 2 == 1
    ensures (u1 + tb) % 2 == 0 && (u2 - ta) % 2 == 0
  {
    ProductParity(u1, ta);
    ProductParity(u2, tb);
    SumParity(u1 * ta, u2 * tb);
    ParityCases(u1 % 2, u2 % 2, ta % 2, tb % 2);
    SumParity(u1, tb);
    SumParity(u2, -ta);
  }

  lemma SumParity(x: int, y: int)
    ensures (x + y) % 2 == (x % 2 + y % 2) % 2
  {}

  lemma ParityCases(u: int, v: int, a: int, b: int)
    requires 0 <= u <= 1 && 0 <= v <= 1 && 0 <= a <= 1 && 0 <= b <= 1
    requires (u * a + v * b) % 2 == 0 && (a == 1 || b == 1) && (u == 1 || v == 1)
    ensures u == b && v == a
  {
    assert u == 0 || u == 1;
    assert v == 0 || v == 1;
    assert a == 0 || a == 1;
    assert b == 0 || b == 1;
  }

  lemma BezoutMove(u1: int, u2: int, ta: int, tb: int, tu: int)
    requires Bezout(u1, u2, ta, tb, tu)
    ensures Bezout(u1 + tb, u2 - ta, ta, tb, tu)
  {
    Distribute(ta, u1, tb);
    Distribute(tb, u2, -ta);
  }

  lemma ProductParity(x: int, y: int)
    ensures (x * y) % 2 == (x % 2) * (y % 2)
  {
    ParityProduct(x, y, x / 2, y / 2, x % 2, y % 2);
  }

  lemma ParityProduct(x: int, y: int, i: int, j: int, r: int, s: int)
    requires x == 2 * i + r && y == 2 * j + s && 0 <= r <= 1 && 0 <= s <= 1
    ensures (x * y) % 2 == r * s
  {
    assert x * y == 2 * (i * y) + r * y;
    assert r * y == 2 * (r * j) + r * s;
    assert r * s == if r == 1 then s else 0;
    DivOf(x * y, 2, i * y + r * j, r * s);
  }

  lemma HalfBezout(h1: int, h2: int, ta: int, tb: int, t: int, u1: int, u2: int, tu: int)
    requires u1 == 2 * h1 && u2 == 2 * h2 && tu == 2 * t && Bezout(u1, u2, ta, tb, tu)
    ensures Bezout(h1, h2, ta, tb, t)
  {
    assert u1 * ta == 2 * (h1 * ta) && u2 * tb == 2 * (h2 * tb);
  }

  lemma BezoutSubtract(u1: int, u2: int, v1: int, v2: int, ta: int, tb: int, tu: int, tv: int)
    requires Bezout(u1, u2, ta, tb, tu) && Bezout(v1, v2, ta, tb, tv)
    ensures Bezout(u1 - v1, u2 - v2, ta, tb, tu - tv)
  {
    Distribute(ta, u1, -v1);
    Distribute(tb, u2, -v2);
  }

  lemma CoprimeHasOdd(a: nat, b: nat)
    requires Gcd(a, b) == 1
    ensures a % 2 == 1 || b % 2 == 1
  {
    if a % 2 == 0 && b % 2 == 0 {
      GcdIsGcd(a, b);
      assert Divides(2, a) && Divides(2, b);
    }
  }

  /** Halves an even number exactly, whatever its sign. */
  method Halve(X: Num)
    requires X.V() % 2 == 0 && X.p != []
    modifies X
    ensures X.V() == old(X.V()) / 2 && X.p != []
  {
    assert Pow2(1) == 2;
    ShiftR(X, 1);
  }

  /** While TU is even: TU, U1 and U2 are halved, after making U1 and U2 even. */
  method StripTwos(TU: Num, U1: Num, U2: Num, TA: Num, TB: Num)
    requires TU != U1 && TU != U2 && U1 != U2
    requires TA != TU && TA != U1 && TA != U2 && TB != TU && TB != U1 && TB != U2
    requires TU.V() > 0 && U1.p != [] && U2.p != [] && TA.p != [] && TB.p != []
    requires TA.V() % 2 == 1 || TB.V() % 2 == 1
    requires Bezout(U1.V(), U2.V(), TA.V(), TB.V(), TU.V())
    modifies TU, U1, U2
    ensures 0 < TU.V() <= old(TU.V()) && TU.V() % 2 == 1 && U1.p != [] && U2.p != []
    ensures Bezout(U1.V(), U2.V(), TA.V(), TB.V(), TU.V())
    ensures Divides(TU.V(), old(TU.V()))
  {
    ghost var t := TU.V();
    DivOf(t, t, 1, 0);
    SetLimb(TU.p);
    while TU.p[0] % 2 == 0
      invariant 0 < TU.V() <= t && TU.p != [] && U1.p != [] && U2.p != []
      invariant Bezout(U1.V(), U2.V(), TA.V(), TB.V(), TU.V())
      invariant Divides(TU.V(), t)
      decreases TU.V()
    {
      ValParity(TU.p);
      DividesHalf(TU.V(), t);
      HalveRelation(TU, U1, U2, TA, TB);
    }
    ValParity(TU.p);
  }

  lemma SetLimb(p: seq<Limb>)
    requires Val(p) > 0
    ensures p != []
  {}

  lemma DividesHalf(x: nat, t: nat)
    requires x > 0 && x % 2 == 0 && Divides(x, t)
    ensures Divides(x / 2, t)
  {
    DivOf(x, x / 2, 2, 0);
    DividesTrans(x / 2, x, t);
  }

  method HalveRelation(TU: Num, U1: Num, U2: Num, TA: Num, TB: Num)
    requires TU != U1 && TU != U2 && U1 != U2
    requires TA != TU && TA != U1 && TA != U2 && TB != TU && TB != U1 && TB != U2
    requires TU.V() > 0 && TU.V() % 2 == 0 && TU.p != [] && U1.p != [] && U2.p != [] && TA.p != [] && TB.p != []
    requires TA.V() % 2 == 1 || TB.V() % 2 == 1
    requires Bezout(U1.V(), U2.V(), TA.V(), TB.V(), TU.V())
    modifies TU, U1, U2
    ensures TU.V() == old(TU.V()) / 2 && TU.p != [] && U1.p != [] && U2.p != []
    ensures Bezout(U1.V(), U2.V(), TA.V(), TB.V(), TU.V())
  {
    ghost var u1, u2, ta, tb, tu := U1.V(), U2.V(), TA.V(), TB.V(), TU.V();
    BezoutEven(u1, u2, ta, tb, tu);
    Halve(TU);
    SignedParity(U1);
    SignedParity(U2);
    if U1.p[0] % 2 != 0 || U2.p[0] % 2 != 0 {
      Add(U1, U1, TB);
      Sub(U2, U2, TA);
    }
    HalveBoth(U1, U2);
  }

  method HalveBoth(U1: Num, U2: Num)
    requires U1 != U2 && U1.p != [] && U2.p != [] && U1.V() % 2 == 0 && U2.V() % 2 == 0
    modifies U1, U2
    ensures U1.p != [] && U2.p != []
    ensures U1.V() == old(U1.V()) / 2 && U2.V() == old(U2.V()) / 2
  {
    Halve(U1);
    Halve(U2);
  }

  lemma SignedParity(X: Num)
    requires X.p != []
    ensures X.V() % 2 == X.p[0] % 2
  {
    ValParity(X.p);
    NegatedParity(Val(X.p));
  }

  lemma NegatedParity(x: int)
    ensures (0 - x) % 2 == x % 2
  {}

  /** The six running numbers and the two fixed ones are different records. */
  ghost predicate Eight(TU: Num, U1: Num, U2: Num, TV: Num, V1: Num, V2: Num, TA: Num, TB: Num) {
    && TU != U1 && TU != U2 && TU != TV && TU != V1 && TU != V2 && TU != TA && TU != TB
    && U1 != U2 && U1 != TV && U1 != V1 && U1 != V2 && U1 != TA && U1 != TB
    && U2 != TV && U2 != V1 && U2 != V2 && U2 != TA && U2 != TB
    && TV != V1 && TV != V2 && TV != TA && TV != TB
    && V1 != V2 && V1 != TA && V1 != TB && V2 != TA && V2 != TB
  }

  /** Both Bezout relations, and TU and TV coprime. */
  ghost predicate Extended(TU: Num, U1: Num, U2: Num, TV: Num, V1: Num, V2: Num, TA: Num, TB: Num)
    reads TU, U1, U2, TV, V1, V2, TA, TB
  {
    && TU.V() >= 0 && TV.V() > 0 && Gcd(TU.V(), TV.V()) == 1
    && U1.p != [] && U2.p != [] && V1.p != [] && V2.p != [] && TA.p != [] && TB.p != []
    && (TA.V() % 2 == 1 || TB.V() % 2 == 1)
    && Bezout(U1.V(), U2.V(), TA.V(), TB.V(), TU.V())
    && Bezout(V1.V(), V2.V(), TA.V(), TB.V(), TV.V())
  }

  /** One round of the do-while loop. */
  method ExtendedRound(TU: Num, U1: Num, U2: Num, TV: Num, V1: Num, V2: Num, TA: Num, TB: Num)
    requires Eight(TU, U1, U2, TV, V1, V2, TA, TB)
    requires Extended(TU, U1, U2, TV, V1, V2, TA, TB) && TU.V() > 0
    modifies TU, U1, U2, TV, V1, V2
    ensures Extended(TU, U1, U2, TV, V1, V2, TA, TB)
    ensures TU.V() + TV.V() < old(TU.V()) + old(TV.V())
  {
    ghost var tu, tv := TU.V(), TV.V();
    StripTwos(TU, U1, U2, TA, TB);
    StripTwos(TV, V1, V2, TA, TB);
    StrippedCoprime(tu, tv, TU.V(), TV.V());
    SetLimb(TU.p);
    SetLimb(TV.p);
    var c := Cmp(TU, TV);
    if c >= 0 {
      SubtractRelation(TU, U1, U2, TV, V1, V2, TA, TB);
    } else {
      GcdSymmetric(TU.V(), TV.V());
      SubtractRelation(TV, V1, V2, TU, U1, U2, TA, TB);
      GcdSymmetric(TU.V(), TV.V());
    }
  }

  lemma StrippedCoprime(tu: nat, tv: nat, x: nat, y: nat)
    requires tu > 0 && tv > 0 && Gcd(tu, tv) == 1 && Divides(x, tu) && Divides(y, tv)
    ensures Gcd(x, y) == 1
  {
    CoprimeDivisor(tu, x, tv);
    GcdSymmetric(x, tv);
    CoprimeDivisor(tv, y, x);
    GcdSymmetric(y, x);
  }

  /** TU -= TV, with the coefficients following. */
  method SubtractRelation(TU: Num, U1: Num, U2: Num, TV: Num, V1: Num, V2: Num, TA: Num, TB: Num)
    requires Eight(TU, U1, U2, TV, V1, V2, TA, TB)
    requires Extended(TU, U1, U2, TV, V1, V2, TA, TB) && TU.V() >= TV.V() && TU.p != [] && TV.p != []
    modifies TU, U1, U2
    ensures Extended(TU, U1, U2, TV, V1, V2, TA, TB) && TU.V() == old(TU.V()) - TV.V()
  {
    BezoutSubtract(U1.V(), U2.V(), V1.V(), V2.V(), TA.V(), TB.V(), TU.V(), TV.V());
    GcdSubtract(TU.V(), TV.V());
    hide Bezout, Gcd;
    Sub(TU, TU, TV);
    Sub(U1, U1, V1);
    Sub(U2, U2, V2);
  }

  method ExtendedRounds(TU: Num, U1: Num, U2: Num, TV: Num, V1: Num, V2: Num, TA: Num, TB: Num)
    requires Eight(TU, U1, U2, TV, V1, V2, TA, TB)
    requires Extended(TU, U1, U2, TV, V1, V2, TA, TB) && TU.V() > 0
    modifies TU, U1, U2, TV, V1, V2
    ensures Extended(TU, U1, U2, TV, V1, V2, TA, TB) && TU.V() == 0
  {
    var again := true;
    while again
      invariant Extended(TU, U1, U2, TV, V1, V2, TA, TB) && (again <==> TU.V() > 0)
      decreases TU.V() + TV.V()
    {
      ExtendedRound(TU, U1, U2, TV, V1, V2, TA, TB);
      var c := CmpInt(TU, 0);
      again := c != 0;
    }
  }

  /** The extended algorithm on A mod N and N. */
  method ExtendedGcd(A: Num, N: Num) returns (V1: Num)
    requires N.V() > 1 && Gcd(A.Abs(), N.Abs()) == 1
    ensures fresh(V1) && V1.p != [] && Cong(V1.V() * (A.V() % N.V()), 1, N.V())
  {
    ghost var n := N.V();
    var TA := new Num();
    var r := Mod(TA, A, N);
    CoprimeRemainder(A.V(), n);
    SetLimb(N.p);
    if TA.V() > 0 { SetLimb(TA.p); }
    var TU := new Num();
    var TB := new Num();
    var TV := new Num();
    Copy(TU, TA);
    Copy(TB, N);
    Copy(TV, N);
    V1 := FromUnits(TU, TV, TA, TB);
  }

  lemma UnitRelations(a: int, b: int)
    ensures Bezout(1, 0, a, b, a) && Bezout(0, 1, a, b, b)
  {}

  /** The loop from the unit relations 1 * TA + 0 * TB and 0 * TA + 1 * TB. */
  method FromUnits(TU: Num, TV: Num, TA: Num, TB: Num) returns (V1: Num)
    requires TU != TV && TU != TA && TU != TB && TV != TA && TV != TB && TA.p != [] && TB.p != []
    requires TU.V() == TA.V() > 0 && TV.V() == TB.V() > 0 && Gcd(TU.V(), TV.V()) == 1
    modifies TU, TV
    ensures fresh(V1) && V1.p != [] && Cong(V1.V() * TA.V(), 1, TB.V())
  {
    var U1 := new Num();
    var U2 := new Num();
    V1 := new Num();
    var V2 := new Num();
    Lset(U1, 1);
    Lset(U2, 0);
    Lset(V1, 0);
    Lset(V2, 1);
    CoprimeHasOdd(TA.V(), TB.V());
    UnitRelations(TA.V(), TB.V());
    hide Bezout, Gcd;
    ExtendedRounds(TU, U1, U2, TV, V1, V2, TA, TB);
    BezoutCong(V1.V(), V2.V(), TA.V(), TB.V(), TV.V());
  }

  lemma CoprimeRemainder(a: int, n: nat)
    requires n > 1 && Gcd(if a < 0 then -a else a, n) == 1
    ensures 0 < a % n < n && Gcd(a % n, n) == 1
  {
    GcdMod(a, n);
    if a % n == 0 { GcdSymmetric(0, n); }
  }

  lemma BezoutCong(v1: int, v2: int, ta: int, n: int, tv: nat)
    requires n > 0 && Bezout(v1, v2, ta, n, tv) && Gcd(0, tv) == 1
    ensures Cong(v1 * ta, 1, n)
  {
    GcdSymmetric(0, tv);
    CongBy(v1 * ta, 1, n, -v2);
  }

  /** The two loops that bring V1 into 0..N-1. */
  method ReduceInto(V1: Num, N: Num)
    requires V1 != N && V1.p != [] && N.p != [] && N.V() > 0
    modifies V1
    ensures V1.V() == old(V1.V()) % N.V()
  {
    ghost var v, n := V1.V(), N.V();
    var c := CmpInt(V1, 0);
    while c < 0
      invariant c == SignOf(V1.V()) && V1.V() % n == v % n && V1.p != []
      decreases n - V1.V()
    {
      ModPlus(V1.V(), n);
      Add(V1, V1, N);
      c := CmpInt(V1, 0);
    }
    c := Cmp(V1, N);
    while c >= 0
      invariant 0 <= V1.V() && c == SignOf(V1.V() - n) && V1.V() % n == v % n && V1.p != []
      decreases V1.V()
    {
      ModPlus(V1.V() - n, n);
      Sub(V1, V1, N);
      c := Cmp(V1, N);
    }
    DivModUnique(V1.V(), n, 0, V1.V());
  }

  /** Where the source gives up there is nothing to find: an inverse makes the
      two numbers coprime. */
  lemma InverseNeedsCoprime(x: int, a: int, n: nat)
    requires n > 1 && Inverse(x, a, n)
    ensures Gcd(if a < 0 then -a else a, n) == 1
  {
    var m := if a < 0 then -a else a;
    GcdIsGcd(m, n);
    var g := Gcd(m, n);
    if a < 0 { DividesNegated(g, m); }
    DividesOne(g, a, x, n);
  }

  lemma DividesOne(g: nat, a: int, x: int, n: nat)
    requires n > 0 && Divides(g, a) && Divides(g, n) && Cong(a * x, 1, n)
    ensures g == 1
  {
    hide *;
    var k := CongWitness(a * x, 1, n);
    DividesProduct(g, a, x);
    DividesSum(g, a * x, n, -k);
    MulComm(n, -k);
    DividesLe(g, 1);
  }

  lemma DividesProduct(d: nat, x: int, y: int)
    requires Divides(d, x)
    ensures Divides(d, x * y)
  {
    assert x == d * (x / d);
    MulAssoc(d, x / d, y);
    DivOf(x * y, d, (x / d) * y, 0);
  }

  /** And the inverse is unique. */
  lemma InverseUnique(x: int, y: int, a: int, n: nat)
    requires n > 1 && Inverse(x, a, n) && Inverse(y, a, n)
    ensures x == y
  {
    CongMul(a * x, 1, y, n);
    CongMul(a * y, 1, x, n);
    assert (a * x) * y == (a * y) * x;
    CongSym((a * x) * y, 1 * y, n);
    CongTrans(1 * y, (a * y) * x, 1 * x, n);
    CongMod(y, x, n);
    DivModUnique(x, n, 0, x);
  }

  lemma InverseFromBezout(v: int, a: int, n: int)
    requires n > 0 && Cong(v * (a % n), 1, n)
    ensures Inverse(v % n, a, n)
  {
    CongOfMod(v, n);
    CongOfMod(a, n);
    CongMulBoth(v % n, v, a, a % n, n) by { CongSym(a % n, a, n); }
    CongTrans((v % n) * a, v * (a % n), 1, n);
    MulComm(v % n, a);
  }

  /** X = A^-1 mod N. */
  method InvMod(X: Num, A: Num, N: Num) returns (ret: Status)
    modifies X
    ensures ret == if old(N.V()) <= 1 then BadInput
      else if Gcd(old(A.Abs()), old(N.Abs())) != 1 then NotAcceptable else Ok
    ensures ret == Ok ==> Inverse(X.V(), old(A.V()), old(N.V()))
    ensures ret != Ok ==> X.p == old(X.p) && X.s == old(X.s)
  {
    var c := CmpInt(N, 1);
    if c <= 0 { return BadInput; }
    var G := new Num();
    BinaryGcd(G, A, N);
    c := CmpInt(G, 1);
    if c != 0 { return NotAcceptable; }
    var V1 := ExtendedGcd(A, N);
    InverseFromBezout(V1.V(), A.V(), N.V());
    SetLimb(N.p);
    ReduceInto(V1, N);
    Copy(X, V1);
    ret := Ok;
  }
}
