/** The greatest common divisor, as Euclid computes it and as a fact about
    divisors. */
module Divisors {
  import opened Powers

  function Gcd(a: nat, b: nat): nat
    decreases b
  {
    if b == 0 then a else Gcd(b, a % b)
  }

  ghost predicate Divides(d: nat, x: int) {
    d > 0 && x % d == 0
  }

  ghost predicate IsGcd(g: nat, a: nat, b: nat) {
    && Divides(g, a) && Divides(g, b)
    && forall d: nat :: Divides(d, a) && Divides(d, b) ==> Divides(d, g)
  }

  lemma DividesSum(d: nat, x: int, y: int, k: int)
    requires Divides(d, x) && Divides(d, y)
    ensures Divides(d, x + k * y)
  {
    var i, j := x / d, y / d;
    assert x == d * i && y == d * j;
    assert k * (d * j) == d * (k * j);
    Distribute(d, i, k * j);
    DivOf(x + k * y, d, i + k * j, 0);
  }

  lemma DividesLe(d: nat, x: int)
    requires Divides(d, x) && x > 0
    ensures d <= x
  {
    var q := x / d;
    assert x == d * q;
    MulComm(d, q);
    if q <= 0 { MulGe(q, 0, d); } else { MulGe(1, q, d); }
  }

  lemma DividesTrans(d: nat, e: nat, x: int)
    requires Divides(d, e) && Divides(e, x)
    ensures Divides(d, x)
  {
    var i, j := e / d, x / e;
    assert e == d * i && x == e * j;
    MulAssoc(d, i, j);
    DivOf(x, d, i * j, 0);
  }

  /** Euclid's answer is a common divisor that all common divisors divide. */
  lemma {:induction false} GcdIsGcd(a: nat, b: nat)
    requires a > 0 || b > 0
    ensures IsGcd(Gcd(a, b), a, b)
    decreases b
  {
    if b == 0 {
      DivOf(a, a, 1, 0);
      DivOf(0, a, 0, 0);
    } else {
      var g := Gcd(b, a % b);
      GcdIsGcd(b, a % b);
      DivBounds(a, b);
      DividesSum(g, a % b, b, a / b);
      MulComm(b, a / b);
      forall d: nat | Divides(d, a) && Divides(d, b)
        ensures Divides(d, g)
      {
        DividesSum(d, a, b, 0 - a / b);
        assert (0 - a / b) * b == 0 - b * (a / b);
        assert Divides(d, a % b);
      }
    }
  }

  /** The gcd is a combination of the two numbers. */
  lemma {:induction false} Bezout(a: nat, b: nat) returns (u: int, v: int)
    ensures u * a + v * b == Gcd(a, b)
    decreases b
  {
    if b == 0 {
      u, v := 1, 0;
    } else {
      var x, y := Bezout(b, a % b);
      u, v := y, x - y * (a / b);
      BezoutStep(a, b, a / b, a % b, x, y);
    }
  }

  lemma BezoutStep(a: int, b: int, q: int, r: int, x: int, y: int)
    requires a == b * q + r
    ensures y * a + (x - y * q) * b == x * b + y * r
  {
    assert y * (b * q) == (y * q) * b;
  }

  lemma GcdUnique(g: nat, a: nat, b: nat)
    requires (a > 0 || b > 0) && IsGcd(g, a, b)
    ensures g == Gcd(a, b)
  {
    GcdIsGcd(a, b);
    DividesLe(g, Gcd(a, b));
    DividesLe(Gcd(a, b), g);
  }

  /** Pairs with the same common divisors have the same gcd. */
  lemma SameGcd(a: nat, b: nat, a': nat, b': nat)
    requires (a > 0 || b > 0) && (a' > 0 || b' > 0)
    requires forall d: nat :: Divides(d, a) && Divides(d, b) <==> Divides(d, a') && Divides(d, b')
    ensures Gcd(a, b) == Gcd(a', b')
  {
    GcdIsGcd(a, b);
    var g := Gcd(a, b);
    assert Divides(g, a') && Divides(g, b');
    GcdUnique(g, a', b');
  }

  lemma GcdSymmetric(a: nat, b: nat)
    ensures Gcd(a, b) == Gcd(b, a)
  {
    if a > 0 || b > 0 { SameGcd(a, b, b, a); }
  }

  lemma GcdSubtract(a: nat, b: nat)
    requires b > 0 && a >= b
    ensures Gcd(a - b, b) == Gcd(a, b)
  {
    forall d: nat
      ensures Divides(d, a - b) && Divides(d, b) <==> Divides(d, a) && Divides(d, b)
    {
      if Divides(d, a - b) && Divides(d, b) { DividesSum(d, a - b, b, 1); }
      if Divides(d, a) && Divides(d, b) { DividesSum(d, a, b, -1); }
    }
    SameGcd(a - b, b, a, b);
  }

  /** A factor of two of one number does not count when the other is odd. */
  lemma GcdHalve(a: nat, b: nat)
    requires a > 0 && a % 2 == 0 && b % 2 == 1
    ensures Gcd(a / 2, b) == Gcd(a, b)
  {
    forall d: nat
      ensures Divides(d, a / 2) && Divides(d, b) <==> Divides(d, a) && Divides(d, b)
    {
      if Divides(d, a / 2) && Divides(d, b) { DividesSum(d, a / 2, a / 2, 1); }
      if Divides(d, a) && Divides(d, b) { OddDivides(d, a / 2, b); }
    }
    SameGcd(a / 2, b, a, b);
  }

  lemma OddDivides(d: nat, h: nat, b: nat)
    requires Divides(d, 2 * h) && Divides(d, b) && b % 2 == 1
    ensures Divides(d, h)
  {
    var q, r := (2 * h) / d, b / d;
    assert 2 * h == d * q && b == d * r;
    OddFactors(d, r, b);
    EvenFactor(d, q, h);
    var e := d / 2;
    assert d * q == 2 * (e * q) + q;
    assert q == 2 * (q / 2);
    assert d * (2 * (q / 2)) == 2 * (d * (q / 2));
    DivOf(h, d, q / 2, 0);
  }

  lemma OddFactors(d: nat, r: int, b: nat)
    requires b == d * r && b % 2 == 1
    ensures d % 2 == 1
  {
    var e := d / 2;
    assert d * r == 2 * (e * r) + (d % 2) * r;
  }

  lemma EvenFactor(d: nat, q: int, h: nat)
    requires d % 2 == 1 && d * q == 2 * h
    ensures q % 2 == 0
  {
    assert d * q == 2 * (d / 2 * q) + q;
  }

  /** Taking out any number of twos. */
  lemma {:induction false} GcdStrip(a: nat, b: nat, k: nat)
    requires a > 0 && a % Pow2(k) == 0 && b % 2 == 1
    ensures a / Pow2(k) > 0 && Gcd(a / Pow2(k), b) == Gcd(a, b)
  {
    if k == 0 {
      DivOf(a, 1, a, 0);
    } else {
      var w := Pow2(k - 1);
      var q := a / Pow2(k);
      assert a == 2 * w * q;
      assert 2 * w * q == 2 * (w * q);
      assert a / 2 == w * q;
      DivOf(a / 2, w, q, 0);
      GcdHalve(a, b);
      GcdStrip(a / 2, b, k - 1);
    }
  }

  lemma GcdDouble(a: nat, b: nat)
    requires a > 0 || b > 0
    ensures Gcd(2 * a, 2 * b) == 2 * Gcd(a, b)
  {
    var g := Gcd(2 * a, 2 * b);
    GcdIsGcd(a, b);
    GcdIsGcd(2 * a, 2 * b);
    var h := Gcd(a, b);
    DoubleDivides(h, a);
    DoubleDivides(h, b);
    assert Divides(2 * h, g);
    DivOf(2 * a, 2, a, 0);
    DivOf(2 * b, 2, b, 0);
    assert Divides(2, g);
    var k := g / 2;
    HalfDivides(k, a);
    HalfDivides(k, b);
    assert Divides(k, h);
    DividesLe(k, h);
    DividesLe(2 * h, g);
  }

  lemma DoubleDivides(d: nat, x: int)
    requires Divides(d, x)
    ensures Divides(2 * d, 2 * x)
  {
    var q := x / d;
    assert x == d * q;
    assert 2 * x == (2 * d) * q;
    DivOf(2 * x, 2 * d, q, 0);
  }

  lemma HalfDivides(k: nat, x: int)
    requires k > 0 && Divides(2 * k, 2 * x)
    ensures Divides(k, x)
  {
    var q := (2 * x) / (2 * k);
    assert 2 * x == (2 * k) * q;
    assert x == k * q by { assert (2 * k) * q == 2 * (k * q); }
    DivOf(x, k, q, 0);
  }

  lemma {:induction false} GcdScale(a: nat, b: nat, k: nat)
    requires a > 0 || b > 0
    ensures Gcd(a * Pow2(k), b * Pow2(k)) == Gcd(a, b) * Pow2(k)
  {
    if k > 0 {
      GcdScale(a, b, k - 1);
      var w := Pow2(k - 1);
      ScaleTwice(a, w);
      ScaleTwice(b, w);
      ScaleTwice(Gcd(a, b), w);
      if a > 0 { MulGt(0, a, w); } else { MulGt(0, b, w); }
      GcdDouble(a * w, b * w);
    }
  }

  lemma ScaleTwice(x: nat, w: nat)
    ensures x * (2 * w) == 2 * (x * w) && x * w >= 0
  {
    MulNonNeg(x, w);
  }

  /** A number that divides both is a divisor of one; so coprime stays coprime
      for divisors. */
  lemma CoprimeDivisor(a: nat, a': nat, b: nat)
    requires a > 0 && Gcd(a, b) == 1 && Divides(a', a)
    ensures Gcd(a', b) == 1
  {
    GcdIsGcd(a, b);
    GcdIsGcd(a', b);
    var g := Gcd(a', b);
    DividesTrans(g, a', a);
    assert Divides(g, 1);
    DividesLe(g, 1);
  }

  /** The remainder keeps the gcd. */
  lemma GcdMod(a: int, n: nat)
    requires n > 0
    ensures Gcd(a % n, n) == Gcd(if a < 0 then -a else a, n)
  {
    var m := if a < 0 then -a else a;
    forall d: nat
      ensures Divides(d, a % n) && Divides(d, n) <==> Divides(d, m) && Divides(d, n)
    {
      if Divides(d, n) {
        if Divides(d, a % n) { FromRemainder(d, a, n); }
        if Divides(d, m) { ToRemainder(d, a, n); }
      }
    }
    SameGcd(a % n, n, m, n);
  }

  lemma DividesNegated(d: nat, x: int)
    requires Divides(d, x)
    ensures Divides(d, -x)
  {
    assert x == d * (x / d);
    DivOf(-x, d, -(x / d), 0);
  }

  lemma FromRemainder(d: nat, a: int, n: nat)
    requires n > 0 && Divides(d, n) && Divides(d, a % n)
    ensures Divides(d, if a < 0 then -a else a)
  {
    assert a == a % n + (a / n) * n;
    DividesSum(d, a % n, n, a / n);
    if a < 0 { DividesNegated(d, a); }
  }

  lemma ToRemainder(d: nat, a: int, n: nat)
    requires n > 0 && Divides(d, n) && Divides(d, if a < 0 then -a else a)
    ensures Divides(d, a % n)
  {
    if a < 0 { DividesNegated(d, -a); }
    assert a % n == a + (-(a / n)) * n;
    DividesSum(d, a, n, -(a / n));
  }
}
