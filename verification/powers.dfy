/** Powers of two and of a general base, and the integer facts the limb
    arithmetic rests on. */
module Powers {

  function Pow2(k: nat): (r: nat)
    ensures r >= 1
  {
    if k == 0 then 1 else 2 * Pow2(k - 1)
  }

  function Pow(b: int, e: nat): int
  {
    if e == 0 then 1 else b * Pow(b, e - 1)
  }

  lemma {:induction false} Pow2Add(a: nat, b: nat)
    ensures Pow2(a + b) == Pow2(a) * Pow2(b)
  {
    if a > 0 {
      Pow2Add(a - 1, b);
      assert Pow2(a + b) == 2 * Pow2(a - 1 + b);
      assert 2 * (Pow2(a - 1) * Pow2(b)) == (2 * Pow2(a - 1)) * Pow2(b);
    }
  }

  lemma Pow2Succ(k: nat)
    ensures Pow2(k + 1) == 2 * Pow2(k)
  {}

  lemma Pow2Even(k: nat)
    requires k > 0
    ensures Pow2(k) % 2 == 0
  {}

  lemma Pow2Four()
    ensures Pow2(4) == 16
  {
    assert Pow2(2) == 4;
  }

  lemma {:induction false} Pow2Mono(a: nat, b: nat)
    requires a <= b
    ensures Pow2(a) <= Pow2(b)
  {
    if a < b {
      Pow2Mono(a, b - 1);
    }
  }

  lemma {:induction false} Pow2Strict(a: nat, b: nat)
    requires Pow2(a) < Pow2(b)
    ensures a < b
  {
    if b <= a { Pow2Mono(b, a); }
  }

  lemma {:induction false} PowAdd(b: int, m: nat, n: nat)
    ensures Pow(b, m + n) == Pow(b, m) * Pow(b, n)
  {
    if m > 0 {
      PowAdd(b, m - 1, n);
      assert b * (Pow(b, m - 1) * Pow(b, n)) == (b * Pow(b, m - 1)) * Pow(b, n);
    }
  }

  lemma {:induction false} PowPositive(b: int, e: nat)
    requires b >= 1
    ensures Pow(b, e) >= 1
  {
    if e > 0 {
      PowPositive(b, e - 1);
      MulGe(1, b, Pow(b, e - 1));
    }
  }

  /** A power of a power of two is a power of two. */
  lemma {:induction false} PowOfPow2(k: nat, e: nat)
    ensures Pow(Pow2(k), e) == Pow2(k * e)
  {
    if e > 0 {
      PowOfPow2(k, e - 1);
      assert k * e == k + k * (e - 1);
      Pow2Add(k, k * (e - 1));
    }
  }

  // ----- order and products -----

  lemma MulGe(a: int, b: int, w: int)
    requires a <= b && w >= 0
    ensures a * w <= b * w
  {}

  lemma MulGt(a: int, b: int, w: int)
    requires a < b && w > 0
    ensures a * w < b * w
  {}

  lemma MulNonNeg(a: int, b: int)
    requires a >= 0 && b >= 0
    ensures a * b >= 0
  {}

  lemma SmallQuotient(w: int, x: int, h: int)
    requires w > 0 && x >= 0 && h >= 0 && x + w * h < w
    ensures h == 0
  {
    if h > 0 {
      MulGe(1, h, w);
      assert false;
    }
  }

  lemma ParityStep(x: int, b: int, v: int)
    requires b % 2 == 0
    ensures (x + b * v) % 2 == x % 2
  {
    var h := b / 2;
    assert b == 2 * h;
    assert b * v == 2 * (h * v);
  }

  /** Euclidean division is unique. */
  lemma DivModUnique(a: int, b: int, q: int, r: int)
    requires b > 0 && 0 <= r < b && a == q * b + r
    ensures a / b == q && a % b == r
  {
    var q' := a / b;
    assert (q' + 1) * b == q' * b + b && (q + 1) * b == q * b + b;
    if q' < q {
      MulGe(q' + 1, q, b);
      assert false;
    } else if q < q' {
      MulGe(q + 1, q', b);
      assert false;
    }
  }

  lemma DigitUnique(b: int, x: int, h: int, y: int, k: int)
    requires 0 <= x < b && 0 <= y < b && x + b * h == y + b * k
    ensures x == y && h == k
  {
    DivModUnique(x + b * h, b, h, x);
    DivModUnique(x + b * h, b, k, y);
  }

  lemma DivOf(a: int, b: int, q: int, r: int)
    requires 0 <= r < b && a == r + b * q
    ensures a / b == q && a % b == r
  {
    DivModUnique(a, b, q, r);
  }

  lemma MulComm(x: int, y: int)
    ensures x * y == y * x
  {}

  lemma MulAssoc(x: int, y: int, z: int)
    ensures x * (y * z) == (x * y) * z
  {}

  lemma Distribute(k: int, x: int, y: int)
    ensures k * (x + y) == k * x + k * y
    ensures (x + y) * k == x * k + y * k
  {}

  lemma DivBounds(x: int, w: int)
    requires w > 0 && x >= 0
    ensures 0 <= x / w <= x && 0 <= x % w < w && x == w * (x / w) + x % w
  {
    if x / w > x { MulGe(x + 1, x / w, w); MulGe(1, w, x + 1); }
  }
}
