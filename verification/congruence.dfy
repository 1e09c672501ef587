/** Congruences modulo a positive integer. */
module Congruence {
  import opened Powers

  /** x and y differ by a multiple of m. */
  ghost predicate Cong(x: int, y: int, m: int)
    requires m > 0
  {
    (x - y) % m == 0
  }

  lemma CongBy(x: int, y: int, m: int, k: int)
    requires m > 0 && x - y == k * m
    ensures Cong(x, y, m)
  {
    DivModUnique(x - y, m, k, 0);
  }

  lemma CongWitness(x: int, y: int, m: int) returns (k: int)
    requires m > 0 && Cong(x, y, m)
    ensures x - y == k * m
  {
    k := (x - y) / m;
    MulComm(k, m);
  }

  lemma CongSelf(x: int, m: int)
    requires m > 0
    ensures Cong(x, x, m)
  {
    CongBy(x, x, m, 0);
  }

  lemma CongTrans(x: int, y: int, z: int, m: int)
    requires m > 0 && Cong(x, y, m) && Cong(y, z, m)
    ensures Cong(x, z, m)
  {
    var j := CongWitness(x, y, m);
    var k := CongWitness(y, z, m);
    Distribute(m, j, k);
    CongBy(x, z, m, j + k);
  }

  lemma CongSym(x: int, y: int, m: int)
    requires m > 0 && Cong(x, y, m)
    ensures Cong(y, x, m)
  {
    var k := CongWitness(x, y, m);
    CongBy(y, x, m, -k);
  }

  lemma CongMul(x: int, y: int, c: int, m: int)
    requires m > 0 && Cong(x, y, m)
    ensures Cong(x * c, y * c, m)
  {
    var k := CongWitness(x, y, m);
    Distribute(c, x, 0 - y);
    assert (k * m) * c == (k * c) * m;
    CongBy(x * c, y * c, m, k * c);
  }

  lemma CongMulBoth(x: int, x': int, y: int, y': int, m: int)
    requires m > 0 && Cong(x, x', m) && Cong(y, y', m)
    ensures Cong(x * y, x' * y', m)
  {
    CongMul(x, x', y, m);
    CongMul(y, y', x', m);
    MulComm(y, x');
    MulComm(y', x');
    CongTrans(x * y, x' * y, x' * y', m);
  }

  /** The representative in 0..m-1 is unique. */
  lemma CongMod(x: int, y: int, m: int)
    requires m > 0 && Cong(x, y, m) && 0 <= x < m
    ensures x == y % m
  {
    var k := CongWitness(x, y, m);
    DivModUnique(y, m, -k, x);
  }

  lemma CongOfMod(x: int, m: int)
    requires m > 0
    ensures Cong(x % m, x, m)
  {
    CongBy(x % m, x, m, -(x / m));
  }

  /** An odd modulus: factors of two cancel. */
  lemma {:induction false} CancelPow2(x: int, y: int, k: nat, m: int)
    requires m > 0 && m % 2 == 1 && Cong(x * Pow2(k), y * Pow2(k), m)
    ensures Cong(x, y, m)
  {
    if k > 0 {
      var w := Pow2(k - 1);
      HalveScaled(x, y, w, m);
      CancelPow2(x, y, k - 1, m);
    }
  }

  lemma HalveScaled(x: int, y: int, w: int, m: int)
    requires m > 0 && m % 2 == 1 && Cong(x * (2 * w), y * (2 * w), m)
    ensures Cong(x * w, y * w, m)
  {
    var q := CongWitness(x * (2 * w), y * (2 * w), m);
    var d := x * w - y * w;
    assert 2 * d == q * m;
    HalfOdd(q, m, d);
    CongBy(x * w, y * w, m, q / 2);
  }

  lemma HalfOdd(q: int, m: int, d: int)
    requires m % 2 == 1 && 2 * d == q * m
    ensures d == (q / 2) * m
  {
    var h := m / 2;
    assert q * m == 2 * (q * h) + q;
    assert q == 2 * (q / 2);
    assert 2 * d == 2 * ((q / 2) * m);
  }
}
