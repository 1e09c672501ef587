/** Division of a two-limb number by one limb, in half-limb steps. */
module LimbDivision {
  import opened Powers
  import opened Limbs
  import opened Mpi
  import opened Bits

  /** 2^biH, the radix of half-limb arithmetic. */
  function Radix(): (h: nat)
    ensures h >= 2 && h * h == Base() && h % 2 == 0
  {
    BaseBits();
    Pow2Add(BIH, BIH);
    Pow2Mono(1, BIH);
    assert BIL == BIH + BIH;
    assert Pow2(1) == 2;
    Pow2Even(BIH);
    Pow2(BIH)
  }

  lemma ModShift(x: int, b: int, k: int)
    requires b > 0
    ensures (x + b * k) % b == x % b
  {
    DivModUnique(x + b * k, b, x / b + k, x % b);
  }

  /** Intermediate wrapping does not show in the final result. */
  lemma ModSum(b: int, a: int, m: int, c: int)
    requires b > 0
    ensures (a % b + (m - c % b) % b) % b == (a + m - c) % b
  {
    var e := m - c % b;
    var ka, kc, ke := a / b, c / b, e / b;
    assert a == b * ka + a % b && c == b * kc + c % b && e == b * ke + e % b;
    ModSumParts(b, ka, a % b, kc, c % b, ke, e % b, m);
    ModShift(a + m - c, b, kc - ka - ke);
  }

  lemma ModSumParts(b: int, ka: int, ra: int, kc: int, rc: int, ke: int, re: int, m: int)
    requires m - rc == b * ke + re
    ensures ra + re == (b * ka + ra) + m - (b * kc + rc) + b * (kc - ka - ke)
  {
    Distribute(b, kc, 0 - ka);
    Distribute(b, kc - ka, 0 - ke);
    Distribute(b, ka, 0 - ka);
    Distribute(b, ke, 0 - ke);
  }

  /** The test on the low half of d decides whether q is too large. */
  lemma DigitGuard(q: int, r: int, u: int, w: int, d: int, d1: int, d0: int, h: int)
    requires q * d1 + r == u && d == d1 * h + d0
    ensures q * d - (u * h + w) == q * d0 - (h * r + w)
  {
    assert q * d == (q * d1) * h + q * d0;
    assert u * h == (q * d1) * h + r * h;
  }

  lemma FirstGuess(u: int, w: int, d: int, d1: int, d0: int, h: int)
    requires DigitSetup(u, w, d, d1, d0, h)
    ensures d1 > 0 && DigitInv(u / d1, u - d1 * (u / d1), u, w, d, d1, d0, h)
  {
    DivBounds(u, d1);
    var q := u / d1;
    assert (h + 2) * d1 == d1 * h + 2 * d1;
    if q > h + 1 { MulGe(h + 2, q, d1); }
    GuessHigh(u, w, q, u - d1 * q, d, d1, d0, h);
  }

  /** q and r split u by d1, and q is not too small for the quotient of
      u * h + w by d. */
  ghost predicate DigitInv(q: int, r: int, u: int, w: int, d: int, d1: int, d0: int, h: int) {
    && 0 <= q <= h + 1 && 0 <= r && q * d1 + r == u
    && u * h + w < (q + 1) * d
  }

  ghost predicate DigitSetup(u: int, w: int, d: int, d1: int, d0: int, h: int) {
    h >= 2 && 0 <= u < d && 0 <= w < h && d == d1 * h + d0 && 0 <= d0 < h && 2 * d1 >= h
  }

  /** One half-limb quotient digit (Knuth's step D3, on two half-limbs). */
  method QuotientDigit(u: Limb, w: nat, d: Limb, d1: nat, d0: nat) returns (q: nat)
    requires DigitSetup(u, w, d, d1, d0, Radix())
    ensures q == (u * Radix() + w) / d && q < Radix()
    ensures 0 <= u * Radix() + w - q * d < d
  {
    hide DigitInv, DigitSetup, Radix, Base, Pow2, Val, BPow, Pow;
    var h := Radix();
    FirstGuess(u, w, d, d1, d0, h);
    q := u / d1;
    var r0 := u - d1 * q;
    while q >= h || q * d0 > h * r0 + w
      invariant DigitInv(q, r0, u, w, d, d1, d0, h)
      decreases q
    {
      DigitStep(q, r0, u, w, d, d1, d0, h);
      q := q - 1;
      r0 := r0 + d1;
      if r0 >= h { break; }
    }
    DigitDone(q, r0, u, w, d, d1, d0, h);
  }

  lemma DigitStep(q: int, r: int, u: int, w: int, d: int, d1: int, d0: int, h: int)
    requires DigitSetup(u, w, d, d1, d0, h) && DigitInv(q, r, u, w, d, d1, d0, h)
    requires q >= h || q * d0 > h * r + w
    ensures q >= 1 && DigitInv(q - 1, r + d1, u, w, d, d1, d0, h)
    ensures r + d1 >= h ==> q - 1 <= h && (q - 1) * d0 <= h * (r + d1) + w
  {
    DigitGuard(q, r, u, w, d, d1, d0, h);
    NextBound(u, w, d, h);
    TooLarge(q, u * h + w, d, h);
    assert (q - 1) * d1 + (r + d1) == q * d1 + r;
    if q <= 0 { MulGe(q, 0, d); }
    if r + d1 >= h { GuardHolds(q - 1, r + d1, d0, h, w); }
  }

  /** Leaving the loop by either exit, q is exactly the quotient. */
  lemma DigitDone(q: int, r: int, u: int, w: int, d: int, d1: int, d0: int, h: int)
    requires DigitSetup(u, w, d, d1, d0, h) && DigitInv(q, r, u, w, d, d1, d0, h)
    requires q * d0 <= h * r + w
    ensures q == (u * h + w) / d && 0 <= q < h
    ensures 0 <= u * h + w - q * d < d
  {
    DigitGuard(q, r, u, w, d, d1, d0, h);
    NextBound(u, w, d, h);
    QuotientIs(q, u * h + w, d, h);
  }

  lemma NextBound(u: int, w: int, d: int, h: int)
    requires 0 <= u < d && 0 <= w < h
    ensures 0 <= u * h + w < d * h
  {
    MulNonNeg(u, h);
    MulGe(u + 1, d, h);
  }

  lemma GuessHigh(u: int, w: int, q: int, r: int, d: int, d1: int, d0: int, h: int)
    requires q * d1 + r == u && 0 <= r < d1 && d == d1 * h + d0 && d0 >= 0 && q >= 0 && 0 <= w < h
    ensures u * h + w < (q + 1) * d
  {
    MulGe(u + 1, (q + 1) * d1, h);
    assert (q + 1) * d == ((q + 1) * d1) * h + (q + 1) * d0;
    MulNonNeg(q + 1, d0);
  }

  lemma TooLarge(q: int, n: int, d: int, h: int)
    requires 0 <= n < d * h && d > 0 && (q >= h || q * d > n)
    ensures n < q * d
  {
    if q >= h { MulGe(h, q, d); }
  }

  lemma GuardHolds(q: int, r: int, d0: int, h: int, w: int)
    requires 0 <= q <= h && r >= h && 0 <= d0 < h && w >= 0
    ensures q * d0 <= h * r + w
  {
    MulGe(q, h, d0);
    MulGe(d0, r, h);
  }

  lemma QuotientIs(q: int, n: int, d: int, h: int)
    requires d > 0 && n < (q + 1) * d && q * d <= n < d * h
    ensures q == n / d && q < h && 0 <= n - q * d < d
  {
    assert (q + 1) * d == q * d + d;
    DivModUnique(n, d, q, n - q * d);
    if q >= h { MulGe(h, q, d); }
  }

  lemma ModExact(b: int, a: int, m: int, c: int)
    requires b > 0 && 0 <= a + m - c < b
    ensures (a % b + (m - c % b) % b) % b == a + m - c
  {
    ModSum(b, a, m, c);
    DivModUnique(a + m - c, b, 0, a + m - c);
  }

  /** d and u1:u0 moved left until the top bit of d is set. */
  method Normalise(u1: Limb, u0: Limb, d: Limb, s: nat) returns (v1: Limb, v0: Limb, dn: Limb)
    requires s < BIL && u1 < d && HasBits(d, BIL - s)
    ensures dn == d * Pow2(s) && 2 * dn >= Base() && v1 < dn
    ensures v1 * Base() + v0 == (u1 * Base() + u0) * Pow2(s)
  {
    NormaliseFacts(u1, u0, d, s);
    dn := (d * Pow2(s)) % Base();
    v1 := (u1 * Pow2(s)) % Base() + SpillOver(u0, s);
    v0 := (u0 * Pow2(s)) % Base();
  }

  /** The bits of u0 that a left shift by s moves into the limb above. */
  function SpillOver(u0: Limb, s: nat): Limb
    requires s < BIL
  {
    DivBounds(u0, Pow2(BIL - s));
    if s == 0 then 0 else u0 / Pow2(BIL - s)
  }

  lemma NormaliseFacts(u1: Limb, u0: Limb, d: Limb, s: nat)
    requires s < BIL && u1 < d && HasBits(d, BIL - s)
    ensures (d * Pow2(s)) % Base() == d * Pow2(s)
    ensures 2 * (d * Pow2(s)) >= Base()
    ensures 0 <= (u1 * Pow2(s)) % Base() + SpillOver(u0, s) < d * Pow2(s)
    ensures ((u1 * Pow2(s)) % Base() + SpillOver(u0, s)) * Base() + (u0 * Pow2(s)) % Base()
         == (u1 * Base() + u0) * Pow2(s)
  {
    hide SpillOver, Base, Pow2;
    HalfPowers(s);
    LimbSpill(u0, s);
    NormaliseStep(u1, u0, d, Pow2(s), Pow2(BIL - s), Pow2(BIL - s - 1), Base(),
                  SpillOver(u0, s), (u0 * Pow2(s)) % Base());
    assert (u1 * Pow2(s)) % Base() == u1 * Pow2(s);
  }

  lemma HalfPowers(s: nat)
    requires s < BIL
    ensures Base() == Pow2(s) * Pow2(BIL - s)
    ensures Base() == 2 * (Pow2(s) * Pow2(BIL - s - 1))
  {
    BaseBits();
    Pow2Add(s, BIL - s);
    Pow2Add(s, BIL - s - 1);
    assert Pow2(BIL) == 2 * Pow2(BIL - 1);
  }

  lemma LimbSpill(u0: Limb, s: nat)
    requires s < BIL
    ensures u0 * Pow2(s) == (u0 * Pow2(s)) % Base() + SpillOver(u0, s) * Base()
  {
    LimbShiftUp(u0, s);
    if s == 0 { BaseBits(); DivModUnique(u0, Base(), 0, u0); }
  }

  lemma NormaliseStep(u1: int, u0: int, d: int, p: int, g: int, g': int, b: int, hi: int, v0: int)
    requires p > 0 && b == p * g && b == 2 * (p * g') && 0 <= u1 < d < g && d >= g'
    requires u0 * p == v0 + hi * b && 0 <= v0 && 0 <= u0 < b && 0 <= hi
    ensures (d * p) % b == d * p && (u1 * p) % b == u1 * p && 2 * (d * p) >= b
    ensures u1 * p + hi < d * p < b && 0 <= u1 * p
    ensures (u1 * p + hi) * b + v0 == (u1 * b + u0) * p
  {
    MulGt(d, g, p);
    MulGe(g', d, p);
    MulGt(u1, d, p);
    MulNonNeg(u1, p);
    MulComm(p, g);
    MulComm(p, g');
    DivModUnique(d * p, b, 0, d * p);
    DivModUnique(u1 * p, b, 0, u1 * p);
    NormalisedValue(u1, u0, p, b, hi, v0);
    MulGe(u1 + 1, d, b);
    Distribute(b, u1, 1);
    MulGt(u1 * b + u0, d * b, p);
    MulComm(b, p);
    MulAssoc(d, b, p);
    MulAssoc(d, p, b);
    BelowFromScaled(u1 * p + hi, v0, d * p, b);
  }

  lemma NormalisedValue(u1: int, u0: int, p: int, b: int, hi: int, v0: int)
    requires u0 * p == v0 + hi * b
    ensures (u1 * p + hi) * b + v0 == (u1 * b + u0) * p
  {
    Distribute(b, u1 * p, hi);
    Distribute(p, u1 * b, u0);
    MulAssoc(u1, p, b);
    MulAssoc(u1, b, p);
    MulComm(p, b);
  }

  lemma BelowFromScaled(x: int, v: int, y: int, b: int)
    requires b > 0 && v >= 0 && x * b + v < y * b
    ensures x < y
  {
    if x >= y { MulGe(y, x, b); }
  }

  lemma HalfLimbs(x: Limb)
    ensures 0 <= x / Radix() < Radix() && 0 <= x % Radix() < Radix()
    ensures x == (x / Radix()) * Radix() + x % Radix()
  {
    QuotientBelow(x, Radix(), Radix());
  }

  /** Two quotient digits, the second on what the first leaves. */
  method DivNormalised(u1: Limb, u0: Limb, d: Limb) returns (q: Limb, r: Limb)
    requires u1 < d && 2 * d >= Base()
    ensures r < d && q * d + r == u1 * Base() + u0
  {
    var h := Radix();
    HalfLimbs(d);
    HalfLimbs(u0);
    HighHalfLarge(d, d / h, d % h, h);
    var q1, rAX := QuotientStep(u1, u0 / h, d);
    var q0;
    q0, r := QuotientStep(rAX, u0 % h, d);
    DigitsFit(q1, q0, h);
    MulNonNeg(q1, h);
    q := q1 * h + q0;
    TwoDigits(u1, u0, u0 / h, u0 % h, d, q1, q0, rAX, h, Base(), q, r);
  }

  /** A quotient digit and, in wrapping limb arithmetic, what it leaves. */
  method QuotientStep(u: Limb, w: nat, d: Limb) returns (q: nat, r: Limb)
    requires DigitSetup(u, w, d, d / Radix(), d % Radix(), Radix())
    ensures q < Radix() && r < d && r == u * Radix() + w - q * d
  {
    hide Base, Radix;
    var h := Radix();
    q := QuotientDigit(u, w, d, d / h, d % h);
    ModExact(Base(), u * h, w, q * d);
    r := ((u * h) % Base() + (w - (q * d) % Base()) % Base()) % Base();
  }

  lemma HighHalfLarge(d: int, d1: int, d0: int, h: int)
    requires d == d1 * h + d0 && 0 <= d0 < h && h > 1 && h % 2 == 0 && 2 * d >= h * h
    ensures 2 * d1 >= h
  {
    if 2 * d1 < h {
      MulGe(2 * d1 + 2, h, h);
    }
  }

  lemma DigitsFit(q1: int, q0: int, h: int)
    requires 0 <= q1 < h && 0 <= q0 < h
    ensures 0 <= q1 * h + q0 < h * h
  {
    MulGe(q1, h - 1, h);
    MulNonNeg(q1, h);
  }

  lemma TwoDigits(u1: int, u0: int, m: int, l: int, d: int, q1: int, q0: int, x: int, h: int, b: int, q: int, r: int)
    requires b == h * h && u0 == m * h + l
    requires x == u1 * h + m - q1 * d && r == x * h + l - q0 * d && q == q1 * h + q0
    ensures q * d + r == u1 * b + u0
  {
    assert q * d == (q1 * d) * h + q0 * d;
    assert x * h == (u1 * h) * h + m * h - (q1 * d) * h;
    MulAssoc(u1, h, h);
  }

  /** Quotient and remainder of u1:u0 by d on half-limbs; all ones in both when
      the quotient would not fit in a limb. */
  method IntDivInt(u1: Limb, u0: Limb, d: Limb) returns (q: Limb, r: Limb)
    ensures d == 0 || u1 >= d ==> q == r == Base() - 1
    ensures u1 < d ==> q == (u1 * Base() + u0) / d && r == (u1 * Base() + u0) % d
  {
    if d == 0 || u1 >= d {
      return Base() - 1, Base() - 1;
    }
    var s := Clz(d);
    var v1, v0, dn := Normalise(u1, u0, d, s);
    var rn;
    q, rn := DivNormalised(v1, v0, dn);
    Denormalise(q, rn, u1 * Base() + u0, d, Pow2(s));
    r := rn / Pow2(s);
  }

  lemma Denormalise(q: int, r: int, n: int, d: int, p: int)
    requires p > 0 && d > 0 && 0 <= r < d * p && q * (d * p) + r == n * p
    ensures q == n / d && r / p == n % d && 0 <= r / p <= r
  {
    var m := n - q * d;
    assert m * p == r by { Distribute(p, n, 0 - q * d); MulAssoc(q, d, p); }
    if m < 0 { MulGe(m, -1, p); }
    if m >= d { MulGe(d, m, p); }
    DivModUnique(n, d, q, m);
    DivModUnique(r, p, m, 0);
    DivBounds(r, p);
  }
}
