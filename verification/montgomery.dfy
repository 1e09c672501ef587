/** Montgomery's constant and multiplication. */
module Montgomery {
  import opened Powers
  import opened Limbs
  import opened Congruence
  import opened Mpi
  import opened LimbDivision

  // ----- the constant -----

  /** The inverse modulo 16 that the iteration starts from: m + 8 * bit 2 of m + 2. */
  function Start(m: nat): nat {
    m + 8 * (((m + 2) / 4) % 2)
  }

  lemma StartInverse(m: nat)
    requires m % 2 == 1
    ensures (m * Start(m) - 1) % 16 == 0
  {
    var r := m % 16;
    SmallStart(r);
    StartBit(m);
    StartExpand(m / 16, r, ((m + 2) / 4) % 2, m);
  }

  lemma StartBit(m: nat)
    ensures ((m + 2) / 4) % 2 == ((m % 16 + 2) / 4) % 2
  {
    var q, r := m / 16, m % 16;
    var k := (r + 2) / 4;
    DivOf(m + 2, 4, 4 * q + k, (r + 2) % 4);
    DivOf(4 * q + k, 2, 2 * q + k / 2, k % 2);
  }

  lemma SmallStart(r: nat)
    requires r < 16 && r % 2 == 1
    ensures var b := ((r + 2) / 4) % 2; (r * (r + 8 * b) - 1) % 16 == 0
  {
    assert r == 1 || r == 3 || r == 5 || r == 7 || r == 9 || r == 11 || r == 13 || r == 15;
  }

  lemma StartExpand(q: int, r: int, b: int, m: int)
    requires m == 16 * q + r && (r * (r + 8 * b) - 1) % 16 == 0
    ensures (m * (m + 8 * b) - 1) % 16 == 0
  {
    var k := (r * (r + 8 * b) - 1) / 16;
    StartProduct(q, r, b);
    DivOf(m * (m + 8 * b) - 1, 16, q * (16 * q + 2 * r + 8 * b) + k, 0);
  }

  lemma StartProduct(q: int, r: int, b: int)
    ensures (16 * q + r) * (16 * q + r + 8 * b) == 16 * (q * (16 * q + 2 * r + 8 * b)) + r * (r + 8 * b)
  {}

  /** One Newton step squares the error. */
  lemma NewtonStep(m: int, x: int, w: int)
    requires w > 0 && (m * x - 1) % w == 0
    ensures (m * (x * (2 - m * x)) - 1) % (w * w) == 0
  {
    var e := m * x - 1;
    var k := e / w;
    assert e == w * k;
    assert m * (x * (2 - m * x)) == (m * x) * (2 - m * x);
    assert (e + 1) * (1 - e) - 1 == -(e * e);
    assert e * e == (w * w) * (k * k);
    MulGt(0, w, w);
    DivOf(-(e * e), w * w, -(k * k), 0);
  }

  /** Reducing x modulo a multiple of w does not disturb the inverse modulo w. */
  lemma WrapInverse(m: int, x: int, w: int, c: int)
    requires w > 0 && c > 0 && (m * x - 1) % w == 0
    ensures w * c > 0 && (m * (x % (w * c)) - 1) % w == 0
  {
    MulGt(0, c, w);
    MulComm(w, c);
    var b := w * c;
    var q := x / b;
    DivBoundsInt(x, b);
    RegroupInverse(m, w, c, q, x % b);
    ModShift(m * x - 1, w, -(c * q * m));
  }

  lemma DivBoundsInt(x: int, b: int)
    requires b > 0
    ensures x == b * (x / b) + x % b
  {}

  lemma RegroupInverse(m: int, w: int, c: int, q: int, r: int)
    ensures m * r == m * (w * c * q + r) + w * (-(c * q * m))
  {}

  /** mm with N[0] * mm = -1 modulo the base (thanks to Newton's iteration,
      which doubles the number of right bits each round). */
  method MontgInit(N: Num) returns (mm: Limb)
    requires N.p != [] && N.p[0] % 2 == 1
    ensures (N.p[0] * mm + 1) % Base() == 0
  {
    var m0 := N.p[0];
    var x: Limb := Start(m0) % Base();
    StartWrapped(m0, x);
    x := NewtonLoop(m0, x);
    mm := WrapSub(0, x);
    NegatedInverse(m0, x, Base(), mm);
  }

  /** i bits of the counter are left when good bits of the inverse are right. */
  ghost predicate Rounds(i: nat, good: nat) {
    || (i == BIL && good == 4)
    || (i == BIL / 2 && good == 8)
    || (i == BIL / 4 && good == 16)
    || (i == BIL / 8 && good == 32)
    || (BIL == 64 && i == 4 && good == 64)
  }

  method NewtonLoop(m0: Limb, x0: Limb) returns (x: Limb)
    requires (m0 * x0 - 1) % Pow2(4) == 0
    ensures (m0 * x - 1) % Base() == 0
  {
    hide Pow2;
    x := x0;
    var i: nat := BIL;
    ghost var good: nat := 4;
    while i >= 8
      invariant Rounds(i, good) && good <= BIL
      invariant (m0 * x - 1) % Pow2(good) == 0
    {
      x := NewtonRound(m0, x, good);
      good := 2 * good;
      i := i / 2;
    }
    BaseBits();
  }

  lemma StartWrapped(m: Limb, x: Limb)
    requires m % 2 == 1 && x == Start(m) % Base()
    ensures (m * x - 1) % Pow2(4) == 0
  {
    StartInverse(m);
    WidthSplit(4);
    Pow2Four();
    WrapInverse(m, Start(m), 16, Pow2(BIL - 4));
  }

  lemma WidthSplit(k: nat)
    requires k <= BIL
    ensures Pow2(k) * Pow2(BIL - k) == Base()
  {
    BaseBits();
    Pow2Add(k, BIL - k);
  }

  /** x *= 2 - m0 * x, in limb arithmetic. */
  method NewtonRound(m0: Limb, x: Limb, ghost k: nat) returns (y: Limb)
    requires 0 < k && 2 * k <= BIL && (m0 * x - 1) % Pow2(k) == 0
    ensures (m0 * y - 1) % Pow2(2 * k) == 0
  {
    hide Pow2, Base;
    y := WrapMul(x, WrapSub(2, WrapMul(m0, x)));
    NewtonWraps(m0, x, y);
    NewtonStep(m0, x, Pow2(k));
    Pow2Add(k, k);
    WidthSplit(2 * k);
    WrapInverse(m0, x * (2 - m0 * x), Pow2(2 * k), Pow2(BIL - 2 * k));
  }

  lemma NewtonWraps(m0: Limb, x: Limb, y: Limb)
    requires y == WrapMul(x, WrapSub(2, WrapMul(m0, x)))
    ensures y == (x * (2 - m0 * x)) % Base()
  {
    var b := Base();
    var w := WrapMul(m0, x);
    DivBoundsInt(m0 * x, b);
    NewtonMod(x, m0 * x, w, b, (m0 * x) / b, if 2 >= w then 0 else 1, WrapSub(2, w));
  }

  lemma NewtonMod(x: int, e: int, w: int, b: int, k: int, j: int, s: int)
    requires b > 0 && e == b * k + w && s == 2 - w + b * j
    ensures (x * s) % b == (x * (2 - e)) % b
  {
    Distribute(b, k, j);
    assert s == (2 - e) + b * (k + j);
    Distribute(x, 2 - e, b * (k + j));
    assert x * (b * (k + j)) == b * (x * (k + j));
    ModShift(x * (2 - e), b, x * (k + j));
  }

  lemma NegatedInverse(m: int, x: int, b: int, y: int)
    requires b > 0 && 0 <= x < b && (m * x - 1) % b == 0 && y == if x == 0 then 0 else b - x
    ensures (m * y + 1) % b == 0
  {
    var k := (m * x - 1) / b;
    DivBoundsInt(m * x - 1, b);
    if x == 0 {
      DivOf(1, b, -k, 0);
    } else {
      Distribute(m, b, 0 - x);
      Distribute(b, m, 0 - k);
      MulComm(m, b);
      DivOf(m * (b - x) + 1, b, m - k, 0);
    }
  }

  // ----- the product -----

  /** After i rounds the low i limbs of t hold a copy of a's, and the limbs from
      i up the running sum, which is a partial product plus u times the modulus
      divided by a power of the base. */
  ghost predicate Running(t: seq<Limb>, a: seq<Limb>, b: nat, m: nat, i: nat, u: nat) {
    && i <= |t| && i <= |a| && t[..i] == a[..i] && u < BPow(i)
    && Val(t[i..]) * BPow(i) == Val(a[..i]) * b + u * m
  }

  lemma RunningBound(t: seq<Limb>, a: seq<Limb>, b: nat, m: nat, i: nat, u: nat)
    requires Running(t, a, b, m, i, u) && m > 0
    ensures Val(t[i..]) < b + m
  {
    ValBound(a[..i]);
    MulGe(Val(a[..i]), BPow(i), b);
    MulGt(u, BPow(i), m);
    Distribute(BPow(i), b, m);
    MulComm(BPow(i), b);
    MulComm(BPow(i), m);
    BelowScaled(Val(t[i..]), b + m, BPow(i));
  }

  lemma BelowScaled(x: int, y: int, w: int)
    requires w > 0 && x * w < y * w
    ensures x < y
  {
    if x >= y { MulGe(y, x, w); }
  }

  /** A row added at limb i adds to the value from limb i up. */
  lemma SuffixAfterRow(t: seq<Limb>, t': seq<Limb>, i: nat, x: int)
    requires i <= |t| == |t'| && t[..i] == t'[..i] && Val(t') == Val(t) + x * BPow(i)
    ensures Val(t'[i..]) == Val(t[i..]) + x
  {
    ValSplit(t, i);
    ValSplit(t', i);
    SameScaled(BPow(i), Val(t'[i..]), Val(t[i..]), x);
  }

  lemma SameScaled(w: int, y: int, z: int, x: int)
    requires w > 0 && w * y == w * z + x * w
    ensures y == z + x
  {
    var d := y - z - x;
    assert w * d == 0;
    if d > 0 { MulGe(1, d, w); }
    if d < 0 { MulGe(d, -1, w); }
  }

  /** A row that keeps the running sum below n + 2 limbs stays inside t. */
  lemma RowFits(t: seq<Limb>, i: nat, n: nat, x: nat)
    requires i + n + 2 <= |t| && Val(t[i..]) + x < BPow(n + 2)
    ensures Val(t) + x * BPow(i) < BPow(|t|)
  {
    ValSplit(t, i);
    ValBound(t[..i]);
    BPowAdd(i, n + 2);
    BPowMono(i + n + 2, |t|);
    RowFitsStep(Val(t[..i]), BPow(i), Val(t[i..]), x, BPow(n + 2));
  }

  lemma RowFitsStep(lo: int, w: int, y: int, x: int, z: int)
    requires 0 <= lo < w && y + x < z
    ensures lo + w * y + x * w < w * z
  {
    MulGe(y + x + 1, z, w);
    Distribute(w, y, x);
    Distribute(w, y + x, 1);
    MulComm(w, x);
    MulComm(w, z);
    MulComm(w, y + x + 1);
  }

  /** The multiplier u1 clears the lowest limb of the running sum. */
  lemma LowLimbClears(t: nat, t0: nat, u0: nat, b: nat, b0: nat, m: nat, m0: nat, mm: nat, u1: nat, base: nat)
    requires base > 0 && t % base == t0 && b % base == b0 && m % base == m0
    requires u1 == ((t0 + u0 * b0) * mm) % base && (m0 * mm + 1) % base == 0
    ensures (t + u0 * b + u1 * m) % base == 0
  {
    var v := t0 + u0 * b0;
    var kt, kb, km, kz := t / base, b / base, m / base, (m0 * mm + 1) / base;
    var ku := -((v * mm) / base);
    DivBoundsInt(t, base);
    DivBoundsInt(b, base);
    DivBoundsInt(m, base);
    DivBoundsInt(m0 * mm + 1, base);
    DivBoundsInt(v * mm, base);
    MulComm(base, (v * mm) / base);
    assert base * ku == -(base * ((v * mm) / base));
    ClearedSum(v, mm, m0, base, ku, kz, u1);
    ScaledLimb(u0, b, b0, base, kb);
    ScaledLimb(u1, m, m0, base, km);
    FourTerms(base, kt, u0 * kb, u1 * km, v * kz + ku * m0);
    DivOf(t + u0 * b + u1 * m, base, kt + u0 * kb + u1 * km + (v * kz + ku * m0), 0);
  }

  lemma ScaledLimb(u: int, x: int, x0: int, base: int, k: int)
    requires x == base * k + x0
    ensures u * x == u * x0 + base * (u * k)
  {
    assert u * (base * k) == base * (u * k);
    Distribute(u, base * k, x0);
  }

  lemma ClearedSum(v: int, mm: int, m0: int, base: int, ku: int, kz: int, u1: int)
    requires u1 == v * mm + base * ku && m0 * mm + 1 == base * kz
    ensures v + u1 * m0 == base * (v * kz + ku * m0)
  {
    assert u1 * m0 == v * (m0 * mm) + base * (ku * m0);
    Distribute(v, m0 * mm, 1);
    assert v * (base * kz) == base * (v * kz);
    Distribute(base, v * kz, ku * m0);
  }

  lemma FourTerms(k: int, a: int, b: int, c: int, d: int)
    ensures k * (a + b + c + d) == k * a + k * b + k * c + k * d
  {}

  lemma LowLimb(p: seq<Limb>)
    requires p != []
    ensures Val(p) % Base() == p[0]
  {
    DivOf(Val(p), Base(), Val(p[1..]), p[0]);
  }

  /** What montgomery multiplication asks of its modulus, constant and buffers. */
  ghost predicate MontReady(m: seq<Limb>, mm: Limb) {
    m != [] && Val(m) % 2 == 1 && (m[0] * mm + 1) % Base() == 0
  }

  lemma ShortOperand(b: seq<Limb>, n: seq<Limb>, m: nat)
    requires Val(b) <= Val(n) && m == if |b| < |n| then |b| else |n|
    ensures Val(b[..m]) == Val(b)
  {
    if |b| < |n| {
      assert b[..m] == b;
    } else {
      ValBound(n);
      ValLowBound(b, m);
    }
  }

  lemma RowSizes(t: nat, u0: Limb, b: nat, u1: Limb, n: seq<Limb>)
    requires b <= Val(n) && t < b + Val(n)
    ensures 0 <= u0 * b && 0 <= u1 * Val(n) && t + u0 * b + u1 * Val(n) < BPow(|n| + 2)
  {
    ValBound(n);
    BPowSucc(|n|);
    BPowSucc(|n| + 1);
    RowSizesStep(t, u0, b, u1, Val(n), BPow(|n|), Base());
  }

  lemma RowSizesStep(t: int, u0: int, b: int, u1: int, n: int, w: int, base: int)
    requires 0 <= b <= n < w && t < b + n && 0 <= u0 < base && 0 <= u1 < base && base >= 2
    ensures 0 <= u0 * b && 0 <= u1 * n && t + u0 * b + u1 * n < base * (base * w)
  {
    MulNonNeg(u0, b);
    MulNonNeg(u1, n);
    MulGe(u0, base - 1, b);
    MulGe(b, w - 1, base - 1);
    MulGe(u1, base - 1, n);
    MulGe(n, w - 1, base - 1);
    MulComm(base - 1, b);
    MulComm(base - 1, n);
    Distribute(base - 1, w, -1);
    Distribute(w, base, -1);
    MulGe(2, base, base * w);
    MulComm(base, w);
    MulComm(w, base - 1);
  }

  /** The two rows added in one round. */
  method RowSum(B: Num, N: Num, T: Num, i: nat, u0: Limb, u1: Limb)
    requires T != B && T != N && i + |N.p| + 2 <= |T.p| && Val(B.p) <= Val(N.p)
    requires Val(T.p[i..]) < Val(B.p) + Val(N.p)
    modifies T
    ensures |T.p| == old(|T.p|) && T.s == old(T.s) && T.p[..i] == old(T.p)[..i]
    ensures Val(T.p[i..]) == old(Val(T.p[i..])) + u0 * Val(B.p) + u1 * Val(N.p)
  {
    var n := |N.p|;
    var m := if |B.p| < n then |B.p| else n;
    ghost var t := T.p;
    ShortOperand(B.p, N.p, m);
    assert N.p[..n] == N.p;
    RowSizes(Val(t[i..]), u0, Val(B.p), u1, N.p);
    RowFits(t, i, n, u0 * Val(B.p));
    MulHlp(m, B, T, i, u0);
    SuffixAfterRow(t, T.p, i, u0 * Val(B.p));
    ghost var t1 := T.p;
    RowFits(t1, i, n, u1 * Val(N.p));
    MulHlp(n, N, T, i, u1);
    SuffixAfterRow(t1, T.p, i, u1 * Val(N.p));
  }

  lemma MultiplierWraps(t0: Limb, u0: Limb, b0: Limb, mm: Limb)
    ensures WrapMul(WrapAdd(t0, WrapMul(u0, b0)), mm) == ((t0 + u0 * b0) * mm) % Base()
  {
    var w := WrapMul(u0, b0);
    var x := WrapAdd(t0, w);
    DivBoundsInt(u0 * b0, Base());
    WrapsTwice(t0, u0 * b0, w, x, mm, Base(), (u0 * b0) / Base(), if t0 + w < Base() then 0 else 1);
  }

  lemma WrapsTwice(t: int, e: int, w: int, x: int, mm: int, b: int, k: int, j: int)
    requires b > 0 && e == b * k + w && x == t + w - b * j
    ensures (x * mm) % b == ((t + e) * mm) % b
  {
    Distribute(b, k, j);
    assert x == (t + e) + b * (0 - (k + j));
    Distribute(mm, t + e, b * (0 - (k + j)));
    MulAssoc(b, 0 - (k + j), mm);
    ModShift((t + e) * mm, b, (0 - (k + j)) * mm);
  }

  /** One round: T = (T + u0 * B + u1 * N) / 2^biL, with u0 kept below. */
  method MontRow(A: Num, B: Num, N: Num, mm: Limb, T: Num, i: nat, ghost u: nat) returns (ghost u': nat)
    requires T != A && T != B && T != N && MontReady(N.p, mm)
    requires i < |N.p| <= |A.p| && B.p != [] && |T.p| >= 2 * |N.p| + 2 && Val(B.p) <= Val(N.p)
    requires Running(T.p, A.p, Val(B.p), Val(N.p), i, u)
    modifies T
    ensures |T.p| == old(|T.p|) && T.s == old(T.s)
    ensures Running(T.p, A.p, Val(B.p), Val(N.p), i + 1, u')
  {
    var n := |N.p|;
    var u0 := A.p[i];
    var u1 := WrapMul(WrapAdd(T.p[i], WrapMul(u0, B.p[0])), mm);
    ghost var t := T.p;
    RunningBound(t, A.p, Val(B.p), Val(N.p), i, u);
    RowSum(B, N, T, i, u0, u1);
    RowClears(t, T.p, B.p, N.p, mm, i, u0, u1);
    u' := RunningStep(t, T.p, A.p, Val(B.p), Val(N.p), i, u, u1);
    T.p := T.p[i := u0];
    TopAlreadyClear(T.p, A.p, Val(B.p), N.p, i + 1, u');
    T.p := T.p[i + 1 + n + 1 := 0];
  }

  lemma RowClears(t: seq<Limb>, t': seq<Limb>, b: seq<Limb>, m: seq<Limb>, mm: Limb, i: nat, u0: Limb, u1: Limb)
    requires i < |t| == |t'| && b != [] && MontReady(m, mm)
    requires u1 == WrapMul(WrapAdd(t[i], WrapMul(u0, b[0])), mm)
    requires Val(t'[i..]) == Val(t[i..]) + u0 * Val(b) + u1 * Val(m)
    ensures t'[i] == 0 && Val(t'[i..]) == Base() * Val(t'[i + 1..])
  {
    hide Base;
    LowLimb(t[i..]);
    LowLimb(t'[i..]);
    LowLimb(b);
    LowLimb(m);
    MultiplierWraps(t[i], u0, b[0], mm);
    LowLimbClears(Val(t[i..]), t[i], u0, Val(b), b[0], Val(m), m[0], mm, u1, Base());
    assert t'[i..][1..] == t'[i + 1..];
  }

  /** Dropping the cleared limb keeps the relation, one limb on. */
  lemma RunningStep(t: seq<Limb>, t': seq<Limb>, a: seq<Limb>, b: nat, m: nat, i: nat, u: nat, u1: Limb)
    returns (u': nat)
    requires i < |a| && i < |t| == |t'| && Running(t, a, b, m, i, u) && t'[..i] == t[..i]
    requires Val(t'[i..]) == Val(t[i..]) + a[i] * b + u1 * m
    requires t'[i] == 0 && Val(t'[i..]) == Base() * Val(t'[i + 1..])
    ensures Running(t'[i := a[i]], a, b, m, i + 1, u')
  {
    hide Val, Base;
    u' := u + u1 * BPow(i);
    var t2 := t'[i := a[i]];
    assert t2[..i + 1] == a[..i + 1];
    assert t2[i + 1..] == t'[i + 1..];
    BPowSucc(i);
    ValSnoc(a, i);
    NextMultiple(u, u1, BPow(i), Base());
    RunningArith(Val(t[i..]), Val(t'[i + 1..]), a[i], Val(a[..i]), b, u, u1, m, BPow(i), Base(),
                 u', Val(a[..i + 1]), BPow(i + 1));
    assert Val(t2[i + 1..]) * BPow(i + 1) == Val(a[..i + 1]) * b + u' * m;
  }

  /** The limb that the source clears after each round is already clear. */
  lemma TopAlreadyClear(t: seq<Limb>, a: seq<Limb>, b: nat, m: seq<Limb>, i: nat, u: nat)
    requires |t| > i + |m| + 1 && b <= Val(m) && Val(m) > 0 && Running(t, a, b, Val(m), i, u)
    ensures t[i + |m| + 1] == 0 && t[i + |m| + 1 := 0] == t
  {
    RunningBound(t, a, b, Val(m), i, u);
    HighLimbZero(t[i..], m);
    assert t[i + |m| + 1] == t[i..][|m| + 1];
  }

  lemma NextMultiple(u: int, u1: int, w: int, base: int)
    requires 0 <= u < w && 0 <= u1 < base
    ensures 0 <= u + u1 * w < base * w
  {
    MulGe(u1 + 1, base, w);
    Distribute(w, u1, 1);
    MulNonNeg(u1, w);
  }

  lemma RunningArith(t: int, t': int, x: int, a: int, b: int, u: int, u1: int, m: int, w: int, base: int,
                     u': int, a': int, w': int)
    requires t * w == a * b + u * m && base * t' == t + x * b + u1 * m
    requires u' == u + u1 * w && a' == a + x * w && w' == base * w
    ensures t' * w' == a' * b + u' * m
  {
    assert t' * w' == (base * t') * w;
    assert (t + x * b + u1 * m) * w == t * w + (x * w) * b + (u1 * w) * m;
    Distribute(b, a, x * w);
    Distribute(m, u, u1 * w);
  }

  lemma HighLimbZero(p: seq<Limb>, m: seq<Limb>)
    requires Val(p) < 2 * Val(m) && |p| > |m| + 1
    ensures p[|m| + 1] == 0
  {
    ValBound(m);
    BPowSucc(|m|);
    MulGe(2, Base(), BPow(|m|));
    ValLowBound(p, |m| + 1);
  }

  /** A = A * B * R^-1 mod N for R = 2^(biL * n), n being the limb count of N.
      T is working space, and every carry and borrow stays inside A and T. */
  method MontMul(A: Num, B: Num, N: Num, mm: Limb, T: Num) returns (ret: Status)
    requires T != A && T != B && T != N && A != N && MontReady(N.p, mm)
    requires |T.p| <= |N.p| || |T.p| >= 2 * |N.p| + 2
    requires |A.p| > |N.p| && B.p != [] && Val(A.p) < Val(N.p) && Val(B.p) <= Val(N.p)
    modifies A, T
    ensures ret == if |T.p| <= |N.p| then BadInput else Ok
    ensures ret == Ok ==> Val(A.p) < Val(N.p)
    ensures ret == Ok ==> Cong(Val(A.p) * BPow(|N.p|), old(Val(A.p)) * old(Val(B.p)), Val(N.p))
    ensures A.s == old(A.s) && |A.p| == old(|A.p|) && |T.p| == old(|T.p|)
    ensures ret != Ok ==> A.p == old(A.p)
  {
    if |T.p| < |N.p| + 1 { return BadInput; }
    T.p := Zeros(|T.p|);
    var n := |N.p|;
    var i := 0;
    ghost var u: nat := 0;
    RunningStart(T.p, A.p, Val(B.p), Val(N.p));
    while i < n
      invariant i <= n && |T.p| == old(|T.p|) && A.p == old(A.p) && A.s == old(A.s)
      invariant Running(T.p, A.p, Val(B.p), Val(N.p), i, u)
    {
      u := MontRow(A, B, N, mm, T, i, u);
      i := i + 1;
    }
    MontFinish(A, N, T, Val(B.p), u);
    ret := Ok;
  }

  lemma RunningStart(t: seq<Limb>, a: seq<Limb>, b: nat, m: nat)
    requires Val(t) == 0
    ensures Running(t, a, b, m, 0, 0)
  {
    assert t[0..] == t;
  }

  /** The copy back and the last reduction. */
  method MontFinish(A: Num, N: Num, T: Num, ghost b: nat, ghost u: nat)
    requires T != A && T != N && A != N && |A.p| > |N.p| && |T.p| >= 2 * |N.p| + 2
    requires Val(A.p) < Val(N.p) && b <= Val(N.p)
    requires Running(T.p, A.p, b, Val(N.p), |N.p|, u)
    modifies A, T
    ensures A.s == old(A.s) && |A.p| == old(|A.p|) && |T.p| == old(|T.p|)
    ensures Val(A.p) < Val(N.p)
    ensures Cong(Val(A.p) * BPow(|N.p|), old(Val(A.p)) * b, Val(N.p))
  {
    var n := |N.p|;
    ghost var a, t := A.p, T.p;
    ghost var r := Val(t[n..]);
    A.p := T.p[n..2 * n + 1] + A.p[n + 1..];
    assert t[n..][..n + 1] == t[n..2 * n + 1];
    CopiedBack(t, a, N.p, b, u, A.p);
    var c := CmpAbs(A, N);
    assert N.p[..n] == N.p;
    if c >= 0 {
      SubHlp(n, N, A);
    } else {
      DummyFits(t, A.p, n);
      SubHlp(n, A, T);
    }
    MontResult(r, Val(a), b, u, Val(N.p), BPow(n), Val(A.p));
  }

  lemma CopiedBack(t: seq<Limb>, a: seq<Limb>, m: seq<Limb>, b: nat, u: nat, a': seq<Limb>)
    requires |a| > |m| && |t| >= 2 * |m| + 2 && Val(a) < Val(m) && b <= Val(m)
    requires Running(t, a, b, Val(m), |m|, u)
    requires a' == t[|m|..][..|m| + 1] + a[|m| + 1..]
    ensures Val(a') == Val(t[|m|..]) < 2 * Val(m)
    ensures Val(t[|m|..]) * BPow(|m|) == Val(a) * b + u * Val(m)
  {
    hide Val, Base;
    var n := |m|;
    RunningBound(t, a, b, Val(m), n, u);
    assert a[..n] + a[n..] == a;
    ValBound(m);
    ValLowBound(a, n);
    BPowSucc(n);
    MulGe(2, Base(), BPow(n));
    CopiedValue(t[n..], a, n, a');
  }

  lemma CopiedValue(d: seq<Limb>, a: seq<Limb>, n: nat, a': seq<Limb>)
    requires |d| > n && |a| > n && Val(d) < BPow(n + 1) && (forall j :: n <= j < |a| ==> a[j] == 0)
    requires a' == d[..n + 1] + a[n + 1..]
    ensures Val(a') == Val(d)
  {
    ValLowBound(d, n + 1);
    assert a'[..n + 1] == d[..n + 1];
    ValHighZeros(a', n + 1);
  }

  /** The subtraction made only to take the same time never borrows beyond T:
      T's upper half holds the very number being subtracted. */
  lemma DummyFits(t: seq<Limb>, a: seq<Limb>, n: nat)
    requires n <= |t| && n <= |a| && Val(a) == Val(t[n..])
    ensures Val(t) >= Val(a[..n])
  {
    ValSplit(t, n);
    ValSplit(a, n);
    MulGe(1, BPow(n), Val(t[n..]));
    MulNonNeg(BPow(n), Val(a[n..]));
    MulComm(BPow(n), Val(t[n..]));
  }

  lemma MontResult(r: nat, a: nat, b: nat, u: nat, m: nat, w: nat, x: nat)
    requires m > 0 && r * w == a * b + u * m && (x == r || x + m == r)
    ensures Cong(x * w, a * b, m)
  {
    var k := if x == r then u else u - w;
    if x != r { Distribute(w, r, 0 - m); }
    Distribute(m, u, 0 - w);
    CongBy(x * w, a * b, m, k);
  }

  /** A = A * R^-1 mod N. */
  method MontRed(A: Num, N: Num, mm: Limb, T: Num) returns (ret: Status)
    requires T != A && T != N && A != N && MontReady(N.p, mm)
    requires |T.p| <= |N.p| || |T.p| >= 2 * |N.p| + 2
    requires |A.p| > |N.p| && Val(A.p) < Val(N.p)
    modifies A, T
    ensures ret == if |T.p| <= |N.p| then BadInput else Ok
    ensures ret == Ok ==> Val(A.p) < Val(N.p)
    ensures ret == Ok ==> Cong(Val(A.p) * BPow(|N.p|), old(Val(A.p)), Val(N.p))
    ensures A.s == old(A.s) && |A.p| == old(|A.p|) && |T.p| == old(|T.p|)
  {
    var U := new Num();
    U.p := [1];
    ValOne(1);
    ret := MontMul(A, U, N, mm, T);
  }
}
