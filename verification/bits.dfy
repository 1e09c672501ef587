/** Bit counts and shifts of multi-precision integers. */
module Bits {
  import opened Powers
  import opened Limbs
  import opened Mpi

  /** x has exactly n bits. */
  ghost predicate HasBits(x: nat, n: nat) {
    x < Pow2(n) && (n > 0 ==> x >= Pow2(n - 1))
  }

  function BitCount(x: nat): (n: nat)
    ensures HasBits(x, n)
  {
    if x == 0 then 0 else 1 + BitCount(x / 2)
  }

  lemma HasBitsUnique(x: nat, m: nat, n: nat)
    requires HasBits(x, m) && HasBits(x, n)
    ensures m == n
  {
    if m < n { Pow2Mono(m, n - 1); } else if n < m { Pow2Mono(n, m - 1); }
  }

  /** Two to the t zero bits, and not one more, end x. */
  ghost predicate EndsInZeros(x: nat, t: nat) {
    x % Pow2(t) == 0 && (x / Pow2(t)) % 2 == 1
  }

  /** Bit k of a limb: (x >> k) & 1. */
  function LimbBit(x: nat, k: nat): (b: nat)
    ensures b <= 1
  {
    (x / Pow2(k)) % 2
  }

  /** Leading zero bits of a limb. */
  method Clz(x: Limb) returns (j: nat)
    ensures j <= BIL && HasBits(x, BIL - j)
  {
    var mask := Pow2(BIL - 1);
    j := 0;
    BaseBits();
    while j < BIL
      invariant 0 <= j <= BIL && x < Pow2(BIL - j)
      invariant j < BIL ==> mask == Pow2(BIL - j - 1)
    {
      MaskTest(x, mask);
      if (x / mask) % 2 == 1 { break; }
      assert x < mask;
      if j + 1 < BIL {
        assert Pow2(BIL - j - 1) == 2 * Pow2(BIL - (j + 1) - 1);
      }
      mask := mask / 2;
      j := j + 1;
    }
  }

  lemma MaskTest(x: nat, mask: nat)
    requires mask > 0 && x < 2 * mask
    ensures (x / mask) % 2 == 1 <==> x >= mask
  {
    if x >= mask {
      DivModUnique(x, mask, 1, x - mask);
    } else {
      DivModUnique(x, mask, 0, x);
    }
  }

  method BitLen(X: Num) returns (r: nat)
    ensures r == BitCount(X.Abs()) <= BitsIn(|X.p|)
  {
    if |X.p| == 0 { return 0; }
    var i := TopIndex(X.p);
    var c := Clz(X.p[i]);
    var j := BIL - c;
    TopBits(X.p[..i], X.p[i], j);
    r := BitsIn(i) + j;
    HasBitsUnique(X.Abs(), r, BitCount(X.Abs()));
    BitsInSucc(i);
    BitsInMono(i + 1, |X.p|);
  }

  lemma TopBits(low: seq<Limb>, x: Limb, j: nat)
    requires HasBits(x, j) && (low == [] || x > 0)
    ensures HasBits(Val(low) + x * BPow(|low|), BitsIn(|low|) + j)
  {
    var i := |low|;
    ValBound(low);
    BPowBits(i);
    Pow2Add(BitsIn(i), j);
    BitsStep(Val(low), BPow(i), x, Pow2(j));
    if j > 0 {
      TopBitsLower(Val(low), i, x, j);
    } else {
      assert x == 0 && low == [];
    }
  }

  lemma TopBitsLower(v: nat, i: nat, x: nat, j: nat)
    requires j > 0 && x >= Pow2(j - 1)
    ensures v + x * BPow(i) >= Pow2(BitsIn(i) + j - 1)
  {
    hide BPow, BitsIn, Pow2, Base, Val, Pow;
    BPowBits(i);
    Pow2Add(BitsIn(i), j - 1);
    MulGe(Pow2(j - 1), x, BPow(i));
  }

  lemma BitsStep(v: int, w: int, x: int, u: int)
    requires 0 <= v < w && 0 <= x < u
    ensures v + x * w < w * u
  {
    MulGe(x + 1, u, w);
    assert (x + 1) * w == x * w + w;
  }

  /** Trailing zero bits; 0 for a zero value. */
  method Lsb(X: Num) returns (count: nat)
    ensures X.Abs() == 0 ==> count == 0
    ensures X.Abs() > 0 ==> EndsInZeros(X.Abs(), count)
  {
    count := 0;
    var i := 0;
    while i < |X.p|
      invariant i <= |X.p| && count == BitsIn(i)
      invariant forall k :: 0 <= k < i ==> X.p[k] == 0
    {
      var found, j := LimbLsb(X.p[i]);
      BitsInSucc(i);
      count := count + j;
      if found {
        LowBits(X.p, i, j);
        return;
      }
      i := i + 1;
    }
    ValZeros(X.p);
    count := 0;
  }

  /** The bit loop of Lsb over one limb. */
  method LimbLsb(x: Limb) returns (found: bool, j: nat)
    ensures found <==> x != 0
    ensures found ==> j < BIL && EndsInZeros(x, j)
    ensures !found ==> j == BIL
  {
    j := 0;
    DivModUnique(x, 1, x, 0);
    while j < BIL
      invariant j <= BIL && x % Pow2(j) == 0
    {
      if LimbBit(x, j) != 0 {
        return true, j;
      }
      EvenStep(x, Pow2(j));
      j := j + 1;
    }
    DivModUnique(x, Base(), 0, x);
    found := false;
  }

  lemma EvenStep(x: nat, w: nat)
    requires w > 0 && x % w == 0 && (x / w) % 2 == 0
    ensures x % (2 * w) == 0
  {
    var h := x / w / 2;
    assert x == w * (x / w) && x / w == 2 * h;
    DivModUnique(x, 2 * w, h, 0);
  }

  lemma LowBits(p: seq<Limb>, i: nat, j: nat)
    requires i < |p| && (forall k :: 0 <= k < i ==> p[k] == 0)
    requires p[i] != 0 && j < BIL && EndsInZeros(p[i], j)
    ensures Val(p) > 0 && EndsInZeros(Val(p), BitsIn(i) + j)
  {
    hide Base, Pow2;
    Pow2Succ(BIL - j - 1);
    ValSplit(p, i);
    ValZeros(p[..i]);
    ValAtLeast(p, i);
    BPowBits(i);
    Pow2Add(BitsIn(i), j);
    BaseBits();
    Pow2Add(j, BIL - j);
    LowBitsValue(BPow(i), Pow2(j), Pow2(BIL - j - 1), p[i], Val(p[i..][1..]), Val(p));
  }

  lemma LowBitsValue(w: int, u: int, g: int, x: int, h: int, v: int)
    requires w > 0 && u > 0 && x % u == 0 && (x / u) % 2 == 1
    requires v == w * (x + (u * (2 * g)) * h)
    ensures v % (w * u) == 0 && (v / (w * u)) % 2 == 1
  {
    var y := x / u;
    assert x == u * y;
    LowBitsStep(w, u, 2 * g, y, h, g);
    MulGt(0, w, u);
    DivModUnique(v, w * u, y + 2 * g * h, 0);
  }

  lemma LowBitsStep(w: int, u: int, g: int, y: int, h: int, g': int)
    requires g == 2 * g'
    ensures w * (u * y + (u * g) * h) == (y + g * h) * (w * u)
    ensures (y + g * h) % 2 == y % 2
  {
    assert u * y + (u * g) * h == u * (y + g * h) by {
      assert (u * g) * h == u * (g * h);
    }
    assert w * (u * (y + g * h)) == (y + g * h) * (w * u);
    assert g * h == 2 * (g' * h);
  }

  // ----- shifts -----

  lemma DivDiv(x: nat, a: nat, b: nat)
    requires a > 0 && b > 0
    ensures a * b > 0 && (x / a) / b == x / (a * b)
  {
    MulGt(0, a, b);
    var q := x / a;
    var y := q / b;
    assert x == a * q + x % a && q == b * y + q % b;
    MulGe(q % b, b - 1, a);
    assert x == y * (a * b) + (a * (q % b) + x % a) by {
      assert a * (b * y + q % b) == y * (a * b) + a * (q % b);
    }
    assert a * (q % b) <= a * b - a by {
      assert a * (q % b) == (q % b) * a && (b - 1) * a == a * b - a;
    }
    DivModUnique(x, a * b, y, a * (q % b) + x % a);
  }

  /** A limb moved left by k bits, split into the part kept and the part lost. */
  lemma LimbShiftUp(x: Limb, k: nat)
    requires k <= BIL
    ensures Pow2(k) * Pow2(BIL - k) == Base()
    ensures (x * Pow2(k)) % Base() == (x % Pow2(BIL - k)) * Pow2(k) <= Base() - Pow2(k)
    ensures x * Pow2(k) == (x * Pow2(k)) % Base() + (x / Pow2(BIL - k)) * Base()
    ensures 0 <= x / Pow2(BIL - k) < Pow2(k)
  {
    BaseBits();
    Pow2Add(k, BIL - k);
    ShiftUpStep(x, Pow2(k), Pow2(BIL - k), Base());
  }

  lemma ShiftUpStep(x: int, h: int, g: int, b: int)
    requires h > 0 && g > 0 && b == h * g && 0 <= x < b
    ensures (x * h) % b == (x % g) * h <= b - h
    ensures x * h == (x * h) % b + (x / g) * b
    ensures 0 <= x / g < h
  {
    var q, r := x / g, x % g;
    assert x == g * q + r;
    assert x * h == q * b + r * h by { assert (g * q) * h == q * (h * g); }
    MulGe(r, g - 1, h);
    assert (g - 1) * h == b - h;
    MulNonNeg(r, h);
    DivModUnique(x * h, b, q, r * h);
    assert g * h == h * g;
    QuotientBelow(x, g, h);
  }

  /** The whole-limb part of a right shift. */
  method LimbsDown(X: Num, v0: nat)
    requires v0 <= |X.p|
    modifies X
    ensures X.s == old(X.s) && X.p == old(X.p)[v0..] + Zeros(v0)
    ensures X.Abs() == old(X.Abs()) / BPow(v0)
  {
    var i, n := 0, |X.p|;
    ghost var p := X.p;
    while i < n - v0
      invariant 0 <= i <= n - v0 && |X.p| == n && X.s == old(X.s)
      invariant forall k :: 0 <= k < i ==> X.p[k] == p[k + v0]
      invariant forall k :: i <= k < n ==> X.p[k] == p[k]
    {
      X.p := X.p[i := X.p[i + v0]];
      i := i + 1;
    }
    while i < n
      invariant n - v0 <= i <= n && |X.p| == n && X.s == old(X.s)
      invariant forall k :: 0 <= k < n - v0 ==> X.p[k] == p[k + v0]
      invariant forall k :: n - v0 <= k < i ==> X.p[k] == 0
    {
      X.p := X.p[i := 0];
      i := i + 1;
    }
    assert X.p == p[v0..] + Zeros(v0);
    ShiftedDown(p, v0);
  }

  lemma ShiftedDown(p: seq<Limb>, v0: nat)
    requires v0 <= |p|
    ensures Val(p[v0..] + Zeros(v0)) == Val(p) / BPow(v0)
  {
    ValPadded(p[v0..], v0);
    ValSplit(p, v0);
    ValBound(p[..v0]);
    DivOf(Val(p), BPow(v0), Val(p[v0..]), Val(p[..v0]));
  }

  /** The within-limb part of a right shift, from the top limb down. */
  method BitsDown(X: Num, v1: nat)
    requires 0 < v1 < BIL
    modifies X
    ensures X.s == old(X.s) && |X.p| == old(|X.p|)
    ensures X.Abs() == old(X.Abs()) / Pow2(v1)
  {
    var r0: Limb, i := 0, |X.p|;
    ghost var p, rem: nat := X.p, 0;
    while i > 0
      invariant 0 <= i <= |X.p| == |p| && X.s == old(X.s)
      invariant X.p[..i] == p[..i]
      invariant rem < Pow2(v1) && r0 == rem * Pow2(BIL - v1)
      invariant Val(p[i..]) == Pow2(v1) * Val(X.p[i..]) + rem
    {
      var x := X.p[i - 1];
      assert x == X.p[..i][i - 1] == p[i - 1];
      DownStep(x, v1, rem, r0, Val(X.p[i..]), Val(p[i..]));
      var r1: Limb := (x * Pow2(BIL - v1)) % Base();
      var z: Limb := x / Pow2(v1) + r0;
      ghost var hi := X.p[i..];
      X.p := X.p[i - 1 := z];
      assert X.p[i - 1..] == [z] + hi && X.p[i - 1..][1..] == hi;
      assert p[i - 1..][1..] == p[i..];
      assert X.p[..i - 1] == p[..i - 1];
      rem := x % Pow2(v1);
      r0 := r1;
      i := i - 1;
    }
    assert p[0..] == p && X.p[0..] == X.p;
    DivOf(Val(p), Pow2(v1), Val(X.p), rem);
  }

  lemma DownStep(x: Limb, v1: nat, rem: nat, r0: nat, n: nat, oldHi: nat)
    requires 0 < v1 < BIL && rem < Pow2(v1) && r0 == rem * Pow2(BIL - v1)
    requires oldHi == Pow2(v1) * n + rem
    ensures 0 <= x / Pow2(v1) + r0 < Base() && 0 <= x % Pow2(v1) < Pow2(v1)
    ensures x + Base() * oldHi == Pow2(v1) * (x / Pow2(v1) + r0 + Base() * n) + x % Pow2(v1)
    ensures (x * Pow2(BIL - v1)) % Base() == (x % Pow2(v1)) * Pow2(BIL - v1)
  {
    LimbShiftUp(x, BIL - v1);
    DownArith(x, Pow2(v1), Pow2(BIL - v1), Base(), rem, n);
  }

  lemma DownArith(x: int, h: int, g: int, b: int, rem: int, n: int)
    requires h > 0 && g > 0 && b == g * h && 0 <= x < b && 0 <= rem < h
    ensures 0 <= x / h + rem * g < b && 0 <= x % h < h
    ensures x + b * (h * n + rem) == h * (x / h + rem * g + b * n) + x % h
  {
    DivBounds(x, h);
    MulNonNeg(rem, g);
    QuotientBelow(x, h, g);
    MulGe(rem, h - 1, g);
    Distribute(g, h, -1);
    MulComm(g, h);
    DownIdentity(x, x / h, x % h, h, g, b, rem, n);
  }

  lemma DownIdentity(x: int, q: int, r: int, h: int, g: int, b: int, rem: int, n: int)
    requires x == h * q + r && b == g * h
    ensures x + b * (h * n + rem) == h * (q + rem * g + b * n) + r
  {
    assert h * (rem * g) == b * rem;
    assert h * (b * n) == b * (h * n);
    Distribute(b, h * n, rem);
    Distribute(h, q, rem * g);
    Distribute(h, q + rem * g, b * n);
  }

  /** X >>= count, towards zero; a shift of everything gives plain zero. */
  method ShiftR(X: Num, count: nat)
    modifies X
    ensures X.Abs() == old(X.Abs()) / Pow2(count)
    ensures X.s == old(X.s) || (X.s == 1 && X.Abs() == 0)
    ensures |X.p| == old(|X.p|) || (old(|X.p|) == 0 && |X.p| == 1)
  {
    hide Pow2;
    var v0 := count / BIL;
    var v1 := count % BIL;
    assert count == BitsIn(v0) + v1;
    Pow2Add(BitsIn(v0), v1);
    BPowBits(v0);
    DivDiv(X.Abs(), BPow(v0), Pow2(v1));
    if v0 > |X.p| || (v0 == |X.p| && v1 > 0) {
      ValBound(X.p);
      BPowMono(|X.p|, v0);
      DivModUnique(X.Abs(), BPow(v0), 0, X.Abs());
      DivModUnique(0, Pow2(v1), 0, 0);
      Lset(X, 0);
      return;
    }
    if v0 > 0 {
      LimbsDown(X, v0);
    } else {
      DivModUnique(X.Abs(), 1, X.Abs(), 0);
    }
    if v1 > 0 {
      BitsDown(X, v1);
    } else {
      DivModUnique(X.Abs(), 1, X.Abs(), 0);
    }
  }

  /** The whole-limb part of a left shift. */
  method LimbsUp(X: Num, v0: nat)
    requires v0 <= |X.p| && Val(X.p) * BPow(v0) < BPow(|X.p|)
    modifies X
    ensures X.s == old(X.s) && |X.p| == old(|X.p|)
    ensures X.Abs() == old(X.Abs()) * BPow(v0)
    ensures forall k :: 0 <= k < v0 ==> X.p[k] == 0
  {
    ghost var p := X.p;
    MoveUp(X, v0);
    var i := v0;
    while i > 0
      invariant 0 <= i <= v0 <= |p| == |X.p| && X.s == old(X.s)
      invariant X.p[v0..] == p[..|p| - v0]
      invariant forall k :: i <= k < v0 ==> X.p[k] == 0
    {
      X.p := X.p[i - 1 := 0];
      i := i - 1;
    }
    assert X.p == Zeros(v0) + p[..|p| - v0];
    ShiftedUp(p, v0);
  }

  /** Moves every limb up by v0 places; the low v0 limbs are left as they were. */
  method MoveUp(X: Num, v0: nat)
    requires v0 <= |X.p|
    modifies X
    ensures X.s == old(X.s) && |X.p| == old(|X.p|)
    ensures X.p[v0..] == old(X.p)[..|X.p| - v0]
  {
    var i, n := |X.p|, |X.p|;
    ghost var p := X.p;
    while i > v0
      invariant v0 <= i <= n == |X.p| && X.s == old(X.s)
      invariant forall k :: i <= k < n ==> X.p[k] == p[k - v0]
      invariant X.p[..i] == p[..i]
    {
      X.p := X.p[i - 1 := X.p[..i][i - v0 - 1]];
      i := i - 1;
    }
  }

  lemma ShiftedUp(p: seq<Limb>, v0: nat)
    requires v0 <= |p| && Val(p) * BPow(v0) < BPow(|p|)
    ensures Val(Zeros(v0) + p[..|p| - v0]) == Val(p) * BPow(v0)
  {
    hide Val;
    var n := |p|;
    RoomBelow(Val(p), n, v0);
    var lo := p[..n - v0];
    ValLowBound(p, n - v0);
    ValPaddedLow(lo, v0);
    assert Val(lo) == Val(p);
  }

  lemma RoomBelow(x: nat, n: nat, k: nat)
    requires k <= n && x * BPow(k) < BPow(n)
    ensures x < BPow(n - k)
  {
    BPowSplit(n, k);
    CancelBelow(x, BPow(n - k), BPow(k));
  }

  lemma CancelBelow(x: int, w: int, u: int)
    requires u > 0 && x * u < w * u
    ensures x < w
  {
    if x >= w { MulGe(w, x, u); }
  }

  /** The within-limb part of a left shift, from limb v0 up. */
  method BitsUp(X: Num, v0: nat, t1: nat)
    requires v0 <= |X.p| && 0 < t1 < BIL
    requires forall k :: 0 <= k < v0 ==> X.p[k] == 0
    requires Val(X.p) * Pow2(t1) < BPow(|X.p|)
    modifies X
    ensures X.s == old(X.s) && |X.p| == old(|X.p|)
    ensures X.Abs() == old(X.Abs()) * Pow2(t1)
  {
    var r0: Limb, i := 0, v0;
    ghost var p := X.p;
    ValZeros(p[..v0]);
    ghost var h := Pow2(t1);
    while i < |X.p|
      invariant v0 <= i <= |X.p| == |p| && X.s == old(X.s) && r0 < h
      invariant X.p[i..] == p[i..]
      invariant Val(X.p) + r0 * BPow(i) == Val(p) + (h - 1) * Val(p[..i])
    {
      var x := X.p[i];
      assert x == X.p[i..][0] == p[i];
      LimbShiftUp(x, t1);
      var r1 := x / Pow2(BIL - t1);
      var z: Limb := (x * Pow2(t1)) % Base() + r0;
      ValUpdate(X.p, i, z);
      ghost var v := Val(X.p);
      X.p := X.p[i := z];
      assert X.p[i + 1..] == p[i + 1..] by { assert p[i..][1..] == p[i + 1..]; }
      UpAdvance(p, i, v, Val(X.p), h, r0, r1, z);
      r0 := r1;
      i := i + 1;
    }
    assert p[..|p|] == p;
    UpDone(Val(X.p), r0, BPow(|p|), Val(p), h);
  }

  lemma UpAdvance(p: seq<Limb>, i: nat, v: int, v': int, h: int, r0: int, r1: int, z: int)
    requires i < |p| && v' == v + (z - p[i]) * BPow(i)
    requires z + r1 * Base() == p[i] * h + r0
    requires v + r0 * BPow(i) == Val(p) + (h - 1) * Val(p[..i])
    ensures v' + r1 * BPow(i + 1) == Val(p) + (h - 1) * Val(p[..i + 1])
  {
    ValSnoc(p, i);
    BPowSucc(i);
    UpTerm(h, p[i]);
    CarryMove(v, v', BPow(i), Base(), r0, r1, p[i], z, (h - 1) * p[i]);
    Distribute(h - 1, Val(p[..i]), p[i] * BPow(i));
    MulAssoc(h - 1, p[i], BPow(i));
  }

  lemma UpTerm(h: int, x: int)
    ensures x * h == x + (h - 1) * x
  {}

  lemma UpDone(v: int, r: int, w: int, p: int, h: int)
    requires v >= 0 && r >= 0 && w > 0 && p * h < w && v + r * w == p + (h - 1) * p
    ensures v == p * h
  {
    assert p + (h - 1) * p == p * h;
    SmallQuotient(w, v, r);
  }

  /** Limbs needed for i bits (BITS_TO_LIMBS). */
  function LimbsFor(i: nat): nat {
    i / BIL + if i % BIL != 0 then 1 else 0
  }

  lemma LimbsForFits(i: nat)
    ensures BitsIn(LimbsFor(i)) >= i
    ensures LimbsFor(i) > 0 ==> BitsIn(LimbsFor(i) - 1) < i
  {
    assert i == BIL * (i / BIL) + i % BIL;
    BitsInSucc(i / BIL);
    if i % BIL == 0 && i / BIL > 0 { BitsInSucc(i / BIL - 1); }
  }

  lemma LimbsForLeast(i: nat, n: nat)
    ensures BitsIn(LimbsFor(i)) >= i
    ensures BitsIn(n) >= i <==> n >= LimbsFor(i)
  {
    LimbsForFits(i);
    if n >= LimbsFor(i) { BitsInMono(LimbsFor(i), n); } else { BitsInMono(n, LimbsFor(i) - 1); }
  }

  /** X <<= count, growing just enough for the result. */
  method ShiftL(X: Num, count: nat)
    modifies X
    ensures X.Abs() == old(X.Abs()) * Pow2(count) && X.s == old(X.s)
    ensures |X.p| == Max(old(|X.p|), LimbsFor(BitCount(old(X.Abs())) + count))
  {
    var len := BitLen(X);
    var i := len + count;
    LimbsForLeast(i, |X.p|);
    if BitsIn(|X.p|) < i { Grow(X, LimbsFor(i)); }
    ShiftUp(X, len, count);
  }

  /** The moves of ShiftL, once X has room for them. */
  method ShiftUp(X: Num, ghost len: nat, count: nat)
    requires Val(X.p) < Pow2(len) && len + count <= BitsIn(|X.p|)
    modifies X
    ensures X.Abs() == old(X.Abs()) * Pow2(count) && X.s == old(X.s) && |X.p| == old(|X.p|)
  {
    var v0 := count / BIL;
    var t1 := count % BIL;
    DivBounds(count, BIL);
    MoveBits(X, len, v0, t1);
  }

  method MoveBits(X: Num, ghost len: nat, v0: nat, t1: nat)
    requires t1 < BIL && Val(X.p) < Pow2(len) && len + BitsIn(v0) + t1 <= BitsIn(|X.p|)
    modifies X
    ensures X.Abs() == old(X.Abs()) * Pow2(BitsIn(v0) + t1)
    ensures X.s == old(X.s) && |X.p| == old(|X.p|)
  {
    ShiftFits(Val(X.p), len, v0, t1, |X.p|);
    if v0 > 0 { LimbsUp(X, v0); }
    if t1 > 0 { BitsUp(X, v0, t1); }
  }

  function Max(a: nat, b: nat): nat {
    if a < b then b else a
  }

  lemma ShiftFits(x: nat, len: nat, v0: nat, t1: nat, n: nat)
    requires x < Pow2(len) && len + BitsIn(v0) + t1 <= BitsIn(n)
    ensures v0 <= n
    ensures 0 <= x * BPow(v0) < BPow(n)
    ensures x * BPow(v0) * Pow2(t1) < BPow(n)
    ensures x * BPow(v0) * Pow2(t1) == x * Pow2(BitsIn(v0) + t1)
    ensures v0 == 0 ==> x * BPow(v0) == x
    ensures t1 == 0 ==> x * BPow(v0) * Pow2(t1) == x * BPow(v0)
  {
    hide BPow;
    var count := BitsIn(v0) + t1;
    if v0 > n { BitsInMono(n + 1, v0); BitsInSucc(n); }
    Pow2Add(BitsIn(v0), t1);
    BPowBits(v0);
    BPowBits(n);
    Pow2Add(len, count);
    Pow2Mono(len + count, BitsIn(n));
    MulNonNeg(x, BPow(v0));
    ShiftFitsStep(x, BPow(v0), Pow2(t1), Pow2(count), Pow2(len), BPow(n));
  }

  lemma ShiftFitsStep(x: int, w: int, u: int, c: int, l: int, n: int)
    requires 0 <= x < l && w > 0 && u > 0 && c == w * u && l * c <= n
    ensures x * w < n && x * w * u < n && x * w * u == x * c
  {
    MulAssoc(x, w, u);
    MulGt(0, w, u);
    MulGt(x, l, c);
    MulNonNeg(x, w);
    MulGe(1, u, x * w);
    MulComm(u, x * w);
  }
}
