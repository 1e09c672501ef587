/** Limbs (machine words) and the value of a little-endian limb array. */
module Limbs {
  import opened Powers

  // 32- and 64-bit builds are both covered: nothing below fixes the width.
  type LimbWidth = w: nat | w == 32 || w == 64 witness 32

  /** Bits in a limb (biL). */
  const BIL: LimbWidth

  /** Bits in half a limb (biH). */
  const BIH: nat := BIL / 2

  /** One more than the largest limb. */
  function Base(): (b: nat)
    ensures b >= 16 && b % 2 == 0
  {
    Pow2Mono(4, BIL);
    Pow2Four();
    Pow2Even(BIL);
    Pow2(BIL)
  }

  type Limb = x: nat | x < Base() witness 0

  function BPow(k: nat): (w: nat)
    ensures w >= 1
  {
    PowPositive(Base(), k);
    Pow(Base(), k)
  }

  lemma BaseBits()
    ensures Base() == Pow2(BIL)
  {}

  lemma BPowSucc(k: nat)
    ensures BPow(k + 1) == Base() * BPow(k)
  {}

  lemma BPowAdd(m: nat, n: nat)
    ensures BPow(m + n) == BPow(m) * BPow(n)
  {
    PowAdd(Base(), m, n);
  }

  lemma BPowSplit(n: nat, k: nat)
    requires k <= n
    ensures BPow(n) == BPow(n - k) * BPow(k)
  {
    BPowAdd(n - k, k);
  }

  /** The number of bits in k limbs. */
  function BitsIn(k: nat): nat {
    MulNonNeg(BIL, k);
    BIL * k
  }

  lemma BitsInSucc(k: nat)
    ensures BitsIn(k + 1) == BitsIn(k) + BIL && BitsIn(0) == 0
  {}

  lemma BitsInMono(j: nat, k: nat)
    requires j <= k
    ensures BitsIn(j) <= BitsIn(k)
  {
    MulGe(j, k, BIL);
  }

  lemma BPowBits(k: nat)
    ensures BPow(k) == Pow2(BitsIn(k))
  {
    PowOfPow2(BIL, k);
  }

  lemma {:induction false} BPowMono(m: nat, n: nat)
    requires m <= n
    ensures BPow(m) <= BPow(n)
  {
    if m < n {
      BPowMono(m, n - 1);
      BPowSucc(n - 1);
      MulGe(1, Base(), BPow(n - 1));
    }
  }

  // ----- single-limb machine arithmetic -----

  /** Unsigned addition, wrapping around. */
  function WrapAdd(a: Limb, b: Limb): Limb {
    if a + b < Base() then a + b else a + b - Base()
  }

  /** Unsigned subtraction, wrapping around. */
  function WrapSub(a: Limb, b: Limb): Limb {
    if a >= b then a - b else a + Base() - b
  }

  /** Unsigned multiplication, wrapping around. */
  function WrapMul(a: Limb, b: Limb): Limb {
    (a * b) % Base()
  }

  // ----- values of limb arrays -----

  function Val(p: seq<Limb>): nat
  {
    if p == [] then 0 else MulNonNeg(Base(), Val(p[1..])); p[0] + Base() * Val(p[1..])
  }

  lemma {:induction false} ValConcat(p: seq<Limb>, q: seq<Limb>)
    ensures Val(p + q) == Val(p) + BPow(|p|) * Val(q)
  {
    if p == [] {
      assert p + q == q;
    } else {
      ValConcat(p[1..], q);
      assert (p + q)[1..] == p[1..] + q;
      BPowSucc(|p| - 1);
      ConcatStep(Base(), BPow(|p| - 1), Val(p[1..]), Val(q));
    }
  }

  lemma ConcatStep(b: int, w: int, x: int, y: int)
    ensures b * (x + w * y) == b * x + (b * w) * y
  {
    assert b * (w * y) == (b * w) * y;
  }

  lemma ValSplit(p: seq<Limb>, k: nat)
    requires k <= |p|
    ensures Val(p) == Val(p[..k]) + BPow(k) * Val(p[k..])
  {
    ValConcat(p[..k], p[k..]);
    assert p[..k] + p[k..] == p;
  }

  lemma ValSnoc(p: seq<Limb>, k: nat)
    requires k < |p|
    ensures Val(p[..k + 1]) == Val(p[..k]) + p[k] * BPow(k)
  {
    ValConcat(p[..k], [p[k]]);
    assert p[..k] + [p[k]] == p[..k + 1];
    ValOne(p[k]);
  }

  lemma ValOne(x: Limb)
    ensures Val([x]) == x
  {
    assert [x][1..] == [];
  }

  lemma ValTwo(x: Limb, y: Limb)
    ensures Val([x, y]) == x + Base() * y
  {
    assert [x, y][1..] == [y];
    ValOne(y);
  }

  /** Writing one limb moves the value by that limb's weight. */
  lemma ValUpdate(p: seq<Limb>, k: nat, x: Limb)
    requires k < |p|
    ensures Val(p[k := x]) == Val(p) + (x - p[k]) * BPow(k)
  {
    var q := p[k := x];
    ValSplit(p, k);
    ValSplit(q, k);
    assert q[..k] == p[..k];
    assert q[k..][1..] == p[k..][1..];
    UpdateStep(BPow(k), p[k], x, Base() * Val(p[k..][1..]));
  }

  lemma UpdateStep(w: int, x: int, y: int, h: int)
    ensures w * (y + h) == w * (x + h) + (y - x) * w
  {}

  lemma {:induction false} ValBound(p: seq<Limb>)
    ensures Val(p) < BPow(|p|)
  {
    if p != [] {
      ValBound(p[1..]);
      BPowSucc(|p| - 1);
      MulGe(Val(p[1..]) + 1, BPow(|p| - 1), Base());
      assert (Val(p[1..]) + 1) * Base() == Base() * Val(p[1..]) + Base();
      assert BPow(|p| - 1) * Base() == Base() * BPow(|p| - 1);
    }
  }

  lemma {:induction false} ValZeros(p: seq<Limb>)
    requires forall i :: 0 <= i < |p| ==> p[i] == 0
    ensures Val(p) == 0
  {
    if p != [] {
      ValZeros(p[1..]);
    }
  }

  lemma {:induction false} ValZeroConverse(p: seq<Limb>)
    requires Val(p) == 0
    ensures forall i :: 0 <= i < |p| ==> p[i] == 0
  {
    if p != [] {
      MulNonNeg(Base(), Val(p[1..]));
      SmallQuotient(Base(), 0, Val(p[1..]));
      ValZeroConverse(p[1..]);
      assert forall i :: 1 <= i < |p| ==> p[i] == p[1..][i - 1];
    }
  }

  lemma ValHighZeros(p: seq<Limb>, k: nat)
    requires k <= |p|
    requires forall i :: k <= i < |p| ==> p[i] == 0
    ensures Val(p) == Val(p[..k])
  {
    ValSplit(p, k);
    ValZeros(p[k..]);
  }

  /** A value below BPow(k) has no set limb from k up. */
  lemma ValLowBound(p: seq<Limb>, k: nat)
    requires k <= |p| && Val(p) < BPow(k)
    ensures forall i :: k <= i < |p| ==> p[i] == 0
    ensures Val(p) == Val(p[..k])
  {
    ValSplit(p, k);
    SmallQuotient(BPow(k), Val(p[..k]), Val(p[k..]));
    ValZeroConverse(p[k..]);
    assert forall i :: k <= i < |p| ==> p[i] == p[k..][i - k];
  }

  lemma ValHead(p: seq<Limb>)
    requires p != []
    ensures Val(p) == p[0] + Base() * Val(p[1..])
  {}

  /** A set limb at k makes the value at least BPow(k). */
  lemma ValAtLeast(p: seq<Limb>, k: nat)
    requires k < |p| && p[k] > 0
    ensures Val(p) >= p[k] * BPow(k) >= BPow(k)
  {
    hide Base, BPow, Val;
    ValSplit(p, k);
    ValHead(p[k..]);
    MulNonNeg(Base(), Val(p[k..][1..]));
    AtLeastStep(BPow(k), p[k], Base() * Val(p[k..][1..]));
  }

  /** Equal-length arrays with equal values are equal. */
  lemma {:induction false} ValInjective(p: seq<Limb>, q: seq<Limb>)
    requires |p| == |q| && Val(p) == Val(q)
    ensures p == q
  {
    if p != [] {
      DigitUnique(Base(), p[0], Val(p[1..]), q[0], Val(q[1..]));
      ValInjective(p[1..], q[1..]);
      assert p == [p[0]] + p[1..] && q == [q[0]] + q[1..];
    }
  }

  lemma ValParity(p: seq<Limb>)
    requires p != []
    ensures Val(p) % 2 == p[0] % 2
  {
    ParityStep(p[0], Base(), Val(p[1..]));
  }

  lemma AtLeastStep(w: int, x: int, h: int)
    requires w >= 0 && x >= 1 && h >= 0
    ensures w * (x + h) >= x * w >= w
  {
    MulNonNeg(w, h);
    MulGe(1, x, w);
    assert w * (x + h) == x * w + w * h;
  }
}
