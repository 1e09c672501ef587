/** The multi-precision integer record and its basic operations: resizing,
    copying, comparing, adding, subtracting and multiplying. Every operation
    writes its result into its first argument, which may also be an operand. */
module Mpi {
  import opened Powers
  import opened Limbs

  type Sign = s: int | s == 1 || s == -1 witness 1

  function Flip(s: Sign): Sign {
    if s > 0 then -1 else 1
  }

  /** Product of two signs. */
  function SignProduct(s: Sign, t: Sign): Sign {
    if s == t then 1 else -1
  }

  /** A signed machine word (mbedtls_mpi_sint) whose negation does not overflow. */
  type SignedLimb = z: int | 0 - Base() < 2 * z < Base() witness 0

  datatype Status = Ok | BadInput | NegativeValue | DivisionByZero | NotAcceptable

  /** s is the sign and p the limbs, least significant first. The limb count n
      is |p|, and an empty p is the null pointer of a number without limbs. */
  class Num {
    var s: Sign
    var p: seq<Limb>

    constructor ()
      ensures s == 1 && p == []
    {
      s, p := 1, [];
    }

    function Abs(): nat
      reads this
    {
      Val(p)
    }

    /** The integer this record stands for. */
    function V(): int
      reads this
    {
      if s > 0 then Val(p) else 0 - Val(p)
    }
  }

  function Zeros(n: nat): (z: seq<Limb>)
    ensures |z| == n && Val(z) == 0
    ensures forall i :: 0 <= i < n ==> z[i] == 0
  {
    var z := seq(n, _ => 0);
    ValZeros(z);
    z
  }

  lemma ValPadded(p: seq<Limb>, n: nat)
    ensures Val(p + Zeros(n)) == Val(p)
  {
    ValConcat(p, Zeros(n));
    MulComm(BPow(|p|), 0);
  }

  lemma ValPaddedLow(p: seq<Limb>, n: nat)
    ensures Val(Zeros(n) + p) == Val(p) * BPow(n)
  {
    ValConcat(Zeros(n), p);
    MulComm(Val(p), BPow(n));
  }

  method Grow(X: Num, n: nat)
    modifies X
    ensures X.s == old(X.s) && X.Abs() == old(X.Abs())
    ensures X.p == old(X.p) + Zeros(if n <= |old(X.p)| then 0 else n - |old(X.p)|)
  {
    if |X.p| < n {
      ValPadded(X.p, n - |X.p|);
      X.p := X.p + Zeros(n - |X.p|);
    }
  }

  /** Index just above the highest non-zero limb. */
  method Significant(p: seq<Limb>) returns (i: nat)
    ensures i <= |p| && Val(p) == Val(p[..i]) < BPow(i)
    ensures forall k :: i <= k < |p| ==> p[k] == 0
    ensures i > 0 ==> p[i - 1] != 0 && Val(p) >= BPow(i - 1)
  {
    i := |p|;
    while i > 0
      invariant i <= |p|
      invariant forall k :: i <= k < |p| ==> p[k] == 0
    {
      if p[i - 1] != 0 { break; }
      i := i - 1;
    }
    ValHighZeros(p, i);
    ValBound(p[..i]);
    if i > 0 { ValAtLeast(p, i - 1); }
  }

  /** Index of the highest non-zero limb, or 0. */
  method TopIndex(p: seq<Limb>) returns (i: nat)
    requires p != []
    ensures i < |p| && (forall k :: i < k < |p| ==> p[k] == 0)
    ensures i > 0 ==> p[i] != 0
    ensures Val(p) == Val(p[..i]) + p[i] * BPow(i)
  {
    i := |p| - 1;
    while i > 0
      invariant i < |p|
      invariant forall k :: i < k < |p| ==> p[k] == 0
    {
      if p[i] != 0 { break; }
      i := i - 1;
    }
    ValHighZeros(p, i + 1);
    ValSnoc(p, i);
  }

  /** Copying from a number without limbs frees the target; otherwise the
      target keeps its size unless it must grow. */
  method Copy(X: Num, Y: Num)
    modifies X
    ensures X == Y ==> X.p == old(X.p) && X.s == old(X.s)
    ensures X.V() == old(Y.V()) && X.Abs() == old(Y.Abs())
    ensures old(Y.p) != [] ==> X.s == old(Y.s)
    ensures old(Y.p) == [] ==> X.p == [] && (X != Y ==> X.s == 1)
    ensures old(Y.p) != [] ==> |X.p| > 0 && |X.p| >= old(|X.p|)
    ensures X != Y && old(X.p) == [] && X.Abs() > 0 ==> |X.p| > 0 && X.p[|X.p| - 1] != 0
  {
    if X == Y { return; }
    if Y.p == [] {
      X.s, X.p := 1, [];
      return;
    }
    var i := TopIndex(Y.p);
    i := i + 1;
    X.s := Y.s;
    Grow(X, i);
    ValPadded(Y.p[..i], |X.p| - i);
    X.p := Y.p[..i] + Zeros(|X.p| - i);
    ValHighZeros(Y.p, i);
  }

  method Lset(X: Num, z: SignedLimb)
    modifies X
    ensures X.V() == z && X.s == (if z < 0 then -1 else 1)
    ensures |X.p| == (if old(|X.p|) == 0 then 1 else old(|X.p|))
    ensures X.p == Zeros(|X.p|)[0 := if z < 0 then -z else z]
  {
    Grow(X, 1);
    X.p := Zeros(|X.p|);
    var x: Limb := if z < 0 then -z else z;
    ValUpdate(X.p, 0, x);
    X.p := X.p[0 := x];
    X.s := if z < 0 then -1 else 1;
  }

  // ----- comparison -----

  function SignOf(x: int): int {
    if x > 0 then 1 else if x < 0 then -1 else 0
  }

  /** Two arrays that agree from k up are ordered by limb k - 1 if it differs. */
  lemma ValCompare(p: seq<Limb>, q: seq<Limb>, k: nat)
    requires 0 < k <= |p| && k <= |q| && p[k - 1] > q[k - 1]
    ensures Val(p[..k]) > Val(q[..k])
  {
    ValSnoc(p, k - 1);
    ValSnoc(q, k - 1);
    ValBound(q[..k - 1]);
    MulGe(q[k - 1] + 1, p[k - 1], BPow(k - 1));
    assert (q[k - 1] + 1) * BPow(k - 1) == q[k - 1] * BPow(k - 1) + BPow(k - 1);
  }

  lemma ValSameTop(p: seq<Limb>, q: seq<Limb>, k: nat, n: nat)
    requires k <= n <= |p| && n <= |q|
    requires forall i :: k <= i < n ==> p[i] == q[i]
    ensures Val(p[..n]) - Val(q[..n]) == Val(p[..k]) - Val(q[..k])
  {
    ValSplit(p[..n], k);
    ValSplit(q[..n], k);
    assert p[..n][..k] == p[..k] && q[..n][..k] == q[..k];
    assert p[..n][k..] == q[..n][k..];
  }

  /** The limb-by-limb part of the comparisons, from the top down. */
  method CmpLimbs(p: seq<Limb>, q: seq<Limb>, n: nat) returns (r: int)
    requires n <= |p| && n <= |q|
    ensures r == SignOf(Val(p[..n]) - Val(q[..n]))
  {
    var i: nat := n;
    while i > 0
      invariant i <= n
      invariant forall k :: i <= k < n ==> p[k] == q[k]
    {
      if p[i - 1] != q[i - 1] { break; }
      i := i - 1;
    }
    ValSameTop(p, q, i, n);
    if i == 0 { return 0; }
    if p[i - 1] > q[i - 1] {
      ValCompare(p, q, i);
      return 1;
    }
    ValCompare(q, p, i);
    return -1;
  }

  method CmpAbs(X: Num, Y: Num) returns (r: int)
    ensures r == SignOf(X.Abs() - Y.Abs())
  {
    var i := Significant(X.p);
    var j := Significant(Y.p);
    if i == 0 && j == 0 { return 0; }
    if i > j { LongerIsLarger(X.p, i, Y.p, j); return 1; }
    if j > i { LongerIsLarger(Y.p, j, X.p, i); return -1; }
    r := CmpLimbs(X.p, Y.p, i);
  }

  /** Signed comparison. A zero compares equal to a zero of either sign. */
  method Cmp(X: Num, Y: Num) returns (r: int)
    ensures r == SignOf(X.V() - Y.V())
  {
    var i := Significant(X.p);
    var j := Significant(Y.p);
    if i == 0 && j == 0 { return 0; }
    if i > j {
      LongerIsLarger(X.p, i, Y.p, j);
      return X.s;
    }
    if j > i {
      LongerIsLarger(Y.p, j, X.p, i);
      return Flip(Y.s);
    }
    if X.s > 0 && Y.s < 0 { return 1; }
    if Y.s > 0 && X.s < 0 { return -1; }
    r := CmpLimbs(X.p, Y.p, i);
    r := if X.s > 0 then r else -r;
  }

  lemma LongerIsLarger(p: seq<Limb>, i: nat, q: seq<Limb>, j: nat)
    requires j < i && Val(p) >= BPow(i - 1) && Val(q) < BPow(j)
    ensures Val(p) > Val(q)
  {
    BPowMono(j, i - 1);
  }

  method CmpInt(X: Num, z: SignedLimb) returns (r: int)
    ensures r == SignOf(X.V() - z)
  {
    var Y := new Num();
    Y.p := [if z < 0 then -z else z];
    Y.s := if z < 0 then -1 else 1;
    ValOne(Y.p[0]);
    r := Cmp(X, Y);
  }

  // ----- addition and subtraction -----

  /** One carry step: the machine additions of a carry and a limb lose nothing. */
  lemma CarryStep(x: Limb, c: Limb, t: Limb)
    requires c <= 1
    ensures
      var y := WrapAdd(x, c);
      var z := WrapAdd(y, t);
      var c' := (if y < c then 1 else 0) + (if z < t then 1 else 0);
      z + c' * Base() == x + c + t && c' <= 1
  {}

  lemma CarryMove(v: int, v': int, w: int, b: int, c: int, c': int, x: int, z: int, t: int)
    requires v' == v + (z - x) * w && z + c' * b == x + c + t
    ensures v' + c' * (b * w) == v + c * w + t * w
  {
    assert (z - x) * w == (c + t - c' * b) * w;
    assert (c + t - c' * b) * w == c * w + t * w - c' * (b * w);
  }

  /** X = |A| + |B|. */
  method AddAbs(X: Num, A0: Num, B0: Num)
    modifies X
    ensures X.Abs() == old(A0.Abs()) + old(B0.Abs()) && X.s == 1
    ensures X == A0 || X == B0 || old(A0.p) != [] ==> |X.p| >= old(|X.p|)
  {
    var A, B := A0, B0;
    if X == B { A, B := X, A; }
    if X != A { Copy(X, A); }
    X.s := 1;
    var j := Significant(B.p);
    Grow(X, j);
    assert B.p[..j] == old(B.p)[..j];
    var i, c := AddLoop(X, B, j);
    CarryRun(X, i, c);
  }

  /** Propagates a final carry, growing X when it runs past the top limb. */
  method CarryRun(X: Num, i0: nat, c0: Limb)
    requires c0 <= 1 && i0 <= |X.p|
    modifies X
    ensures X.s == old(X.s) && |X.p| >= old(|X.p|)
    ensures Val(X.p) == old(Val(X.p)) + c0 * BPow(i0)
  {
    hide Base;
    var i: nat, c: Limb := i0, c0;
    while c != 0
      invariant c <= 1 && i <= |X.p| && X.s == old(X.s) && |X.p| >= old(|X.p|)
      invariant Val(X.p) + c * BPow(i) == old(Val(X.p)) + c0 * BPow(i0)
      decreases |X.p| - i + c
    {
      if i >= |X.p| { Grow(X, i + 1); }
      ghost var v, x, c1 := Val(X.p), X.p[i], c;
      var y := WrapAdd(X.p[i], c);
      ValUpdate(X.p, i, y);
      X.p := X.p[i := y];
      c := if y < c then 1 else 0;
      BPowSucc(i);
      CarryMove(v, Val(X.p), BPow(i), Base(), c1, c, x, y, 0);
      i := i + 1;
    }
  }

  /** The limb loop of AddAbs: adds the low j limbs of B into X. */
  method AddLoop(X: Num, B: Num, j: nat) returns (i: nat, c: Limb)
    requires j <= |X.p| && j <= |B.p|
    modifies X
    ensures i == j && c <= 1 && X.s == old(X.s) && |X.p| == old(|X.p|)
    ensures Val(X.p) + c * BPow(j) == old(Val(X.p)) + Val(old(B.p)[..j])
  {
    hide Base, WrapAdd;
    i, c := 0, 0;
    ghost var a, b := Val(X.p), B.p;
    while i < j
      invariant i <= j && c <= 1 && X.s == old(X.s) && |X.p| == old(|X.p|) && |B.p| == |b|
      invariant forall k :: i <= k < j ==> B.p[k] == b[k]
      invariant Val(X.p) + c * BPow(i) == a + Val(b[..i])
    {
      var tmp := B.p[i];
      var x := X.p[i];
      var y := WrapAdd(x, c);
      var c1 := if y < c then 1 else 0;
      var z := WrapAdd(y, tmp);
      CarryStep(x, c, tmp);
      ValUpdate(X.p, i, z);
      ghost var v, c0 := Val(X.p), c;
      X.p := X.p[i := z];
      c := c1 + if z < tmp then 1 else 0;
      BPowSucc(i);
      ValSnoc(b, i);
      CarryMove(v, Val(X.p), BPow(i), Base(), c0, c, x, z, tmp);
      i := i + 1;
    }
  }

  // ----- subtraction -----

  lemma BorrowStep(x: Limb, c: Limb, t: Limb)
    requires c <= 1
    ensures
      var y := WrapSub(x, c);
      var z := WrapSub(y, t);
      var c' := (if x < c then 1 else 0) + (if y < t then 1 else 0);
      z - c' * Base() == x - c - t && c' <= 1
  {}

  lemma BorrowMove(v: int, v': int, w: int, b: int, c: int, c': int, x: int, z: int, t: int)
    requires v' == v + (z - x) * w && z - c' * b == x - c - t
    ensures v' - c' * (b * w) == v - c * w - t * w
  {
    assert (z - x) * w == (c' * b - c - t) * w;
    assert (c' * b - c - t) * w == c' * (b * w) - c * w - t * w;
  }

  /** Subtracts the low n limbs of S from D, letting the borrow run on up D.
      The borrow never leaves D because the difference is not negative. */
  method SubHlp(n: nat, S: Num, D: Num)
    requires S != D && n <= |S.p| && n <= |D.p|
    requires Val(D.p) >= Val(S.p[..n])
    modifies D
    ensures D.s == old(D.s) && |D.p| == old(|D.p|)
    ensures Val(D.p) == old(Val(D.p)) - Val(S.p[..n])
  {
    var i, c := SubLoop(n, S, D);
    BorrowRun(D, i, c);
  }

  /** Propagates a final borrow. */
  method BorrowRun(D: Num, i0: nat, c0: Limb)
    requires c0 <= 1 && i0 <= |D.p| && Val(D.p) - c0 * BPow(i0) >= 0
    modifies D
    ensures D.s == old(D.s) && |D.p| == old(|D.p|)
    ensures Val(D.p) == old(Val(D.p)) - c0 * BPow(i0)
  {
    var i: nat, c: Limb := i0, c0;
    while c != 0
      invariant c <= 1 && i <= |D.p| && D.s == old(D.s) && |D.p| == old(|D.p|)
      invariant Val(D.p) - c * BPow(i) == old(Val(D.p)) - c0 * BPow(i0)
      decreases |D.p| - i + c
    {
      ValBound(D.p);
      ghost var v, x, c1 := Val(D.p), D.p[i], c;
      var y := WrapSub(D.p[i], c);
      ValUpdate(D.p, i, y);
      c := if D.p[i] < c then 1 else 0;
      D.p := D.p[i := y];
      BPowSucc(i);
      BorrowMove(v, Val(D.p), BPow(i), Base(), c1, c, x, y, 0);
      i := i + 1;
    }
  }

  /** The limb loop of SubHlp. */
  method SubLoop(n: nat, S: Num, D: Num) returns (i: nat, c: Limb)
    requires S != D && n <= |S.p| && n <= |D.p|
    modifies D
    ensures i == n && c <= 1 && D.s == old(D.s) && |D.p| == old(|D.p|)
    ensures Val(D.p) - c * BPow(n) == old(Val(D.p)) - Val(S.p[..n])
  {
    hide Base;
    i, c := 0, 0;
    ghost var d := Val(D.p);
    while i < n
      invariant i <= n && c <= 1 && D.s == old(D.s) && |D.p| == old(|D.p|)
      invariant Val(D.p) - c * BPow(i) == d - Val(S.p[..i])
    {
      var x, t := D.p[i], S.p[i];
      var z := if x < c then 1 else 0;
      var y := WrapSub(x, c);
      BorrowStep(x, c, t);
      var r := WrapSub(y, t);
      ValUpdate(D.p, i, r);
      ghost var v, c0 := Val(D.p), c;
      c := (if y < t then 1 else 0) + z;
      D.p := D.p[i := r];
      BPowSucc(i);
      ValSnoc(S.p, i);
      BorrowMove(v, Val(D.p), BPow(i), Base(), c0, c, x, r, t);
      i := i + 1;
    }
  }

  /** X = |A| - |B|, refused when that is negative. */
  method SubAbs(X: Num, A: Num, B0: Num) returns (ret: Status)
    modifies X
    ensures ret == if old(A.Abs()) < old(B0.Abs()) then NegativeValue else Ok
    ensures ret == Ok ==> X.Abs() == old(A.Abs()) - old(B0.Abs()) && X.s == 1
    ensures ret == Ok && (X == A || old(A.p) != []) ==> |X.p| >= old(|X.p|)
    ensures ret != Ok ==> X.s == old(X.s) && X.p == old(X.p)
  {
    var c := CmpAbs(A, B0);
    if c < 0 { return NegativeValue; }
    var B := B0;
    if X == B {
      B := new Num();
      Copy(B, B0);
    }
    if X != A { Copy(X, A); }
    X.s := 1;
    var n := Significant(B.p);
    SignificantFits(X.p, B.p, n);
    SubHlp(n, B, X);
    ret := Ok;
  }

  lemma SignificantFits(x: seq<Limb>, b: seq<Limb>, n: nat)
    requires Val(b) <= Val(x)
    requires n > 0 ==> Val(b) >= BPow(n - 1)
    ensures n <= |x|
  {
    ValBound(x);
    if n > |x| { BPowMono(|x|, n - 1); }
  }

  // ----- signed addition and subtraction -----

  /** X = A + B. */
  method Add(X: Num, A: Num, B: Num)
    modifies X
    ensures X.V() == old(A.V()) + old(B.V())
    ensures old(A.p) != [] && old(B.p) != [] ==> |X.p| >= old(|X.p|)
  {
    var s := A.s;
    if A.s != B.s {
      var c := CmpAbs(A, B);
      if c >= 0 {
        var r := SubAbs(X, A, B);
        X.s := s;
      } else {
        var r := SubAbs(X, B, A);
        X.s := Flip(s);
      }
    } else {
      AddAbs(X, A, B);
      X.s := s;
    }
  }

  /** X = A - B. */
  method Sub(X: Num, A: Num, B: Num)
    modifies X
    ensures X.V() == old(A.V()) - old(B.V())
    ensures old(A.p) != [] && old(B.p) != [] ==> |X.p| >= old(|X.p|)
    ensures old(A.s) == 1 && X.V() >= 0 ==> X.s == 1
  {
    var s := A.s;
    if A.s == B.s {
      var c := CmpAbs(A, B);
      if c >= 0 {
        var r := SubAbs(X, A, B);
        X.s := s;
      } else {
        var r := SubAbs(X, B, A);
        X.s := Flip(s);
      }
    } else {
      AddAbs(X, A, B);
      X.s := s;
    }
  }

  // ----- multiplication -----

  /** A limb product plus two limbs fits in two limbs. */
  lemma MulCarry(s: Limb, b: Limb, x: Limb, c: Limb)
    ensures var t := s * b + x + c; 0 <= t / Base() < Base() && t == t % Base() + (t / Base()) * Base()
  {
    var t := s * b + x + c;
    MulNonNeg(s, b);
    TwoLimbBound(Base(), s, b, x, c);
    QuotientBelow(t, Base(), Base());
  }

  lemma TwoLimbBound(m: int, s: int, b: int, x: int, c: int)
    requires 0 <= s < m && 0 <= b < m && x < m && c < m
    ensures s * b + x + c < m * m
  {
    MulGe(s, m - 1, b);
    MulGe(b, m - 1, m - 1);
    assert (m - 1) * (m - 1) + 2 * (m - 1) == m * m - 1;
  }

  lemma QuotientBelow(t: int, m: int, k: int)
    requires m > 0 && 0 <= t < k * m
    ensures 0 <= t / m < k && t == t % m + (t / m) * m
  {
    assert t == m * (t / m) + t % m;
    if t / m >= k { MulGe(k, t / m, m); }
  }

  lemma MulMove(v: int, v': int, w: int, m: int, c: int, c': int, x: int, z: int, t: int)
    requires v' == v + (z - x) * w && z + c' * m == t + x + c
    ensures v' + c' * (m * w) == v + c * w + t * w
  {
    CarryMove(v, v', w, m, c, c', x, z, t);
  }

  /** D[off..] += b * S[..i], with the carry running on up D. The carry never
      leaves D because the total fits in it. */
  method MulHlp(i: nat, S: Num, D: Num, off: nat, b: Limb)
    requires S != D && i <= |S.p| && off + i < |D.p|
    requires Val(D.p) + b * Val(S.p[..i]) * BPow(off) < BPow(|D.p|)
    modifies D
    ensures D.s == old(D.s) && |D.p| == old(|D.p|)
    ensures D.p[..off] == old(D.p)[..off]
    ensures Val(D.p) == old(Val(D.p)) + b * Val(S.p[..i]) * BPow(off)
  {
    var c := MulLoop(i, S, D, off, b);
    MulRun(D, off + i, c);
    assert D.p[..off] == old(D.p)[..off];
  }

  /** The multiply-accumulate steps (MULADDC_CORE) of MulHlp. */
  method MulLoop(i: nat, S: Num, D: Num, off: nat, b: Limb) returns (c: Limb)
    requires S != D && i <= |S.p| && off + i < |D.p|
    modifies D
    ensures D.s == old(D.s) && |D.p| == old(|D.p|)
    ensures D.p[..off] == old(D.p)[..off]
    ensures Val(D.p) + c * BPow(off + i) == old(Val(D.p)) + b * Val(S.p[..i]) * BPow(off)
  {
    hide BPow, Base;
    c := 0;
    var k := 0;
    ghost var d := Val(D.p);
    while k < i
      invariant k <= i && D.s == old(D.s) && |D.p| == old(|D.p|)
      invariant D.p[..off] == old(D.p)[..off]
      invariant Val(D.p) + c * BPow(off + k) == d + b * Val(S.p[..k]) * BPow(off)
    {
      var x, s := D.p[off + k], S.p[k];
      var t := s * b + x + c;
      MulCarry(s, b, x, c);
      var z: Limb := t % Base();
      ValUpdate(D.p, off + k, z);
      ghost var v, c0 := Val(D.p), c;
      c := t / Base();
      D.p := D.p[off + k := z];
      MulAdvance(S.p, k, off, b, v, Val(D.p), c0, c, x, z, d);
      k := k + 1;
    }
  }

  lemma MulAdvance(p: seq<Limb>, k: nat, off: nat, b: Limb, v: int, v': int, c: int, c': int, x: int, z: int, d: int)
    requires k < |p| && v' == v + (z - x) * BPow(off + k)
    requires z + c' * Base() == p[k] * b + x + c
    requires v + c * BPow(off + k) == d + b * Val(p[..k]) * BPow(off)
    ensures v' + c' * BPow(off + k + 1) == d + b * Val(p[..k + 1]) * BPow(off)
  {
    BPowSucc(off + k);
    BPowAdd(off, k);
    ValSnoc(p, k);
    MulMove(v, v', BPow(off + k), Base(), c, c', x, z, p[k] * b);
    Regroup(b, Val(p[..k]), p[k], BPow(k), BPow(off));
  }

  lemma Regroup(b: int, y: int, s: int, w: int, u: int)
    ensures b * (y + s * w) * u == b * y * u + (s * b) * (u * w)
  {
    assert b * (y + s * w) == b * y + b * (s * w);
    assert b * (s * w) * u == (s * b) * (u * w);
  }

  /** Adds a full-limb carry at i0 and propagates what is left of it; the first
      limb is touched even when there is nothing to add. */
  method MulRun(D: Num, i0: nat, c0: Limb)
    requires i0 < |D.p| && Val(D.p) + c0 * BPow(i0) < BPow(|D.p|)
    modifies D
    ensures D.s == old(D.s) && |D.p| == old(|D.p|)
    ensures forall k :: 0 <= k < i0 ==> D.p[k] == old(D.p)[k]
    ensures Val(D.p) == old(Val(D.p)) + c0 * BPow(i0)
  {
    hide Val;
    var i: nat, c: Limb, first := i0, c0, true;
    while first || c != 0
      invariant i0 <= i <= |D.p| && D.s == old(D.s) && |D.p| == old(|D.p|)
      invariant first ==> i == i0
      invariant forall k :: 0 <= k < i0 ==> D.p[k] == old(D.p)[k]
      invariant Val(D.p) + c * BPow(i) == old(Val(D.p)) + c0 * BPow(i0)
      decreases |D.p| - i + (if c != 0 then 1 else 0) + (if first then 1 else 0)
    {
      if !first {
        MulGe(1, c, BPow(i));
      }
      ghost var v, x, c1 := Val(D.p), D.p[i], c;
      var y := WrapAdd(D.p[i], c);
      ValUpdate(D.p, i, y);
      D.p := D.p[i := y];
      c := if y < c then 1 else 0;
      BPowSucc(i);
      CarryMove(v, Val(D.p), BPow(i), Base(), c1, c, x, y, 0);
      i := i + 1;
      first := false;
    }
  }

  /** X = A * B. */
  method Mul(X: Num, A0: Num, B0: Num)
    modifies X
    ensures X.V() == old(A0.V()) * old(B0.V()) && X.Abs() == old(A0.Abs()) * old(B0.Abs())
    ensures |X.p| >= old(|X.p|) && |X.p| >= 1
  {
    var A, B := A0, B0;
    if X == A { A := new Num(); Copy(A, A0); }
    if X == B { B := new Num(); Copy(B, B0); }
    MulInto(X, A, B);
  }

  method MulInto(X: Num, A: Num, B: Num)
    requires X != A && X != B
    modifies X
    ensures X.V() == A.V() * B.V() && X.Abs() == A.Abs() * B.Abs()
    ensures |X.p| >= old(|X.p|) && |X.p| >= 1
  {
    hide Val;
    var i := Significant(A.p);
    var j := Significant(B.p);
    Grow(X, i + j);
    Lset(X, 0);
    MulRows(X, A, B, i, j);
    X.s := SignProduct(A.s, B.s);
    SignedProduct(A.s, Val(A.p), B.s, Val(B.p));
  }

  lemma SignedProduct(s: Sign, a: nat, t: Sign, b: nat)
    ensures
      (if s > 0 then a else 0 - a) * (if t > 0 then b else 0 - b)
        == (if SignProduct(s, t) > 0 then a * b else 0 - a * b)
  {}

  /** The rows of the product, from the top limb of B down. */
  method MulRows(X: Num, A: Num, B: Num, i: nat, j0: nat)
    requires X != A && X != B && i <= |A.p| && j0 <= |B.p|
    requires i + j0 <= |X.p| && |X.p| >= 1 && Val(X.p) == 0
    modifies X
    ensures X.s == old(X.s) && |X.p| == old(|X.p|)
    ensures Val(X.p) == Val(A.p[..i]) * Val(B.p[..j0])
  {
    hide BPow, Base;
    var j := j0;
    ghost var a, b := Val(A.p[..i]), Val(B.p[..j0]);
    assert B.p[..j0][..j0] == B.p[..j0];
    while j > 0
      invariant 0 <= j <= j0 && X.s == old(X.s) && |X.p| == old(|X.p|)
      invariant Val(X.p) == a * (b - Val(B.p[..j]))
    {
      ValSnoc(B.p, j - 1);
      RowStep(a, b, Val(B.p[..j]), Val(B.p[..j - 1]), B.p[j - 1], BPow(j - 1));
      ProductFits(A.p, i, B.p, j0, |X.p|);
      MulHlp(i, A, X, j - 1, B.p[j - 1]);
      j := j - 1;
    }
  }

  lemma RowStep(a: int, b: int, hi: int, lo: int, x: int, w: int)
    requires a >= 0 && lo >= 0 && hi == lo + x * w
    ensures a * (b - hi) + x * a * w == a * (b - lo) <= a * b
  {
    assert x * a * w == a * (x * w);
    MulNonNeg(a, lo);
  }

  lemma ProductFits(p: seq<Limb>, i: nat, q: seq<Limb>, j: nat, n: nat)
    requires i <= |p| && j <= |q| && i + j <= n
    ensures Val(p[..i]) * Val(q[..j]) < BPow(n)
  {
    ValBound(p[..i]);
    ValBound(q[..j]);
    BPowAdd(i, j);
    BPowMono(i + j, n);
    ProductBound(Val(p[..i]), Val(q[..j]), BPow(i), BPow(j));
  }

  lemma ProductBound(x: int, y: int, w: int, z: int)
    requires 0 <= x < w && 0 <= y < z
    ensures x * y < w * z
  {
    MulGe(x, w, y);
    MulGt(y, z, w);
  }

  /** X = A * b. */
  method MulInt(X: Num, A: Num, b: Limb)
    modifies X
    ensures X.V() == old(A.V()) * b && X.Abs() == old(A.Abs()) * b
    ensures |X.p| >= old(|X.p|) && |X.p| >= 1
  {
    var B := new Num();
    B.p := [b];
    ValOne(b);
    Mul(X, A, B);
  }
}
