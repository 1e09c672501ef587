/** Multi-precision integers as big-endian bytes: the binary import and export of
    bignum.c. */
module MpiBytes {
  import opened Bytes
  import opened Powers
  import opened Limbs
  import opened Mpi
  import opened Bits

  /** Bytes in a limb (ciL). */
  const CIL: nat := BIL / 8

  /** The value of big-endian bytes. */
  function Big(b: seq<Byte>): nat {
    if b == [] then 0 else Big(b[..|b| - 1]) * 256 + b[|b| - 1]
  }

  function Weight(j: nat): (w: nat)
    ensures w >= 1
  {
    Pow2(8 * j)
  }

  lemma WeightSucc(j: nat)
    ensures Weight(j + 1) == 256 * Weight(j) && Weight(0) == 1
  {
    Pow2Eight();
    Pow2Add(8, 8 * j);
  }

  lemma Pow2Eight()
    ensures Pow2(8) == 256
  {
    Pow2Add(4, 4);
    Pow2Four();
  }

  lemma {:induction false} BigFront(x: Byte, b: seq<Byte>)
    ensures Big([x] + b) == x * Weight(|b|) + Big(b)
  {
    if b == [] {
      assert [x] + b == [x] && [x][..0] == [];
      WeightSucc(0);
    } else {
      var r := b[..|b| - 1];
      assert ([x] + b)[..|b|] == [x] + r;
      BigFront(x, r);
      WeightSucc(|r|);
      BigFrontStep(x, Weight(|r|), Big(r), b[|b| - 1]);
    }
  }

  lemma BigFrontStep(x: int, w: int, v: int, y: int)
    ensures (x * w + v) * 256 + y == x * (256 * w) + (v * 256 + y)
  {}

  lemma {:induction false} BigBound(b: seq<Byte>)
    ensures Big(b) < Weight(|b|)
  {
    if b == [] {
      WeightSucc(0);
    } else {
      BigBound(b[..|b| - 1]);
      WeightSucc(|b| - 1);
    }
  }

  lemma {:induction false} BigZeros(n: nat, b: seq<Byte>)
    ensures Big(ZeroBytes(n) + b) == Big(b)
  {
    if n == 0 {
      assert ZeroBytes(0) + b == b;
    } else {
      assert ZeroBytes(n) + b == [0] + (ZeroBytes(n - 1) + b);
      BigFront(0, ZeroBytes(n - 1) + b);
      BigZeros(n - 1, b);
    }
  }

  // ----- bytes of limbs -----

  /** Byte j of a number, in its limb. */
  function LimbByte(p: seq<Limb>, j: nat): Byte
    requires j / CIL < |p|
  {
    p[j / CIL] / Pow2(8 * (j % CIL)) % 256
  }

  lemma WeightInLimb(j: nat)
    ensures Weight(j) == BPow(j / CIL) * Pow2(8 * (j % CIL))
    ensures Base() == Pow2(8 * (j % CIL)) * (256 * Pow2(BIL - 8 * (j % CIL) - 8))
  {
    hide Base, Pow2;
    var k, m := j / CIL, j % CIL;
    BPowBits(k);
    BitsAndBytes(j);
    Pow2Add(BitsIn(k), 8 * m);
    BaseBits();
    Pow2Add(8 * m, BIL - 8 * m);
    Pow2Eight();
    Pow2Add(8, BIL - 8 * m - 8);
  }

  lemma BitsAndBytes(j: nat)
    ensures 8 * j == BitsIn(j / CIL) + 8 * (j % CIL) && 8 * (j % CIL) + 8 <= BIL == 8 * CIL
  {
    if BIL == 32 {
      assert CIL == 4;
    } else {
      assert CIL == 8;
    }
  }

  /** It is byte j of the value. */
  lemma LimbByteOfValue(p: seq<Limb>, j: nat)
    requires j / CIL < |p|
    ensures LimbByte(p, j) == Val(p) / Weight(j) % 256
  {
    hide Base, Pow2, Weight;
    var k, m := j / CIL, j % CIL;
    WeightInLimb(j);
    ValSplit(p, k);
    ValBound(p[..k]);
    DivOf(Val(p), BPow(k), Val(p[k..]), Val(p[..k]));
    DivDiv(Val(p), BPow(k), Pow2(8 * m));
    ByteOfLimb(p[k], Val(p[k..][1..]), Pow2(8 * m), Pow2(BIL - 8 * m - 8), Base());
    ValHead(p[k..]);
  }

  lemma ByteOfLimb(x: int, h: int, w: int, g: int, b: int)
    requires w > 0 && g > 0 && b == w * (256 * g) && 0 <= x
    ensures (x + b * h) / w % 256 == x / w % 256
  {
    assert x + b * h == (x / w + 256 * (g * h)) * w + x % w by {
      assert b * h == (256 * (g * h)) * w;
    }
    DivModUnique(x + b * h, w, x / w + 256 * (g * h), x % w);
    DivModUnique(x / w + 256 * (g * h), 256, x / w / 256 + g * h, x / w % 256);
  }

  lemma NextByte(v: nat, w: nat)
    requires w > 0
    ensures v % (256 * w) == (v / w % 256) * w + v % w
  {
    var q := v / w;
    assert v == (q / 256) * (256 * w) + ((q % 256) * w + v % w) by {
      assert v == q * w + v % w && q == 256 * (q / 256) + q % 256;
      assert (256 * (q / 256) + q % 256) * w == (q / 256) * (256 * w) + (q % 256) * w;
    }
    MulGe(q % 256, 255, w);
    MulNonNeg(q % 256, w);
    DivModUnique(v, 256 * w, q / 256, (q % 256) * w + v % w);
  }

  // ----- export -----

  /** mbedtls_mpi_size. */
  method Size(X: Num) returns (n: nat)
    ensures n == (BitCount(X.Abs()) + 7) / 8
  {
    var bits := BitLen(X);
    n := (bits + 7) / 8;
  }

  lemma SizeFits(p: seq<Limb>, n: nat)
    requires n == (BitCount(Val(p)) + 7) / 8 && BitCount(Val(p)) <= BitsIn(|p|)
    ensures n <= CIL * |p| && Val(p) < Weight(n) && (n > 0 ==> Val(p) >= Weight(n - 1))
  {
    hide Base, Pow2, Val, BitCount;
    BitsAndBytes(0);
    MulAssoc(8, CIL, |p|);
    Pow2Mono(BitCount(Val(p)), 8 * n);
    if n > 0 { Pow2Mono(8 * (n - 1), BitCount(Val(p)) - 1); }
  }

  lemma LimbOfByte(j: nat, n: nat, len: nat)
    requires j < n <= CIL * len
    ensures j / CIL < len
  {
    if j / CIL >= len { MulGe(len, j / CIL, CIL); }
  }

  /** mbedtls_mpi_write_binary, to the len bytes of the buffer at position at. */
  method WriteBinary(X: Num, buf: array<Byte>, at: nat, len: nat) returns (ok: bool)
    requires at + len <= buf.Length
    modifies buf
    ensures ok <==> (BitCount(X.Abs()) + 7) / 8 <= len
    ensures !ok ==> buf[..] == old(buf[..])
    ensures ok ==> Big(buf[at..at + len]) == X.Abs()
    ensures buf[..at] == old(buf[..])[..at] && buf[at + len..] == old(buf[..])[at + len..]
  {
    hide Base, Big, Pow2;
    var size := Size(X);
    if len < size {
      return false;
    }
    var r := BitLen(X);
    SizeFits(X.p, size);
    forall k | at <= k < at + len {
      buf[k] := 0;
    }
    PutBytes(X, buf, at, len, size);
    DivModUnique(Val(X.p), Weight(size), 0, Val(X.p));
    return true;
  }

  /** The loop that writes size bytes, from the last one. */
  method PutBytes(X: Num, buf: array<Byte>, at: nat, len: nat, size: nat)
    requires at + len <= buf.Length && size <= len && size <= CIL * |X.p|
    requires forall k :: at <= k < at + len ==> buf[k] == 0
    modifies buf
    ensures Big(buf[at..at + len]) == Val(X.p) % Weight(size)
    ensures buf[..at] == old(buf[..])[..at] && buf[at + len..] == old(buf[..])[at + len..]
  {
    hide Base, Big, Pow2, Weight, Val, LimbByte;
    var n, i, j := size, len - 1, 0;
    BigNothing();
    WeightSucc(0);
    assert buf[at + len..at + len] == [];
    while n > 0
      invariant 0 <= n && j + n == size && i == len - 1 - j
      invariant forall k :: at <= k < at + i + 1 ==> buf[k] == 0
      invariant Big(buf[at + i + 1..at + len]) == Val(X.p) % Weight(j)
      invariant buf[..at] == old(buf[..])[..at] && buf[at + len..] == old(buf[..])[at + len..]
      decreases n
    {
      LimbOfByte(j, size, |X.p|);
      ghost var tail := buf[at + i + 1..at + len];
      buf[at + i] := LimbByte(X.p, j);
      assert buf[at + i..at + len] == [LimbByte(X.p, j)] + tail;
      ByteWritten(X.p, j, tail);
      i, j, n := i - 1, j + 1, n - 1;
    }
    assert buf[at..at + len] == ZeroBytes(len - size) + buf[at + len - size..at + len];
    BigZeros(len - size, buf[at + len - size..at + len]);
  }

  lemma BigNothing()
    ensures Big([]) == 0
  {}

  lemma ByteWritten(p: seq<Limb>, j: nat, tail: seq<Byte>)
    requires j / CIL < |p| && |tail| == j && Big(tail) == Val(p) % Weight(j)
    ensures Big([LimbByte(p, j)] + tail) == Val(p) % Weight(j + 1)
  {
    hide Base, Big, Pow2;
    LimbByteOfValue(p, j);
    BigFront(LimbByte(p, j), tail);
    WeightSucc(j);
    NextByte(Val(p), Weight(j));
  }

  // ----- import -----

  function LimbsForBytes(i: nat): nat {
    i / CIL + if i % CIL != 0 then 1 else 0
  }

  /** A value of j bytes leaves room for byte j in its limb. */
  lemma ByteRoom(p: seq<Limb>, j: nat, x: Byte, k: nat, w: nat)
    requires k == j / CIL < |p| && w == Pow2(8 * (j % CIL)) && Val(p) < Weight(j)
    ensures p[k] < w && 0 <= p[k] + x * w < Base()
  {
    hide Base, Pow2, Weight, Val;
    WeightInLimb(j);
    LimbBelow(p, k, w);
    RoomForByte(p[k], x, w, Pow2(BIL - 8 * (j % CIL) - 8), Base());
  }

  lemma ByteCounted(p: seq<Limb>, j: nat, x: Byte, y: Limb)
    requires j / CIL < |p| && y == p[j / CIL] + x * Pow2(8 * (j % CIL))
    ensures Val(p[j / CIL := y]) == x * Weight(j) + Val(p)
  {
    hide Base, Pow2, Weight, Val;
    var k, w := j / CIL, Pow2(8 * (j % CIL));
    WeightInLimb(j);
    ValUpdate(p, k, y);
    assert (x * w) * BPow(k) == x * (BPow(k) * w);
  }

  lemma LimbBelow(p: seq<Limb>, k: nat, w: nat)
    requires k < |p| && w > 0 && Val(p) < BPow(k) * w
    ensures p[k] < w
  {
    hide Base, Val, BPow;
    MulComm(w, BPow(k));
    if p[k] >= w {
      ValAtLeast(p, k);
      MulGe(w, p[k], BPow(k));
    }
  }

  lemma RoomForByte(y: int, x: int, w: int, g: int, b: int)
    requires 0 <= y < w && 0 <= x < 256 && g >= 1 && b == w * (256 * g)
    ensures 0 <= y + x * w < b
  {
    MulNonNeg(x, w);
    MulGe(x + 1, 256, w);
    assert (x + 1) * w == x * w + w;
    MulGe(1, g, 256 * w);
    assert g * (256 * w) == w * (256 * g);
  }

  /** One byte into its limb: the shifted byte meets zero bits only. */
  method OrByte(X: Num, j: nat, x: Byte)
    requires j / CIL < |X.p| && Val(X.p) < Weight(j)
    modifies X
    ensures X.s == old(X.s) && |X.p| == old(|X.p|) && Val(X.p) == x * Weight(j) + old(Val(X.p))
  {
    hide Base, Pow2, Weight, Val;
    ByteRoom(X.p, j, x, j / CIL, Pow2(8 * (j % CIL)));
    var y: Limb := X.p[j / CIL] + x * Pow2(8 * (j % CIL));
    ByteCounted(X.p, j, x, y);
    X.p := X.p[j / CIL := y];
  }

  /** mbedtls_mpi_read_binary. */
  method ReadBinary(X: Num, buf: seq<Byte>)
    modifies X
    ensures X.V() == Big(buf) && X.s == 1
  {
    hide Base, Big, Pow2, Weight, Val;
    var n := 0;
    while n < |buf|
      invariant 0 <= n <= |buf| && forall k :: 0 <= k < n ==> buf[k] == 0
    {
      if buf[n] != 0 { break; }
      n := n + 1;
    }
    Grow(X, LimbsForBytes(|buf| - n));
    Lset(X, 0);
    var i, j := |buf|, 0;
    BigNothing();
    assert buf[i..] == [];
    while i > n
      invariant n <= i <= |buf| && j == |buf| - i && X.s == 1
      invariant |X.p| >= LimbsForBytes(|buf| - n)
      invariant Val(X.p) == Big(buf[i..])
      decreases i
    {
      LimbOfRead(j, |buf| - n, |X.p|);
      BigBound(buf[i..]);
      BigFront(buf[i - 1], buf[i..]);
      assert [buf[i - 1]] + buf[i..] == buf[i - 1..];
      OrByte(X, j, buf[i - 1]);
      i, j := i - 1, j + 1;
    }
    assert buf == ZeroBytes(n) + buf[n..];
    BigZeros(n, buf[n..]);
  }

  lemma LimbOfRead(j: nat, m: nat, len: nat)
    requires j < m && len >= LimbsForBytes(m)
    ensures j / CIL < len
  {
    assert m == CIL * (m / CIL) + m % CIL && j == CIL * (j / CIL) + j % CIL;
    if j / CIL > m / CIL { MulGe(m / CIL + 1, j / CIL, CIL); }
    if j / CIL == m / CIL { assert m % CIL > 0; }
  }
}
