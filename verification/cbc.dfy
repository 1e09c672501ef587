/** Cipher block chaining and PKCS7 padding as functions on byte strings. The
    block cipher itself is any family of inverse block functions. */
module Cbc {

  import opened Bytes
  import opened Powers

  /** The exclusive or of the low n bits. */
  function XorBits(a: nat, b: nat, n: nat): (r: nat)
    ensures r < Pow2(n)
  {
    if n == 0 then 0 else 2 * XorBits(a / 2, b / 2, n - 1) + (a + b) % 2
  }

  lemma {:induction false} XorBitsCancels(a: nat, b: nat, n: nat)
    requires a < Pow2(n)
    ensures XorBits(XorBits(a, b, n), b, n) == a
  {
    if n > 0 {
      XorBitsCancels(a / 2, b / 2, n - 1);
      LowBit(a, b, XorBits(a / 2, b / 2, n - 1));
    }
  }

  lemma LowBit(a: nat, b: nat, h: nat)
    ensures var x := 2 * h + (a + b) % 2; x / 2 == h && (x + b) % 2 == a % 2
    ensures a == 2 * (a / 2) + a % 2
  {}

  lemma ByteBound()
    ensures Pow2(8) == 256
  {
    assert Pow2(4) == 16;
  }

  function Xor(a: Byte, b: Byte): Byte {
    ByteBound();
    XorBits(a, b, 8)
  }

  const MAX_BLOCK_LENGTH: nat := 16

  datatype BlockCipher = BlockCipher(size: nat, enc: seq<Byte> -> seq<Byte>, dec: seq<Byte> -> seq<Byte>)

  ghost predicate Sound(k: BlockCipher) {
    && 0 < k.size <= MAX_BLOCK_LENGTH
    && forall b: seq<Byte> :: |b| == k.size ==> |k.enc(b)| == k.size && |k.dec(b)| == k.size && k.dec(k.enc(b)) == b
  }

  type Cipher = k: BlockCipher | Sound(k) ghost witness BlockCipher(16, b => b, b => b)

  lemma CipherSize(k: Cipher)
    ensures 0 < k.size <= MAX_BLOCK_LENGTH
  {}

  datatype Direction = Encrypt | Decrypt

  lemma XorCancels(a: Byte, b: Byte)
    ensures Xor(Xor(a, b), b) == a
  {
    ByteBound();
    XorBitsCancels(a, b, 8);
  }

  function XorBlock(a: seq<Byte>, b: seq<Byte>): (r: seq<Byte>)
    requires |a| == |b|
    ensures |r| == |a|
  {
    seq(|a|, i requires 0 <= i < |a| => Xor(a[i], b[i]))
  }

  lemma XorBlockCancels(a: seq<Byte>, b: seq<Byte>)
    requires |a| == |b|
    ensures XorBlock(XorBlock(a, b), b) == a
  {
    forall i | 0 <= i < |a|
      ensures XorBlock(XorBlock(a, b), b)[i] == a[i]
    {
      XorCancels(a[i], b[i]);
    }
  }

  predicate Whole(k: Cipher, data: seq<Byte>) {
    |data| % k.size == 0
  }

  /** Chaining over whole blocks. */
  function Chain(k: Cipher, d: Direction, iv: seq<Byte>, data: seq<Byte>): (r: seq<Byte>)
    requires |iv| == k.size && Whole(k, data)
    ensures |r| == |data|
    decreases |data|
  {
    if data == [] then []
    else
      var b := First(k, data);
      var out := Block(k, d, iv, b);
      out + Chain(k, d, if d == Encrypt then out else b, data[k.size..])
  }

  function First(k: Cipher, data: seq<Byte>): (b: seq<Byte>)
    requires Whole(k, data) && data != []
    ensures |b| == k.size <= |data| && k.size > 0 && Whole(k, data[k.size..])
  {
    WholeBlocks(|data|, k.size);
    data[..k.size]
  }

  function Block(k: Cipher, d: Direction, iv: seq<Byte>, b: seq<Byte>): (r: seq<Byte>)
    requires |iv| == k.size == |b|
    ensures |r| == k.size
  {
    if d == Encrypt then k.enc(XorBlock(b, iv)) else XorBlock(k.dec(b), iv)
  }

  /** The chaining value after the data: its last ciphertext block. */
  function NextIv(k: Cipher, d: Direction, iv: seq<Byte>, data: seq<Byte>): (r: seq<Byte>)
    requires |iv| == k.size && Whole(k, data)
    ensures |r| == k.size
    decreases |data|
  {
    if data == [] then iv
    else
      var b := First(k, data);
      NextIv(k, d, if d == Encrypt then Block(k, d, iv, b) else b, data[k.size..])
  }

  lemma WholeBlocks(n: nat, size: nat)
    requires size > 0 && n > 0 && n % size == 0
    ensures n >= size && (n - size) % size == 0
  {
    var q := n / size;
    DivBounds(n, size);
    MulGe(1, q, size);
    Distribute(size, q, -1);
    DivModUnique(n - size, size, q - 1, 0);
  }

  lemma ModSum(a: int, b: int, size: nat)
    requires size > 0 && a % size == 0
    ensures (a + b) % size == b % size
  {
    var q, p := a / size, b / size;
    Distribute(size, q, p);
    DivModUnique(a + b, size, q + p, b % size);
  }

  lemma WholeAppend(k: Cipher, a: seq<Byte>, b: seq<Byte>)
    requires Whole(k, a)
    ensures Whole(k, a + b) <==> Whole(k, b)
  {
    ModSum(|a|, |b|, k.size);
  }

  /** Chaining a string is chaining its parts one after the other. */
  lemma {:induction false} ChainAppend(k: Cipher, d: Direction, iv: seq<Byte>, a: seq<Byte>, b: seq<Byte>)
    requires |iv| == k.size && Whole(k, a) && Whole(k, b)
    ensures Whole(k, a + b)
    ensures Chain(k, d, iv, a + b) == Chain(k, d, iv, a) + Chain(k, d, NextIv(k, d, iv, a), b)
    ensures NextIv(k, d, iv, a + b) == NextIv(k, d, NextIv(k, d, iv, a), b)
    decreases |a|
  {
    hide Whole, Sound, Block;
    WholeAppend(k, a, b);
    if a == [] {
      assert a + b == b;
    } else {
      var f := First(k, a);
      var iv' := if d == Encrypt then Block(k, d, iv, f) else f;
      assert First(k, a + b) == f;
      assert (a + b)[k.size..] == a[k.size..] + b;
      ChainAppend(k, d, iv', a[k.size..], b);
    }
  }

  /** Decryption undoes encryption. */
  lemma {:induction false} ChainInverse(k: Cipher, iv: seq<Byte>, data: seq<Byte>)
    requires |iv| == k.size && Whole(k, data)
    ensures Chain(k, Decrypt, iv, Chain(k, Encrypt, iv, data)) == data
    decreases |data|
  {
    if data != [] {
      var f := First(k, data);
      var out := Block(k, Encrypt, iv, f);
      var rest := Chain(k, Encrypt, out, data[k.size..]);
      assert Chain(k, Encrypt, iv, data) == out + rest;
      assert First(k, out + rest) == out && (out + rest)[k.size..] == rest;
      assert Block(k, Decrypt, iv, out) == f by { BlockInverse(k, iv, f); }
      ChainInverse(k, out, data[k.size..]);
      assert data == f + data[k.size..];
    }
  }

  lemma BlockInverse(k: Cipher, iv: seq<Byte>, b: seq<Byte>)
    requires |iv| == k.size == |b|
    ensures Block(k, Decrypt, iv, Block(k, Encrypt, iv, b)) == b
  {
    assert k.dec(k.enc(XorBlock(b, iv))) == XorBlock(b, iv);
    XorBlockCancels(b, iv);
  }

  // ----- PKCS7 padding -----

  /** n bytes that each hold n. */
  function Fill(n: nat): (r: seq<Byte>)
    requires n < 256
    ensures |r| == n
  {
    seq(n, _ => n)
  }

  lemma RoundUp(n: nat, size: nat)
    requires size > 0
    ensures 0 <= n % size < size && (n + (size - n % size)) % size == 0
  {
    DivBounds(n, size);
    Distribute(size, n / size, 1);
    DivModUnique(n + (size - n % size), size, n / size + 1, 0);
  }

  /** Between 1 and size bytes, each holding their number. */
  function Pad(size: nat, m: seq<Byte>): (r: seq<Byte>)
    requires 0 < size <= MAX_BLOCK_LENGTH
    ensures |r| % size == 0 && |r| > |m|
  {
    RoundUp(|m|, size);
    m + Fill(size - |m| % size)
  }

  /** How many bytes of padding the block says it has. */
  function PadLength(b: seq<Byte>): nat
    requires b != []
  {
    b[|b| - 1]
  }

  /** That many bytes at the end say the same. */
  predicate Padded(b: seq<Byte>) {
    b != [] && var p := PadLength(b); 0 < p <= |b| && b[|b| - p..] == Fill(p)
  }

  /** How much of a padded block is data. */
  function DataLen(b: seq<Byte>): (n: nat)
    requires Padded(b)
    ensures n < |b|
  {
    |b| - PadLength(b)
  }

  lemma FillByte(p: nat)
    requires 0 < p < 256
    ensures Fill(p)[p - 1] == p
  {}

  lemma PadShort(size: nat, d: seq<Byte>)
    requires 0 < size <= MAX_BLOCK_LENGTH && |d| < size
    ensures Pad(size, d) == d + Fill(size - |d|)
  {
    SmallMod(|d|, size);
  }

  /** A block is well padded exactly when it is the padding of what it holds. */
  lemma PaddedIff(size: nat, b: seq<Byte>)
    requires 0 < size <= MAX_BLOCK_LENGTH && |b| == size
    ensures Padded(b) <==> exists d: seq<Byte> :: |d| < size && b == Pad(size, d)
    ensures Padded(b) ==> b == Pad(size, b[..DataLen(b)])
  {
    hide Pad, Fill, PadLength;
    if Padded(b) {
      var d := b[..DataLen(b)];
      PadShort(size, d);
      assert b == d + b[|d|..];
    }
    forall d: seq<Byte> | |d| < size && b == Pad(size, d)
      ensures Padded(b)
    {
      PadOne(size, d);
    }
  }

  lemma SmallMod(n: nat, size: nat)
    requires n < size
    ensures n % size == n
  {
    DivModUnique(n, size, 0, n);
  }

  /** Padding less than a block gives one block, from which it can be read back. */
  lemma PadOne(size: nat, d: seq<Byte>)
    requires 0 < size <= MAX_BLOCK_LENGTH && |d| < size
    ensures var b := Pad(size, d); |b| == size && Padded(b) && DataLen(b) == |d| && b[..|d|] == d
  {
    PadShort(size, d);
    var p: nat := size - |d|;
    FillByte(p);
    hide Pad, Fill;
    var b := d + Fill(p);
    assert b[size - 1] == Fill(p)[p - 1];
    assert b[|d|..] == Fill(p);
  }

  /** Padding only touches the last block. */
  lemma PadSplit(k: Cipher, a: seq<Byte>, d: seq<Byte>)
    requires Whole(k, a) && |d| < k.size
    ensures Pad(k.size, a + d) == a + Pad(k.size, d)
  {
    ModSum(|a|, |d|, k.size);
    SmallMod(|d|, k.size);
  }
}
