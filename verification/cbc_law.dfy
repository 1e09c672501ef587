/** What cipher block chaining and its padding compute, block by block and with
    the exclusive or of bit-vectors. */
module CbcLaw {
  import opened Bytes
  import opened Powers
  import opened Cbc
  import opened CipherStream

  // ----- the exclusive or -----

  function Value(x: bv8): nat {
    x as nat
  }

  lemma HalfValue(x: bv8)
    ensures Value(x >> 1) == Value(x) / 2
  {}

  lemma LowValue(x: bv8)
    ensures x & 1 == if Value(x) % 2 == 1 then 1 else 0
  {}

  lemma LowXor(a: bv8, b: bv8)
    ensures (a ^ b) & 1 == if a & 1 == b & 1 then 0 else 1
    ensures (a & 1 == 0 || a & 1 == 1) && (b & 1 == 0 || b & 1 == 1)
  {}

  lemma HalfXor(a: bv8, b: bv8)
    ensures (a ^ b) >> 1 == (a >> 1) ^ (b >> 1)
  {}

  lemma Parity(p: nat, q: nat, r: nat)
    requires r % 2 == 1 <==> !(p % 2 == 1 <==> q % 2 == 1)
    ensures r % 2 == (p + q) % 2
  {}

  lemma XorParity(a: bv8, b: bv8)
    ensures Value(a ^ b) % 2 == (Value(a) + Value(b)) % 2
  {
    hide Value;
    LowXor(a, b);
    LowValue(a);
    LowValue(b);
    LowValue(a ^ b);
    Parity(Value(a), Value(b), Value(a ^ b));
  }

  lemma FewerBits(x: bv8, n: nat)
    requires n <= 8 && Value(x) < Pow2(n)
    ensures n == 0 ==> x == 0
    ensures n > 0 ==> Value(x >> 1) < Pow2(n - 1)
  {
    HalfValue(x);
  }

  lemma NoBits()
    ensures Value(0) == 0 == XorBits(0, 0, 0)
  {}

  lemma {:induction false} XorIsBitwise(a: bv8, b: bv8, n: nat)
    requires n <= 8 && Value(a) < Pow2(n) && Value(b) < Pow2(n)
    ensures XorBits(Value(a), Value(b), n) == Value(a ^ b)
  {
    hide Value, Pow2, XorBits;
    FewerBits(a, n);
    FewerBits(b, n);
    if n == 0 {
      assert a ^ b == 0;
      NoBits();
    } else {
      XorIsBitwise(a >> 1, b >> 1, n - 1);
      HalfXor(a, b);
      HalfValue(a);
      HalfValue(b);
      HalfValue(a ^ b);
      XorParity(a, b);
      Assemble(Value(a), Value(b), n, Value(a ^ b));
    }
  }

  lemma Assemble(a: nat, b: nat, n: nat, x: nat)
    requires n > 0 && XorBits(a / 2, b / 2, n - 1) == x / 2 && x % 2 == (a + b) % 2
    ensures XorBits(a, b, n) == x
  {}

  lemma ByteValue(a: Byte)
    ensures Value(a as bv8) == a
  {}

  lemma XorOfBytes(a: Byte, b: Byte)
    ensures Xor(a, b) == ((a as bv8) ^ (b as bv8)) as nat
  {
    ByteBound();
    ByteValue(a);
    ByteValue(b);
    hide Value, Pow2;
    XorIsBitwise(a as bv8, b as bv8, 8);
    AsNat((a as bv8) ^ (b as bv8));
  }

  lemma AsNat(x: bv8)
    ensures Value(x) == x as nat
  {}

  /** Byte by byte, the exclusive or of two blocks. */
  ghost predicate IsXor(x: seq<Byte>, a: seq<Byte>, b: seq<Byte>) {
    |x| == |a| == |b| && forall i :: 0 <= i < |x| ==> x[i] == ((a[i] as bv8) ^ (b[i] as bv8)) as nat
  }

  lemma XorBlockIs(a: seq<Byte>, b: seq<Byte>)
    requires |a| == |b|
    ensures IsXor(XorBlock(a, b), a, b)
  {
    forall i | 0 <= i < |a|
      ensures XorBlock(a, b)[i] == ((a[i] as bv8) ^ (b[i] as bv8)) as nat
    {
      hide Xor;
      XorOfBytes(a[i], b[i]);
    }
  }

  // ----- the chain, block by block -----

  /** The ciphertext block before position n, or the initial value. */
  function Before(iv: seq<Byte>, c: seq<Byte>, n: nat): seq<Byte>
    requires n <= |c|
  {
    if n < |iv| then iv else c[n - |iv|..n]
  }

  /** The ciphertext, as what comes out or as what goes in. */
  function Ciphertext(k: Cipher, d: Direction, iv: seq<Byte>, data: seq<Byte>): (c: seq<Byte>)
    requires |iv| == k.size && Whole(k, data)
    ensures |c| == |data|
  {
    if d == Encrypt then Chain(k, d, iv, data) else data
  }

  lemma FirstStep(k: Cipher, d: Direction, iv: seq<Byte>, data: seq<Byte>) returns (next: seq<Byte>, rest: seq<Byte>)
    requires |iv| == k.size && Whole(k, data) && data != []
    ensures |next| == k.size > 0 && Whole(k, rest) && |data| == k.size + |rest|
    ensures NextIv(k, d, iv, data) == NextIv(k, d, next, rest)
    ensures Ciphertext(k, d, iv, data) == next + Ciphertext(k, d, next, rest)
  {
    hide Sound, Block, Whole;
    CipherSize(k);
    var f := First(k, data);
    next, rest := if d == Encrypt then Block(k, d, iv, f) else f, data[k.size..];
    assert data == f + rest;
  }

  lemma NothingChained(k: Cipher, d: Direction, iv: seq<Byte>)
    requires |iv| == k.size && Whole(k, [])
    ensures NextIv(k, d, iv, []) == iv == Before(iv, Ciphertext(k, d, iv, []), 0)
  {
    CipherSize(k);
  }

  /** The chaining value is the last ciphertext block. */
  lemma {:induction false} NextIvIsLast(k: Cipher, d: Direction, iv: seq<Byte>, data: seq<Byte>)
    requires |iv| == k.size && Whole(k, data)
    ensures NextIv(k, d, iv, data) == Before(iv, Ciphertext(k, d, iv, data), |data|)
    decreases |data|
  {
    hide Sound, Whole, NextIv, Ciphertext, Before;
    if data == [] {
      NothingChained(k, d, iv);
    } else {
      var next, rest := FirstStep(k, d, iv, data);
      NextIvIsLast(k, d, next, rest);
      if rest != [] {
        WholeLonger(k, rest);
      }
      BeforeLonger(iv, next, Ciphertext(k, d, next, rest));
    }
  }

  lemma BeforeLonger(iv: seq<Byte>, next: seq<Byte>, c: seq<Byte>)
    requires |iv| == |next| > 0 && (c == [] || |c| >= |next|)
    ensures Before(iv, next + c, |next| + |c|) == Before(next, c, |c|)
  {
    if c == [] {
      assert next + c == next;
    } else {
      LastOf(next, c, |next|);
    }
  }

  lemma LastOf(a: seq<Byte>, b: seq<Byte>, n: nat)
    requires n <= |b|
    ensures (a + b)[|a + b| - n..] == b[|b| - n..]
  {}

  lemma WholeLonger(k: Cipher, data: seq<Byte>)
    requires Whole(k, data) && data != []
    ensures |data| >= k.size
  {
    WholeBlocks(|data|, k.size);
  }

  /** The output for a block between whole blocks. */
  lemma ChainBlock(k: Cipher, d: Direction, iv: seq<Byte>, a: seq<Byte>, b: seq<Byte>, z: seq<Byte>)
    requires |iv| == k.size == |b| && Whole(k, a) && Whole(k, z)
    ensures Whole(k, a + b + z)
    ensures var out := Chain(k, d, iv, a + b + z);
      && out[..|a|] == Chain(k, d, iv, a) && out[|a|..|a| + |b|] == Block(k, d, NextIv(k, d, iv, a), b)
  {
    hide Sound, Whole, Chain, NextIv, Block;
    CipherSize(k);
    SelfWhole(k, b);
    ChainAppend(k, d, iv, a, b);
    ChainAppend(k, d, iv, a + b, z);
    ChainOne(k, d, NextIv(k, d, iv, a), b);
  }

  lemma ChainOne(k: Cipher, d: Direction, iv: seq<Byte>, b: seq<Byte>)
    requires |iv| == k.size == |b| && Whole(k, b)
    ensures Chain(k, d, iv, b) == Block(k, d, iv, b)
  {
    hide Sound, Block;
    CipherSize(k);
    assert First(k, b) == b && b[k.size..] == [];
    var out := Block(k, d, iv, b);
    assert out + [] == out;
  }

  /** A ciphertext block is the enciphered exclusive or of its plaintext block
      and the ciphertext block before. */
  lemma EncryptedBlock(k: Cipher, iv: seq<Byte>, a: seq<Byte>, b: seq<Byte>, z: seq<Byte>) returns (x: seq<Byte>)
    requires |iv| == k.size == |b| && Whole(k, a) && Whole(k, z)
    ensures Whole(k, a + b + z)
    ensures var c := Chain(k, Encrypt, iv, a + b + z);
      IsXor(x, b, Before(iv, c, |a|)) && c[|a|..|a| + |b|] == k.enc(x)
  {
    ChainBlock(k, Encrypt, iv, a, b, z);
    NextIvIsLast(k, Encrypt, iv, a);
    var v := NextIv(k, Encrypt, iv, a);
    hide Sound, Whole, Chain, NextIv, IsXor;
    var c := Chain(k, Encrypt, iv, a + b + z);
    assert Before(iv, c, |a|) == Before(iv, c[..|a|], |a|);
    x := XorBlock(b, v);
    XorBlockIs(b, v);
  }

  lemma DecSize(k: Cipher, b: seq<Byte>)
    requires |b| == k.size
    ensures |k.dec(b)| == k.size
  {}

  lemma BeforePrefix(iv: seq<Byte>, a: seq<Byte>, c: seq<Byte>)
    requires a <= c
    ensures Before(iv, c, |a|) == Before(iv, a, |a|)
  {
    assert a == c[..|a|];
  }

  /** A plaintext block is the exclusive or of its deciphered block and the
      ciphertext block before. */
  lemma DecryptedBlock(k: Cipher, iv: seq<Byte>, a: seq<Byte>, b: seq<Byte>, z: seq<Byte>)
    requires |iv| == k.size == |b| && Whole(k, a) && Whole(k, z)
    ensures Whole(k, a + b + z)
    ensures var p, c := Chain(k, Decrypt, iv, a + b + z), a + b + z;
      IsXor(p[|a|..|a| + |b|], k.dec(b), Before(iv, c, |a|))
  {
    hide Sound, Whole, Chain, NextIv, IsXor, Before;
    DecSize(k, b);
    ChainBlock(k, Decrypt, iv, a, b, z);
    NextIvIsLast(k, Decrypt, iv, a);
    BeforePrefix(iv, a, a + b + z);
    XorBlockIs(k.dec(b), NextIv(k, Decrypt, iv, a));
  }

  /** The ciphertext c of the whole blocks p: block by block the enciphered
      exclusive or with the ciphertext before. */
  ghost predicate Enciphers(k: Cipher, iv: seq<Byte>, p: seq<Byte>, c: seq<Byte>) {
    && |c| == |p|
    && forall n: nat :: n < |p| && n % k.size == 0 ==> EncipheredAt(k, iv, p, c, n)
  }

  ghost predicate EncipheredAt(k: Cipher, iv: seq<Byte>, p: seq<Byte>, c: seq<Byte>, n: nat) {
    && n + k.size <= |p| == |c|
    && exists x :: IsXor(x, p[n..n + k.size], Before(iv, c, n)) && c[n..n + k.size] == k.enc(x)
  }

  /** The plaintext p of the whole blocks c: block by block the exclusive or of
      the deciphered block with the ciphertext before. */
  ghost predicate Deciphers(k: Cipher, iv: seq<Byte>, c: seq<Byte>, p: seq<Byte>) {
    && |p| == |c|
    && forall n: nat :: n < |c| && n % k.size == 0 ==> DecipheredAt(k, iv, c, p, n)
  }

  ghost predicate DecipheredAt(k: Cipher, iv: seq<Byte>, c: seq<Byte>, p: seq<Byte>, n: nat) {
    && n + k.size <= |c| == |p|
    && IsXor(p[n..n + k.size], k.dec(c[n..n + k.size]), Before(iv, c, n))
  }

  /** A block boundary inside whole blocks cuts off a whole block. */
  lemma Cut(k: Cipher, s: seq<Byte>, n: nat)
    requires Whole(k, s) && n < |s| && n % k.size == 0
    ensures n + k.size <= |s| && s == s[..n] + s[n..n + k.size] + s[n + k.size..]
    ensures Whole(k, s[..n]) && Whole(k, s[n + k.size..])
  {
    var q, p := |s| / k.size, n / k.size;
    DivBounds(|s|, k.size);
    DivBounds(n, k.size);
    Blocks(|s|, n, k.size, q, p);
  }

  lemma Blocks(s: int, n: int, size: int, q: int, p: int)
    requires 0 < size && s == size * q && n == size * p && n < s
    ensures n + size <= s && (s - (n + size)) % size == 0
  {
    if q <= p { MulGe(q, p, size); assert false; }
    MulGe(p + 1, q, size);
    Distribute(size, p, 1);
    Distribute(size, p + 1, q - p - 1);
    DivModUnique(s - (n + size), size, q - p - 1, 0);
  }

  lemma ChainEnciphers(k: Cipher, iv: seq<Byte>, p: seq<Byte>)
    requires |iv| == k.size && Whole(k, p)
    ensures Enciphers(k, iv, p, Chain(k, Encrypt, iv, p))
  {
    hide Sound, Whole, Chain, IsXor, Before;
    CipherSize(k);
    var c := Chain(k, Encrypt, iv, p);
    forall n: nat | n < |p| && n % k.size == 0
      ensures EncipheredAt(k, iv, p, c, n)
    {
      Cut(k, p, n);
      var x := EncryptedBlock(k, iv, p[..n], p[n..n + k.size], p[n + k.size..]);
    }
  }

  lemma ChainDeciphers(k: Cipher, iv: seq<Byte>, c: seq<Byte>)
    requires |iv| == k.size && Whole(k, c)
    ensures Deciphers(k, iv, c, Chain(k, Decrypt, iv, c))
  {
    hide Sound, Whole, Chain, IsXor, Before;
    CipherSize(k);
    var p := Chain(k, Decrypt, iv, c);
    forall n: nat | n < |c| && n % k.size == 0
      ensures DecipheredAt(k, iv, c, p, n)
    {
      Cut(k, c, n);
      DecryptedBlock(k, iv, c[..n], c[n..n + k.size], c[n + k.size..]);
    }
  }

  // ----- the one-shot transformations -----

  /** The message and one to size bytes more, up to the end of a block, that
      hold how many they are. */
  predicate IsPadding(size: nat, m: seq<Byte>, p: seq<Byte>)
    requires size > 0
  {
    && |p| == |m| + (size - |m| % size) && p[..|m|] == m
    && forall i :: |m| <= i < |p| ==> p[i] == size - |m| % size
  }

  lemma PadIs(size: nat, m: seq<Byte>)
    requires 0 < size <= MAX_BLOCK_LENGTH
    ensures IsPadding(size, m, Pad(size, m)) && |Pad(size, m)| % size == 0
  {}

  /** The last byte says how much padding there is. */
  predicate EndsPadded(size: nat, p: seq<Byte>) {
    p != [] && var n := p[|p| - 1]; 1 <= n <= size && n <= |p| && forall i :: |p| - n <= i < |p| ==> p[i] == n
  }

  lemma EndsPaddedIff(size: nat, p: seq<Byte>)
    requires 0 < size <= |p|
    ensures var b := p[|p| - size..];
      && (Padded(b) <==> EndsPadded(size, p))
      && (Padded(b) ==> |p| - size + DataLen(b) == |p| - p[|p| - 1])
  {
    var b := p[|p| - size..];
    var n: nat := p[|p| - 1];
    assert b[size - 1] == n;
    if n <= size {
      assert b[size - n..] == p[|p| - n..];
      TailFill(p, n);
    }
  }

  lemma TailFill(p: seq<Byte>, n: nat)
    requires n <= |p| && n < 256
    ensures p[|p| - n..] == Fill(n) <==> forall i :: |p| - n <= i < |p| ==> p[i] == n
  {
    var t := p[|p| - n..];
    assert forall i :: |p| - n <= i < |p| ==> p[i] == t[i - (|p| - n)];
  }

  /** What encryption gives: the chained blocks of the padded message, or without
      padding of the message, which then has to be whole blocks. */
  lemma EncryptionLaw(k: Cipher, padding: bool, iv: seq<Byte>, m: seq<Byte>) returns (p: seq<Byte>)
    requires |iv| == k.size
    ensures var (r, c) := OneShot(k, Encrypt, padding, iv, m);
      if padding then r == Ok && IsPadding(k.size, m, p) && Enciphers(k, iv, p, c)
      else if |m| % k.size == 0 then r == Ok && p == m && Enciphers(k, iv, p, c)
      else r == FullBlockExpected
  {
    hide Sound, Chain, Enciphers, Pad, IsPadding;
    CipherSize(k);
    p := m;
    if padding {
      PadIs(k.size, m);
      p := Pad(k.size, m);
    }
    if padding || |m| % k.size == 0 {
      ChainEnciphers(k, iv, p);
    }
  }

  /** What decryption gives: the blocks p that chaining turns the ciphertext into,
      less the padding they have to end with. */
  lemma DecryptionLaw(k: Cipher, padding: bool, iv: seq<Byte>, c: seq<Byte>) returns (p: seq<Byte>)
    requires |iv| == k.size
    ensures var res := OneShot(k, Decrypt, padding, iv, c);
      if |c| % k.size != 0 || (padding && c == []) then res == (FullBlockExpected, [])
      else
        && Deciphers(k, iv, c, p)
        && res == if !padding then (Ok, p)
                  else if EndsPadded(k.size, p) then (Ok, p[..|p| - p[|p| - 1]])
                  else (InvalidPadding, [])
  {
    hide Sound, Chain, Deciphers, Padded, DataLen, EndsPadded;
    CipherSize(k);
    p := [];
    if |c| % k.size == 0 {
      p := Chain(k, Decrypt, iv, c);
      ChainDeciphers(k, iv, c);
      if padding && c != [] {
        LastBlock(k, p);
        EndsPaddedIff(k.size, p);
      }
    }
  }
}
