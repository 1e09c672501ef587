/** The streaming interface of cipher.c in CBC mode: any cutting of a message
    into update calls produces the one-shot transformation. */
module CipherStream {
  import opened Bytes
  import opened Powers
  import opened Cbc

  datatype Ret = Ok | BadInput | FullBlockExpected | InvalidPadding

  lemma SelfWhole(k: Cipher, b: seq<Byte>)
    requires |b| == k.size
    ensures Whole(k, b)
  {
    DivModUnique(|b|, k.size, 1, 0);
  }

  lemma EmptyWhole(k: Cipher)
    ensures Whole(k, [])
  {}

  /** The bytes after the last whole block. */
  function Incomplete(k: Cipher, data: seq<Byte>): (n: nat)
    ensures n < k.size
  {
    |data| % k.size
  }

  lemma TailLength(k: Cipher, data: seq<Byte>, c: nat)
    requires data != [] && (c == Incomplete(k, data) || (c == k.size && Incomplete(k, data) == 0))
    ensures c <= |data| && Whole(k, data[..|data| - c])
  {
    var n, size := |data|, k.size;
    DivBounds(n, size);
    if n % size == 0 && c == size {
      WholeBlocks(n, size);
    } else {
      DivModUnique(n - c, size, n / size, 0);
    }
  }

  // ----- the one-shot transformations -----

  /** Encryption of a whole message. */
  function EncryptAll(k: Cipher, padding: bool, iv: seq<Byte>, m: seq<Byte>): (Ret, seq<Byte>)
    requires |iv| == k.size
  {
    CipherSize(k);
    if padding then (Ok, Chain(k, Encrypt, iv, Pad(k.size, m)))
    else if Whole(k, m) then (Ok, Chain(k, Encrypt, iv, m))
    else (FullBlockExpected, [])
  }

  /** Decryption of a whole message. */
  function DecryptAll(k: Cipher, padding: bool, iv: seq<Byte>, c: seq<Byte>): (Ret, seq<Byte>)
    requires |iv| == k.size
  {
    CipherSize(k);
    if !Whole(k, c) || (padding && c == []) then (FullBlockExpected, [])
    else
      var d := Chain(k, Decrypt, iv, c);
      if !padding then (Ok, d)
      else
        LastBlock(k, d);
        var b := d[|d| - k.size..];
        if Padded(b) then (Ok, d[..|d| - k.size + DataLen(b)]) else (InvalidPadding, [])
  }

  lemma LastBlock(k: Cipher, d: seq<Byte>)
    requires Whole(k, d) && d != []
    ensures |d| >= k.size && Whole(k, d[..|d| - k.size])
  {
    WholeBlocks(|d|, k.size);
  }

  /** What was encrypted is decrypted again, for every message. */
  lemma RoundTrip(k: Cipher, padding: bool, iv: seq<Byte>, m: seq<Byte>)
    requires |iv| == k.size && (padding || Whole(k, m))
    ensures var (r, c) := EncryptAll(k, padding, iv, m);
      r == Ok && DecryptAll(k, padding, iv, c) == (Ok, m)
  {
    hide Chain, Pad, Sound, Whole, Padded, DataLen;
    if padding {
      var p := PaddedMessage(k, m);
      ChainInverse(k, iv, p);
      SameWhole(k, p, Chain(k, Encrypt, iv, p));
    } else {
      ChainInverse(k, iv, m);
      SameWhole(k, m, Chain(k, Encrypt, iv, m));
    }
  }

  lemma SameWhole(k: Cipher, a: seq<Byte>, b: seq<Byte>)
    requires |a| == |b|
    ensures Whole(k, a) <==> Whole(k, b)
  {}

  /** The last block of a padded message tells where the message ends. */
  lemma PaddedMessage(k: Cipher, m: seq<Byte>) returns (p: seq<Byte>)
    ensures 0 < k.size <= MAX_BLOCK_LENGTH && p == Pad(k.size, m) && Whole(k, p) && |p| >= k.size
    ensures var b := p[|p| - k.size..]; Padded(b) && p[..|p| - k.size + DataLen(b)] == m
  {
    hide Sound, Padded, DataLen;
    CipherSize(k);
    var n := Incomplete(k, m);
    if m != [] { TailLength(k, m, n); } else { EmptyWhole(k); }
    var a, d := m[..|m| - n], m[|m| - n..];
    PadSplit(k, a, d);
    PadOne(k.size, d);
    hide Pad, Whole, Incomplete;
    assert m == a + d;
    p := a + Pad(k.size, d);
    assert p[|p| - k.size..] == Pad(k.size, d);
    assert p[..|p| - k.size + |d|] == a + Pad(k.size, d)[..|d|];
  }

  lemma WholeShort(k: Cipher, done: seq<Byte>, tail: seq<Byte>)
    requires Whole(k, done) && |tail| <= k.size
    ensures Whole(k, done + tail) <==> |tail| == 0 || |tail| == k.size
  {
    WholeAppend(k, done, tail);
    if |tail| < k.size { SmallMod(|tail|, k.size); } else { SelfWhole(k, tail); }
  }

  /** The one-shot transformation in either direction. */
  function OneShot(k: Cipher, d: Direction, padding: bool, iv: seq<Byte>, m: seq<Byte>): (Ret, seq<Byte>)
    requires |iv| == k.size
  {
    if d == Encrypt then EncryptAll(k, padding, iv, m) else DecryptAll(k, padding, iv, m)
  }

  class CipherContext {
    const k: Cipher
    const operation: Direction
    /** PKCS7 padding, or none. */
    const padding: bool
    const unprocessedData: array<Byte>
    var unprocessedLen: nat
    var iv: seq<Byte>

    /** History since the last reset: the chaining value then, everything read
        since, the part of it that has been chained, and everything written. */
    ghost var start: seq<Byte>
    ghost var fed: seq<Byte>
    ghost var done: seq<Byte>
    ghost var produced: seq<Byte>

    /** What is cached. */
    ghost function Cached(): seq<Byte>
      reads this, unprocessedData
      requires unprocessedLen <= unprocessedData.Length
    {
      unprocessedData[..unprocessedLen]
    }

    /** All input in whole blocks has been chained and written, the rest is in
        the cache: less than a block when encrypting, and when decrypting at
        least one byte and at most a block once there has been any input. */
    ghost predicate Valid()
      reads this, unprocessedData
    {
      && unprocessedData.Length == MAX_BLOCK_LENGTH && |iv| == k.size && |start| == k.size
      && unprocessedLen <= k.size
      && (operation == Encrypt ==> unprocessedLen < k.size)
      && (operation == Decrypt && fed != [] ==> unprocessedLen > 0)
      && fed == done + Cached() && Whole(k, done)
      && produced == Chain(k, operation, start, done) && iv == NextIv(k, operation, start, done)
    }

    constructor (k: Cipher, operation: Direction, padding: bool, iv: seq<Byte>)
      requires |iv| == k.size
      ensures Valid() && fresh(unprocessedData) && fed == [] && produced == [] && start == iv
      ensures this.k == k && this.operation == operation && this.padding == padding
    {
      this.k, this.operation, this.padding, this.iv := k, operation, padding, iv;
      unprocessedData := new Byte[MAX_BLOCK_LENGTH];
      unprocessedLen := 0;
      start, fed, done, produced := iv, [], [], [];
    }

    /** memcpy into the cache. */
    method CopyIn(at: nat, data: seq<Byte>)
      requires at + |data| <= unprocessedData.Length
      modifies unprocessedData
      ensures unprocessedData[..at] == old(unprocessedData[..at])
      ensures unprocessedData[at..at + |data|] == data
    {
      forall i | 0 <= i < |data| {
        unprocessedData[at + i] := data[i];
      }
    }

    /** The chaining function of the cipher, over whole blocks. */
    method CbcFunc(data: seq<Byte>, ghost done: seq<Byte>) returns (output: seq<Byte>)
      requires |iv| == k.size == |start| && Whole(k, data) && Whole(k, done) && iv == NextIv(k, operation, start, done)
      modifies this`iv
      ensures |iv| == k.size && Whole(k, done + data) && iv == NextIv(k, operation, start, done + data)
      ensures Chain(k, operation, start, done + data) == Chain(k, operation, start, done) + output
    {
      ChainAppend(k, operation, start, done, data);
      output := Chain(k, operation, iv, data);
      iv := NextIv(k, operation, iv, data);
    }

    /** Completes the cached block, if there is one, and processes it. */
    method FlushCache(data: seq<Byte>, ghost done: seq<Byte>)
      returns (output: seq<Byte>, input: seq<Byte>, ghost done': seq<Byte>)
      requires unprocessedData.Length == MAX_BLOCK_LENGTH && |iv| == k.size == |start|
      requires unprocessedLen <= k.size && |data| >= k.size - unprocessedLen
      requires Whole(k, done) && iv == NextIv(k, operation, start, done)
      modifies this`unprocessedLen, this`iv, unprocessedData
      ensures unprocessedLen == 0 && |iv| == k.size
      ensures Whole(k, done') && iv == NextIv(k, operation, start, done')
      ensures Chain(k, operation, start, done') == Chain(k, operation, start, done) + output
      ensures done' + input == done + old(Cached()) + data
      ensures input == if old(unprocessedLen) == 0 then data else data[k.size - old(unprocessedLen)..]
    {
      hide Whole, Chain, NextIv, Sound;
      CipherSize(k);
      output, input, done' := [], data, done;
      if unprocessedLen != 0 {
        var copyLen := k.size - unprocessedLen;
        CopyIn(unprocessedLen, data[..copyLen]);
        ghost var b := old(Cached()) + data[..copyLen];
        assert unprocessedData[..k.size] == b;
        SelfWhole(k, b);
        output := CbcFunc(unprocessedData[..k.size], done);
        unprocessedLen := 0;
        input := data[copyLen..];
        done' := done + b;
        assert data == data[..copyLen] + input;
      }
    }

    /** Everything after the test that the input fits the cache. */
    method Drain(data: seq<Byte>) returns (output: seq<Byte>)
      requires Valid()
      requires |data| >= k.size - unprocessedLen && (operation == Decrypt ==> |data| > k.size - unprocessedLen)
      modifies this`unprocessedLen, this`iv, this`fed, this`done, this`produced, unprocessedData
      ensures Valid() && fed == old(fed) + data && produced == old(produced) + output
    {
      hide Whole, Chain, NextIv, Sound, Incomplete;
      CipherSize(k);
      var input;
      ghost var done1;
      output, input, done1 := FlushCache(data, done);
      fed, produced := fed + data, produced + output;
      assert fed == done1 + input;
      done := done1;
      var out := CacheAndProcess(input);
      assert old(produced) + output + out == old(produced) + (output + out);
      output := output + out;
    }

    /** With the cache empty: the end of the input is cached, the rest processed. */
    method CacheAndProcess(data: seq<Byte>) returns (output: seq<Byte>)
      requires unprocessedData.Length == MAX_BLOCK_LENGTH && |iv| == k.size == |start| && unprocessedLen == 0
      requires fed == done + data && Whole(k, done) && (operation == Decrypt ==> data != [])
      requires produced == Chain(k, operation, start, done) && iv == NextIv(k, operation, start, done)
      modifies this`unprocessedLen, this`iv, this`done, this`produced, unprocessedData
      ensures Valid() && produced == old(produced) + output
    {
      hide Whole, Chain, NextIv, Sound, Incomplete;
      var input := CacheTail(data);
      output := ProcessBlocks(input, done);
      done, produced := done + input, produced + output;
      assert fed == done + Cached();
    }

    /** The remaining full blocks, if there are any. */
    method ProcessBlocks(input: seq<Byte>, ghost done: seq<Byte>) returns (output: seq<Byte>)
      requires |iv| == k.size == |start| && Whole(k, input) && Whole(k, done) && iv == NextIv(k, operation, start, done)
      modifies this`iv
      ensures |iv| == k.size && Whole(k, done + input) && iv == NextIv(k, operation, start, done + input)
      ensures Chain(k, operation, start, done + input) == Chain(k, operation, start, done) + output
    {
      hide Whole, Chain, NextIv, Sound;
      output := [];
      if input != [] {
        output := CbcFunc(input, done);
      } else {
        assert done + input == done;
      }
    }

    /** Caches the last, incomplete block, or the last block when decrypting. */
    method CacheTail(data: seq<Byte>) returns (input: seq<Byte>)
      requires unprocessedLen == 0 && unprocessedData.Length == MAX_BLOCK_LENGTH
      modifies this`unprocessedLen, unprocessedData
      ensures unprocessedLen <= unprocessedData.Length && unprocessedLen <= k.size && Whole(k, input)
      ensures input + Cached() == data
      ensures operation == Encrypt ==> unprocessedLen < k.size
      ensures operation == Decrypt && data != [] ==> unprocessedLen > 0
    {
      hide Whole, Sound, Incomplete;
      CipherSize(k);
      input := data;
      if data != [] {
        var copyLen := Incomplete(k, data);
        if copyLen == 0 && operation == Decrypt {
          copyLen := k.size;
        }
        TailLength(k, data, copyLen);
        CopyIn(0, data[|data| - copyLen..]);
        unprocessedLen := copyLen;
        input := data[..|data| - copyLen];
      } else {
        EmptyWhole(k);
      }
    }

    /** mbedtls_cipher_update, with separate buffers or in place. */
    method Update(data: seq<Byte>, inPlace: bool) returns (ret: Ret, output: seq<Byte>)
      requires Valid()
      modifies this`unprocessedLen, this`iv, this`fed, this`done, this`produced, unprocessedData
      ensures Valid()
      ensures ret == if inPlace && (old(unprocessedLen) != 0 || !Whole(k, data)) then BadInput else Ok
      ensures ret == Ok ==> fed == old(fed) + data && produced == old(produced) + output
      ensures ret != Ok ==> fed == old(fed) && produced == old(produced) && output == []
    {
      hide Whole, Chain, NextIv, Sound;
      CipherSize(k);
      output := [];
      if inPlace && (unprocessedLen != 0 || !Whole(k, data)) {
        return BadInput, [];
      }
      var ilen := |data|;
      if (operation == Decrypt && ilen <= k.size - unprocessedLen)
         || (operation == Encrypt && ilen < k.size - unprocessedLen) {
        CacheAll(data);
        return Ok, [];
      }
      output := Drain(data);
      return Ok, output;
    }

    /** All of the input still fits in the cache. */
    method CacheAll(data: seq<Byte>)
      requires Valid() && unprocessedLen + |data| <= k.size
      requires operation == Encrypt ==> unprocessedLen + |data| < k.size
      modifies this`unprocessedLen, this`fed, unprocessedData
      ensures Valid() && fed == old(fed) + data
    {
      hide Whole, Chain, NextIv, Sound;
      CipherSize(k);
      CopyIn(unprocessedLen, data);
      unprocessedLen := unprocessedLen + |data|;
      fed := fed + data;
      assert Cached() == old(Cached()) + data;
    }

    /** add_pkcs_padding on the cache. */
    method AddPkcsPadding(outputLen: nat, dataLen: nat)
      requires dataLen <= outputLen <= unprocessedData.Length && outputLen - dataLen < 256
      modifies unprocessedData
      ensures unprocessedData[..outputLen] == old(unprocessedData[..dataLen]) + Fill(outputLen - dataLen)
    {
      var paddingLen := outputLen - dataLen;
      var i := 0;
      while i < paddingLen
        invariant 0 <= i <= paddingLen
        invariant unprocessedData[..dataLen] == old(unprocessedData[..dataLen])
        invariant forall j :: dataLen <= j < dataLen + i ==> unprocessedData[j] == paddingLen
      {
        unprocessedData[dataLen + i] := paddingLen;
        i := i + 1;
      }
      assert unprocessedData[dataLen..outputLen] == Fill(paddingLen);
      assert unprocessedData[..outputLen] == unprocessedData[..dataLen] + unprocessedData[dataLen..outputLen];
    }

    /** mbedtls_cipher_finish: with what has been written before, the output is
        that of the one-shot transformation of everything read. */
    method Finish() returns (ret: Ret, output: seq<Byte>, olen: nat)
      requires Valid()
      modifies this`iv, unprocessedData
      ensures olen <= |output| && |iv| == k.size
      ensures OneShot(k, operation, padding, start, fed) == (ret, if ret == Ok then produced + output[..olen] else [])
    {
      CipherSize(k);
      ghost var tail := Cached();
      WholeShort(k, done, tail);
      if operation == Encrypt {
        ret, output, olen := FinishEncrypt(tail);
      } else {
        ret, output, olen := FinishDecrypt(tail);
      }
    }

    method FinishEncrypt(ghost tail: seq<Byte>) returns (ret: Ret, output: seq<Byte>, olen: nat)
      requires Valid() && operation == Encrypt && tail == Cached()
      requires (Whole(k, fed) <==> tail == [])
      modifies this`iv, unprocessedData
      ensures olen <= |output| && |iv| == k.size
      ensures EncryptAll(k, padding, start, fed) == (ret, if ret == Ok then produced + output[..olen] else [])
    {
      hide Whole, Chain, NextIv, Sound, Pad, Fill;
      CipherSize(k);
      if !padding {
        if unprocessedLen != 0 {
          return FullBlockExpected, [], 0;
        }
        assert done == fed && produced == produced + [];
        return Ok, [], 0;
      }
      AddPkcsPadding(k.size, unprocessedLen);
      PadShort(k.size, tail);
      PadSplit(k, done, tail);
      SelfWhole(k, unprocessedData[..k.size]);
      output := CbcFunc(unprocessedData[..k.size], done);
      ret, olen := Ok, k.size;
      assert output[..olen] == output;
    }

    method FinishDecrypt(ghost tail: seq<Byte>) returns (ret: Ret, output: seq<Byte>, olen: nat)
      requires Valid() && operation == Decrypt && tail == Cached()
      requires (Whole(k, fed) <==> |tail| == 0 || |tail| == k.size)
      modifies this`iv, unprocessedData
      ensures olen <= |output| && |iv| == k.size
      ensures DecryptAll(k, padding, start, fed) == (ret, if ret == Ok then produced + output[..olen] else [])
    {
      hide Whole, Chain, NextIv, Sound, Padded, DataLen;
      CipherSize(k);
      if k.size != unprocessedLen {
        if !padding && unprocessedLen == 0 {
          assert fed == [] && done == [] && produced + [] == produced;
          return Ok, [], 0;
        }
        return FullBlockExpected, [], 0;
      }
      SelfWhole(k, tail);
      output := CbcFunc(unprocessedData[..k.size], done);
      ghost var d := Chain(k, Decrypt, start, fed);
      assert d == produced + output && d[|d| - k.size..] == output;
      if padding {
        var n;
        ret, n := GetPkcsPadding(output);
        olen := if ret == Ok then n else 0;
      } else {
        ret, olen := Ok, k.size;
        assert output[..olen] == output;
      }
      assert ret == Ok ==> (produced + output)[..|produced| + olen] == produced + output[..olen];
    }

    /** mbedtls_cipher_set_iv and mbedtls_cipher_reset: a new message begins. */
    method Begin(iv: seq<Byte>)
      requires |iv| == k.size && unprocessedData.Length == MAX_BLOCK_LENGTH
      modifies this
      ensures Valid() && start == iv && fed == [] && produced == []
    {
      this.iv := iv;
      unprocessedLen := 0;
      start, fed, done, produced := iv, [], [], [];
    }

    /** mbedtls_cipher_crypt: everything in one go. */
    method Crypt(iv: seq<Byte>, input: seq<Byte>) returns (ret: Ret, output: seq<Byte>)
      requires |iv| == k.size && unprocessedData.Length == MAX_BLOCK_LENGTH
      modifies this, unprocessedData
      ensures (ret, if ret == Ok then output else []) == OneShot(k, operation, padding, iv, input)
    {
      hide OneShot, Chain, Sound;
      Begin(iv);
      ret, output := Update(input, false);
      assert fed == input && produced == output;
      var last, olen;
      ret, last, olen := Finish();
      output := output + last[..olen];
    }
  }

  function Concat(pieces: seq<seq<Byte>>): seq<Byte> {
    if pieces == [] then [] else Concat(pieces[..|pieces| - 1]) + pieces[|pieces| - 1]
  }

  /** Whatever the cutting of a message into pieces, feeding them one after the
      other gives the one-shot transformation of their concatenation. */
  method Feed(ctx: CipherContext, pieces: seq<seq<Byte>>) returns (ret: Ret, output: seq<Byte>)
    requires ctx.Valid() && ctx.fed == [] && ctx.produced == []
    modifies ctx, ctx.unprocessedData
    ensures (ret, if ret == Ok then output else [])
      == OneShot(ctx.k, ctx.operation, ctx.padding, old(ctx.start), Concat(pieces))
  {
    hide OneShot, Chain, Sound;
    output := [];
    var i := 0;
    while i < |pieces|
      invariant 0 <= i <= |pieces| && ctx.Valid() && ctx.start == old(ctx.start)
      invariant ctx.fed == Concat(pieces[..i]) && ctx.produced == output
    {
      var r, out := ctx.Update(pieces[i], false);
      output := output + out;
      assert pieces[..i + 1][..i] == pieces[..i];
      i := i + 1;
    }
    assert pieces[..i] == pieces;
    var last, olen;
    ret, last, olen := ctx.Finish();
    output := output + last[..olen];
  }

  /** Any cutting of the ciphertext of any cutting of a message decrypts to the
      message. */
  lemma AnyCutting(k: Cipher, iv: seq<Byte>, ms: seq<seq<Byte>>, cs: seq<seq<Byte>>)
    requires |iv| == k.size && OneShot(k, Encrypt, true, iv, Concat(ms)) == (Ok, Concat(cs))
    ensures OneShot(k, Decrypt, true, iv, Concat(cs)) == (Ok, Concat(ms))
  {
    RoundTrip(k, true, iv, Concat(ms));
  }

  /** get_pkcs_padding: every byte of the block is looked at. */
  method GetPkcsPadding(input: seq<Byte>) returns (ret: Ret, dataLen: int)
    requires input != [] && |input| < 256
    ensures ret == if Padded(input) then Ok else InvalidPadding
    ensures ret == Ok ==> dataLen == DataLen(input)
  {
    var paddingLen := input[|input| - 1];
    dataLen := |input| - paddingLen;
    var bad := paddingLen > |input| || paddingLen == 0;
    var padIdx := dataLen;
    var i := 0;
    while i < |input|
      invariant 0 <= i <= |input|
      invariant bad <==> paddingLen > |input| || paddingLen == 0
                         || exists j :: padIdx <= j < i && 0 <= j && input[j] != paddingLen
    {
      bad := bad || (input[i] != paddingLen && i >= padIdx);
      i := i + 1;
    }
    ret := if bad then InvalidPadding else Ok;
  }
}
