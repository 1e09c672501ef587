/** DER (X.690): asn1write.c writes a value backwards, from the end of its buffer,
    and asn1parse.c reads it forwards. */
module Der {
  import opened Bytes
  import opened Bits
  import opened Mpi
  import opened MpiBytes
  import opened Powers

  const INTEGER: Byte := 0x02
  const BIT_STRING: Byte := 0x03
  const NULL: Byte := 0x05
  const OID: Byte := 0x06
  const SEQUENCE: Byte := 0x30 // with the bit for constructed

  datatype Error = BufTooSmall | InvalidLength | OutOfData | UnexpectedTag | LengthMismatch

  // ----- lengths -----

  const LENGTHS := 0x1_0000_0000

  /** The length octets of section 8.1.3, in the shortest form (section 10.1). */
  function DerLen(n: nat): (s: seq<Byte>)
    requires n < LENGTHS
    ensures 1 <= |s| <= 5
  {
    if n < 0x80 then [n]
    else if n <= 0xFF then [0x81, n]
    else if n <= 0xFFFF then [0x82, n / 0x100, n % 0x100]
    else if n <= 0xFF_FFFF then [0x83, n / 0x1_0000, n / 0x100 % 0x100, n % 0x100]
    else [0x84, n / 0x100_0000, n / 0x1_0000 % 0x100, n / 0x100 % 0x100, n % 0x100]
  }

  function Tlv(tag: Byte, c: seq<Byte>): seq<Byte>
    requires |c| < LENGTHS
  {
    [tag] + DerLen(|c|) + c
  }

  /** What a reader returns and where it leaves the pointer. */
  datatype Read<T> = Got(value: T, p: nat) | Fails(error: Error)

  function LenAt(d: seq<Byte>, p: nat, end: nat): (r: Read<nat>)
    requires p <= end <= |d|
    ensures r.Got? ==> p < r.p && r.p + r.value <= end
  {
    if end - p < 1 then Fails(OutOfData)
    else
      var k := d[p] % 0x80;
      if d[p] < 0x80 then Room(d[p], p + 1, end)
      else if k == 0 || k > 4 then Fails(InvalidLength)
      else if end - p < k + 1 then Fails(OutOfData)
      else Room(Big(d[p + 1..p + 1 + k]), p + 1 + k, end)
  }

  function Room(len: nat, p: nat, end: nat): (r: Read<nat>)
    requires p <= end
    ensures r.Got? ==> r == Got(len, p) && p + len <= end
  {
    if len > end - p then Fails(OutOfData) else Got(len, p)
  }

  function TagAt(d: seq<Byte>, p: nat, end: nat, tag: Byte): (r: Read<nat>)
    requires p <= end <= |d|
    ensures r.Got? ==> p < r.p && r.p + r.value <= end
  {
    if end - p < 1 then Fails(OutOfData)
    else if d[p] != tag then Fails(UnexpectedTag)
    else LenAt(d, p + 1, end)
  }

  lemma BigOne(a: Byte)
    ensures Big([a]) == a
  {
    assert [a][..0] == [];
  }

  lemma BigTwo(a: Byte, b: Byte)
    ensures Big([a, b]) == a * 0x100 + b
  {
    assert [a, b][..1] == [a];
    BigOne(a);
  }

  lemma BigThree(a: Byte, b: Byte, c: Byte)
    ensures Big([a, b, c]) == (a * 0x100 + b) * 0x100 + c
  {
    assert [a, b, c][..2] == [a, b];
    BigTwo(a, b);
  }

  lemma BigFour(a: Byte, b: Byte, c: Byte, e: Byte)
    ensures Big([a, b, c, e]) == ((a * 0x100 + b) * 0x100 + c) * 0x100 + e
  {
    assert [a, b, c, e][..3] == [a, b, c];
    BigThree(a, b, c);
  }

  /** The octets after the first one of a long form. */
  lemma LongForm(n: nat)
    requires 0x80 <= n < LENGTHS
    ensures var s := DerLen(n); s[0] == 0x80 + |s| - 1 && |s| >= 2 && Big(s[1..]) == n
  {
    hide Big;
    var s := DerLen(n);
    if n <= 0xFF {
      assert s[1..] == [n];
      BigOne(n);
    } else if n <= 0xFFFF {
      assert s[1..] == [n / 0x100, n % 0x100];
      BigTwo(n / 0x100, n % 0x100);
    } else if n <= 0xFF_FFFF {
      assert s[1..] == [n / 0x1_0000, n / 0x100 % 0x100, n % 0x100];
      ThreeOctets(n);
    } else {
      assert s[1..] == [n / 0x100_0000, n / 0x1_0000 % 0x100, n / 0x100 % 0x100, n % 0x100];
      FourOctets(n);
    }
  }

  lemma ThreeOctets(n: nat)
    requires n <= 0xFF_FFFF
    ensures Big([n / 0x1_0000, n / 0x100 % 0x100, n % 0x100]) == n
  {
    hide Big;
    BigThree(n / 0x1_0000, n / 0x100 % 0x100, n % 0x100);
    assert n / 0x1_0000 * 0x100 + n / 0x100 % 0x100 == n / 0x100;
  }

  lemma FourOctets(n: nat)
    requires n <= 0xFFFF_FFFF
    ensures Big([n / 0x100_0000, n / 0x1_0000 % 0x100, n / 0x100 % 0x100, n % 0x100]) == n
  {
    hide Big;
    BigFour(n / 0x100_0000, n / 0x1_0000 % 0x100, n / 0x100 % 0x100, n % 0x100);
    assert n / 0x100_0000 * 0x100 + n / 0x1_0000 % 0x100 == n / 0x1_0000;
    assert n / 0x1_0000 * 0x100 + n / 0x100 % 0x100 == n / 0x100;
  }

  /** A length is read back when its octets are there; what it announces must be
      there too. */
  lemma LenBack(d: seq<Byte>, p: nat, end: nat, n: nat)
    requires n < LENGTHS && At(d, p, DerLen(n)) && p + |DerLen(n)| <= end <= |d|
    ensures LenAt(d, p, end) == Room(n, p + |DerLen(n)|, end)
  {
    hide Big;
    var s := DerLen(n);
    assert d[p] == d[p..p + |s|][0];
    if n >= 0x80 {
      LongForm(n);
      assert d[p + 1..p + |s|] == d[p..p + |s|][1..];
    }
  }

  /** The contents are found where they are. */
  lemma TlvBack(d: seq<Byte>, p: nat, end: nat, tag: Byte, c: seq<Byte>)
    requires |c| < LENGTHS && At(d, p, Tlv(tag, c)) && p + |Tlv(tag, c)| <= end <= |d|
    ensures var q := p + |Tlv(tag, c)| - |c|;
      TagAt(d, p, end, tag) == Got(|c|, q) && d[q..q + |c|] == c && d[p] == tag
  {
    AtBoth(d, p, [tag] + DerLen(|c|), c);
    AtBoth(d, p, [tag], DerLen(|c|));
    assert d[p] == d[p..p + 1][0];
    hide LenAt, DerLen;
    LenBack(d, p + 1, end, |c|);
  }

  /** The shortest form is the only one of its length. */
  lemma LenCanonical(d: seq<Byte>, p: nat, end: nat, n: nat)
    requires p <= end <= |d| && n < LENGTHS && LenAt(d, p, end) == Got(n, p + |DerLen(n)|)
    ensures At(d, p, DerLen(n))
  {
    hide Big;
    var s := DerLen(n);
    var q := p + |s|;
    if n >= 0x80 {
      LongForm(n);
      if d[p] < 0x80 {
        assert false;
      }
      assert d[p..q] == [d[p]] + d[p + 1..q];
      BigUnique(d[p + 1..q], s[1..]);
      assert s == [s[0]] + s[1..];
    }
  }

  lemma {:induction false} BigUnique(a: seq<Byte>, b: seq<Byte>)
    requires |a| == |b| && Big(a) == Big(b)
    ensures a == b
  {
    if a != [] {
      var m, n := |a| - 1, |b| - 1;
      DigitUnique(256, a[m], Big(a[..m]), b[n], Big(b[..n]));
      BigUnique(a[..m], b[..n]);
      assert a == a[..m] + [a[m]] && b == b[..n] + [b[n]];
    }
  }

  // ----- what the readers accept -----

  /** s is a form of the length n, which need not be the shortest: a byte below
      0x80, or the number of octets and the octets, the high one first. */
  predicate LenForm(s: seq<Byte>, n: nat) {
    || (|s| == 1 && s[0] == n && n < 0x80)
    || (2 <= |s| <= 5 && s[0] == 0x80 + (|s| - 1) && Big(s[1..]) == n)
  }

  /** A length is read exactly when a form of it stands there and what it
      announces is there too. */
  lemma LenIff(d: seq<Byte>, p: nat, end: nat, n: nat, q: nat)
    requires p <= end <= |d|
    ensures LenAt(d, p, end) == Got(n, q) <==> p < q && q + n <= end && LenForm(d[p..q], n)
  {
    hide Big;
    if p < q && q + n <= end && LenForm(d[p..q], n) {
      FormIsRead(d, p, end, n, q);
    }
    if LenAt(d, p, end) == Got(n, q) {
      ReadIsForm(d, p, end, n, q);
    }
  }

  lemma FormIsRead(d: seq<Byte>, p: nat, end: nat, n: nat, q: nat)
    requires p < q && q + n <= end <= |d| && LenForm(d[p..q], n)
    ensures LenAt(d, p, end) == Got(n, q)
  {
    hide Big;
    var s := d[p..q];
    assert d[p] == s[0] && s[1..] == d[p + 1..q];
  }

  lemma ReadIsForm(d: seq<Byte>, p: nat, end: nat, n: nat, q: nat)
    requires p <= end <= |d| && LenAt(d, p, end) == Got(n, q)
    ensures p < q && q + n <= end && LenForm(d[p..q], n)
  {
    hide Big;
    var s := d[p..q];
    assert d[p] == s[0] && s[1..] == d[p + 1..q];
  }

  /** Whatever form a length is read in, that of the writer is not longer. */
  lemma LenShortest(d: seq<Byte>, p: nat, end: nat, n: nat, q: nat)
    requires p <= end <= |d| && LenAt(d, p, end) == Got(n, q)
    ensures n < LENGTHS && |DerLen(n)| <= q - p
  {
    hide Big;
    ReadIsForm(d, p, end, n, q);
    if q - p > 1 {
      BigBelow(d[p..q][1..]);
    }
  }

  lemma BigBelow(s: seq<Byte>)
    requires 1 <= |s| <= 4
    ensures Big(s) < if |s| == 1 then 0x100 else if |s| == 2 then 0x1_0000 else if |s| == 3 then 0x100_0000 else LENGTHS
  {
    hide Big;
    LenOctets([0] + s, 0, |s|);
    assert ([0] + s)[1..1 + |s|] == s;
  }

  /** mbedtls_asn1_get_len: one case for each number of length octets. */
  method GetLen(d: seq<Byte>, p0: nat, end: nat) returns (r: Read<nat>)
    requires p0 <= end <= |d|
    ensures r == LenAt(d, p0, end)
  {
    hide Big;
    var p := p0;
    if end - p < 1 {
      return Fails(OutOfData);
    }
    var len: int;
    if d[p] < 0x80 {
      len := d[p];
      p := p + 1;
    } else {
      var k := d[p] % 0x80;
      if k == 0 || k > 4 {
        return Fails(InvalidLength);
      }
      if end - p < k + 1 {
        return Fails(OutOfData);
      }
      LenOctets(d, p, k);
      match k {
        case 1 => len := d[p + 1];
        case 2 => len := Shifted(d[p + 1], 1) + d[p + 2];
        case 3 => len := Shifted(d[p + 1], 2) + Shifted(d[p + 2], 1) + d[p + 3];
        case _ => len := Shifted(d[p + 1], 3) + Shifted(d[p + 2], 2) + Shifted(d[p + 3], 1) + d[p + 4];
      }
      p := p + k + 1;
    }
    if len > end - p {
      return Fails(OutOfData);
    }
    return Got(len, p);
  }

  /** A byte moved left by one to three bytes; the bits below it are free. */
  function Shifted(x: Byte, k: nat): int {
    var y: int := x;
    if k == 1 then y * 0x100 else if k == 2 then y * 0x1_0000 else y * 0x100_0000
  }

  lemma LenOctets(d: seq<Byte>, p: nat, k: nat)
    requires 1 <= k <= 4 && p + 1 + k <= |d|
    ensures Big(d[p + 1..p + 1 + k]) == match k
      case 1 => d[p + 1]
      case 2 => Shifted(d[p + 1], 1) + d[p + 2]
      case 3 => Shifted(d[p + 1], 2) + Shifted(d[p + 2], 1) + d[p + 3]
      case _ => Shifted(d[p + 1], 3) + Shifted(d[p + 2], 2) + Shifted(d[p + 3], 1) + d[p + 4]
  {
    hide Big;
    var s := d[p + 1..p + 1 + k];
    match k {
      case 1 => assert s == [d[p + 1]]; BigOne(d[p + 1]);
      case 2 => assert s == [d[p + 1], d[p + 2]]; BigTwo(d[p + 1], d[p + 2]);
      case 3 => assert s == [d[p + 1], d[p + 2], d[p + 3]]; BigThree(d[p + 1], d[p + 2], d[p + 3]);
      case _ => assert s == [d[p + 1], d[p + 2], d[p + 3], d[p + 4]]; BigFour(d[p + 1], d[p + 2], d[p + 3], d[p + 4]);
    }
  }

  /** mbedtls_asn1_get_tag. */
  method GetTag(d: seq<Byte>, p: nat, end: nat, tag: Byte) returns (r: Read<nat>)
    requires p <= end <= |d|
    ensures r == TagAt(d, p, end, tag)
  {
    if end - p < 1 {
      return Fails(OutOfData);
    }
    if d[p] != tag {
      return Fails(UnexpectedTag);
    }
    r := GetLen(d, p + 1, end);
  }

  // ----- writers -----

  datatype Result = Done(len: nat) | Err(error: Error)

  /** s was written just below p; nothing else changed. */
  predicate Wrote(b0: seq<Byte>, b1: seq<Byte>, p': nat, p: nat, s: seq<Byte>) {
    p' + |s| == p <= |b0| && b1 == b0[..p'] + s + b0[p..]
  }

  /** A writer that gave up has written between start and p only. */
  predicate Untouched(b0: seq<Byte>, b1: seq<Byte>, start: nat, p: nat) {
    start <= p <= |b0| == |b1| && b1[..start] == b0[..start] && b1[p..] == b0[p..]
  }

  lemma WroteTwice(b0: seq<Byte>, b1: seq<Byte>, b2: seq<Byte>, p2: nat, p1: nat, p: nat, t: seq<Byte>, s: seq<Byte>)
    requires Wrote(b0, b1, p1, p, s) && Wrote(b1, b2, p2, p1, t)
    ensures Wrote(b0, b2, p2, p, t + s)
  {
    assert b1[..p2] == b0[..p2] && b1[p1..] == s + b0[p..];
  }

  lemma WroteUntouched(b0: seq<Byte>, b1: seq<Byte>, start: nat, p': nat, p: nat, s: seq<Byte>)
    requires Wrote(b0, b1, p', p, s) && start <= p'
    ensures Untouched(b0, b1, start, p)
  {
    assert b1[..start] == b0[..start] && b1[p..] == b0[p..];
  }

  /** mbedtls_asn1_write_raw_buffer, and the single bytes written by the others. */
  method WriteRaw(buf: array<Byte>, start: nat, p: nat, s: seq<Byte>) returns (r: Result, p': nat)
    requires start <= p <= buf.Length
    modifies buf
    ensures r == if p - start < |s| then Err(BufTooSmall) else Done(|s|)
    ensures r.Err? ==> buf[..] == old(buf[..]) && p' == p
    ensures r.Done? ==> p' + r.len == p && Wrote(old(buf[..]), buf[..], p', p, s)
  {
    if p - start < |s| {
      return Err(BufTooSmall), p;
    }
    p' := p - |s|;
    forall k | 0 <= k < |s| {
      buf[p' + k] := s[k];
    }
    assert buf[..] == old(buf[..p']) + s + old(buf[p..]);
    return Done(|s|), p';
  }

  /** mbedtls_asn1_write_len: each form needs its own room. */
  method WriteLen(buf: array<Byte>, start: nat, p: nat, len: nat) returns (r: Result, p': nat)
    requires start <= p <= buf.Length
    modifies buf
    ensures r == if len >= LENGTHS then Err(InvalidLength)
      else if p - start < |DerLen(len)| then Err(BufTooSmall) else Done(|DerLen(len)|)
    ensures r.Err? ==> buf[..] == old(buf[..]) && p' == p
    ensures r.Done? ==> p' + r.len == p && Wrote(old(buf[..]), buf[..], p', p, DerLen(len))
  {
    hide Wrote;
    p' := p;
    ghost var b, s: seq<Byte> := buf[..], [];
    WroteNothing(b, p);
    if len < 0x80 {
      if p - start < 1 {
        return Err(BufTooSmall), p;
      }
      p', s := Push(buf, p', len, b, p, s);
      r := Done(1);
    } else if len <= 0xFF {
      if p - start < 2 {
        return Err(BufTooSmall), p;
      }
      p', s := Push(buf, p', len, b, p, s);
      p', s := Push(buf, p', 0x81, b, p, s);
      r := Done(2);
    } else if len <= 0xFFFF {
      if p - start < 3 {
        return Err(BufTooSmall), p;
      }
      p', s := Push3(buf, p', len % 0x100, len / 0x100, 0x82, b, p, s);
      r := Done(3);
    } else if len <= 0xFF_FFFF {
      if p - start < 4 {
        return Err(BufTooSmall), p;
      }
      p', s := Push(buf, p', len % 0x100, b, p, s);
      p', s := Push3(buf, p', len / 0x100 % 0x100, len / 0x1_0000, 0x83, b, p, s);
      r := Done(4);
    } else if len <= 0xFFFF_FFFF {
      if p - start < 5 {
        return Err(BufTooSmall), p;
      }
      p', s := Push(buf, p', len % 0x100, b, p, s);
      p', s := Push(buf, p', len / 0x100 % 0x100, b, p, s);
      p', s := Push3(buf, p', len / 0x1_0000 % 0x100, len / 0x100_0000, 0x84, b, p, s);
      r := Done(5);
    } else {
      return Err(InvalidLength), p;
    }
    assert s == DerLen(len);
  }

  lemma WroteNothing(b: seq<Byte>, p: nat)
    requires p <= |b|
    ensures Wrote(b, b, p, p, [])
  {}

  /** One more byte below those written since the pointer was at end. */
  method Push(buf: array<Byte>, p: nat, x: Byte, ghost b: seq<Byte>, ghost end: nat, ghost s: seq<Byte>)
    returns (p': nat, ghost s': seq<Byte>)
    requires 0 < p <= buf.Length && Wrote(b, buf[..], p, end, s)
    modifies buf
    ensures p' == p - 1 && s' == [x] + s && Wrote(b, buf[..], p', end, s')
  {
    p' := p - 1;
    buf[p'] := x;
    s' := [x] + s;
  }

  method Push3(buf: array<Byte>, p: nat, x: Byte, y: Byte, z: Byte,
               ghost b: seq<Byte>, ghost end: nat, ghost s: seq<Byte>)
    returns (p': nat, ghost s': seq<Byte>)
    requires 3 <= p <= buf.Length && Wrote(b, buf[..], p, end, s)
    modifies buf
    ensures p' == p - 3 && s' == [z, y, x] + s && Wrote(b, buf[..], p', end, s')
  {
    hide Wrote;
    p', s' := Push(buf, p, x, b, end, s);
    p', s' := Push(buf, p', y, b, end, s');
    p', s' := Push(buf, p', z, b, end, s');
    assert s' == [z, y, x] + s;
  }

  /** The length and tag before len bytes of contents that are there already. */
  method WriteHeader(buf: array<Byte>, start: nat, p: nat, len: nat, tag: Byte) returns (r: Result, p': nat)
    requires start <= p <= buf.Length
    modifies buf
    ensures r == if len >= LENGTHS then Err(InvalidLength)
      else if p - start < 1 + |DerLen(len)| then Err(BufTooSmall) else Done(len + 1 + |DerLen(len)|)
    ensures r.Err? ==> Untouched(old(buf[..]), buf[..], start, p)
    ensures r.Done? ==> p' + r.len == p + len && Wrote(old(buf[..]), buf[..], p', p, [tag] + DerLen(len))
  {
    hide DerLen, Wrote, Untouched;
    ghost var b := buf[..];
    r, p' := WriteLen(buf, start, p, len);
    if r.Err? {
      UntouchedSelf(b, start, p);
      return;
    }
    ghost var b1, p1 := buf[..], p';
    WroteUntouched(b, b1, start, p1, p, DerLen(len));
    var n := len + r.len;
    r, p' := WriteRaw(buf, start, p', [tag]);
    if r.Err? {
      return;
    }
    WroteTwice(b, b1, buf[..], p', p1, p, [tag], DerLen(len));
    return Done(n + r.len), p';
  }

  lemma UntouchedSelf(b: seq<Byte>, start: nat, p: nat)
    requires start <= p <= |b|
    ensures Untouched(b, b, start, p)
  {}

  /** Contents, length and tag: octet strings, object identifiers and the like. */
  method WriteTlv(buf: array<Byte>, start: nat, p: nat, tag: Byte, c: seq<Byte>) returns (r: Result, p': nat)
    requires start <= p <= buf.Length
    modifies buf
    ensures r.Done? <==> |c| < LENGTHS && |Tlv(tag, c)| <= p - start
    ensures r.Err? ==> Untouched(old(buf[..]), buf[..], start, p)
    ensures r.Done? ==> r.len == |Tlv(tag, c)| && Wrote(old(buf[..]), buf[..], p', p, Tlv(tag, c))
  {
    hide DerLen, Wrote, Untouched;
    ghost var b := buf[..];
    r, p' := WriteRaw(buf, start, p, c);
    if r.Err? {
      UntouchedSelf(b, start, p);
      return;
    }
    ghost var b1, p1 := buf[..], p';
    WroteUntouched(b, b1, start, p1, p, c);
    r, p' := WriteHeader(buf, start, p', |c|, tag);
    HeaderAfter(b, b1, buf[..], start, p', p1, p, tag, c, r);
  }

  /** What the header makes of contents written just before. */
  lemma HeaderAfter(b0: seq<Byte>, b1: seq<Byte>, b2: seq<Byte>, start: nat, p2: nat, p1: nat, p: nat, tag: Byte,
                    c: seq<Byte>, r: Result)
    requires Wrote(b0, b1, p1, p, c) && start <= p1
    requires r.Err? ==> Untouched(b1, b2, start, p1)
    requires r.Done? ==> |c| < LENGTHS && Wrote(b1, b2, p2, p1, [tag] + DerLen(|c|))
    ensures r.Err? ==> Untouched(b0, b2, start, p)
    ensures r.Done? ==> Wrote(b0, b2, p2, p, Tlv(tag, c))
  {
    hide DerLen;
    if r.Done? {
      WroteTwice(b0, b1, b2, p2, p1, p, [tag] + DerLen(|c|), c);
    } else {
      assert b2[p..] == b2[p1..][p - p1..] && b1[p..] == b1[p1..][p - p1..] == b0[p..];
      assert b1[..start] == b0[..start];
    }
  }

  // ----- small integers -----

  /** Only the low byte of the number is written. */
  function IntContent(val: int): (c: seq<Byte>)
    ensures 1 <= |c| <= 2
  {
    if val > 0 && val % 0x100 >= 0x80 then [0, val % 0x100] else [val % 0x100]
  }

  /** The contents denote the low byte, in the shortest form (section 8.3). */
  lemma IntContentMeans(val: int)
    ensures var c := IntContent(val);
      && Big(c) == val % 0x100
      && (val > 0 ==> c[0] < 0x80) && (|c| > 1 ==> c[0] == 0 && c[1] >= 0x80)
  {
    hide Big;
    BigOne(val % 0x100);
    BigTwo(0, val % 0x100);
  }

  method WriteInt(buf: array<Byte>, start: nat, p: nat, val: int) returns (r: Result, p': nat)
    requires start <= p <= buf.Length
    modifies buf
    ensures r.Done? <==> |Tlv(INTEGER, IntContent(val))| <= p - start
    ensures r.Err? ==> r.error == BufTooSmall && Untouched(old(buf[..]), buf[..], start, p)
    ensures r.Done? ==> r.len == p - p' && Wrote(old(buf[..]), buf[..], p', p, Tlv(INTEGER, IntContent(val)))
  {
    hide DerLen, Wrote, Untouched;
    ghost var b, s: seq<Byte> := buf[..], [];
    WroteNothing(b, p);
    if p - start < 1 {
      UntouchedSelf(b, start, p);
      return Err(BufTooSmall), p;
    }
    p', s := Push(buf, p, val % 0x100, b, p, s);
    var len := 1;
    if val > 0 && val % 0x100 >= 0x80 {
      if p' - start < 1 {
        WroteUntouched(b, buf[..], start, p', p, s);
        return Err(BufTooSmall), p';
      }
      p', s := Push(buf, p', 0, b, p, s);
      len := 2;
    }
    assert s == IntContent(val);
    ghost var b1, p1 := buf[..], p';
    r, p' := WriteHeader(buf, start, p', len, INTEGER);
    HeaderAfter(b, b1, buf[..], start, p', p1, p, INTEGER, s, r);
  }

  function IntAt(d: seq<Byte>, p: nat, end: nat): (r: Read<int>)
    requires p <= end <= |d|
  {
    var h := TagAt(d, p, end, INTEGER);
    if h.Fails? then Fails(h.error)
    else if h.value == 0 || h.value > 4 || d[h.p] >= 0x80 then Fails(InvalidLength)
    else Got(Big(d[h.p..h.p + h.value]), h.p + h.value)
  }

  lemma BigStep(d: seq<Byte>, q: nat, p: nat)
    requires q <= p < |d|
    ensures Big(d[q..p + 1]) == Big(d[q..p]) * 256 + d[p]
  {
    assert d[q..p + 1][..p - q] == d[q..p];
  }

  /** What k bytes whose first has no top bit stay below. */
  function ValueBound(k: nat): nat {
    match k
    case 0 => 1
    case 1 => 0x80
    case 2 => 0x8000
    case 3 => 0x80_0000
    case _ => 0x8000_0000
  }

  /** mbedtls_asn1_get_int; an int of 32 bits never overflows. */
  method GetInt(d: seq<Byte>, p: nat, end: nat) returns (r: Read<int>)
    requires p <= end <= |d|
    ensures r == IntAt(d, p, end) && (r.Got? ==> 0 <= r.value < 0x8000_0000)
  {
    hide Big;
    var h := GetTag(d, p, end, INTEGER);
    if h.Fails? {
      return Fails(h.error);
    }
    if h.value == 0 || h.value > 4 || d[h.p] >= 0x80 {
      return Fails(InvalidLength);
    }
    var val: int, q, len := 0, h.p, h.value;
    assert d[q..q] == [];
    BigNothing();
    while len > 0
      invariant 0 <= len && q + len == h.p + h.value && h.p <= q && val == Big(d[h.p..q])
      invariant 0 <= val < ValueBound(q - h.p)
    {
      BigStep(d, h.p, q);
      len := len - 1;
      val := val * 256 + d[q];
      q := q + 1;
    }
    return Got(val, q);
  }

  /** A number is read back exactly when it is one of 0 to 255. */
  lemma IntBack(d: seq<Byte>, p: nat, end: nat, val: int)
    requires At(d, p, Tlv(INTEGER, IntContent(val))) && p + |Tlv(INTEGER, IntContent(val))| <= end <= |d|
    ensures IntAt(d, p, end) == Got(val, p + |Tlv(INTEGER, IntContent(val))|) <==> 0 <= val <= 255
  {
    var c := IntContent(val);
    TlvBack(d, p, end, INTEGER, c);
    hide Big, TagAt, DerLen;
    var q := p + |Tlv(INTEGER, c)| - |c|;
    assert d[q] == d[q..q + |c|][0];
    BigOne(val % 0x100);
    BigTwo(0, val % 0x100);
  }

  /** Of 256 only the low byte arrives. */
  lemma HighByteLost()
    ensures Tlv(INTEGER, IntContent(256)) == [2, 1, 0] && IntAt([2, 1, 0], 0, 3) == Got(0, 3)
  {
    assert [2, 1, 0][2..3] == [0];
    BigOne(0);
  }

  // ----- multi-precision integers -----

  /** The bytes of v without leading zeros. */
  function Magnitude(v: nat): (b: seq<Byte>)
    ensures Big(b) == v && (b != [] ==> b[0] != 0)
  {
    if v == 0 then [] else
      var b := Magnitude(v / 256) + [v % 256];
      assert b[..|b| - 1] == Magnitude(v / 256);
      b
  }

  lemma MagnitudeSize(v: nat)
    ensures |Magnitude(v)| == (BitCount(v) + 7) / 8
  {
    hide Pow2, BitCount, Magnitude, Big, Weight;
    var k, n := |Magnitude(v)|, (BitCount(v) + 7) / 8;
    BytesOfWeight(Magnitude(v));
    BitsOfWeight(v, n);
    if n < k { WeightMono(n, k - 1); } else if k < n { WeightMono(k, n - 1); }
  }

  lemma BytesOfWeight(b: seq<Byte>)
    ensures Big(b) < Weight(|b|)
    ensures b != [] && b[0] != 0 ==> Big(b) >= Weight(|b| - 1)
  {
    hide Weight, Big;
    BigBound(b);
    if b != [] && b[0] != 0 {
      assert b == [b[0]] + b[1..];
      BigFront(b[0], b[1..]);
      MulGe(1, b[0], Weight(|b| - 1));
    }
  }

  lemma BitsOfWeight(v: nat, n: nat)
    requires n == (BitCount(v) + 7) / 8
    ensures v < Weight(n) && (n > 0 ==> v >= Weight(n - 1))
  {
    Pow2Mono(BitCount(v), 8 * n);
    if n > 0 { Pow2Mono(8 * (n - 1), BitCount(v) - 1); }
  }

  lemma WeightMono(m: nat, n: nat)
    requires m <= n
    ensures Weight(m) <= Weight(n)
  {
    Pow2Mono(8 * m, 8 * n);
  }

  /** The contents for a number; for zero, whose bytes are none, the top bit that
      is looked at is that of the byte above. */
  function MpiContent(v: nat, s: Sign, above: Byte): seq<Byte> {
    var b := Magnitude(v);
    if s == 1 && (if b == [] then above else b[0]) >= 0x80 then [0] + b else b
  }

  /** The contents denote the magnitude, and for a number above zero they are the
      shortest two's complement form (section 8.3). */
  lemma MpiContentMeans(v: nat, s: Sign, above: Byte)
    ensures var c := MpiContent(v, s, above);
      && Big(c) == v
      && (s == 1 && v > 0 ==> c[0] < 0x80 && (c[0] == 0 && |c| > 1 ==> c[1] >= 0x80))
  {
    BigZeros(1, Magnitude(v));
    assert ZeroBytes(1) == [0];
  }

  /** The contents: the bytes, and a zero before a first byte with its top bit
      set. */
  method WriteMpiContent(buf: array<Byte>, start: nat, p: nat, X: Num) returns (r: Result, p': nat)
    requires start <= p <= buf.Length && (X.Abs() == 0 ==> p < buf.Length)
    modifies buf
    ensures var c := MpiContent(X.Abs(), X.s, if p < buf.Length then old(buf[p]) else 0);
      && r == (if p - start < |c| then Err(BufTooSmall) else Done(|c|))
      && (r.Done? ==> p' + |c| == p && Wrote(old(buf[..]), buf[..], p', p, c))
    ensures r.Err? ==> Untouched(old(buf[..]), buf[..], start, p)
  {
    hide Wrote, Untouched, Magnitude, Big, BitCount;
    ghost var b := buf[..];
    var len := Size(X);
    MagnitudeSize(X.Abs());
    if p - start < len {
      UntouchedSelf(b, start, p);
      return Err(BufTooSmall), p;
    }
    p' := p - len;
    var ok := WriteBinary(X, buf, p', len);
    ghost var s := buf[p'..p];
    BigUnique(s, Magnitude(X.Abs()));
    WroteSlice(b, buf[..], p', p, s);
    if X.s == 1 && buf[p'] >= 0x80 {
      if p' - start < 1 {
        WroteUntouched(b, buf[..], start, p', p, s);
        return Err(BufTooSmall), p';
      }
      p', s := Push(buf, p', 0, b, p, s);
      len := len + 1;
    }
    return Done(len), p';
  }

  method WriteMpi(buf: array<Byte>, start: nat, p: nat, X: Num) returns (r: Result, p': nat)
    requires start <= p <= buf.Length && (X.Abs() == 0 ==> p < buf.Length)
    modifies buf
    ensures var c := MpiContent(X.Abs(), X.s, if p < buf.Length then old(buf[p]) else 0);
      && (r.Done? <==> |c| < LENGTHS && |Tlv(INTEGER, c)| <= p - start)
      && (r.Done? ==> r.len == p - p' && Wrote(old(buf[..]), buf[..], p', p, Tlv(INTEGER, c)))
    ensures r.Err? ==> Untouched(old(buf[..]), buf[..], start, p)
  {
    hide DerLen, Wrote, Untouched, Tlv, MpiContent;
    ghost var b, c := buf[..], MpiContent(X.Abs(), X.s, if p < buf.Length then buf[p] else 0);
    TlvLength(INTEGER, c);
    r, p' := WriteMpiContent(buf, start, p, X);
    if r.Err? {
      return;
    }
    ghost var b1, p1 := buf[..], p';
    r, p' := WriteHeader(buf, start, p', r.len, INTEGER);
    HeaderAfter(b, b1, buf[..], start, p', p1, p, INTEGER, c, r);
  }

  lemma TlvLength(tag: Byte, c: seq<Byte>)
    ensures |c| < LENGTHS ==> |Tlv(tag, c)| == 1 + |DerLen(|c|)| + |c|
  {}

  lemma WroteSlice(b0: seq<Byte>, b1: seq<Byte>, p': nat, p: nat, s: seq<Byte>)
    requires p' <= p <= |b0| == |b1| && s == b1[p'..p] && b1[..p'] == b0[..p'] && b1[p..] == b0[p..]
    ensures Wrote(b0, b1, p', p, s)
  {}

  /** mbedtls_asn1_get_mpi. */
  method GetMpi(d: seq<Byte>, p: nat, end: nat, X: Num) returns (r: Read<()>)
    requires p <= end <= |d|
    modifies X
    ensures var h := TagAt(d, p, end, INTEGER);
      && (h.Fails? ==> r == Fails(h.error) && X.V() == old(X.V()))
      && (h.Got? ==> r == Got((), h.p + h.value) && X.s == 1 && X.V() == Big(d[h.p..h.p + h.value]))
  {
    var h := GetTag(d, p, end, INTEGER);
    if h.Fails? {
      return Fails(h.error);
    }
    ReadBinary(X, d[h.p..h.p + h.value]);
    return Got((), h.p + h.value);
  }

  /** The number read is the magnitude of the number written: the same number if
      and only if that was not negative. */
  lemma MpiBack(d: seq<Byte>, p: nat, end: nat, v: nat, s: Sign, above: Byte)
    requires |MpiContent(v, s, above)| < LENGTHS
    requires At(d, p, Tlv(INTEGER, MpiContent(v, s, above)))
    requires p + |Tlv(INTEGER, MpiContent(v, s, above))| <= end <= |d|
    ensures var h := TagAt(d, p, end, INTEGER);
      && h.Got? && h.p + h.value == p + |Tlv(INTEGER, MpiContent(v, s, above))|
      && Big(d[h.p..h.p + h.value]) == v
      && (Big(d[h.p..h.p + h.value]) == (if s > 0 then v else 0 - v) <==> s > 0 || v == 0)
  {
    hide TagAt, Tlv, MpiContent;
    TlvBack(d, p, end, INTEGER, MpiContent(v, s, above));
    MpiContentMeans(v, s, above);
  }

  /** Minus one is written as one. */
  lemma MinusOneLost(above: Byte)
    ensures MpiContent(1, -1, above) == [1] && Tlv(INTEGER, [1]) == [2, 1, 1]
    ensures TagAt([2, 1, 1], 0, 3, INTEGER) == Got(1, 2) && [2, 1, 1][2..3] == [1] && Big([1]) == 1
  {
    hide Big;
    MagnitudeOne();
    BigOne(1);
  }

  lemma MagnitudeOne()
    ensures Magnitude(1) == [1]
  {
    hide Big;
    assert Magnitude(0) == [];
  }

  // ----- bit strings -----

  function Octets(bits: nat): nat {
    bits / 8 + if bits % 8 != 0 then 1 else 0
  }

  /** How many bits of the last octet are unused, and the octets (section 8.6). */
  function BitContent(s: seq<Byte>, bits: nat): seq<Byte>
    requires Octets(bits) <= |s|
  {
    [Octets(bits) * 8 - bits] + s[..Octets(bits)]
  }

  method WriteBitstring(buf: array<Byte>, start: nat, p: nat, s: seq<Byte>, bits: nat) returns (r: Result, p': nat)
    requires start <= p <= buf.Length && Octets(bits) <= |s|
    modifies buf
    ensures var c := BitContent(s, bits);
      && (r.Done? <==> |c| < LENGTHS && |Tlv(BIT_STRING, c)| <= p - start)
      && (r.Done? ==> r.len == p - p' && Wrote(old(buf[..]), buf[..], p', p, Tlv(BIT_STRING, c)))
    ensures r.Err? ==> Untouched(old(buf[..]), buf[..], start, p)
  {
    hide DerLen, Wrote, Untouched, Tlv;
    ghost var b, c := buf[..], BitContent(s, bits);
    TlvLength(BIT_STRING, c);
    var size := bits / 8 + if bits % 8 != 0 then 1 else 0;
    if p - start < size + 1 {
      UntouchedSelf(b, start, p);
      return Err(BufTooSmall), p;
    }
    r, p' := WriteRaw(buf, start, p, s[..size]);
    ghost var t;
    p', t := Push(buf, p', size * 8 - bits, b, p, s[..size]);
    ghost var b1, p1 := buf[..], p';
    r, p' := WriteHeader(buf, start, p', size + 1, BIT_STRING);
    HeaderAfter(b, b1, buf[..], start, p', p1, p, BIT_STRING, t, r);
  }

  datatype BitString = BitString(unused: nat, bytes: seq<Byte>)

  /** The string must fill what is left. */
  function BitstringAt(d: seq<Byte>, p: nat, end: nat): Read<BitString>
    requires p <= end <= |d|
  {
    var h := TagAt(d, p, end, BIT_STRING);
    if h.Fails? then Fails(h.error)
    else if h.value < 1 then Fails(OutOfData)
    else if d[h.p] > 7 then Fails(InvalidLength)
    else if h.p + h.value != end then Fails(LengthMismatch)
    else Got(BitString(d[h.p], d[h.p + 1..h.p + h.value]), end)
  }

  /** mbedtls_asn1_get_bitstring. */
  method GetBitstring(d: seq<Byte>, p0: nat, end: nat) returns (r: Read<BitString>)
    requires p0 <= end <= |d|
    ensures r == BitstringAt(d, p0, end)
  {
    hide TagAt;
    var h := GetTag(d, p0, end, BIT_STRING);
    if h.Fails? {
      return Fails(h.error);
    }
    var p, len := h.p, h.value;
    if len < 1 {
      return Fails(OutOfData);
    }
    len := len - 1;
    var unused := d[p];
    if unused > 7 {
      return Fails(InvalidLength);
    }
    p := p + 1;
    var bytes := d[p..p + len];
    p := p + len;
    if p != end {
      return Fails(LengthMismatch);
    }
    return Got(BitString(unused, bytes), p);
  }

  /** The same number of bits in the same octets. */
  lemma BitstringBack(d: seq<Byte>, p: nat, s: seq<Byte>, bits: nat)
    requires Octets(bits) <= |s| && Octets(bits) + 1 < LENGTHS
    requires At(d, p, Tlv(BIT_STRING, BitContent(s, bits))) && p + |Tlv(BIT_STRING, BitContent(s, bits))| == |d|
    ensures var r := BitstringAt(d, p, |d|);
      r.Got? && r.value.bytes == s[..Octets(bits)] && 8 * |r.value.bytes| - r.value.unused == bits && r.p == |d|
  {
    hide TagAt, DerLen;
    var c := BitContent(s, bits);
    TlvBack(d, p, |d|, BIT_STRING, c);
    var q := p + |Tlv(BIT_STRING, c)| - |c|;
    assert d[q] == d[q..q + |c|][0] && d[q + 1..q + |c|] == d[q..q + |c|][1..];
  }

  // ----- algorithm identifiers -----

  /** The null that stands for absent parameters, and otherwise nothing: the
      parameters are in the buffer already. */
  function NullFor(parLen: nat): seq<Byte> {
    if parLen == 0 then Tlv(NULL, []) else []
  }

  /** What is written below the parameters: the sequence counts them too. */
  function AlgorithmHead(oid: seq<Byte>, parLen: nat): seq<Byte>
    requires |oid| < LENGTHS && |Tlv(OID, oid) + NullFor(parLen)| + parLen < LENGTHS
  {
    var s := Tlv(OID, oid) + NullFor(parLen);
    [SEQUENCE] + DerLen(|s| + parLen) + s
  }

  /** mbedtls_asn1_write_algorithm_identifier. */
  method WriteAlgorithm(buf: array<Byte>, start: nat, p: nat, oid: seq<Byte>, parLen: nat) returns (r: Result, p': nat)
    requires start <= p <= buf.Length
    modifies buf
    ensures r.Done? <==>
      (&& |oid| < LENGTHS && |Tlv(OID, oid) + NullFor(parLen)| + parLen < LENGTHS
       && |AlgorithmHead(oid, parLen)| <= p - start)
    ensures r.Done? ==> r.len == p - p' + parLen && Wrote(old(buf[..]), buf[..], p', p, AlgorithmHead(oid, parLen))
    ensures r.Err? ==> Untouched(old(buf[..]), buf[..], start, p)
  {
    hide DerLen, Wrote, Untouched, Tlv;
    ghost var b, s := buf[..], NullFor(parLen);
    var len;
    r, p', len := WriteNullFor(buf, start, p, parLen);
    if r.Err? {
      return;
    }
    ghost var b1, p1 := buf[..], p';
    r, p' := WriteTlv(buf, start, p', OID, oid);
    if r.Err? {
      FailedAfter(b, b1, buf[..], start, p1, p, s);
      return;
    }
    ghost var b2, p2 := buf[..], p';
    len := len + r.len;
    WroteTwice(b, b1, b2, p2, p1, p, Tlv(OID, oid), s);
    s := Tlv(OID, oid) + s;
    r, p' := WriteHeader(buf, start, p', len, SEQUENCE);
    if r.Err? {
      FailedAfter(b, b2, buf[..], start, p2, p, s);
      return;
    }
    WroteTwice(b, b2, buf[..], p', p2, p, [SEQUENCE] + DerLen(len), s);
  }

  /** The null, when there are no parameters. */
  method WriteNullFor(buf: array<Byte>, start: nat, p: nat, parLen: nat) returns (r: Result, p': nat, len: nat)
    requires start <= p <= buf.Length
    modifies buf
    ensures r.Done? <==> |NullFor(parLen)| <= p - start
    ensures r.Done? ==> len == |NullFor(parLen)| + parLen && p' + |NullFor(parLen)| == p
    ensures r.Done? ==> Wrote(old(buf[..]), buf[..], p', p, NullFor(parLen))
    ensures r.Err? ==> Untouched(old(buf[..]), buf[..], start, p)
  {
    hide Wrote, Untouched;
    if parLen == 0 {
      assert [NULL] + DerLen(0) == Tlv(NULL, []);
      r, p' := WriteHeader(buf, start, p, 0, NULL);
      len := 2;
    } else {
      WroteNothing(buf[..], p);
      r, p', len := Done(0), p, parLen;
    }
  }

  lemma FailedAfter(b0: seq<Byte>, b1: seq<Byte>, b2: seq<Byte>, start: nat, p1: nat, p: nat, s: seq<Byte>)
    requires Wrote(b0, b1, p1, p, s) && Untouched(b1, b2, start, p1)
    ensures Untouched(b0, b2, start, p)
  {
    assert b2[p..] == b2[p1..][p - p1..] && b1[p..] == b1[p1..][p - p1..] == b0[p..];
    assert b1[..start] == b0[..start];
  }

  /** Parameters that start where the pointer was complete the sequence. */
  lemma AlgorithmWhole(b0: seq<Byte>, b1: seq<Byte>, p': nat, p: nat, oid: seq<Byte>, par: seq<Byte>)
    requires |oid| < LENGTHS && |Tlv(OID, oid) + NullFor(|par|)| + |par| < LENGTHS
    requires Wrote(b0, b1, p', p, AlgorithmHead(oid, |par|)) && At(b0, p, par)
    ensures At(b1, p', Tlv(SEQUENCE, Tlv(OID, oid) + NullFor(|par|) + par))
  {
    hide DerLen, Tlv;
    var h, s := AlgorithmHead(oid, |par|), Tlv(OID, oid) + NullFor(|par|);
    assert b0[p..][..|par|] == par;
    Inside(b0[..p'], h, b0[p..], |par|);
    SequenceWhole(s, par);
  }

  lemma Inside(a: seq<Byte>, h: seq<Byte>, c: seq<Byte>, n: nat)
    requires n <= |c|
    ensures (a + h + c)[|a|..|a| + |h| + n] == h + c[..n]
  {}

  lemma SequenceWhole(s: seq<Byte>, par: seq<Byte>)
    requires |s| + |par| < LENGTHS
    ensures Tlv(SEQUENCE, s + par) == [SEQUENCE] + DerLen(|s| + |par|) + s + par
  {
    hide DerLen;
    var h := [SEQUENCE] + DerLen(|s| + |par|);
    assert h + (s + par) == h + s + par;
  }

  /** An identifier, and the tag and bytes of its parameters. */
  datatype Algorithm = Algorithm(oid: seq<Byte>, params: Option<(Byte, seq<Byte>)>)

  function AlgorithmAt(d: seq<Byte>, p: nat, end: nat): Read<Algorithm>
    requires p <= end <= |d|
  {
    var h := TagAt(d, p, end, SEQUENCE);
    if h.Fails? then Fails(h.error)
    else if end - h.p < 1 then Fails(OutOfData)
    else
      var last := h.p + h.value;
      var o := TagAt(d, h.p, last, OID);
      if o.Fails? then Fails(o.error)
      else
        var oid, q := d[o.p..o.p + o.value], o.p + o.value;
        if q == last then Got(Algorithm(oid, None), q)
        else
          var l := LenAt(d, q + 1, last);
          if l.Fails? then Fails(l.error)
          else if l.p + l.value != last then Fails(LengthMismatch)
          else Got(Algorithm(oid, Some((d[q], d[l.p..last]))), last)
  }

  /** mbedtls_asn1_get_alg. */
  method GetAlgorithm(d: seq<Byte>, p0: nat, end0: nat) returns (r: Read<Algorithm>)
    requires p0 <= end0 <= |d|
    ensures r == AlgorithmAt(d, p0, end0)
  {
    hide TagAt, LenAt;
    var h := GetTag(d, p0, end0, SEQUENCE);
    if h.Fails? {
      return Fails(h.error);
    }
    var p := h.p;
    if end0 - p < 1 {
      return Fails(OutOfData);
    }
    var end := p + h.value;
    h := GetTag(d, p, end, OID);
    if h.Fails? {
      return Fails(h.error);
    }
    p := h.p;
    var oid := d[p..p + h.value];
    p := p + h.value;
    if p == end {
      return Got(Algorithm(oid, None), p);
    }
    var tag := d[p];
    p := p + 1;
    var l := GetLen(d, p, end);
    if l.Fails? {
      return Fails(l.error);
    }
    p := l.p;
    var bytes := d[p..p + l.value];
    p := p + l.value;
    if p != end {
      return Fails(LengthMismatch);
    }
    return Got(Algorithm(oid, Some((tag, bytes))), p);
  }

  /** An identifier and any parameters are read back. */
  lemma AlgorithmBack(d: seq<Byte>, p: nat, end: nat, oid: seq<Byte>, tag: Byte, c: seq<Byte>)
    requires |oid| < LENGTHS && |c| < LENGTHS && |Tlv(OID, oid) + Tlv(tag, c)| < LENGTHS
    requires At(d, p, Tlv(SEQUENCE, Tlv(OID, oid) + Tlv(tag, c)))
    requires p + |Tlv(SEQUENCE, Tlv(OID, oid) + Tlv(tag, c))| <= end <= |d|
    ensures AlgorithmAt(d, p, end)
      == Got(Algorithm(oid, Some((tag, c))), p + |Tlv(SEQUENCE, Tlv(OID, oid) + Tlv(tag, c))|)
  {
    hide TagAt, LenAt, DerLen, Tlv, At;
    var o, a := Tlv(OID, oid), Tlv(tag, c);
    var t := Tlv(SEQUENCE, o + a);
    TlvLength(SEQUENCE, o + a);
    TlvLength(OID, oid);
    TlvLength(tag, c);
    TlvBack(d, p, end, SEQUENCE, o + a);
    var q := p + |t| - |o + a|;
    var last := p + |t|;
    AtSlice(d, q, o + a);
    AtBoth(d, q, o, a);
    TlvBack(d, q, last, OID, oid);
    TagThenLen(d, q + |o|, last, tag, c);
  }

  lemma AtSlice(d: seq<Byte>, p: nat, s: seq<Byte>)
    requires p + |s| <= |d| && d[p..p + |s|] == s
    ensures At(d, p, s)
  {}

  lemma TagThenLen(d: seq<Byte>, p: nat, end: nat, tag: Byte, c: seq<Byte>)
    requires |c| < LENGTHS && At(d, p, Tlv(tag, c)) && p + |Tlv(tag, c)| == end <= |d|
    ensures p < end && d[p] == tag && LenAt(d, p + 1, end) == Got(|c|, end - |c|) && d[end - |c|..end] == c
  {
    TlvBack(d, p, end, tag, c);
  }

  /** And without parameters when there are none. */
  lemma BareAlgorithmBack(d: seq<Byte>, p: nat, end: nat, oid: seq<Byte>)
    requires |oid| < LENGTHS && |Tlv(OID, oid)| < LENGTHS
    requires At(d, p, Tlv(SEQUENCE, Tlv(OID, oid))) && p + |Tlv(SEQUENCE, Tlv(OID, oid))| <= end <= |d|
    ensures AlgorithmAt(d, p, end) == Got(Algorithm(oid, None), p + |Tlv(SEQUENCE, Tlv(OID, oid))|)
  {
    hide TagAt, DerLen, Tlv, At;
    var o := Tlv(OID, oid);
    var t := Tlv(SEQUENCE, o);
    TlvLength(SEQUENCE, o);
    TlvLength(OID, oid);
    TlvBack(d, p, end, SEQUENCE, o);
    var q := p + |t| - |o|;
    AtSlice(d, q, o);
    TlvBack(d, q, p + |t|, OID, oid);
  }

  // ----- exactly what the readers accept -----

  /** s is the tag, some form of the length, and the contents c. */
  ghost predicate Tagged(s: seq<Byte>, tag: Byte, c: seq<Byte>) {
    |s| > |c| && s[0] == tag && s[|s| - |c|..] == c && LenForm(s[1..|s| - |c|], |c|)
  }

  lemma TagIff(d: seq<Byte>, p: nat, end: nat, tag: Byte, n: nat, q: nat)
    requires p <= end <= |d|
    ensures TagAt(d, p, end, tag) == Got(n, q) <==> p < q && q + n <= end && Tagged(d[p..q + n], tag, d[q..q + n])
  {
    hide LenAt, LenForm;
    if p < q && q + n <= end {
      var s := d[p..q + n];
      assert |s| == q - p + n && s[0] == d[p];
      assert s[|s| - n..] == d[q..q + n];
      Middle(d, p, q, q + n);
      LenIff(d, p + 1, end, n, q);
      FormNotEmpty(d[p + 1..q], n);
    }
  }

  lemma Middle(d: seq<Byte>, p: nat, q: nat, e: nat)
    requires p < q <= e <= |d|
    ensures d[p..e][1..q - p] == d[p + 1..q]
  {
    assert d[p..e] == [d[p]] + d[p + 1..q] + d[q..e];
  }

  lemma FormNotEmpty(s: seq<Byte>, n: nat)
    ensures s == [] ==> !LenForm(s, n)
  {}

  /** A small integer: one to four bytes of which the first has no top bit. */
  lemma IntIff(d: seq<Byte>, p: nat, end: nat, v: int, r: nat)
    requires p <= end <= |d|
    ensures (IntAt(d, p, end) == Got(v, r) <==>
      p <= r <= end && exists c :: Tagged(d[p..r], 0x02, c) && 1 <= |c| <= 4 && c[0] < 0x80 && v == Big(c))
  {
    hide TagAt, Tagged, Big;
    var h := TagAt(d, p, end, INTEGER);
    if IntAt(d, p, end) == Got(v, r) {
      TagIff(d, p, end, INTEGER, h.value, h.p);
      var c := d[h.p..r];
      assert Tagged(d[p..r], 0x02, c) && c[0] == d[h.p];
    }
    if p <= r <= end {
      forall c | Tagged(d[p..r], 0x02, c)
        ensures p < r - |c| && h == Got(|c|, r - |c|) && d[r - |c|..r] == c
      {
        TaggedRead(d, p, end, 0x02, r, c);
      }
    }
  }

  lemma TaggedRead(d: seq<Byte>, p: nat, end: nat, tag: Byte, r: nat, c: seq<Byte>)
    requires p <= r <= end <= |d| && Tagged(d[p..r], tag, c)
    ensures p < r - |c| && TagAt(d, p, end, tag) == Got(|c|, r - |c|) && d[r - |c|..r] == c
  {
    hide LenForm;
    var s := d[p..r];
    assert s[|s| - |c|..] == d[r - |c|..r];
    FormNotEmpty(s[1..|s| - |c|], |c|);
    TagIff(d, p, end, tag, |c|, r - |c|);
  }

  /** A bit string: how many bits are unused, up to seven, and the octets, and
      nothing behind them. */
  lemma BitstringIff(d: seq<Byte>, p: nat, end: nat, v: BitString, r: nat)
    requires p <= end <= |d|
    ensures (BitstringAt(d, p, end) == Got(v, r) <==>
      r == end && v.unused <= 7 && Tagged(d[p..end], 0x03, [v.unused] + v.bytes))
  {
    hide TagAt, Tagged;
    var h := TagAt(d, p, end, BIT_STRING);
    if BitstringAt(d, p, end) == Got(v, r) {
      TagIff(d, p, end, BIT_STRING, h.value, h.p);
      assert d[h.p..end] == [v.unused] + v.bytes;
    }
    if r == end && v.unused <= 7 && Tagged(d[p..end], 0x03, [v.unused] + v.bytes) {
      var c := [v.unused] + v.bytes;
      TaggedRead(d, p, end, 0x03, end, c);
      assert d[h.p] == d[h.p..end][0] && d[h.p + 1..end] == d[h.p..end][1..];
    }
  }

  /** An identifier: a sequence of the object identifier and at most one more
      element, of any tag. */
  ghost predicate Identifies(s: seq<Byte>, a: Algorithm) {
    exists c :: Tagged(s, 0x30, c) &&
      match a.params
      case None => Tagged(c, 0x06, a.oid)
      case Some(par) => exists n: nat :: n <= |c| && Tagged(c[..n], 0x06, a.oid) && Tagged(c[n..], par.0, par.1)
  }

  lemma AlgorithmIff(d: seq<Byte>, p: nat, end: nat, a: Algorithm, r: nat)
    requires p <= end <= |d|
    ensures AlgorithmAt(d, p, end) == Got(a, r) <==> p <= r <= end && Identifies(d[p..r], a)
  {
    hide TagAt, LenAt, Tagged;
    if AlgorithmAt(d, p, end) == Got(a, r) {
      AlgorithmRead(d, p, end, a, r);
    }
    if p <= r <= end && Identifies(d[p..r], a) {
      IdentifierIsRead(d, p, end, a, r);
    }
  }

  lemma AlgorithmRead(d: seq<Byte>, p: nat, end: nat, a: Algorithm, r: nat)
    requires p <= end <= |d| && AlgorithmAt(d, p, end) == Got(a, r)
    ensures p <= r <= end && Identifies(d[p..r], a)
  {
    hide TagAt, LenAt, Tagged;
    var h := TagAt(d, p, end, SEQUENCE);
    TagIff(d, p, end, SEQUENCE, h.value, h.p);
    var last := h.p + h.value;
    var o := TagAt(d, h.p, last, OID);
    TagIff(d, h.p, last, OID, o.value, o.p);
    var c, n := d[h.p..last], o.p + o.value - h.p;
    assert c[..n] == d[h.p..o.p + o.value] && (n == |c| ==> c[..n] == c);
    if a.params.Some? {
      var q, l := o.p + o.value, LenAt(d, o.p + o.value + 1, last);
      TagFound(d, q, last, l.value, l.p);
      TagIff(d, q, last, d[q], l.value, l.p);
      assert c[n..] == d[q..last];
    }
  }

  lemma TagFound(d: seq<Byte>, q: nat, end: nat, n: nat, p: nat)
    requires q < end <= |d| && LenAt(d, q + 1, end) == Got(n, p)
    ensures TagAt(d, q, end, d[q]) == Got(n, p)
  {}

  lemma IdentifierIsRead(d: seq<Byte>, p: nat, end: nat, a: Algorithm, r: nat)
    requires p <= r <= end <= |d| && Identifies(d[p..r], a)
    ensures AlgorithmAt(d, p, end) == Got(a, r)
  {
    hide TagAt, LenAt, Tagged;
    var c :| Tagged(d[p..r], 0x30, c) &&
      match a.params
      case None => Tagged(c, 0x06, a.oid)
      case Some(par) => exists n: nat :: n <= |c| && Tagged(c[..n], 0x06, a.oid) && Tagged(c[n..], par.0, par.1);
    TaggedRead(d, p, end, 0x30, r, c);
    var q := r - |c|;
    if a.params.None? {
      TaggedRead(d, q, r, 0x06, r, a.oid);
    } else {
      var par := a.params.value;
      var n: nat :| n <= |c| && Tagged(c[..n], 0x06, a.oid) && Tagged(c[n..], par.0, par.1);
      assert c[..n] == d[q..q + n] && c[n..] == d[q + n..r];
      TaggedRead(d, q, r, 0x06, q + n, a.oid);
      TaggedRead(d, q + n, r, par.0, r, par.1);
      LenFound(d, q + n, r, par.0, |par.1|, r - |par.1|);
    }
  }

  lemma LenFound(d: seq<Byte>, q: nat, end: nat, tag: Byte, n: nat, p: nat)
    requires q <= end <= |d| && TagAt(d, q, end, tag) == Got(n, p)
    ensures q < end && d[q] == tag && LenAt(d, q + 1, end) == Got(n, p)
  {}

  /** The identifier of RSA encryption and the bit string of three bits, byte by
      byte. */
  lemma Known()
    ensures var oid: seq<Byte> := [0x2A, 0x86, 0x48, 0x86, 0xF7, 0x0D, 0x01, 0x01, 0x01];
      AlgorithmHead(oid, 0)
        == [0x30, 0x0D, 0x06, 0x09, 0x2A, 0x86, 0x48, 0x86, 0xF7, 0x0D, 0x01, 0x01, 0x01, 0x05, 0x00]
    ensures Tlv(BIT_STRING, BitContent([0xA0], 3)) == [0x03, 0x02, 0x05, 0xA0]
    ensures DerLen(200) == [0x81, 0xC8]
  {
    assert [0xA0][..1] == [0xA0];
  }
}
