/** Modular exponentiation with a sliding window over the exponent's bits. */
module ModExp {
  import opened Powers
  import opened Limbs
  import opened Congruence
  import opened Divisors
  import opened Mpi
  import opened Bits
  import opened LimbDivision
  import opened Division
  import opened Montgomery

  type WindowBits = w: nat | 1 <= w <= 6 witness 6

  /** MBEDTLS_MPI_WINDOW_SIZE: any of the values the configuration allows. */
  const WINDOW_SIZE: WindowBits

  /** x is a^e in Montgomery form: reduced, and a^e times R modulo m. */
  ghost predicate MontPow(x: nat, a: int, e: nat, m: nat, n: nat) {
    x < m && Cong(x, Pow(a, e) * BPow(n), m)
  }

  /** Dividing by R is sound because the modulus is odd. */
  lemma CancelR(x: int, y: int, m: nat, n: nat)
    requires m % 2 == 1 && Cong(x * BPow(n), y * BPow(n), m)
    ensures Cong(x, y, m)
  {
    BPowBits(n);
    CancelPow2(x, y, BitsIn(n), m);
  }

  /** A Montgomery product adds exponents. */
  lemma MontPowMul(x: nat, y: nat, z: nat, a: int, i: nat, j: nat, m: nat, n: nat)
    requires m % 2 == 1 && MontPow(x, a, i, m, n) && MontPow(y, a, j, m, n)
    requires z < m && Cong(z * BPow(n), x * y, m)
    ensures MontPow(z, a, i + j, m, n)
  {
    hide Pow, BPow;
    var r, p, q := BPow(n), Pow(a, i), Pow(a, j);
    CongMulBoth(x, p * r, y, q * r, m);
    PowAdd(a, i, j);
    assert (p * r) * (q * r) == (p * q * r) * r;
    CongTrans(z * r, x * y, (p * q * r) * r, m);
    CancelR(z, p * q * r, m, n);
  }

  /** Leaving Montgomery form. */
  lemma MontPowRed(x: nat, z: nat, a: int, e: nat, m: nat, n: nat)
    requires m % 2 == 1 && MontPow(x, a, e, m, n) && z < m && Cong(z * BPow(n), x, m)
    ensures z == Pow(a, e) % m
  {
    CongTrans(z * BPow(n), x, Pow(a, e) * BPow(n), m);
    CancelR(z, Pow(a, e), m, n);
    CongMod(z, Pow(a, e), m);
  }

  /** R^2 mod N brings 1 and A into Montgomery form. */
  lemma MontPowOne(rr: nat, z: nat, a: int, m: nat, n: nat)
    requires m % 2 == 1 && rr == (BPow(n) * BPow(n)) % m && z < m && Cong(z * BPow(n), rr, m)
    ensures MontPow(z, a, 0, m, n)
  {
    var r := BPow(n);
    CongOfMod(r * r, m);
    CongTrans(z * r, rr, r * r, m);
    CancelR(z, r, m, n);
  }

  lemma MontPowBase(rr: nat, x: nat, z: nat, a: int, m: nat, n: nat)
    requires m % 2 == 1 && rr == (BPow(n) * BPow(n)) % m && Cong(x, a, m)
    requires z < m && Cong(z * BPow(n), x * rr, m)
    ensures MontPow(z, a, 1, m, n)
  {
    var r := BPow(n);
    CongOfMod(r * r, m);
    CongMulBoth(x, a, rr, r * r, m);
    assert a * (r * r) == (a * r) * r;
    CongTrans(z * r, x * rr, (a * r) * r, m);
    CancelR(z, a * r, m, n);
    assert Pow(a, 1) == a * Pow(a, 0) == a;
  }

  // ----- the exponent, bit by bit -----

  /** The exponent's bits from position k of limb j up. */
  function Prefix(p: seq<Limb>, j: nat, k: nat): nat {
    DivBounds(Val(p), Pow2(BitsIn(j) + k));
    Val(p) / Pow2(BitsIn(j) + k)
  }

  /** Reading the next bit down doubles the prefix and adds the bit. */
  lemma PrefixStep(p: seq<Limb>, j: nat, k: nat)
    requires j < |p| && k < BIL
    ensures Prefix(p, j, k) == 2 * Prefix(p, j, k + 1) + LimbBit(p[j], k)
  {
    var w := Pow2(BitsIn(j) + k);
    PrefixParity(p, j, k);
    DivDiv(Val(p), w, 2);
    MulComm(w, 2);
    assert Pow2(BitsIn(j) + k + 1) == 2 * w;
  }

  lemma PrefixParity(p: seq<Limb>, j: nat, k: nat)
    requires j < |p| && k < BIL
    ensures Prefix(p, j, k) % 2 == LimbBit(p[j], k)
  {
    var w, u, g := BPow(j), Pow2(k), Pow2(BIL - k - 1);
    BPowBits(j);
    Pow2Add(BitsIn(j), k);
    DivDiv(Val(p), w, u);
    ValSplit(p, j);
    ValBound(p[..j]);
    DivOf(Val(p), w, Val(p[j..]), Val(p[..j]));
    BaseBits();
    Pow2Add(k, BIL - k);
    assert Pow2(BIL - k) == 2 * g;
    LimbParity(Val(p[j..]), p[j], u, g, Val(p[j..][1..]), Base());
  }

  lemma LimbParity(y: nat, x: nat, u: nat, g: nat, h: nat, base: nat)
    requires u > 0 && base == u * (2 * g) && y == x + base * h
    ensures (y / u) % 2 == (x / u) % 2
  {
    assert base * h == u * (2 * (g * h));
    ModShiftDiv(x, u, 2 * (g * h));
  }

  lemma ModShiftDiv(x: nat, u: nat, k: nat)
    requires u > 0
    ensures (x + u * k) / u == x / u + k
  {
    DivBounds(x, u);
    Distribute(u, x / u, k);
    DivOf(x + u * k, u, x / u + k, x % u);
  }

  lemma PrefixEnds(p: seq<Limb>)
    ensures Prefix(p, |p|, 0) == 0 && Prefix(p, 0, 0) == Val(p)
  {
    ValBound(p);
    BPowBits(|p|);
    DivModUnique(Val(p), BPow(|p|), 0, Val(p));
    DivModUnique(Val(p), 1, Val(p), 0);
  }

  lemma PrefixNextLimb(p: seq<Limb>, j: nat)
    ensures Prefix(p, j, BIL) == Prefix(p, j + 1, 0)
  {
    BitsInSucc(j);
  }

  // ----- the sliding window -----

  /** The window holds the last nbits bits of the prefix f, which start with a
      one; wbits has them at the top of a field of wsize bits, and done is the
      prefix before them. */
  ghost predicate Window(f: nat, done: nat, w: nat, state: nat, nbits: nat, wbits: nat, wsize: nat) {
    && state <= 2 && nbits < wsize && (state == 2 <==> nbits > 0)
    && f == done * Pow2(nbits) + w && w < Pow2(nbits) && (nbits > 0 ==> w >= Pow2(nbits - 1))
    && wbits == w * Pow2(wsize - nbits)
    && (state == 0 ==> f == 0)
  }

  /** Taking a bit into the window, which is then still open or just full. */
  lemma WindowGrow(f: nat, done: nat, w: nat, nbits: nat, wbits: nat, wsize: nat, ei: nat, state: nat, wbits': nat)
    requires Window(f, done, w, state, nbits, wbits, wsize) && ei <= 1 && (state < 2 ==> ei == 1)
    requires wbits' == wbits + ei * Pow2(wsize - (nbits + 1))
    ensures nbits + 1 < wsize ==> Window(2 * f + ei, done, 2 * w + ei, 2, nbits + 1, wbits', wsize)
    ensures nbits + 1 == wsize ==>
      2 * f + ei == done * Pow2(wsize) + wbits' && Pow2(wsize - 1) <= wbits' < Pow2(wsize)
      && Window(2 * f + ei, 2 * f + ei, 0, 1, 0, 0, wsize)
  {
    assert Pow2(nbits + 1) == 2 * Pow2(nbits);
    assert Pow2(wsize - nbits) == 2 * Pow2(wsize - nbits - 1);
    GrowArith(f, done, w, Pow2(nbits), ei, wbits, Pow2(wsize - nbits - 1));
    if nbits + 1 == wsize {
      TimesOne(2 * w + ei);
      WindowIdle(2 * f + ei, 1, wsize);
    }
  }

  lemma GrowArith(f: int, done: int, w: int, p: int, ei: int, wbits: int, g: int)
    requires f == done * p + w && wbits == w * (2 * g)
    ensures 2 * f + ei == done * (2 * p) + (2 * w + ei)
    ensures wbits + ei * g == (2 * w + ei) * g
  {}

  /** Outside a window, with done the whole prefix. */
  lemma WindowIdle(f: nat, state: nat, wsize: nat)
    requires wsize > 0 && state <= 1 && (state == 0 ==> f == 0)
    ensures Window(f, f, 0, state, 0, 0, wsize)
  {
    assert Pow2(0) == 1;
  }

  // ----- steps on the running power -----

  /** X, N and T are laid out as the multiplication wants them. */
  ghost predicate Fits(X: Num, N: Num, mm: Limb, T: Num)
    reads X, N, T
  {
    && X != T && X != N && T != N && MontReady(N.p, mm)
    && |X.p| > |N.p| && |T.p| >= 2 * |N.p| + 2
  }

  ghost predicate Holds(X: Num, N: Num, a: int, e: nat)
    reads X, N
  {
    MontPow(Val(X.p), a, e, Val(N.p), |N.p|)
  }

  /** X = X * Y R^-1 mod N, where Y may be X. */
  method Times(X: Num, Y: Num, N: Num, mm: Limb, T: Num, ghost a: int, ghost i: nat, ghost j: nat)
    requires Fits(X, N, mm, T) && Y != T && Y.p != [] && Holds(X, N, a, i) && Holds(Y, N, a, j)
    modifies X, T
    ensures Fits(X, N, mm, T) && Holds(X, N, a, i + j) && X.s == old(X.s)
    ensures |X.p| == old(|X.p|) && |T.p| == old(|T.p|)
  {
    ghost var x, y := Val(X.p), Val(Y.p);
    var r := MontMul(X, Y, N, mm, T);
    MontPowMul(x, y, Val(X.p), a, i, j, Val(N.p), |N.p|);
  }

  method Squares(X: Num, N: Num, mm: Limb, T: Num, k: nat, ghost a: int, ghost e: nat)
    requires Fits(X, N, mm, T) && Holds(X, N, a, e)
    modifies X, T
    ensures Fits(X, N, mm, T) && Holds(X, N, a, e * Pow2(k)) && X.s == old(X.s)
    ensures |X.p| == old(|X.p|) && |T.p| == old(|T.p|)
  {
    var i := 0;
    ghost var f := e;
    while i < k
      invariant i <= k && f == e * Pow2(i) && X.s == old(X.s)
      invariant |X.p| == old(|X.p|) && |T.p| == old(|T.p|)
      invariant Fits(X, N, mm, T) && Holds(X, N, a, f)
    {
      Times(X, X, N, mm, T, a, f, f);
      DoublePower(e, i);
      f := f + f;
      i := i + 1;
    }
  }

  lemma DoublePower(e: nat, i: nat)
    ensures e * Pow2(i) + e * Pow2(i) == e * Pow2(i + 1)
  {
    MulAssoc(e, 2, Pow2(i));
  }

  // ----- the table of powers -----

  /** V is a usable table entry holding power e. */
  ghost predicate Entry(V: Num, N: Num, T: Num, a: int, e: nat)
    reads V, N
  {
    V != T && V != N && |V.p| > |N.p| && Holds(V, N, a, e)
  }

  /** Entry 1 and the entries from lo up to hi hold those powers of a. */
  ghost predicate Table(W: map<nat, Num>, N: Num, T: Num, lo: nat, hi: nat, a: int)
    reads N, W.Values
  {
    forall k :: k == 1 || lo <= k < hi ==> k in W && Entry(W[k], N, T, a, k)
  }

  /** Fills W[2^(wsize-1) .. 2^wsize) from W[1]. */
  method BuildTable(W1: Num, N: Num, mm: Limb, T: Num, wsize: nat, ghost a: int) returns (W: map<nat, Num>)
    requires wsize > 0 && Fits(W1, N, mm, T) && Entry(W1, N, T, a, 1)
    modifies T
    ensures forall k :: k in W ==> W[k] == W1 || fresh(W[k])
    ensures Table(W, N, T, Pow2(wsize - 1), Pow2(wsize), a) && |T.p| == old(|T.p|)
  {
    W := map[1 := W1];
    if wsize > 1 {
      var j := Pow2(wsize - 1);
      Pow2Mono(1, wsize - 1);
      var Wj := CopyEntry(W1, N, mm, T, a, 1);
      Squares(Wj, N, mm, T, wsize - 1, a, 1);
      W := W[j := Wj];
      W := FillTable(W, W1, N, mm, T, j, Pow2(wsize), a);
    }
  }

  method FillTable(W0: map<nat, Num>, W1: Num, N: Num, mm: Limb, T: Num, j: nat, hi: nat, ghost a: int)
    returns (W: map<nat, Num>)
    requires 1 < j < hi && 1 in W0 && W0[1] == W1 && Table(W0, N, T, j, j + 1, a)
    requires Fits(W1, N, mm, T)
    modifies T
    ensures forall k :: k in W ==> (k in W0 && W[k] == W0[k]) || fresh(W[k])
    ensures Table(W, N, T, j, hi, a) && |T.p| == old(|T.p|)
  {
    W := W0;
    var i := j + 1;
    while i < hi
      invariant j < i <= hi && |T.p| == old(|T.p|)
      invariant forall k :: k in W ==> (k in W0 && W[k] == W0[k]) || fresh(W[k])
      invariant 1 in W && W[1] == W1 && Table(W, N, T, j, i, a)
      invariant Fits(W1, N, mm, T)
    {
      var Wi := NextEntry(W[i - 1], W1, N, mm, T, a, i - 1);
      W := W[i := Wi];
      i := i + 1;
    }
  }

  /** W[i] = W[i - 1] * W[1]. */
  method NextEntry(V: Num, W1: Num, N: Num, mm: Limb, T: Num, ghost a: int, ghost e: nat) returns (W: Num)
    requires Fits(W1, N, mm, T) && Entry(V, N, T, a, e) && Entry(W1, N, T, a, 1)
    modifies T
    ensures fresh(W) && Entry(W, N, T, a, e + 1) && |T.p| == old(|T.p|)
  {
    W := CopyEntry(V, N, mm, T, a, e);
    Times(W, W1, N, mm, T, a, e, 1);
  }

  /** A grown copy of a table entry. */
  method CopyEntry(V: Num, N: Num, mm: Limb, T: Num, ghost a: int, ghost e: nat) returns (W: Num)
    requires Entry(V, N, T, a, e) && MontReady(N.p, mm) && T != N && |T.p| >= 2 * |N.p| + 2
    ensures fresh(W) && Fits(W, N, mm, T) && Entry(W, N, T, a, e)
  {
    W := new Num();
    Grow(W, |N.p| + 1);
    Copy(W, V);
  }

  // ----- the scan -----

  ghost predicate Apart(X: Num, T: Num, E: Num, W: map<nat, Num>) {
    X != E && T != E && forall k :: k in W ==> W[k] != X && W[k] != T
  }

  /** Handles one exponent bit; done and w are the prefix before the window and
      the window's contents. */
  method TakeBit(X: Num, N: Num, mm: Limb, T: Num, W: map<nat, Num>, wsize: nat, ei: nat,
                 state0: nat, nbits0: nat, wbits0: nat, ghost a: int, ghost f: nat, ghost done0: nat, ghost w0: nat)
    returns (state: nat, nbits: nat, wbits: nat, ghost done: nat, ghost w: nat)
    requires wsize > 0 && Fits(X, N, mm, T) && Table(W, N, T, Pow2(wsize - 1), Pow2(wsize), a)
    requires forall k :: k in W ==> W[k] != X
    requires ei <= 1 && Window(f, done0, w0, state0, nbits0, wbits0, wsize) && Holds(X, N, a, done0)
    modifies X, T
    ensures Fits(X, N, mm, T) && X.s == old(X.s)
    ensures Window(2 * f + ei, done, w, state, nbits, wbits, wsize) && Holds(X, N, a, done)
    ensures Table(W, N, T, Pow2(wsize - 1), Pow2(wsize), a)
  {
    state, nbits, wbits, done, w := state0, nbits0, wbits0, done0, w0;
    if ei == 0 && state == 0 {
      EmptyWindow(f, done0, w0, state0, nbits0, wbits0, wsize);
      return;
    }
    if ei == 0 && state == 1 {
      EmptyWindow(f, done0, w0, state0, nbits0, wbits0, wsize);
      Times(X, X, N, mm, T, a, f, f);
      done := f + f;
      return;
    }
    state, nbits, wbits, done, w :=
      GrowWindow(X, N, mm, T, W, wsize, ei, state, nbits, wbits, a, f, done, w);
  }

  /** Adds a bit to the window and uses the window up once it is full. */
  method GrowWindow(X: Num, N: Num, mm: Limb, T: Num, W: map<nat, Num>, wsize: nat, ei: nat,
                    state0: nat, nbits0: nat, wbits0: nat, ghost a: int, ghost f: nat, ghost done0: nat, ghost w0: nat)
    returns (state: nat, nbits: nat, wbits: nat, ghost done: nat, ghost w: nat)
    requires wsize > 0 && Fits(X, N, mm, T) && Table(W, N, T, Pow2(wsize - 1), Pow2(wsize), a)
    requires forall k :: k in W ==> W[k] != X
    requires ei <= 1 && (state0 < 2 ==> ei == 1)
    requires Window(f, done0, w0, state0, nbits0, wbits0, wsize) && Holds(X, N, a, done0)
    modifies X, T
    ensures Fits(X, N, mm, T) && X.s == old(X.s)
    ensures Window(2 * f + ei, done, w, state, nbits, wbits, wsize) && Holds(X, N, a, done)
    ensures Table(W, N, T, Pow2(wsize - 1), Pow2(wsize), a)
  {
    hide Fits;
    state, nbits := 2, nbits0 + 1;
    wbits := wbits0 + ei * Pow2(wsize - nbits);
    done, w := done0, 2 * w0 + ei;
    WindowGrow(f, done0, w0, nbits0, wbits0, wsize, ei, state0, wbits);
    if nbits == wsize {
      CloseWindow(X, N, mm, T, W, wsize, wbits, a, done0);
      state, nbits, wbits := 1, 0, 0;
      done, w := 2 * f + ei, 0;
    }
  }

  /** X = X^(2^wsize) * W[wbits]. */
  method CloseWindow(X: Num, N: Num, mm: Limb, T: Num, W: map<nat, Num>, wsize: nat, wbits: nat,
                     ghost a: int, ghost done: nat)
    requires wsize > 0 && Fits(X, N, mm, T) && Table(W, N, T, Pow2(wsize - 1), Pow2(wsize), a)
    requires forall k :: k in W ==> W[k] != X
    requires Pow2(wsize - 1) <= wbits < Pow2(wsize) && Holds(X, N, a, done)
    modifies X, T
    ensures Fits(X, N, mm, T) && X.s == old(X.s)
    ensures Holds(X, N, a, done * Pow2(wsize) + wbits)
    ensures Table(W, N, T, Pow2(wsize - 1), Pow2(wsize), a)
  {
    hide Fits, Holds;
    Squares(X, N, mm, T, wsize, a, done);
    Times(X, W[wbits], N, mm, T, a, done * Pow2(wsize), wbits);
  }

  lemma EmptyWindow(f: nat, done: nat, w: nat, state: nat, nbits: nat, wbits: nat, wsize: nat)
    requires Window(f, done, w, state, nbits, wbits, wsize) && state < 2
    ensures nbits == 0 && w == 0 && wbits == 0 && done == f
    ensures Window(2 * f, 2 * f, 0, state, 0, 0, wsize)
  {
    assert Pow2(0) == 1;
    TimesOne(done);
    TimesOne(2 * f);
  }

  /** The main loop, over all bits of the exponent from the top down. */
  method Scan(X: Num, E: Num, N: Num, mm: Limb, T: Num, W: map<nat, Num>, wsize: nat, ghost a: int)
    returns (nbits: nat, wbits: nat, ghost done: nat, ghost w: nat)
    requires wsize > 0 && Fits(X, N, mm, T) && Table(W, N, T, Pow2(wsize - 1), Pow2(wsize), a)
    requires Apart(X, T, E, W) && Holds(X, N, a, 0)
    modifies X, T
    ensures Fits(X, N, mm, T) && X.s == old(X.s)
    ensures Table(W, N, T, Pow2(wsize - 1), Pow2(wsize), a)
    ensures nbits < wsize && Holds(X, N, a, done) && w < Pow2(nbits)
    ensures Val(E.p) == done * Pow2(nbits) + w && wbits == w * Pow2(wsize - nbits)
  {
    hide Fits, Pow2;
    var nblimbs: nat, bufsize: nat, state: nat := |E.p|, 0, 0;
    nbits, wbits, done, w := 0, 0, 0, 0;
    PrefixEnds(E.p);
    WindowIdle(0, 0, wsize);
    while true
      invariant nblimbs <= |E.p| && bufsize <= BIL && E.p == old(E.p)
      invariant Fits(X, N, mm, T) && X.s == old(X.s)
      invariant Table(W, N, T, Pow2(wsize - 1), Pow2(wsize), a)
      invariant bufsize > 0 ==> nblimbs < |E.p|
      invariant Window(Prefix(E.p, nblimbs, bufsize), done, w, state, nbits, wbits, wsize)
      invariant Holds(X, N, a, done)
      decreases nblimbs, bufsize
    {
      if bufsize == 0 {
        if nblimbs == 0 { break; }
        nblimbs := nblimbs - 1;
        bufsize := BIL;
        PrefixNextLimb(E.p, nblimbs);
      }
      bufsize := bufsize - 1;
      PrefixStep(E.p, nblimbs, bufsize);
      var ei := LimbBit(E.p[nblimbs], bufsize);
      state, nbits, wbits, done, w := TakeBit(X, N, mm, T, W, wsize, ei, state, nbits, wbits,
                                              a, Prefix(E.p, nblimbs, bufsize + 1), done, w);
    }
  }

  /** The bits left in an unfinished window. */
  method Leftover(X: Num, N: Num, mm: Limb, T: Num, W: map<nat, Num>, wsize: nat, nbits: nat, wbits0: nat,
                  ghost a: int, ghost done: nat, ghost w: nat)
    requires wsize > 0 && Fits(X, N, mm, T) && Table(W, N, T, Pow2(wsize - 1), Pow2(wsize), a)
    requires forall k :: k in W ==> W[k] != X
    requires nbits < wsize && Holds(X, N, a, done) && w < Pow2(nbits) && wbits0 == w * Pow2(wsize - nbits)
    modifies X, T
    ensures Fits(X, N, mm, T) && X.s == old(X.s) && Holds(X, N, a, done * Pow2(nbits) + w)
  {
    hide Consumed, Pow2;
    var i: nat, wbits := 0, wbits0;
    LeftoverEnds(done, w, nbits);
    while i < nbits
      invariant i <= nbits && Fits(X, N, mm, T) && X.s == old(X.s)
      invariant Table(W, N, T, Pow2(wsize - 1), Pow2(wsize), a)
      invariant wbits == w * Pow2(wsize - nbits + i)
      invariant Holds(X, N, a, Consumed(done, w, nbits, i))
    {
      LeftoverStep(done, w, wsize, nbits, i, wbits);
      wbits := wbits * 2;
      LeftoverBit(X, W[1], N, mm, T, LimbBit(wbits, wsize), a, Consumed(done, w, nbits, i));
      i := i + 1;
    }
  }

  /** The exponent reached after i of the window's n bits. */
  function Consumed(done: nat, w: nat, n: nat, i: nat): nat
    requires i <= n
  {
    DivBounds(w, Pow2(n - i));
    MulNonNeg(done, Pow2(i));
    done * Pow2(i) + w / Pow2(n - i)
  }

  /** X = X^2, times W[1] if the bit is set. */
  method LeftoverBit(X: Num, W1: Num, N: Num, mm: Limb, T: Num, bit: nat, ghost a: int, ghost e: nat)
    requires Fits(X, N, mm, T) && Entry(W1, N, T, a, 1) && W1 != X && bit <= 1 && Holds(X, N, a, e)
    modifies X, T
    ensures Fits(X, N, mm, T) && X.s == old(X.s) && Holds(X, N, a, 2 * e + bit)
  {
    Times(X, X, N, mm, T, a, e, e);
    if bit != 0 {
      Times(X, W1, N, mm, T, a, e + e, 1);
    }
  }

  lemma LeftoverEnds(done: nat, w: nat, n: nat)
    requires w < Pow2(n)
    ensures Consumed(done, w, n, 0) == done
    ensures Consumed(done, w, n, n) == done * Pow2(n) + w
  {
    DivModUnique(w, Pow2(n), 0, w);
    DivModUnique(w, 1, w, 0);
    TimesOne(done);
  }

  /** Bit wsize of the shifted window is the window's next bit. */
  lemma LeftoverStep(done: nat, w: nat, wsize: nat, n: nat, i: nat, wbits: nat)
    requires i < n < wsize && wbits == w * Pow2(wsize - n + i)
    ensures wbits * 2 == w * Pow2(wsize - n + i + 1)
    ensures Consumed(done, w, n, i + 1) == 2 * Consumed(done, w, n, i) + LimbBit(wbits * 2, wsize)
  {
    var k, g := wsize - n + i + 1, n - i - 1;
    assert Pow2(k) == 2 * Pow2(k - 1);
    Pow2Add(k, g);
    assert Pow2(n - i) == 2 * Pow2(g);
    assert Pow2(i + 1) == 2 * Pow2(i);
    LeftoverArith(done, w, Pow2(i), Pow2(k - 1), Pow2(k), Pow2(g), Pow2(wsize), wbits * 2);
  }

  lemma LeftoverArith(done: nat, w: nat, p: nat, h: nat, k: nat, g: nat, s: nat, y: nat)
    requires p > 0 && h > 0 && g > 0 && k == 2 * h && s == k * g && y == w * h * 2
    ensures y == w * k && s > 0
    ensures done * (2 * p) + w / g == 2 * (done * p + w / (2 * g)) + (y / s) % 2
  {
    DivDiv(w, g, 2);
    MulComm(g, 2);
    MulGt(0, k, g);
    DivBounds(w, g);
    CancelScale(w, k, g, s);
  }

  /** (w * k) / (k * g) = w / g. */
  lemma CancelScale(w: nat, k: nat, g: nat, s: nat)
    requires k > 0 && g > 0 && s == k * g
    ensures (w * k) / s == w / g
  {
    var q, r := w / g, w % g;
    DivBounds(w, g);
    Distribute(k, g * q, r);
    assert (g * q) * k == s * q;
    MulNonNeg(r, k);
    MulGt(r, g, k);
    MulComm(g, k);
    DivOf(w * k, s, q, r * k);
  }

  // ----- the whole exponentiation -----

  /** The window size chosen for an exponent of i bits. */
  function WindowSize(i: nat): (w: WindowBits)
    ensures w <= WINDOW_SIZE
  {
    var w: WindowBits := if i > 671 then 6 else if i > 239 then 5 else if i > 79 then 4 else if i > 23 then 3 else 1;
    if w > WINDOW_SIZE then WINDOW_SIZE else w
  }

  /** R^2 mod N, from the cache or computed and then cached. */
  method SquareOfR(RR0: Num?, N: Num) returns (RR: Num)
    requires RR0 != N && N.p != [] && N.s == 1 && Val(N.p) > 0
    requires RR0 != null && RR0.p != [] ==> RR0.s == 1 && Val(RR0.p) == (BPow(|N.p|) * BPow(|N.p|)) % Val(N.p)
    modifies RR0
    ensures fresh(RR) && RR.p != [] && RR.s == 1 && Val(RR.p) == (BPow(|N.p|) * BPow(|N.p|)) % Val(N.p)
    ensures RR0 != null ==> RR0.p == RR.p && RR0.s == RR.s
  {
    RR := new Num();
    if RR0 == null || RR0.p == [] {
      ComputeSquareOfR(RR, N);
      if RR0 != null { RR0.s, RR0.p := RR.s, RR.p; }
    } else {
      RR.s, RR.p := RR0.s, RR0.p;
    }
  }

  method ComputeSquareOfR(RR: Num, N: Num)
    requires RR != N && N.s == 1 && Val(N.p) > 0
    modifies RR
    ensures RR.p != [] && RR.s == 1 && Val(RR.p) == (BPow(|N.p|) * BPow(|N.p|)) % Val(N.p)
  {
    Lset(RR, 1);
    ShiftL(RR, BitsIn(|N.p|) * 2);
    RSquared(|N.p|);
    assert RR.V() == BPow(|N.p|) * BPow(|N.p|);
    var r := Mod(RR, RR, N);
  }

  lemma RSquared(n: nat)
    ensures 1 * Pow2(BitsIn(n) * 2) == BPow(n) * BPow(n)
  {
    BPowBits(n);
    Pow2Add(BitsIn(n), BitsIn(n));
  }

  /** W1 = A * R mod N. */
  method ToMontgomery(W1: Num, A: Num, RR: Num, N: Num, mm: Limb, T: Num)
    requires Fits(W1, N, mm, T) && W1 != A && W1 != RR && RR != T && A != T
    requires A.p != [] && A.s == 1 && N.s == 1 && RR.p != []
    requires Val(RR.p) == (BPow(|N.p|) * BPow(|N.p|)) % Val(N.p)
    modifies W1, T
    ensures Fits(W1, N, mm, T) && Entry(W1, N, T, Val(A.p), 1)
  {
    ghost var m := Val(N.p);
    DivBounds(BPow(|N.p|) * BPow(|N.p|), m);
    var c := Cmp(A, N);
    if c >= 0 {
      var r := Mod(W1, A, N);
      CongOfMod(Val(A.p), m);
    } else {
      Copy(W1, A);
      CongSelf(Val(A.p), m);
    }
    ghost var x := Val(W1.p);
    var r := MontMul(W1, RR, N, mm, T);
    MontPowBase(Val(RR.p), x, Val(W1.p), Val(A.p), m, |N.p|);
  }

  /** X = A^E mod N for A >= 0. */
  method ExpPositive(X: Num, A: Num, E: Num, N: Num, RR: Num, mm: Limb, T: Num)
    requires Fits(X, N, mm, T) && X != E && X != RR && T != E && T != RR && T != A && RR != N
    requires A.p != [] && A.s == 1 && N.s == 1 && RR.p != [] && RR.s == 1
    requires Val(RR.p) == (BPow(|N.p|) * BPow(|N.p|)) % Val(N.p)
    modifies X, T
    ensures X.s == 1 && X.Abs() == Pow(old(Val(A.p)), Val(E.p)) % Val(N.p)
    ensures |X.p| > |N.p|
  {
    hide Val, Pow, BPow, Base;
    ghost var a, m, n := Val(A.p), Val(N.p), |N.p|;
    var len := BitLen(E);
    var wsize := WindowSize(len);
    var W1 := new Num();
    Grow(W1, |N.p| + 1);
    ToMontgomery(W1, A, RR, N, mm, T);
    StartPower(X, RR, N, mm, T, a);
    var W := BuildTable(W1, N, mm, T, wsize, a);
    var nbits, wbits, done, w := Scan(X, E, N, mm, T, W, wsize, a);
    Leftover(X, N, mm, T, W, wsize, nbits, wbits, a, done, w);
    ghost var x := Val(X.p);
    var r := MontRed(X, N, mm, T);
    MontPowRed(x, Val(X.p), a, Val(E.p), m, n);
  }

  /** X = R mod N, the power zero. */
  method StartPower(X: Num, RR: Num, N: Num, mm: Limb, T: Num, ghost a: int)
    requires Fits(X, N, mm, T) && X != RR && RR != T && RR.p != [] && RR.s == 1
    requires Val(RR.p) == (BPow(|N.p|) * BPow(|N.p|)) % Val(N.p)
    modifies X, T
    ensures Fits(X, N, mm, T) && X.s == 1 && Holds(X, N, a, 0)
  {
    DivBounds(BPow(|N.p|) * BPow(|N.p|), Val(N.p));
    Copy(X, RR);
    var r := MontRed(X, N, mm, T);
    MontPowOne(Val(RR.p), Val(X.p), a, Val(N.p), |N.p|);
  }

  lemma {:induction false} PowOfNegative(a: int, e: nat)
    ensures Pow(-a, e) == if e % 2 == 0 then Pow(a, e) else -Pow(a, e)
  {
    if e > 0 {
      PowOfNegative(a, e - 1);
      assert (-a) * -Pow(a, e - 1) == a * Pow(a, e - 1);
      assert (-a) * Pow(a, e - 1) == -(a * Pow(a, e - 1));
    }
  }

  /** What the correction for a negative base leaves: congruent, but the modulus
      itself where the power is divisible by it. */
  lemma NegativeBase(p: int, m: nat, x: int)
    requires m > 0 && x == m - p % m
    ensures Cong(x, -p, m) && 0 < x <= m
    ensures x == m <==> (-p) % m == 0
    ensures x == (-p) % m <==> (-p) % m != 0
  {
    CongBy(x, -p, m, 1 + p / m);
    if p % m == 0 {
      DivModUnique(-p, m, -(p / m), 0);
    } else {
      CongMod(x, -p, m);
    }
  }

  /** X = A^E mod N for odd N > 0 and E >= 0. With a negative A and an odd E the
      last step is N minus a remainder, which is not reduced when that is zero. */
  method ExpMod(X: Num, A0: Num, E: Num, N: Num, RR0: Num?) returns (ret: Status)
    requires X != E && X != N && (RR0 != null ==> RR0 != X && RR0 != A0 && RR0 != E && RR0 != N)
    requires A0.p != [] && N.p != []
    requires RR0 != null && RR0.p != [] && Val(N.p) > 0 ==>
      RR0.s == 1 && Val(RR0.p) == (BPow(|N.p|) * BPow(|N.p|)) % Val(N.p)
    modifies X, RR0
    ensures ret == if N.V() < 0 || N.p[0] % 2 == 0 || E.V() < 0 then BadInput else Ok
    ensures ret == Ok ==> E.V() >= 0 && N.V() > 0 && 0 <= X.V() <= N.V()
    ensures ret == Ok ==> Cong(X.V(), Pow(old(A0.V()), E.V()), N.V())
    ensures ret == Ok ==>
      (X.V() == Pow(old(A0.V()), E.V()) % N.V()
       <==> !(old(A0.s) == -1 && E.V() % 2 == 1 && Pow(old(A0.V()), E.V()) % N.V() == 0))
    ensures ret == Ok && N.V() > 1 && Gcd(old(A0.Abs()), N.V()) == 1 ==> X.V() == Pow(old(A0.V()), E.V()) % N.V()
    ensures ret == Ok && RR0 != null ==> RR0.V() == (BPow(|N.p|) * BPow(|N.p|)) % N.V()
    ensures ret != Ok ==> X.p == old(X.p) && X.s == old(X.s) && (RR0 != null ==> RR0.p == old(RR0.p))
  {
    var c := CmpInt(N, 0);
    if c < 0 || N.p[0] % 2 == 0 { return BadInput; }
    c := CmpInt(E, 0);
    if c < 0 { return BadInput; }
    ghost var a, m := A0.V(), A0.Abs();
    ExpValid(X, A0, E, N, RR0);
    if N.V() > 1 && Gcd(m, N.V()) == 1 { CoprimePower(a, E.V(), N.V()); }
    ret := Ok;
  }

  method ExpValid(X: Num, A0: Num, E: Num, N: Num, RR0: Num?)
    requires X != E && X != N && (RR0 != null ==> RR0 != X && RR0 != A0 && RR0 != E && RR0 != N)
    requires A0.p != [] && N.p != [] && N.V() >= 0 && N.p[0] % 2 != 0 && E.V() >= 0
    requires RR0 != null && RR0.p != [] && Val(N.p) > 0 ==>
      RR0.s == 1 && Val(RR0.p) == (BPow(|N.p|) * BPow(|N.p|)) % Val(N.p)
    modifies X, RR0
    ensures E.V() >= 0 && N.V() > 0 && 0 <= X.V() <= N.V()
    ensures Cong(X.V(), Pow(old(A0.V()), E.V()), N.V())
    ensures X.V() == Pow(old(A0.V()), E.V()) % N.V()
       <==> !(old(A0.s) == -1 && E.V() % 2 == 1 && Pow(old(A0.V()), E.V()) % N.V() == 0)
    ensures RR0 != null ==> RR0.V() == (BPow(|N.p|) * BPow(|N.p|)) % N.V()
  {
    ValParity(N.p);
    ghost var a := A0.V();
    var neg := A0.s == -1;
    var A := A0;
    if neg {
      A := new Num();
      Copy(A, A0);
      A.s := 1;
    }
    ExpAbs(X, A, E, N, RR0, if neg then -a else a);
    FixSign(X, E, N, neg, a);
  }

  /** A power of a number coprime to the modulus is never divisible by it. */
  lemma CoprimePower(a: int, e: nat, n: nat)
    requires n > 1 && Gcd(if a < 0 then -a else a, n) == 1
    ensures Pow(a, e) % n != 0
  {
    hide Gcd;
    var u, v := Bezout(if a < 0 then -a else a, n);
    var w := if a < 0 then -u else u;
    assert w * a == u * (if a < 0 then -a else a);
    CongBy(w * a, 1, n, -v);
    PowInverse(w, a, e, n);
    if Pow(a, e) % n == 0 {
      CongBy(Pow(a, e), 0, n, Pow(a, e) / n);
      CongMulBoth(Pow(w, e), Pow(w, e), Pow(a, e), 0, n) by { CongSelf(Pow(w, e), n); }
      CongSym(Pow(w, e) * Pow(a, e), 1, n);
      CongTrans(1, Pow(w, e) * Pow(a, e), 0, n);
    }
  }

  lemma {:induction false} PowInverse(w: int, a: int, e: nat, n: nat)
    requires n > 0 && Cong(w * a, 1, n)
    ensures Cong(Pow(w, e) * Pow(a, e), 1, n)
  {
    if e == 0 {
      CongSelf(1, n);
    } else {
      PowInverse(w, a, e - 1, n);
      var x, y := Pow(w, e - 1), Pow(a, e - 1);
      CongMulBoth(w * a, 1, x * y, 1, n);
      PowInverseStep(w, a, x, y);
    }
  }

  lemma PowInverseStep(w: int, a: int, x: int, y: int)
    ensures (w * x) * (a * y) == (w * a) * (x * y)
  {
    assert (w * x) * (a * y) == w * (x * (a * y)) == w * (a * (x * y));
  }

  /** For the base -3, the exponent 1 and the modulus 3 the modulus is left. */
  lemma NegativeBaseFails()
    ensures Pow(-3, 1) % 3 == 0 && 3 - Pow(3, 1) % 3 == 3
  {
    assert Pow(3, 0) == 1 && Pow(-3, 0) == 1;
  }

  /** The exponentiation of a base with its sign removed. */
  method ExpAbs(X: Num, A: Num, E: Num, N: Num, RR0: Num?, ghost a: int)
    requires X != E && X != N && (RR0 != null ==> RR0 != X && RR0 != A && RR0 != E && RR0 != N)
    requires A.p != [] && A.s == 1 && Val(A.p) == a && N.p != [] && N.s == 1 && N.p[0] % 2 == 1
    requires Val(N.p) > 0 && Val(N.p) % 2 == 1
    requires RR0 != null && RR0.p != [] ==>
      RR0.s == 1 && Val(RR0.p) == (BPow(|N.p|) * BPow(|N.p|)) % Val(N.p)
    modifies X, RR0
    ensures X.s == 1 && X.Abs() == Pow(a, Val(E.p)) % Val(N.p)
    ensures RR0 != null ==> RR0.s == 1 && Val(RR0.p) == (BPow(|N.p|) * BPow(|N.p|)) % Val(N.p)
  {
    var mm := MontgInit(N);
    var T := new Num();
    Grow(T, 2 * (|N.p| + 1));
    Grow(X, |N.p| + 1);
    var RR := SquareOfR(RR0, N);
    ExpPositive(X, A, E, N, RR, mm, T);
  }

  /** The correction at the end for a negative base. */
  method FixSign(X: Num, E: Num, N: Num, neg: bool, ghost a: int)
    requires X != N && X != E && X.s == 1 && Val(N.p) > 0 && N.V() > 0 && E.V() >= 0
    requires X.Abs() == Pow(if neg then -a else a, E.V()) % Val(N.p)
    modifies X
    ensures 0 <= X.V() <= N.V() && Cong(X.V(), Pow(a, E.V()), N.V())
    ensures X.V() == Pow(a, E.V()) % N.V() <==> !(neg && E.V() % 2 == 1 && Pow(a, E.V()) % N.V() == 0)
  {
    ghost var p, m := Pow(if neg then -a else a, E.V()), N.V();
    DivBoundsInt(p, m);
    if E.p != [] { ValParity(E.p); }
    PowOfNegative(a, E.V());
    if neg && |E.p| != 0 && E.p[0] % 2 != 0 {
      X.s := -1;
      Add(X, N, X);
      NegativeBase(p, m, X.V());
    } else {
      CongOfMod(p, m);
    }
  }
}
