/** Base64: base64.c. The text is a sequence of bytes, as in the program. */
module Base64 {
  import opened Bytes
  import opened Powers

  const SPACE: Byte := 32
  const RETURN: Byte := 13
  const NEWLINE: Byte := 10
  const PAD: Byte := 61

  // ----- the two tables -----

  function EncMap(v: nat): Byte
    requires v < 64
  {
    if v < 26 then 65 + v
    else if v < 52 then 97 + (v - 26)
    else if v < 62 then 48 + (v - 52)
    else if v == 62 then 43
    else 47
  }

  /** 64 for the padding sign, 127 for what is not in the alphabet. */
  function DecMap(c: Byte): nat
    requires c <= 127
  {
    if 65 <= c <= 90 then c - 65
    else if 97 <= c <= 122 then c - 97 + 26
    else if 48 <= c <= 57 then c - 48 + 52
    else if c == 43 then 62
    else if c == 47 then 63
    else if c == 61 then 64
    else 127
  }

  predicate Digit(c: Byte) {
    c <= 127 && DecMap(c) < 64
  }

  lemma MapsInverse(v: nat)
    requires v < 64
    ensures Digit(EncMap(v)) && DecMap(EncMap(v)) == v && EncMap(v) != PAD
    ensures !Blank(EncMap(v)) && !Blank(PAD)
  {}

  const CAPITALS := "ABCDEFGHIJKLMNOPQRSTUVWXYZ"
  const SMALLS := "abcdefghijklmnopqrstuvwxyz"
  const ALPHABET := CAPITALS + SMALLS + "0123456789+/"

  /** c is the character for the six bits v (table 1 of RFC 4648). */
  predicate StandsFor(c: Byte, v: nat) {
    v < 64 && ALPHABET[v] as int == c
  }

  /** The two tables are that alphabet. */
  lemma TablesMean(c: Byte, v: nat)
    requires v < 64
    ensures EncMap(v) == c <==> StandsFor(c, v)
    ensures Digit(c) && DecMap(c) == v <==> StandsFor(c, v)
  {
    EncMapMeans(v);
    hide CAPITALS, SMALLS, ALPHABET;
    MapsInverse(v);
  }

  lemma EncMapMeans(v: nat)
    requires v < 64
    ensures EncMap(v) == ALPHABET[v] as int
  {
    if v < 26 {
      Capital(v);
    } else if v < 52 {
      Letter(v - 26);
    } else {
      Sign(v - 52);
    }
    hide CAPITALS, SMALLS;
  }

  lemma Capital(v: nat)
    requires v < 26
    ensures |CAPITALS| == 26 && CAPITALS[v] as int == 65 + v
  {}

  lemma Letter(v: nat)
    requires v < 26
    ensures |SMALLS| == 26 && SMALLS[v] as int == 97 + v
  {}

  lemma Sign(v: nat)
    requires v < 12
    ensures "0123456789+/"[v] as int == if v < 10 then 48 + v else if v == 10 then 43 else 47
  {}

  lemma DigitMeans(c: Byte)
    ensures Digit(c) <==> exists v :: StandsFor(c, v)
  {
    hide EncMap, StandsFor;
    if Digit(c) {
      TablesMean(c, DecMap(c));
    }
    if v :| StandsFor(c, v) {
      Small(c, v);
      TablesMean(c, v);
    }
  }

  lemma Small(c: Byte, v: nat)
    requires StandsFor(c, v)
    ensures v < 64
  {}

  // ----- encoding -----

  function Four(c1: Byte, c2: Byte, c3: Byte): (s: seq<Byte>)
    ensures |s| == 4
  {
    [EncMap(c1 / 4), EncMap(c1 % 4 * 16 + c2 / 16), EncMap(c2 % 16 * 4 + c3 / 64), EncMap(c3 % 64)]
  }

  function Encode(s: seq<Byte>): (t: seq<Byte>)
    ensures |t| == (|s| + 2) / 3 * 4
  {
    if |s| == 0 then []
    else if |s| == 1 then Four(s[0], 0, 0)[..2] + [PAD, PAD]
    else if |s| == 2 then Four(s[0], s[1], 0)[..3] + [PAD]
    else Four(s[0], s[1], s[2]) + Encode(s[3..])
  }

  // ----- the first pass of decoding -----

  predicate Blank(c: Byte) {
    c == SPACE || c == RETURN || c == NEWLINE
  }

  function Skip(src: seq<Byte>, i: nat): (k: nat)
    requires i <= |src|
    ensures i <= k <= |src| && (forall m :: i <= m < k ==> src[m] == SPACE) && (k < |src| ==> src[k] != SPACE)
    decreases |src| - i
  {
    if i < |src| && src[i] == SPACE then Skip(src, i + 1) else i
  }

  predicate LineBreak(src: seq<Byte>, i: nat) {
    i < |src| && (src[i] == NEWLINE || (src[i] == RETURN && i + 1 < |src| && src[i + 1] == NEWLINE))
  }

  /** How many symbols there are, and how many of them are padding signs. */
  datatype Counts = Counts(n: nat, j: nat)

  function FirstPass(src: seq<Byte>, i: nat, c: Counts): Option<Counts>
    requires i <= |src|
    decreases |src| - i
  {
    var k := Skip(src, i);
    if k == |src| then Some(c)
    else if LineBreak(src, k) then FirstPass(src, k + 1, c)
    else if k != i then None
    else if src[k] == PAD && c.j + 1 > 2 then None
    else
      var j := if src[k] == PAD then c.j + 1 else c.j;
      if src[k] > 127 || DecMap(src[k]) == 127 then None
      else if DecMap(src[k]) < 64 && j != 0 then None
      else FirstPass(src, k + 1, Counts(c.n + 1, j))
  }

  // ----- which texts it accepts -----

  function Symbols(src: seq<Byte>): (t: seq<Byte>)
    ensures forall c :: c in t ==> !Blank(c)
  {
    if src == [] then [] else (if Blank(src[0]) then [] else [src[0]]) + Symbols(src[1..])
  }

  predicate SpaceAllowed(src: seq<Byte>, i: nat) {
    i + 1 >= |src| || src[i + 1] == SPACE || LineBreak(src, i + 1)
  }

  /** From i on, returns stand before newlines, and spaces before line breaks or
      the end. */
  predicate Layout(src: seq<Byte>, i: nat) {
    && (forall k :: i <= k < |src| && src[k] == RETURN ==> LineBreak(src, k))
    && (forall k :: i <= k < |src| && src[k] == SPACE ==> SpaceAllowed(src, k))
  }

  /** Digits, and at the end at most two padding signs. */
  predicate WellFormed(t: seq<Byte>, j: nat) {
    && j <= 2 && j <= |t| && (forall k :: 0 <= k < |t| - j ==> Digit(t[k]))
    && (forall k :: |t| - j <= k < |t| ==> t[k] == PAD)
  }

  /** The padding signs of a text without blanks, after j earlier ones. */
  function Pads(t: seq<Byte>, j: nat): Option<nat> {
    if t == [] then Some(j)
    else if t[0] == PAD then if j + 1 > 2 then None else Pads(t[1..], j + 1)
    else if !Digit(t[0]) || j != 0 then None
    else Pads(t[1..], j)
  }

  lemma SymbolsStep(src: seq<Byte>, i: nat)
    requires i < |src|
    ensures Symbols(src[i..]) == (if Blank(src[i]) then [] else [src[i]]) + Symbols(src[i + 1..])
  {
    assert src[i..][1..] == src[i + 1..] && src[i..][0] == src[i];
  }

  lemma {:induction false} SkipSymbols(src: seq<Byte>, i: nat)
    requires i <= |src|
    ensures Symbols(src[i..]) == Symbols(src[Skip(src, i)..])
    decreases |src| - i
  {
    if i < |src| && src[i] == SPACE {
      SymbolsStep(src, i);
      SkipSymbols(src, i + 1);
    }
  }

  lemma {:induction false} SkipLayout(src: seq<Byte>, i: nat)
    requires i <= |src|
    ensures var k := Skip(src, i); Layout(src, i) <==> (k == i || k == |src| || LineBreak(src, k)) && Layout(src, k)
    decreases |src| - i
  {
    if i < |src| && src[i] == SPACE {
      LayoutStep(src, i);
      SkipLayout(src, i + 1);
      assert Skip(src, i) == Skip(src, i + 1);
      assert i + 1 < |src| && src[i + 1] != SPACE ==> Skip(src, i + 1) == i + 1;
    }
  }

  lemma LayoutStep(src: seq<Byte>, i: nat)
    requires i < |src|
    ensures Layout(src, i) <==>
      && (src[i] == RETURN ==> LineBreak(src, i)) && (src[i] == SPACE ==> SpaceAllowed(src, i)) && Layout(src, i + 1)
  {}

  /** One symbol of the first pass. */
  function Taken(x: Byte, c: Counts): Option<Counts> {
    if x == PAD then if c.j + 1 > 2 then None else Some(Counts(c.n + 1, c.j + 1))
    else if !Digit(x) || c.j != 0 then None
    else Some(Counts(c.n + 1, c.j))
  }

  lemma FirstPassStep(src: seq<Byte>, i: nat, c: Counts)
    requires i <= |src|
    ensures FirstPass(src, i, c) == (
      var k := Skip(src, i);
      if k == |src| then Some(c)
      else if LineBreak(src, k) then FirstPass(src, k + 1, c)
      else if k != i || Taken(src[k], c).None? then None
      else FirstPass(src, k + 1, Taken(src[k], c).value))
  {}

  lemma PadsStep(t: seq<Byte>, c: Counts)
    ensures Pads(t, c.j) == (
      if t == [] then Some(c.j)
      else if Taken(t[0], c).None? then None
      else Pads(t[1..], Taken(t[0], c).value.j))
  {}

  lemma BlankTaken(x: Byte, c: Counts)
    ensures Blank(x) ==> Taken(x, c).None?
  {}

  lemma {:induction false} FirstPassMeans(src: seq<Byte>, i: nat, c: Counts)
    requires i <= |src|
    ensures FirstPass(src, i, c) == (
      var t := Symbols(src[i..]);
      if Layout(src, i) && Pads(t, c.j).Some? then Some(Counts(c.n + |t|, Pads(t, c.j).value)) else None)
    decreases |src| - i
  {
    hide Layout, FirstPass, Pads, Symbols, Taken, Skip;
    var k := Skip(src, i);
    SkipSymbols(src, i);
    SkipLayout(src, i);
    FirstPassStep(src, i, c);
    var t := Symbols(src[k..]);
    PadsStep(t, c);
    if k == |src| {
      assert src[k..] == [];
      NoSymbols();
      NoLayout(src);
    } else {
      SymbolsStep(src, k);
      LayoutStep(src, k);
      BlankTaken(src[k], c);
      if LineBreak(src, k) {
        assert [] + Symbols(src[k + 1..]) == Symbols(src[k + 1..]);
        FirstPassMeans(src, k + 1, c);
      } else if k == i && Taken(src[k], c).Some? {
        assert t[0] == src[k] && t[1..] == Symbols(src[k + 1..]);
        FirstPassMeans(src, k + 1, Taken(src[k], c).value);
        TakenCounts(src[k], c);
      } else if !Blank(src[k]) {
        assert t[0] == src[k];
      }
    }
  }

  lemma TakenCounts(x: Byte, c: Counts)
    ensures Taken(x, c).Some? ==> Taken(x, c).value.n == c.n + 1
  {}

  lemma NoSymbols()
    ensures Symbols([]) == []
  {}

  lemma NoLayout(src: seq<Byte>)
    ensures Layout(src, |src|)
  {}

  /** After a padding sign there is nothing else. */
  lemma {:induction false} PadsOnly(t: seq<Byte>, j: nat)
    requires 0 < j <= 2
    ensures Pads(t, j) == if (forall k :: 0 <= k < |t| ==> t[k] == PAD) && j + |t| <= 2 then Some(j + |t|) else None
  {
    if t != [] && t[0] == PAD && j < 2 {
      PadsOnly(t[1..], j + 1);
      assert forall k :: 0 < k < |t| ==> t[1..][k - 1] == t[k];
    }
  }

  lemma {:induction false} PadsMeans(t: seq<Byte>, p: nat)
    ensures Pads(t, 0) == Some(p) <==> WellFormed(t, p)
  {
    if t != [] {
      var r := t[1..];
      assert forall k :: 0 < k < |t| ==> t[k] == r[k - 1];
      if t[0] == PAD {
        PadsOnly(r, 1);
      } else {
        PadsMeans(r, p);
      }
    }
  }

  /** The first pass accepts exactly the texts that are well formed and laid out
      in lines, and counts their symbols. */
  lemma FirstPassAccepts(src: seq<Byte>, n: nat, j: nat)
    ensures FirstPass(src, 0, Counts(0, 0)) == Some(Counts(n, j))
      <==> Layout(src, 0) && n == |Symbols(src)| && WellFormed(Symbols(src), j)
  {
    hide Layout, Pads, WellFormed, FirstPass;
    FirstPassMeans(src, 0, Counts(0, 0));
    assert src[0..] == src;
    PadsMeans(Symbols(src), j);
  }

  // ----- the second pass -----

  const WIDTH := 0x1_0000_0000

  /** x takes in the next six bits; older ones fall off its 32. */
  function Shifted(x: nat, c: Byte): nat
    requires c <= 127
  {
    (x * 64 + DecMap(c) % 64) % WIDTH
  }

  /** The bytes of a group: as many as j says of the low three of x. */
  function Group(x: nat, j: int): (s: seq<Byte>)
    ensures |s| <= 3 && (0 <= j <= 3 ==> |s| == j)
  {
    (if j > 0 then [x / 65536 % 256] else [])
    + (if j > 1 then [x / 256 % 256] else [])
    + (if j > 2 then [x % 256] else [])
  }

  predicate Mapped(t: seq<Byte>) {
    forall k :: 0 <= k < |t| ==> t[k] <= 127
  }

  function Left(c: Byte, j: int): int
    requires c <= 127
  {
    if DecMap(c) == 64 then j - 1 else j
  }

  /** What the second pass writes for the symbols t, with n symbols of a group
      already in x. */
  function Emit(t: seq<Byte>, x: nat, n: nat, j: int): seq<Byte>
    requires Mapped(t)
  {
    if t == [] then []
    else
      var x', j' := Shifted(x, t[0]), Left(t[0], j);
      if n + 1 == 4 then Group(x', j') + Emit(t[1..], x', 0, j') else Emit(t[1..], x', n + 1, j')
  }

  function PadCount(t: seq<Byte>): nat {
    if t == [] then 0 else (if t[0] == PAD then 1 else 0) + PadCount(t[1..])
  }

  /** Whatever the symbols, u of those in the open group being padding signs, no
      more is written than six bits for each symbol, rounded up, less one byte
      for each padding sign. */
  lemma {:induction false} EmitLength(t: seq<Byte>, x: nat, n: nat, j: int, u: nat)
    requires Mapped(t) && n < 4 && u <= n && 0 <= 3 - j && u <= 3 - j && 3 - j + PadCount(t) <= 2
    ensures |Emit(t, x, n, j)| <= (6 * (n + |t|) + 7) / 8 - u - PadCount(t)
    decreases |t|
  {
    if t != [] {
      var c := t[0];
      var x', j' := Shifted(x, c), Left(c, j);
      if n + 1 == 4 {
        EmitLength(t[1..], x', 0, j', 0);
      } else {
        EmitLength(t[1..], x', n + 1, j', if c == PAD then u + 1 else u);
      }
    }
  }

  /** The length the first pass computes, without overflow in 6 n. */
  function Needed(c: Counts): int {
    6 * (c.n / 8) + (6 * (c.n % 8) + 7) / 8 - c.j
  }

  lemma {:induction false} PadCountMeans(t: seq<Byte>, j: nat)
    requires WellFormed(t, j)
    ensures PadCount(t) == j && Mapped(t)
  {
    if t != [] {
      var r := t[1..];
      assert forall k :: 0 < k < |t| ==> t[k] == r[k - 1];
      PadCountMeans(r, if j == |t| then j - 1 else j);
    }
  }

  /** The second pass never writes more than the first one computed, even with an
      incomplete group at the end. */
  lemma WritesAtMostNeeded(src: seq<Byte>, c: Counts)
    requires FirstPass(src, 0, Counts(0, 0)) == Some(c)
    ensures Mapped(Symbols(src)) && 0 <= |Emit(Symbols(src), 0, 0, 3)| <= Needed(c)
  {
    FirstPassAccepts(src, c.n, c.j);
    PadCountMeans(Symbols(src), c.j);
    EmitLength(Symbols(src), 0, 0, 3, 0);
    assert (6 * c.n + 7) / 8 == 6 * (c.n / 8) + (6 * (c.n % 8) + 7) / 8;
  }

  // ----- decoding what was encoded -----

  lemma EmitFour(a: Byte, b: Byte, c: Byte, d: Byte, t: seq<Byte>, x: nat, j: int)
    requires a <= 127 && b <= 127 && c <= 127 && d <= 127 && Mapped(t)
    ensures Mapped([a, b, c, d] + t)
    ensures var x' := Shifted(Shifted(Shifted(Shifted(x, a), b), c), d);
      var j' := Left(d, Left(c, Left(b, Left(a, j))));
      Emit([a, b, c, d] + t, x, 0, j) == Group(x', j') + Emit(t, x', 0, j')
  {
    hide Shifted, Left, Group;
    var s := [a, b, c, d] + t;
    assert s[1..] == [b, c, d] + t && s[1..][1..] == [c, d] + t;
    assert s[1..][1..][1..] == [d] + t && s[1..][1..][1..][1..] == t;
    EmitOne(s, x, 0, j);
    EmitOne([b, c, d] + t, Shifted(x, a), 1, Left(a, j));
    EmitOne([c, d] + t, Shifted(Shifted(x, a), b), 2, Left(b, Left(a, j)));
    EmitOne([d] + t, Shifted(Shifted(Shifted(x, a), b), c), 3, Left(c, Left(b, Left(a, j))));
  }

  lemma EmitOne(t: seq<Byte>, x: nat, n: nat, j: int)
    requires Mapped(t) && t != []
    ensures var x', j' := Shifted(x, t[0]), Left(t[0], j);
      Emit(t, x, n, j) == if n + 1 == 4 then Group(x', j') + Emit(t[1..], x', 0, j') else Emit(t[1..], x', n + 1, j')
  {}

  /** The last four symbols make the low 24 bits of x. */
  lemma LowBits(x: nat, a: Byte, b: Byte, c: Byte, d: Byte)
    requires a <= 127 && b <= 127 && c <= 127 && d <= 127
    ensures Shifted(Shifted(Shifted(Shifted(x, a), b), c), d) % 0x100_0000
         == ((DecMap(a) % 64 * 64 + DecMap(b) % 64) * 64 + DecMap(c) % 64) * 64 + DecMap(d) % 64
  {
    hide DecMap, Shifted;
    var x1 := Shifted(x, a);
    var x2 := Shifted(x1, b);
    var x3 := Shifted(x2, c);
    ShiftedLow(x, a);
    ShiftedLow(x1, b);
    ShiftedLow(x2, c);
    ShiftedLow(x3, d);
  }

  lemma ShiftedLow(x: nat, c: Byte)
    requires c <= 127
    ensures var d, y := DecMap(c) % 64, Shifted(x, c);
      && y % 64 == d && y % 4096 == x % 64 * 64 + d
      && y % 262144 == x % 4096 * 64 + d && y % 0x100_0000 == x % 262144 * 64 + d
  {
    hide DecMap;
    var d, y := DecMap(c) % 64, Shifted(x, c);
    var q := (x * 64 + d) / WIDTH;
    assert y == x * 64 + d - WIDTH * q;
    DivModUnique(y, 64, x - 0x400_0000 * q, d);
    DivModUnique(y, 4096, x / 64 - 0x10_0000 * q, x % 64 * 64 + d);
    DivModUnique(y, 262144, x / 4096 - 16384 * q, x % 4096 * 64 + d);
    DivModUnique(y, 0x100_0000, x / 262144 - 256 * q, x % 262144 * 64 + d);
  }

  lemma GroupLow(x: nat, v: nat, j: int)
    requires x % 0x100_0000 == v
    ensures Group(x, j) == Group(v, j)
  {
    var q := x / 0x100_0000;
    DivModUnique(x, 65536, 256 * q + v / 65536, v % 65536);
    DivModUnique(x / 65536, 256, q, v / 65536);
    DivModUnique(x, 256, 65536 * q + v / 256, v % 256);
    DivModUnique(x / 256, 256, 256 * q + v / 256 / 256, v / 256 % 256);
  }

  /** The four groups of six bits of three bytes, put together. */
  function Packed(c1: int, c2: int, c3: int): int {
    ((c1 / 4 * 64 + (c1 % 4 * 16 + c2 / 16)) * 64 + (c2 % 16 * 4 + c3 / 64)) * 64 + c3 % 64
  }

  lemma PackedIs(c1: int, c2: int, c3: int)
    ensures Packed(c1, c2, c3)
         == ((c1 / 4 * 64 + (c1 % 4 * 16 + c2 / 16)) * 64 + (c2 % 16 * 4 + c3 / 64)) * 64 + c3 % 64
  {}

  lemma FourBack(c1: Byte, c2: Byte, c3: Byte)
    ensures var v := Packed(c1, c2, c3);
      0 <= v && v / 65536 % 256 == c1 && v / 256 % 256 == c2 && v % 256 == c3
  {
    var a: int, b: int, c: int := c1, c2, c3;
    PackedOctets(a, b, c);
    OctetsBack(a, b, c);
  }

  lemma OctetsBack(a: int, b: int, c: int)
    requires 0 <= a < 256 && 0 <= b < 256 && 0 <= c < 256
    ensures var v := (a * 256 + b) * 256 + c; v / 65536 % 256 == a && v / 256 % 256 == b && v % 256 == c
  {}

  function PadsOf(n: nat): nat {
    if n % 3 == 0 then 0 else 3 - n % 3
  }

  /** The four symbols that start an encoding. */
  function FirstFour(s: seq<Byte>): (t: seq<Byte>)
    requires s != []
    ensures |t| == 4
  {
    Encode(if |s| >= 3 then s[..3] else s)
  }

  lemma EncodeStep(s: seq<Byte>)
    requires s != []
    ensures Encode(s) == FirstFour(s) + Encode(if |s| >= 3 then s[3..] else [])
  {
    if |s| >= 3 {
      assert s[..3][3..] == [];
      assert Four(s[0], s[1], s[2]) + [] == Four(s[0], s[1], s[2]);
    }
  }

  lemma FirstFourForm(s: seq<Byte>)
    requires s != []
    ensures WellFormed(FirstFour(s), if |s| >= 3 then 0 else PadsOf(|s|))
  {
    var c2, c3 := if |s| >= 2 then s[1] else 0, if |s| >= 3 then s[2] else 0;
    MapsInverse(s[0] / 4);
    MapsInverse(s[0] % 4 * 16 + c2 / 16);
    MapsInverse(c2 % 16 * 4 + c3 / 64);
    MapsInverse(c3 % 64);
    if |s| >= 3 {
      assert s[..3][3..] == [];
      assert Four(s[0], s[1], s[2]) + [] == Four(s[0], s[1], s[2]);
    }
  }

  lemma {:induction false} EncodeForm(s: seq<Byte>)
    ensures WellFormed(Encode(s), PadsOf(|s|))
  {
    hide WellFormed, Encode, FirstFour, PadsOf;
    PadsOfMore(|s|);
    if s == [] {
      EncodeNothing();
      WellFormedNothing();
    } else {
      EncodeStep(s);
      FirstFourForm(s);
      if |s| >= 3 {
        EncodeForm(s[3..]);
        WellFormedAfter(FirstFour(s), Encode(s[3..]), PadsOf(|s|));
      } else {
        EncodeNothing();
        assert FirstFour(s) + [] == FirstFour(s);
      }
    }
  }

  lemma PadsOfMore(n: nat)
    ensures PadsOf(0) == 0 && (n >= 3 ==> PadsOf(n) == PadsOf(n - 3))
  {}

  lemma WellFormedNothing()
    ensures WellFormed([], 0)
  {}

  lemma WellFormedAfter(a: seq<Byte>, t: seq<Byte>, j: nat)
    requires WellFormed(a, 0) && WellFormed(t, j)
    ensures WellFormed(a + t, j)
  {}

  /** The four symbols give back the bytes they were made of. */
  lemma FirstFourBack(s: seq<Byte>, x: nat)
    requires s != []
    ensures Mapped(FirstFour(s))
    ensures var t := FirstFour(s);
      var j := Left(t[3], Left(t[2], Left(t[1], Left(t[0], 3))));
      && Group(Shifted(Shifted(Shifted(Shifted(x, t[0]), t[1]), t[2]), t[3]), j) == (if |s| >= 3 then s[..3] else s)
      && (|s| >= 3 ==> j == 3)
  {
    hide Shifted, Group, DecMap, EncMap, Packed, Left, FirstFour, WellFormed;
    var c2, c3 := if |s| >= 2 then s[1] else 0, if |s| >= 3 then s[2] else 0;
    var t := FirstFour(s);
    FirstFourCodes(s);
    LowBits(x, t[0], t[1], t[2], t[3]);
    FourBack(s[0], c2, c3);
    PackedIs(s[0], c2, c3);
    var v := Packed(s[0], c2, c3);
    var j := Left(t[3], Left(t[2], Left(t[1], Left(t[0], 3))));
    GroupLow(Shifted(Shifted(Shifted(Shifted(x, t[0]), t[1]), t[2]), t[3]), v, j);
    GroupOf(v, j, s);
  }

  lemma GroupOf(v: nat, j: int, s: seq<Byte>)
    requires s != [] && v / 65536 % 256 == s[0] && j == (if |s| >= 3 then 3 else |s|)
    requires |s| >= 2 ==> v / 256 % 256 == s[1]
    requires |s| >= 3 ==> v % 256 == s[2]
    ensures Group(v, j) == if |s| >= 3 then s[..3] else s
  {}

  /** What the symbols stand for; the padding signs for zero bits. */
  lemma FirstFourCodes(s: seq<Byte>)
    requires s != []
    ensures Mapped(FirstFour(s))
    ensures var t := FirstFour(s);
      var c2, c3 := if |s| >= 2 then s[1] else 0, if |s| >= 3 then s[2] else 0;
      && DecMap(t[0]) % 64 == s[0] / 4 && DecMap(t[1]) % 64 == s[0] % 4 * 16 + c2 / 16
      && DecMap(t[2]) % 64 == c2 % 16 * 4 + c3 / 64 && DecMap(t[3]) % 64 == c3 % 64
      && Left(t[3], Left(t[2], Left(t[1], Left(t[0], 3)))) == (if |s| >= 3 then 3 else |s|)
  {
    hide DecMap, EncMap;
    var c2, c3 := if |s| >= 2 then s[1] else 0, if |s| >= 3 then s[2] else 0;
    MapsInverse(s[0] / 4);
    MapsInverse(s[0] % 4 * 16 + c2 / 16);
    MapsInverse(c2 % 16 * 4 + c3 / 64);
    MapsInverse(c3 % 64);
    PadCode();
    if |s| >= 3 {
      assert s[..3][3..] == [];
      assert Four(s[0], s[1], s[2]) + [] == Four(s[0], s[1], s[2]);
    }
  }

  lemma PadCode()
    ensures DecMap(PAD) == 64
  {}

  lemma {:induction false} EmitEncode(s: seq<Byte>, x: nat)
    ensures Mapped(Encode(s)) && Emit(Encode(s), x, 0, 3) == s
    decreases |s|
  {
    hide Shifted, Left, Group, Encode, FirstFour;
    if s == [] {
      EncodeNothing();
    } else {
      var t := FirstFour(s);
      var rest := if |s| >= 3 then s[3..] else [];
      EncodeStep(s);
      FirstFourBack(s, x);
      EmitEncode(rest, Shifted(Shifted(Shifted(Shifted(x, t[0]), t[1]), t[2]), t[3]));
      assert t == [t[0], t[1], t[2], t[3]];
      EmitFour(t[0], t[1], t[2], t[3], Encode(rest), x, 3);
      if |s| >= 3 { assert s == s[..3] + s[3..]; } else { EncodeNothing(); }
    }
  }

  lemma EncodeNothing()
    ensures Encode([]) == []
  {}

  lemma NeededExact(n: nat)
    ensures Needed(Counts((n + 2) / 3 * 4, PadsOf(n))) == n
  {
    var m := (n + 2) / 3 * 4;
    assert (6 * m + 7) / 8 == 6 * (m / 8) + (6 * (m % 8) + 7) / 8;
  }

  // ----- the bits of a group -----

  /** Four characters of the alphabet and the 24 bits they stand for. */
  ghost predicate Sextets(t: seq<Byte>, v: nat) {
    |t| == 4 && exists a: nat, b: nat, c: nat, d: nat ::
      && StandsFor(t[0], a) && StandsFor(t[1], b) && StandsFor(t[2], c) && StandsFor(t[3], d)
      && v == ((a * 64 + b) * 64 + c) * 64 + d
  }

  function Octets(s: seq<Byte>): nat
    requires |s| == 3
  {
    var a: int, b: int, c: int := s[0], s[1], s[2];
    (a * 256 + b) * 256 + c
  }

  lemma PackedOctets(a: int, b: int, c: int)
    requires 0 <= b && 0 <= c
    ensures Packed(a, b, c) == (a * 256 + b) * 256 + c
  {}

  lemma FourMeans(s: seq<Byte>)
    requires |s| == 3
    ensures Sextets(Four(s[0], s[1], s[2]), Octets(s))
  {
    hide EncMap, StandsFor, Sextets, Packed;
    var a: int, b: int, c: int := s[0], s[1], s[2];
    PackedOctets(a, b, c);
    PackedIs(a, b, c);
    AlphabetSextets(a / 4, a % 4 * 16 + b / 16, b % 16 * 4 + c / 64, c % 64);
  }

  lemma AlphabetSextets(a: nat, b: nat, c: nat, d: nat)
    requires a < 64 && b < 64 && c < 64 && d < 64
    ensures Sextets([EncMap(a), EncMap(b), EncMap(c), EncMap(d)], ((a * 64 + b) * 64 + c) * 64 + d)
  {
    hide EncMap, StandsFor;
    TablesMean(EncMap(a), a);
    TablesMean(EncMap(b), b);
    TablesMean(EncMap(c), c);
    TablesMean(EncMap(d), d);
    var t := [EncMap(a), EncMap(b), EncMap(c), EncMap(d)];
    assert StandsFor(t[0], a) && StandsFor(t[1], b) && StandsFor(t[2], c) && StandsFor(t[3], d);
  }

  /** The k-th three bytes and the k-th four characters of their encoding are the
      same 24 bits. */
  lemma {:induction false} EncodeMeans(s: seq<Byte>, k: nat)
    requires 3 * k + 3 <= |s|
    ensures 4 * k + 4 <= |Encode(s)| && Sextets(Encode(s)[4 * k..4 * k + 4], Octets(s[3 * k..3 * k + 3]))
    decreases k
  {
    hide Four, Sextets, Octets;
    var f, t := Four(s[0], s[1], s[2]), Encode(s[3..]);
    if k == 0 {
      FourMeans(s[..3]);
      assert (f + t)[..4] == f;
    } else {
      EncodeMeans(s[3..], k - 1);
      assert (f + t)[4 * k..4 * k + 4] == t[4 * (k - 1)..4 * (k - 1) + 4];
      assert s[3 * k..3 * k + 3] == s[3..][3 * (k - 1)..3 * (k - 1) + 3];
    }
  }

  /** The last four characters for the last byte or two: the bits that are
      missing are zero. */
  ghost predicate LastFour(t: seq<Byte>, r: seq<Byte>) {
    && |t| == 4 && 1 <= |r| <= 2
    && if |r| == 1
       then t[2..] == [PAD, PAD] && Sextets([t[0], t[1], EncMap(0), EncMap(0)], Octets(r + [0, 0]))
       else t[3..] == [PAD] && Sextets([t[0], t[1], t[2], EncMap(0)], Octets(r + [0]))
  }

  /** Whole groups of three bytes are encoded on their own, and then the rest. */
  lemma {:induction false} LastMeans(a: seq<Byte>, r: seq<Byte>)
    requires |a| % 3 == 0
    ensures Encode(a + r) == Encode(a) + Encode(r)
    ensures 1 <= |r| <= 2 ==> LastFour(Encode(r), r)
    decreases |a|
  {
    hide LastFour, Four, Encode;
    if a == [] {
      EncodeNothing();
      assert a + r == r && [] + Encode(r) == Encode(r);
      if |r| == 1 { OneMeans(r); } else if |r| == 2 { TwoMeans(r); }
    } else {
      EncodeOn(a);
      EncodeOn(a + r);
      assert (a + r)[3..] == a[3..] + r;
      LastMeans(a[3..], r);
    }
  }

  lemma EncodeOn(s: seq<Byte>)
    requires |s| >= 3
    ensures Encode(s) == Four(s[0], s[1], s[2]) + Encode(s[3..])
  {
    hide Four;
  }

  lemma OneMeans(s: seq<Byte>)
    requires |s| == 1
    ensures LastFour(Encode(s), s)
  {
    hide EncMap, Sextets, Octets;
    FourMeans(s + [0, 0]);
    FourOf(s[0], 0, 0);
  }

  lemma TwoMeans(s: seq<Byte>)
    requires |s| == 2
    ensures LastFour(Encode(s), s)
  {
    hide EncMap, Sextets, Octets;
    FourMeans(s + [0]);
    FourOf(s[0], s[1], 0);
  }

  lemma FourOf(a: Byte, b: Byte, c: Byte)
    ensures var f := Four(a, b, c);
      && (b == 0 && c == 0 ==> f == [f[0], f[1], EncMap(0), EncMap(0)])
      && (c == 0 ==> f == [f[0], f[1], f[2], EncMap(0)])
  {}

  /** The bytes written for the k-th four characters, when no padding sign comes
      before their end, are the 24 bits they stand for. */
  lemma {:induction false} EmitMeans(t: seq<Byte>, x: nat, k: nat, v: nat)
    requires Mapped(t) && 4 * k + 4 <= |t| && (forall i :: 0 <= i < 4 * k + 4 ==> Digit(t[i]))
    requires Sextets(t[4 * k..4 * k + 4], v)
    ensures var s := Emit(t, x, 0, 3); 3 * k + 3 <= |s| && Octets(s[3 * k..3 * k + 3]) == v
    decreases k
  {
    hide Emit, Group, Shifted, Left, Octets, Sextets, Digit;
    var rest := t[4..];
    var x' := Shifted(Shifted(Shifted(Shifted(x, t[0]), t[1]), t[2]), t[3]);
    assert t == [t[0], t[1], t[2], t[3]] + rest;
    NoneLeft(t[0]);
    NoneLeft(t[1]);
    NoneLeft(t[2]);
    NoneLeft(t[3]);
    EmitFour(t[0], t[1], t[2], t[3], rest, x, 3);
    var g, s := Group(x', 3), Emit(rest, x', 0, 3);
    GroupSize(x');
    if k == 0 {
      GroupMeans(t[..4], x, v);
      assert (g + s)[..3] == g;
    } else {
      assert rest[4 * (k - 1)..4 * (k - 1) + 4] == t[4 * k..4 * k + 4];
      EmitMeans(rest, x', k - 1, v);
      assert (g + s)[3 * k..3 * k + 3] == s[3 * (k - 1)..3 * (k - 1) + 3];
    }
  }

  /** And that is all that is written: an incomplete group at the end is not. */
  lemma {:induction false} EmitSize(t: seq<Byte>, x: nat)
    requires forall i :: 0 <= i < |t| ==> Digit(t[i])
    ensures Mapped(t) && |Emit(t, x, 0, 3)| == |t| / 4 * 3
    decreases |t|
  {
    hide Group, Shifted;
    if |t| >= 4 {
      hide Emit, Digit, Left;
      var rest := t[4..];
      var x' := Shifted(Shifted(Shifted(Shifted(x, t[0]), t[1]), t[2]), t[3]);
      assert t == [t[0], t[1], t[2], t[3]] + rest;
      NoneLeft(t[0]);
      NoneLeft(t[1]);
      NoneLeft(t[2]);
      NoneLeft(t[3]);
      EmitSize(rest, x');
      EmitFour(t[0], t[1], t[2], t[3], rest, x, 3);
      GroupSize(x');
      AllMapped(t);
    } else {
      ShortEmits(t, x);
    }
  }

  lemma AllMapped(t: seq<Byte>)
    requires forall i :: 0 <= i < |t| ==> Digit(t[i])
    ensures Mapped(t)
  {}

  lemma ShortEmits(t: seq<Byte>, x: nat)
    requires |t| < 4 && forall i :: 0 <= i < |t| ==> Digit(t[i])
    ensures Mapped(t) && Emit(t, x, 0, 3) == []
  {
    hide Group, Shifted, Left;
    if |t| > 0 {
      EmitOne(t, x, 0, 3);
      if |t| > 1 {
        EmitOne(t[1..], Shifted(x, t[0]), 1, Left(t[0], 3));
        if |t| > 2 {
          EmitOne(t[2..], Shifted(Shifted(x, t[0]), t[1]), 2, Left(t[1], Left(t[0], 3)));
        }
      }
    }
  }

  lemma GroupSize(x: nat)
    ensures |Group(x, 3)| == 3
  {}

  lemma NoneLeft(c: Byte)
    requires Digit(c)
    ensures c <= 127 && Left(c, 3) == 3
  {}

  lemma GroupMeans(t: seq<Byte>, x: nat, v: nat)
    requires Mapped(t) && Sextets(t, v)
    ensures Octets(Group(Shifted(Shifted(Shifted(Shifted(x, t[0]), t[1]), t[2]), t[3]), 3)) == v
  {
    hide Shifted, StandsFor, DecMap, Group, Octets;
    var a: nat, b: nat, c: nat, d: nat :|
      && StandsFor(t[0], a) && StandsFor(t[1], b) && StandsFor(t[2], c) && StandsFor(t[3], d)
      && v == ((a * 64 + b) * 64 + c) * 64 + d;
    CodeOf(t[0], a);
    CodeOf(t[1], b);
    CodeOf(t[2], c);
    CodeOf(t[3], d);
    LowBits(x, t[0], t[1], t[2], t[3]);
    GroupLow(Shifted(Shifted(Shifted(Shifted(x, t[0]), t[1]), t[2]), t[3]), v, 3);
    GroupOctets(v);
  }

  lemma CodeOf(c: Byte, v: nat)
    requires StandsFor(c, v)
    ensures v < 64 && c <= 127 && DecMap(c) % 64 == v
  {
    Small(c, v);
    TablesMean(c, v);
    hide ALPHABET, DecMap;
    DivModUnique(v, 64, 0, v);
  }

  lemma GroupOctets(v: nat)
    requires v < 0x100_0000
    ensures Octets(Group(v, 3)) == v
  {
    var s := Group(v, 3);
    assert s == [v / 65536 % 256, v / 256 % 256, v % 256];
    ThreeBytes(v);
  }

  lemma ThreeBytes(v: int)
    requires 0 <= v < 0x100_0000
    ensures ((v / 65536 % 256) * 256 + v / 256 % 256) * 256 + v % 256 == v
  {}

  /** Every byte string comes back from its encoding, however it is cut into
      lines, and the first pass computes its exact length. */
  lemma RoundTrip(src: seq<Byte>, s: seq<Byte>)
    requires Layout(src, 0) && Symbols(src) == Encode(s)
    ensures var c := Counts(|Encode(s)|, PadsOf(|s|));
      FirstPass(src, 0, Counts(0, 0)) == Some(c) && Needed(c) == |s|
    ensures Mapped(Symbols(src)) && Emit(Symbols(src), 0, 0, 3) == s
  {
    hide Encode, Emit, FirstPass, Layout, Needed, WellFormed;
    EncodeForm(s);
    FirstPassAccepts(src, |Encode(s)|, PadsOf(|s|));
    NeededExact(|s|);
    EmitEncode(s, 0);
  }

  lemma {:induction false} NoBlanks(t: seq<Byte>)
    requires forall k :: 0 <= k < |t| ==> !Blank(t[k])
    ensures Symbols(t) == t && Layout(t, 0)
  {
    if t != [] {
      NoBlanks(t[1..]);
    }
  }

  /** In particular from the encoding as it is written. */
  lemma DecodesEncoding(s: seq<Byte>)
    ensures FirstPass(Encode(s), 0, Counts(0, 0)) == Some(Counts(|Encode(s)|, PadsOf(|s|)))
    ensures Mapped(Encode(s)) && Emit(Encode(s), 0, 0, 3) == s
  {
    hide Encode, Emit, FirstPass, Symbols, Layout;
    EncodeForm(s);
    NoBlanks(Encode(s));
    RoundTrip(Encode(s), s);
  }

  // ----- the two functions -----

  type SizeLimit = x: nat | x == 0xFFFF_FFFF || x == 0xFFFF_FFFF_FFFF_FFFF witness 0xFFFF_FFFF

  const SIZE_MAX: SizeLimit

  datatype Status = Ok | TooSmall | Invalid

  /** The room for the text is a size. */
  predicate Countable(src: seq<Byte>) {
    |Encode(src)| <= (SIZE_MAX - 1) / 4 * 4
  }

  /** mbedtls_base64_encode: the text and a null byte, or the room they need. */
  method EncodeTo(dst: array?<Byte>, dlen: nat, src: seq<Byte>) returns (ret: Status, olen: nat)
    requires dst != null ==> dlen <= dst.Length
    modifies dst
    ensures ret == Ok <==> src == [] || (Countable(src) && dst != null && |Encode(src)| + 1 <= dlen)
    ensures ret == Ok ==> olen == |Encode(src)|
    ensures ret == Ok && src != [] ==> dst[..olen] == Encode(src) && dst[olen] == 0
    ensures ret == Ok && src != [] ==> dst[olen + 1..] == old(dst[..])[olen + 1..]
    ensures ret != Ok ==> ret == TooSmall && olen == if Countable(src) then |Encode(src)| + 1 else SIZE_MAX
    ensures ret != Ok && dst != null ==> dst[..] == old(dst[..])
  {
    hide Encode, EncMap;
    if |src| == 0 {
      return Ok, 0;
    }
    var n := |src| / 3 + if |src| % 3 != 0 then 1 else 0;
    if n > (SIZE_MAX - 1) / 4 {
      return TooSmall, SIZE_MAX;
    }
    n := n * 4;
    if dst == null || dlen < n + 1 {
      return TooSmall, n + 1;
    }
    olen := WriteAll(dst, src);
    return Ok, olen;
  }

  method WriteAll(dst: array<Byte>, src: seq<Byte>) returns (p: nat)
    requires |Encode(src)| < dst.Length
    modifies dst
    ensures p == |Encode(src)| && dst[..p] == Encode(src) && dst[p] == 0 && dst[p + 1..] == old(dst[..])[p + 1..]
  {
    hide Encode, EncMap;
    var i;
    i, p := WriteTriples(dst, src);
    ghost var done := dst[..p];
    if i < |src| {
      LastGroup(src, i);
      var c1, c2 := src[i], if i + 1 < |src| then src[i + 1] else 0;
      var third := if i + 1 < |src| then EncMap(c2 % 16 * 4) else PAD;
      p := Put(dst, p, EncMap(c1 / 4), EncMap(c1 % 4 * 16 + c2 / 16), third, PAD);
    } else {
      EncodeNothing();
      assert done + [] == done;
    }
    Terminate(dst, p);
  }

  /** The loop over groups of three. */
  method WriteTriples(dst: array<Byte>, src: seq<Byte>) returns (i: nat, p: nat)
    requires |Encode(src)| < dst.Length
    modifies dst
    ensures i == |src| / 3 * 3 && p == i / 3 * 4
    ensures dst[..p] + Encode(src[i..]) == Encode(src) && dst[p..] == old(dst[..])[p..]
  {
    hide Encode, EncMap;
    var n := |src| / 3 * 3;
    i, p := 0, 0;
    while i < n
      invariant 0 <= i <= n && i % 3 == 0 && p == i / 3 * 4
      invariant dst[..p] + Encode(src[i..]) == Encode(src)
      invariant dst[p..] == old(dst[..])[p..]
    {
      Triple(src, i, dst[..p]);
      var c1, c2, c3 := src[i], src[i + 1], src[i + 2];
      p := Put(dst, p, EncMap(c1 / 4), EncMap(c1 % 4 * 16 + c2 / 16), EncMap(c2 % 16 * 4 + c3 / 64), EncMap(c3 % 64));
      i := i + 3;
    }
  }

  method Terminate(dst: array<Byte>, p: nat)
    requires p < dst.Length
    modifies dst
    ensures dst[p] == 0 && dst[..p] == old(dst[..p]) && dst[p + 1..] == old(dst[p..])[1..]
  {
    dst[p] := 0;
  }

  /** Four writes through the pointer. */
  method Put(dst: array<Byte>, p: nat, a: Byte, b: Byte, c: Byte, d: Byte) returns (p': nat)
    requires p + 4 <= dst.Length
    modifies dst
    ensures p' == p + 4 && dst[..p'] == old(dst[..p]) + [a, b, c, d] && dst[p'..] == old(dst[p + 4..])
  {
    dst[p], dst[p + 1], dst[p + 2], dst[p + 3] := a, b, c, d;
    p' := p + 4;
  }

  lemma Triple(src: seq<Byte>, i: nat, done: seq<Byte>)
    requires i + 3 <= |src|
    ensures done + Encode(src[i..]) == done + Four(src[i], src[i + 1], src[i + 2]) + Encode(src[i + 3..])
  {
    assert src[i..][3..] == src[i + 3..];
  }

  lemma LastGroup(src: seq<Byte>, i: nat)
    requires i < |src| < i + 3
    ensures var c2 := if i + 1 < |src| then src[i + 1] else 0;
      Encode(src[i..]) == Four(src[i], c2, 0)[..2] + [if i + 1 < |src| then EncMap(c2 % 16 * 4) else PAD, PAD]
  {}

  /** The first pass of mbedtls_base64_decode. */
  method Check(src: seq<Byte>) returns (c: Option<Counts>)
    ensures c == FirstPass(src, 0, Counts(0, 0))
  {
    var i, n, j := 0, 0, 0;
    while i < |src|
      invariant 0 <= i <= |src|
      invariant FirstPass(src, i, Counts(n, j)) == FirstPass(src, 0, Counts(0, 0))
    {
      var x := 0;
      ghost var i0 := i;
      while i < |src| && src[i] == SPACE
        invariant i0 <= i <= |src| && x == i - i0 && Skip(src, i) == Skip(src, i0)
      {
        i, x := i + 1, x + 1;
      }
      if i == |src| {
        break;
      }
      if |src| - i >= 2 && src[i] == RETURN && src[i + 1] == NEWLINE {
        i := i + 1;
        continue;
      }
      if src[i] == NEWLINE {
        i := i + 1;
        continue;
      }
      if x != 0 {
        return None;
      }
      if src[i] == PAD {
        j := j + 1;
        if j > 2 {
          return None;
        }
      }
      if src[i] > 127 || DecMap(src[i]) == 127 {
        return None;
      }
      if DecMap(src[i]) < 64 && j != 0 {
        return None;
      }
      n, i := n + 1, i + 1;
    }
    return Some(Counts(n, j));
  }

  /** mbedtls_base64_decode: the bytes, or the room they need; olen is written
      only when the text is accepted. */
  method DecodeTo(dst: array?<Byte>, dlen: nat, src: seq<Byte>) returns (ret: Status, olen: nat)
    requires dst != null ==> dlen <= dst.Length
    modifies dst
    ensures var r := FirstPass(src, 0, Counts(0, 0));
      && (ret == Invalid <==> r == None)
      && (ret == TooSmall <==> r.Some? && r.value.n != 0 && (dst == null || dlen < Needed(r.value)))
      && (ret == TooSmall ==> olen == Needed(r.value))
      && (ret == Ok ==> Mapped(Symbols(src)) && olen == |Emit(Symbols(src), 0, 0, 3)| <= Needed(r.value))
    ensures ret == Ok && olen != 0 ==> dst != null && dst[..olen] == Emit(Symbols(src), 0, 0, 3)
    ensures dst != null ==> dst[if ret == Ok then olen else 0..] == old(dst[..])[if ret == Ok then olen else 0..]
  {
    hide FirstPass, Emit, Symbols, Needed;
    var r := Check(src);
    if r.None? {
      return Invalid, 0;
    }
    WritesAtMostNeeded(src, r.value);
    var n, j := r.value.n, r.value.j;
    if n == 0 {
      FirstPassAccepts(src, n, j);
      assert Symbols(src) == [];
      EmitNothing();
      return Ok, 0;
    }
    n := 6 * (n / 8) + (6 * (n % 8) + 7) / 8;
    NeededIs(r.value);
    n := n - j;
    if dst == null || dlen < n {
      return TooSmall, n;
    }
    olen := WriteBytes(dst, src, r.value);
    return Ok, olen;
  }

  lemma EmitNothing()
    ensures Mapped([]) && Emit([], 0, 0, 3) == []
  {}

  lemma NeededIs(c: Counts)
    ensures Needed(c) == 6 * (c.n / 8) + (6 * (c.n % 8) + 7) / 8 - c.j
  {}

  /** The second pass. */
  method WriteBytes(dst: array<Byte>, src: seq<Byte>, ghost c: Counts) returns (p: nat)
    requires FirstPass(src, 0, Counts(0, 0)) == Some(c) && Needed(c) <= dst.Length
    modifies dst
    ensures Mapped(Symbols(src)) && p == |Emit(Symbols(src), 0, 0, 3)|
    ensures p <= dst.Length && dst[..p] == Emit(Symbols(src), 0, 0, 3) && dst[p..] == old(dst[..])[p..]
  {
    hide FirstPass, Emit, Symbols, Needed, Shifted, Left, Group;
    WritesAtMostNeeded(src, c);
    var i, j, n, x := 0, 3, 0, 0;
    p := 0;
    ghost var all := Emit(Symbols(src), 0, 0, 3);
    assert src[0..] == src;
    while i < |src|
      invariant 0 <= i <= |src| && 0 <= p <= dst.Length && 0 <= n < 4 && 0 <= x && Mapped(Symbols(src[i..]))
      invariant dst[..p] + Emit(Symbols(src[i..]), x, n, j) == all
      invariant dst[p..] == old(dst[..])[p..]
    {
      SymbolsStep(src, i);
      if Blank(src[i]) {
        assert [] + Symbols(src[i + 1..]) == Symbols(src[i + 1..]);
        i := i + 1;
        continue;
      }
      ghost var t := Symbols(src[i..]);
      assert t[0] == src[i] && t[1..] == Symbols(src[i + 1..]);
      EmitOne(t, x, n, j);
      j := Left(src[i], j);
      x := Shifted(x, src[i]);
      n := n + 1;
      if n == 4 {
        n := 0;
        p := PutGroup(dst, p, x, j, Emit(Symbols(src[i + 1..]), x, 0, j));
      }
      i := i + 1;
    }
    assert src[i..] == [];
    NoSymbols();
    EmitEnd(x, n, j);
  }

  lemma EmitEnd(x: nat, n: nat, j: int)
    ensures Mapped([]) && Emit([], x, n, j) == []
  {}

  method PutGroup(dst: array<Byte>, p: nat, x: nat, j: int, ghost rest: seq<Byte>) returns (p': nat)
    requires p + |Group(x, j)| <= dst.Length
    modifies dst
    ensures p' == p + |Group(x, j)| && dst[..p'] == old(dst[..p]) + Group(x, j)
    ensures dst[..p'] + rest == old(dst[..p]) + (Group(x, j) + rest)
    ensures dst[p'..] == old(dst[..])[p'..]
  {
    p' := p;
    if j > 0 {
      dst[p'] := x / 65536 % 256;
      p' := p' + 1;
    }
    if j > 1 {
      dst[p'] := x / 256 % 256;
      p' := p' + 1;
    }
    if j > 2 {
      dst[p'] := x % 256;
      p' := p' + 1;
    }
    assert dst[..p'] == old(dst[..p]) + Group(x, j);
  }
}
