/** Which texts inet.c reads as which addresses, as grammars. */
module AddressGrammar {
  import opened Bytes
  import opened Powers
  import opened AddressReaders

  // ----- numerals -----

  const DIGITS := "0123456789abcdef"

  /** The digits of "%x" and "%u". */
  function Numeral(n: nat, base: nat): (s: string)
    requires 2 <= base <= 16
    ensures |s| > 0
  {
    if n < base then [DIGITS[n]]
    else
      Shrinks(n, base);
      Numeral(n / base, base) + [DIGITS[n % base]]
  }

  lemma Shrinks(n: nat, base: nat)
    requires 2 <= base <= n
    ensures 0 <= n / base < n
  {
    var q := n / base;
    assert n == base * q + n % base;
    MulGe(2, base, q);
  }

  function Decimal(b: Byte): string {
    Numeral(b, 10)
  }

  lemma NumeralStep(n: nat, base: nat)
    requires 2 <= base <= 16 && n >= base
    ensures Numeral(n, base) == Numeral(n / base, base) + [DIGITS[n % base]]
  {}

  lemma DecimalLength(b: Byte)
    ensures 1 <= |Decimal(b)| <= 3
  {
    if b >= 10 {
      NumeralStep(b, 10);
      if b / 10 >= 10 {
        NumeralStep(b / 10, 10);
      }
    }
  }

  // ----- digits by their place in the alphabet -----

  /** c is the digit d, in either case. */
  predicate Hexit(c: char, d: nat) {
    d < 16 && (c == "0123456789abcdef"[d] || c == "0123456789ABCDEF"[d])
  }

  lemma HexitIs(c: char, d: nat)
    ensures HexValue(c) == Some(d) <==> Hexit(c, d)
  {}

  ghost predicate IsHexit(c: char) {
    exists d :: Hexit(c, d)
  }

  ghost function HexitValue(c: char): (d: nat)
    requires IsHexit(c)
    ensures Hexit(c, d)
  {
    var d :| Hexit(c, d);
    d
  }

  ghost predicate Hexits(s: string) {
    forall i :: 0 <= i < |s| ==> IsHexit(s[i])
  }

  /** The number that the digits of s give to the base. */
  ghost function ValueIn(s: string, base: nat): nat
    requires Hexits(s)
  {
    if s == "" then 0 else ValueIn(s[..|s| - 1], base) * base + HexitValue(s[|s| - 1])
  }

  lemma HexitAt(c: char)
    ensures HexValue(c).Some? <==> IsHexit(c)
    ensures IsHexit(c) ==> HexValue(c) == Some(HexitValue(c))
  {
    hide HexValue, Hexit;
    if HexValue(c).Some? {
      HexitIs(c, HexValue(c).value);
    }
    if IsHexit(c) {
      HexitIs(c, HexitValue(c));
    }
  }

  predicate SmallDigits(s: string, base: nat)
    requires base <= 16
  {
    forall i :: 0 <= i < |s| ==> s[i] in "0123456789abcdef"[..base]
  }

  /** What "%x" and "%u" print: the number to the base, in small digits without
      a zero in front. */
  lemma {:induction false} NumeralMeans(n: nat, base: nat)
    requires 2 <= base <= 16
    ensures var s := Numeral(n, base);
      SmallDigits(s, base) && Hexits(s) && ValueIn(s, base) == n && (n > 0 ==> s[0] != '0')
  {
    hide ValueIn, Hexits, Hexit, SmallDigits;
    if n < base {
      NoDigits(base);
      DigitSnoc("", n, base);
      assert "" + [DIGITS[n]] == [DIGITS[n]];
    } else {
      Shrinks(n, base);
      NumeralMeans(n / base, base);
      DigitSnoc(Numeral(n / base, base), n % base, base);
      DivBounds(n, base);
    }
  }

  lemma NoDigits(base: nat)
    requires base <= 16
    ensures SmallDigits("", base) && Hexits("") && ValueIn("", base) == 0
  {}

  lemma DigitSnoc(s: string, d: nat, base: nat)
    requires d < base <= 16 && SmallDigits(s, base) && Hexits(s)
    ensures var t := s + [DIGITS[d]];
      && SmallDigits(t, base) && Hexits(t) && ValueIn(t, base) == ValueIn(s, base) * base + d
      && (s == "" && d > 0 ==> t[0] != '0')
  {
    SmallDigit(d, base);
    hide DIGITS, ValueIn, IsHexit;
    ValueSnoc(s, DIGITS[d], d, base);
  }

  lemma SmallDigit(d: nat, base: nat)
    requires d < base <= 16
    ensures DIGITS[d] in "0123456789abcdef"[..base] && Hexit(DIGITS[d], d) && (d > 0 ==> DIGITS[d] != '0')
  {
    assert "0123456789abcdef"[..base][d] == DIGITS[d];
  }

  lemma ValueSnoc(s: string, c: char, d: nat, base: nat)
    requires Hexits(s) && Hexit(c, d)
    ensures Hexits(s + [c]) && ValueIn(s + [c], base) == ValueIn(s, base) * base + d
  {
    var t := s + [c];
    assert t[..|t| - 1] == s;
    assert IsHexit(c) && HexitValue(c) == d;
  }

  // ----- an IPv4 address is read back -----

  function Text4(b: seq<Byte>): string
    requires |b| == 4
  {
    Decimal(b[0]) + "." + Decimal(b[1]) + "." + Decimal(b[2]) + "." + Decimal(b[3])
  }

  lemma DigitsValue(d: nat)
    requires d < 10
    ensures DigitValue(DIGITS[d]) == Some(d)
  {}

  /** A decimal numeral is read as one octet. */
  lemma {:induction false} RunDecimal(src: string, i: nat, st: State4, n: Byte)
    requires At(src, i, Decimal(n)) && !st.saw && st.cur == 0 && st.octets < 4
    ensures i + |Decimal(n)| <= |src|
    ensures Run4(src, i, st) == Run4(src, i + |Decimal(n)|, State4(st.done, n, true, st.octets + 1))
    decreases n
  {
    hide Run4;
    if n < 10 {
      RunDigit4(src, i, st, n);
    } else {
      hide At, Run4;
      NumeralStep(n, 10);
      var m := n / 10;
      AtBoth(src, i, Decimal(m), [DIGITS[n % 10]]);
      RunDecimal(src, i, st, m);
      RunDigit4(src, i + |Decimal(m)|, State4(st.done, m, true, st.octets + 1), n % 10);
    }
  }

  lemma RunDigit4(src: string, i: nat, st: State4, d: nat)
    requires d < 10 && At(src, i, [DIGITS[d]]) && st.cur * 10 + d < 256
    requires if st.saw then st.cur != 0 else st.octets < 4
    ensures Run4(src, i, st)
         == Run4(src, i + 1, State4(st.done, st.cur * 10 + d, true, if st.saw then st.octets else st.octets + 1))
  {
    assert src[i] == src[i..i + 1][0];
    DigitsValue(d);
  }

  lemma RunDot(src: string, i: nat, st: State4)
    requires At(src, i, ".") && st.saw && st.octets < 4
    ensures Run4(src, i, st) == Run4(src, i + 1, State4(st.done + [st.cur], 0, false, st.octets))
  {
    assert src[i] == src[i..i + 1][0];
  }

  lemma RoundTrip4(b: seq<Byte>)
    requires |b| == 4
    ensures Parse4(Text4(b)) == Some(b)
  {
    var src := Text4(b);
    ReadText4(src, 0, b);
  }

  lemma ReadText4(src: string, i: nat, b: seq<Byte>)
    requires |b| == 4 && At(src, i, Text4(b)) && i + |Text4(b)| == |src|
    ensures Run4(src, i, INIT4) == Some(b)
  {
    hide At, Run4, Decimal;
    Text4Places(src, i, Decimal(b[0]), Decimal(b[1]), Decimal(b[2]), Decimal(b[3]));
    assert [] + [b[0]] == [b[0]] && [b[0]] + [b[1]] == [b[0], b[1]] && [b[0], b[1]] + [b[2]] == [b[0], b[1], b[2]];
    var i1 := i + |Decimal(b[0])|;
    var i2 := i1 + 1 + |Decimal(b[1])|;
    var i3 := i2 + 1 + |Decimal(b[2])|;
    RunDecimal(src, i, INIT4, b[0]);
    RunDot(src, i1, State4([], b[0], true, 1));
    RunDecimal(src, i1 + 1, State4([b[0]], 0, false, 1), b[1]);
    RunDot(src, i2, State4([b[0]], b[1], true, 2));
    RunDecimal(src, i2 + 1, State4([b[0], b[1]], 0, false, 2), b[2]);
    RunDot(src, i3, State4([b[0], b[1]], b[2], true, 3));
    RunDecimal(src, i3 + 1, State4([b[0], b[1], b[2]], 0, false, 3), b[3]);
    Run4End(src, State4([b[0], b[1], b[2]], b[3], true, 4));
    assert [b[0], b[1], b[2]] + [b[3]] == b;
  }

  lemma Run4End(src: string, st: State4)
    requires st.octets == 4
    ensures Run4(src, |src|, st) == Some(st.done + [st.cur])
  {}

  lemma Text4Places(src: string, i: nat, d0: string, d1: string, d2: string, d3: string)
    requires At(src, i, d0 + "." + d1 + "." + d2 + "." + d3)
    ensures At(src, i, d0) && At(src, i + |d0|, ".")
    ensures At(src, i + |d0| + 1, d1) && At(src, i + |d0| + 1 + |d1|, ".")
    ensures At(src, i + |d0| + |d1| + 2, d2) && At(src, i + |d0| + |d1| + 2 + |d2|, ".")
    ensures At(src, i + |d0| + |d1| + |d2| + 3, d3)
  {
    hide At;
    AtBoth(src, i, d0 + "." + d1 + "." + d2 + ".", d3);
    AtBoth(src, i, d0 + "." + d1 + "." + d2, ".");
    AtBoth(src, i, d0 + "." + d1 + ".", d2);
    AtBoth(src, i, d0 + "." + d1, ".");
    AtBoth(src, i, d0 + ".", d1);
    AtBoth(src, i, d0, ".");
  }

  // ----- only the text of an IPv4 address is read -----

  /** The octets, each followed by a dot. */
  function Dots(bs: seq<Byte>): string {
    if bs == [] then "" else Dots(bs[..|bs| - 1]) + Decimal(bs[|bs| - 1]) + "."
  }

  /** The state after i characters stands for them. */
  ghost predicate Means4(src: string, i: nat, st: State4) {
    && i <= |src| && Sound4(st) && (!st.saw ==> st.cur == 0)
    && src[..i] == Dots(st.done) + if st.saw then Decimal(st.cur) else ""
  }

  lemma Step4Means(src: string, i: nat, st: State4)
    requires Means4(src, i, st) && i < |src| && Step4(src[i], st).Some?
    ensures Means4(src, i + 1, Step4(src[i], st).value)
  {
    hide Decimal, Dots;
    assert src[..i + 1] == src[..i] + [src[i]];
    var v := DigitValue(src[i]);
    if v.Some? {
      var d := v.value;
      DigitChar(src[i], d);
      OneMore(st.cur, d);
    } else {
      DotsSnoc(st.done, st.cur);
    }
  }

  lemma DigitChar(c: char, d: nat)
    requires DigitValue(c) == Some(d)
    ensures c == DIGITS[d]
  {}

  lemma OneMore(cur: Byte, d: nat)
    requires d < 10 && cur * 10 + d < 256
    ensures Decimal(cur * 10 + d) == if cur == 0 then [DIGITS[d]] else Decimal(cur) + [DIGITS[d]]
  {}

  lemma DotsSnoc(bs: seq<Byte>, b: Byte)
    ensures Dots(bs + [b]) == Dots(bs) + Decimal(b) + "."
  {
    assert (bs + [b])[..|bs|] == bs;
  }

  lemma {:induction false} Run4Means(src: string, i: nat, st: State4)
    requires i <= |src| && Means4(src, i, st) && Run4(src, i, st).Some?
    ensures var r := Run4(src, i, st).value; |r| == 4 && src == Text4(r)
    decreases |src| - i
  {
    hide Means4, Step4, Text4;
    if i < |src| {
      Step4Means(src, i, st);
      Run4Means(src, i + 1, Step4(src[i], st).value);
    } else {
      End4Means(src, st);
    }
  }

  lemma End4Means(src: string, st: State4)
    requires Means4(src, |src|, st) && st.octets >= 4
    ensures var r := st.done + [st.cur]; |r| == 4 && src == Text4(r)
  {
    hide Decimal;
    var r := st.done;
    assert src == src[..|src|];
    assert r[..2][..1] == r[..1] && r[..1][..0] == [] && Dots([]) == "";
    assert Dots(r) == Dots(r[..2]) + Decimal(r[2]) + ".";
    assert Dots(r[..2]) == Dots(r[..1]) + Decimal(r[1]) + ".";
    assert Dots(r[..1]) == "" + Decimal(r[0]) + ".";
  }

  /** What inet_pton4 accepts and returns. */
  lemma Parse4Iff(src: string, b: seq<Byte>)
    requires |b| == 4
    ensures Parse4(src) == Some(b) <==> src == Text4(b)
  {
    RoundTrip4(b);
    if Parse4(src) == Some(b) {
      Run4Means(src, 0, INIT4);
    }
  }

  // ----- the spelling of an IPv6 address -----

  /** One to four hexadecimal digits, of either case. */
  ghost predicate Group(s: string) {
    1 <= |s| <= 4 && Hexits(s)
  }

  ghost predicate AllGroups(gs: seq<string>) {
    forall i :: 0 <= i < |gs| ==> Group(gs[i])
  }

  /** The parts with ":" between them. */
  function Join(ps: seq<string>): string {
    if |ps| == 0 then ""
    else if |ps| == 1 then ps[0]
    else Join(ps[..|ps| - 1]) + ":" + ps[|ps| - 1]
  }

  /** Eight groups, or fewer with "::" for the zero groups that are missing; an
      IPv4 address may stand for the last two groups. */
  datatype Address =
    | Full(groups: seq<string>, quad: Option<seq<Byte>>)
    | Short(before: seq<string>, groups: seq<string>, quad: Option<seq<Byte>>)

  predicate IsQuad(quad: Option<seq<Byte>>) {
    quad.Some? ==> |quad.value| == 4
  }

  function Parts(gs: seq<string>, quad: Option<seq<Byte>>): seq<string>
    requires IsQuad(quad)
  {
    if quad.Some? then gs + [Text4(quad.value)] else gs
  }

  /** Two bytes a group, the high one first. */
  ghost function GroupBytes(gs: seq<string>): (r: seq<Byte>)
    requires AllGroups(gs)
    ensures |r| == 2 * |gs|
  {
    if gs == [] then []
    else
      var v := ValueIn(gs[|gs| - 1], 16);
      GroupBytes(gs[..|gs| - 1]) + [v / 256 % 256, v % 256]
  }

  ghost function PartBytes(gs: seq<string>, quad: Option<seq<Byte>>): (r: seq<Byte>)
    requires AllGroups(gs)
  {
    GroupBytes(gs) + if quad.Some? then quad.value else []
  }

  ghost predicate WellFormed(a: Address) {
    && IsQuad(a.quad) && AllGroups(a.groups)
    && match a
       case Full(gs, quad) => |PartBytes(gs, quad)| == 16
       case Short(before, gs, quad) => AllGroups(before) && |GroupBytes(before)| + |PartBytes(gs, quad)| < 16
  }

  function Spelled(a: Address): string
    requires IsQuad(a.quad)
  {
    match a
    case Full(gs, quad) => Join(Parts(gs, quad))
    case Short(before, gs, quad) => Join(before) + "::" + Join(Parts(gs, quad))
  }

  ghost function Denoted(a: Address): (b: seq<Byte>)
    requires WellFormed(a)
    ensures |b| == 16
  {
    match a
    case Full(gs, quad) => PartBytes(gs, quad)
    case Short(before, gs, quad) =>
      var front, back := GroupBytes(before), PartBytes(gs, quad);
      front + ZeroBytes(16 - |front| - |back|) + back
  }

  // ----- a spelling is read -----

  predicate Fresh(st: State6) {
    st.seen == 0 && st.val == 0
  }

  /** Groups that more text follows. */
  function Lead(gs: seq<string>): string {
    if gs == [] then "" else Join(gs) + ":"
  }

  lemma JoinSnoc(gs: seq<string>, p: string)
    ensures Join(gs + [p]) == Lead(gs) + p && Lead(gs + [p]) == Lead(gs) + p + ":"
  {
    assert (gs + [p])[..|gs|] == gs;
  }

  lemma GroupBytesSnoc(gs: seq<string>, g: string)
    requires AllGroups(gs) && Group(g)
    ensures AllGroups(gs + [g]) && GroupBytes(gs + [g]) == GroupBytes(gs) + Pair(ValueIn(g, 16))
  {
    assert (gs + [g])[..|gs|] == gs;
  }

  lemma RunHexit(src: string, i: nat, st: State6, c: char)
    requires IsHexit(c) && At(src, i, [c]) && Sound6(st, i) && st.seen < 4
    ensures Run6(src, i, st) == Run6(src, i + 1, st.(val := st.val * 16 + HexitValue(c), seen := st.seen + 1))
  {
    assert src[i] == src[i..i + 1][0];
    HexitAt(c);
  }

  lemma {:induction false} RunHexits(src: string, i: nat, st: State6, g: string)
    requires Hexits(g) && |g| <= 4 && At(src, i, g) && Fresh(st) && Sound6(st, i)
    ensures i + |g| <= |src|
    ensures Run6(src, i, st) == Run6(src, i + |g|, st.(val := ValueIn(g, 16), seen := |g|))
    decreases |g|
  {
    hide At, Run6, IsHexit;
    AtIn(src, i, g);
    if g != "" {
      var h, c := g[..|g| - 1], g[|g| - 1];
      assert g == h + [c];
      AtBoth(src, i, h, [c]);
      RunHexits(src, i, st, h);
      RunHexit(src, i + |h|, st.(val := ValueIn(h, 16), seen := |h|), c);
    }
  }

  /** The ":" after a group. */
  lemma RunColon(src: string, i: nat, st: State6)
    requires At(src, i, ":") && i + 1 < |src| && Sound6(st, i) && st.seen > 0 && |st.out| + 2 <= 16
    ensures Run6(src, i, st) == Run6(src, i + 1, State6(Flush(st), st.colon, 0, 0, i + 1))
  {
    assert src[i] == src[i..i + 1][0];
  }

  /** The second ":" of "::". */
  lemma RunDouble(src: string, i: nat, st: State6)
    requires At(src, i, ":") && Sound6(st, i) && st.seen == 0 && st.colon.None?
    ensures Run6(src, i, st) == Run6(src, i + 1, st.(tok := i + 1, colon := Some(|st.out|)))
  {
    assert src[i] == src[i..i + 1][0];
  }

  lemma {:induction false} RunLead(src: string, i: nat, st: State6, gs: seq<string>)
    requires AllGroups(gs) && At(src, i, Lead(gs)) && i + |Lead(gs)| < |src|
    requires Fresh(st) && Sound6(st, i) && st.tok == i && |st.out| + 2 * |gs| <= 16
    ensures Run6(src, i, st)
         == Run6(src, i + |Lead(gs)|, State6(st.out + GroupBytes(gs), st.colon, 0, 0, i + |Lead(gs)|))
    decreases |gs|
  {
    hide At, Run6, Lead, ValueIn, Pair, Hexits;
    if gs == [] {
      NoLead();
      assert st.out + GroupBytes(gs) == st.out;
    } else {
      var h, g := gs[..|gs| - 1], gs[|gs| - 1];
      assert gs == h + [g];
      JoinSnoc(h, g);
      GroupBytesSnoc(h, g);
      AtBoth(src, i, Lead(h) + g, ":");
      AtBoth(src, i, Lead(h), g);
      RunLead(src, i, st, h);
      var j := i + |Lead(h)|;
      var st1 := State6(st.out + GroupBytes(h), st.colon, 0, 0, j);
      RunHexits(src, j, st1, g);
      RunColon(src, j + |g|, st1.(val := ValueIn(g, 16), seen := |g|));
      assert st.out + GroupBytes(h) + Pair(ValueIn(g, 16)) == st.out + (GroupBytes(h) + Pair(ValueIn(g, 16)));
    }
  }

  lemma NoLead()
    ensures Lead([]) == Join([]) == "" && GroupBytes([]) == []
  {}

  /** What the reader makes of the bytes it has written. */
  function Ended(out: seq<Byte>, colon: Option<nat>): Option<seq<Byte>>
    requires colon.Some? ==> colon.value <= |out|
  {
    Finish(State6(out, colon, 0, 0, 0))
  }

  lemma FinishIs(st: State6)
    requires st.colon.Some? ==> st.colon.value <= |st.out|
    ensures Finish(st) == Ended(Flush(st), st.colon)
  {}

  lemma RunEnd(src: string, st: State6)
    requires Sound6(st, |src|)
    ensures Run6(src, |src|, st) == Finish(st)
  {}

  /** An IPv4 address at the end: its first octet reads as hexadecimal digits. */
  lemma RunQuad(src: string, i: nat, st: State6, b: seq<Byte>)
    requires |b| == 4 && At(src, i, Text4(b)) && i + |Text4(b)| == |src| && st.tok == i
    requires Fresh(st) && Sound6(st, i) && |st.out| + 4 <= 16
    ensures Run6(src, i, st) == Ended(st.out + b, st.colon)
  {
    assert src[i..] == Text4(b);
    RoundTrip4(b);
    hide At, Run6, Parse4, Finish;
    Text4Places(src, i, Decimal(b[0]), Decimal(b[1]), Decimal(b[2]), Decimal(b[3]));
    DecimalLength(b[0]);
    NumeralMeans(b[0], 10);
    var d := Decimal(b[0]);
    RunHexits(src, i, st, d);
    AtIn(src, i, d);
    var st' := st.(val := ValueIn(d, 16), seen := |d|);
    ReadQuad(src, i + |d|, st', b);
    FinishIs(st'.(out := st.out + b, seen := 0));
  }

  lemma ReadQuad(src: string, i: nat, st: State6, b: seq<Byte>)
    requires At(src, i, ".") && Sound6(st, i) && |st.out| + 4 <= 16 && Parse4(src[st.tok..]) == Some(b)
    ensures Run6(src, i, st) == Finish(st.(out := st.out + b, seen := 0))
  {
    assert src[i] == src[i..i + 1][0];
    assert HexValue('.').None?;
  }

  /** The parts after which the text ends. */
  lemma RunParts(src: string, i: nat, st: State6, gs: seq<string>, quad: Option<seq<Byte>>)
    requires AllGroups(gs) && IsQuad(quad) && At(src, i, Join(Parts(gs, quad)))
    requires i + |Join(Parts(gs, quad))| == |src| && Fresh(st) && Sound6(st, i) && st.tok == i
    requires |st.out| + |PartBytes(gs, quad)| <= 16
    ensures Run6(src, i, st) == Ended(st.out + PartBytes(gs, quad), st.colon)
  {
    hide At, Run6, Join, Lead, Ended, Finish, Text4, GroupBytes, AllGroups;
    if quad.Some? {
      GroupsThenQuad(src, i, st, gs, quad.value);
      assert st.out + GroupBytes(gs) + quad.value == st.out + (GroupBytes(gs) + quad.value);
    } else {
      assert GroupBytes(gs) + [] == GroupBytes(gs);
      RunGroups(src, i, st, gs);
    }
  }

  lemma GroupsThenQuad(src: string, i: nat, st: State6, gs: seq<string>, b: seq<Byte>)
    requires AllGroups(gs) && |b| == 4 && At(src, i, Join(gs + [Text4(b)])) && i + |Join(gs + [Text4(b)])| == |src|
    requires Fresh(st) && Sound6(st, i) && st.tok == i && |st.out| + 2 * |gs| + 4 <= 16
    ensures Run6(src, i, st) == Ended(st.out + GroupBytes(gs) + b, st.colon)
  {
    hide At, Run6, Join, Lead, Ended, Finish, Text4, GroupBytes, AllGroups;
    var q := Text4(b);
    QuadText(b);
    JoinSnoc(gs, q);
    AtBoth(src, i, Lead(gs), q);
    RunLead(src, i, st, gs);
    var j := i + |Lead(gs)|;
    RunQuad(src, j, State6(st.out + GroupBytes(gs), st.colon, 0, 0, j), b);
  }

  lemma QuadText(b: seq<Byte>)
    requires |b| == 4
    ensures Text4(b) != "" && IsHexit(Text4(b)[0])
  {
    NumeralMeans(b[0], 10);
  }

  lemma RunGroups(src: string, i: nat, st: State6, gs: seq<string>)
    requires AllGroups(gs) && At(src, i, Join(gs)) && i + |Join(gs)| == |src|
    requires Fresh(st) && Sound6(st, i) && st.tok == i && |st.out| + 2 * |gs| <= 16
    ensures Run6(src, i, st) == Ended(st.out + GroupBytes(gs), st.colon)
  {
    hide At, Run6, Lead, Ended, Finish, GroupBytes, Join, Hexits;
    if gs == [] {
      NoLead();
      RunEnd(src, st);
      FinishIs(st);
      assert st.out + GroupBytes(gs) == st.out;
    } else {
      var h, g := gs[..|gs| - 1], gs[|gs| - 1];
      assert gs == h + [g];
      JoinSnoc(h, g);
      GroupBytesSnoc(h, g);
      AtBoth(src, i, Lead(h), g);
      RunLead(src, i, st, h);
      var j := i + |Lead(h)|;
      var st1 := State6(st.out + GroupBytes(h), st.colon, 0, 0, j);
      RunHexits(src, j, st1, g);
      var st2 := st1.(val := ValueIn(g, 16), seen := |g|);
      RunEnd(src, st2);
      FinishIs(st2);
      assert st.out + GroupBytes(h) + Pair(ValueIn(g, 16)) == st.out + (GroupBytes(h) + Pair(ValueIn(g, 16)));
    }
  }

  lemma {:induction false} JoinStart(ps: seq<string>)
    requires ps != [] && ps[0] != "" && IsHexit(ps[0][0])
    ensures Join(ps) != "" && Join(ps)[0] != ':'
  {
    HexitAt(ps[0][0]);
    if |ps| > 1 {
      JoinStart(ps[..|ps| - 1]);
    }
  }

  lemma PartsStart(gs: seq<string>, quad: Option<seq<Byte>>)
    requires AllGroups(gs) && IsQuad(quad) && PartBytes(gs, quad) != []
    ensures Join(Parts(gs, quad)) != "" && Join(Parts(gs, quad))[0] != ':'
  {
    if quad.Some? {
      QuadText(quad.value);
    }
    JoinStart(Parts(gs, quad));
  }

  lemma GroupsStart(gs: seq<string>)
    requires AllGroups(gs) && gs != []
    ensures Join(gs) != "" && Join(gs)[0] != ':'
  {
    JoinStart(gs);
  }

  lemma AtWhole(src: string)
    ensures At(src, 0, src)
  {}

  /** Every spelling of an address is read as that address. */
  lemma SpellingIsRead(a: Address)
    requires WellFormed(a)
    ensures Parse6(Spelled(a)) == Some(Denoted(a))
  {
    match a
    case Full(gs, quad) =>
      hide Run6, Join, GroupBytes, AllGroups;
      var src := Join(Parts(gs, quad));
      PartsStart(gs, quad);
      AtWhole(src);
      RunParts(src, 0, State6([], None, 0, 0, 0), gs, quad);
      assert [] + PartBytes(gs, quad) == PartBytes(gs, quad);
    case Short(before, gs, quad) =>
      ShortIsRead(before, gs, quad);
  }

  lemma ShortIsRead(before: seq<string>, gs: seq<string>, quad: Option<seq<Byte>>)
    requires var a := Short(before, gs, quad); WellFormed(a)
    ensures var a := Short(before, gs, quad); Parse6(Spelled(a)) == Some(Denoted(a))
  {
    hide Run6, Join, GroupBytes, AllGroups, PartBytes, At, Lead, Finish;
    var back := Join(Parts(gs, quad));
    var src := Join(before) + "::" + back;
    ShortPlaces(before, back);
    var n := |Join(before)|;
    if before == [] {
      NoLead();
      RunDouble(src, 1, State6([], None, 0, 0, 1));
    } else {
      GroupsStart(before);
      RunLead(src, 0, State6([], None, 0, 0, 0), before);
      assert [] + GroupBytes(before) == GroupBytes(before);
      RunDouble(src, n + 1, State6(GroupBytes(before), None, 0, 0, n + 1));
    }
    var front := GroupBytes(before);
    RunParts(src, n + 2, State6(front, Some(|front|), 0, 0, n + 2), gs, quad);
    EndedShort(front, PartBytes(gs, quad));
  }

  lemma ShortPlaces(before: seq<string>, back: string)
    ensures var src := Join(before) + "::" + back;
      && (before == [] ==> Join(before) == "" && src[0] == ':' && src[1] == ':')
      && (before != [] ==> At(src, 0, Lead(before)) && |Lead(before)| == |Join(before)| + 1)
      && (Join(before) != "" ==> src[0] == Join(before)[0])
      && At(src, |Join(before)| + 1, ":") && At(src, |Join(before)| + 2, back)
  {}

  lemma EndedShort(front: seq<Byte>, back: seq<Byte>)
    requires |front| + |back| < 16
    ensures Ended(front + back, Some(|front|)) == Some(front + ZeroBytes(16 - |front| - |back|) + back)
  {}

  // ----- only spellings are read -----

  /** The state after i characters stands for them: the groups before and after
      the "::", and the digits of the group being read. */
  ghost predicate Means6(src: string, i: nat, st: State6, before: seq<string>, after: seq<string>) {
    && i <= |src| && Sound6(st, i) && AllGroups(before) && AllGroups(after)
    && st.tok + st.seen == i && st.seen <= 4
    && Hexits(src[st.tok..i]) && st.val == ValueIn(src[st.tok..i], 16)
    && st.out == GroupBytes(before) + GroupBytes(after)
    && Front(src[..st.tok], st.colon, before, after)
    && (st.colon.None? ==> src != "" ==> src[0] != ':')
    && (st.tok == |src| ==> after == [] && (st.colon.None? ==> before == []))
  }

  /** The text before the group being read. */
  predicate Front(text: string, colon: Option<nat>, before: seq<string>, after: seq<string>) {
    match colon
    case None => after == [] && text == Lead(before)
    case Some(c) => c == 2 * |before| && text == Join(before) + "::" + Lead(after)
  }

  lemma DigitMeans(src: string, i: nat, st: State6, before: seq<string>, after: seq<string>)
    requires Means6(src, i, st, before, after) && i < |src| && HexValue(src[i]).Some? && st.seen + 1 <= 4
    ensures Means6(src, i + 1, st.(val := st.val * 16 + HexValue(src[i]).value, seen := st.seen + 1), before, after)
  {
    hide Front, AllGroups, GroupBytes, HexValue, IsHexit, ValueIn, Hexits;
    HexitAt(src[i]);
    var g := src[st.tok..i + 1];
    assert g == src[st.tok..i] + [src[i]];
    ValueOn(src[st.tok..i], src[i]);
  }

  lemma ValueOn(s: string, c: char)
    requires Hexits(s) && IsHexit(c)
    ensures Hexits(s + [c]) && ValueIn(s + [c], 16) == ValueIn(s, 16) * 16 + HexitValue(c)
  {
    ValueSnoc(s, c, HexitValue(c), 16);
  }

  lemma DoubleMeans(src: string, i: nat, st: State6, before: seq<string>, after: seq<string>)
    requires Means6(src, i, st, before, after) && i < |src| && src[i] == ':' && st.seen == 0 && st.colon.None?
    ensures Means6(src, i + 1, st.(tok := i + 1, colon := Some(|st.out|)), before, after)
  {
    hide Hexits, ValueIn, Join;
    assert src[..i + 1] == src[..i] + ":";
    assert src[i + 1..i + 1] == src[st.tok..i];
    NoLead();
    assert |src[..i]| == i;
    assert before != [];
    assert Lead(before) + ":" == Join(before) + "::" + "";
  }

  lemma ColonMeans(src: string, i: nat, st: State6, before: seq<string>, after: seq<string>)
    returns (before': seq<string>, after': seq<string>)
    requires Means6(src, i, st, before, after) && i + 1 < |src| && src[i] == ':' && st.seen > 0 && |st.out| + 2 <= 16
    ensures Means6(src, i + 1, State6(Flush(st), st.colon, 0, 0, i + 1), before', after')
  {
    hide Hexits, ValueIn, Join, Lead, GroupBytes, Pair;
    var g := src[st.tok..i];
    assert Group(g);
    EmptyGroup(src, i + 1);
    assert src[..i + 1] == src[..st.tok] + g + ":";
    if st.colon.None? {
      before', after' := before + [g], after;
      JoinSnoc(before, g);
      GroupBytesSnoc(before, g);
      NoLead();
    } else {
      before', after' := before, after + [g];
      JoinSnoc(after, g);
      GroupBytesSnoc(after, g);
      assert Join(before) + "::" + Lead(after) + g + ":" == Join(before) + "::" + (Lead(after) + g + ":");
    }
    assert Flush(st) == GroupBytes(before') + GroupBytes(after');
  }

  lemma EmptyGroup(src: string, i: nat)
    requires i <= |src|
    ensures Hexits(src[i..i]) && ValueIn(src[i..i], 16) == 0
  {}

  function Made(colon: Option<nat>, before: seq<string>, gs: seq<string>, quad: Option<seq<Byte>>): Address {
    if colon.None? then Full(gs, quad) else Short(before, gs, quad)
  }

  lemma MadeIs(src: string, colon: Option<nat>, before: seq<string>, gs: seq<string>, quad: Option<seq<Byte>>,
               out: seq<Byte>)
    requires AllGroups(before) && AllGroups(gs) && IsQuad(quad) && (colon.Some? ==> colon.value == 2 * |before|)
    requires out == (if colon.None? then [] else GroupBytes(before)) + PartBytes(gs, quad)
    requires src == (if colon.None? then "" else Join(before) + "::") + Join(Parts(gs, quad))
    requires Ended(out, colon).Some?
    ensures var a := Made(colon, before, gs, quad);
      WellFormed(a) && Spelled(a) == src && Ended(out, colon) == Some(Denoted(a))
  {
    hide Join, GroupBytes, Parts, AllGroups, PartBytes;
    if colon.None? {
      assert out == PartBytes(gs, quad);
    } else {
      assert out[..colon.value] == GroupBytes(before);
    }
  }

  lemma EndMeans(src: string, st: State6, before: seq<string>, after: seq<string>) returns (a: Address)
    requires Sound6(st, |src|) && Means6(src, |src|, st, before, after) && Finish(st).Some?
    ensures WellFormed(a) && Spelled(a) == src && Finish(st) == Some(Denoted(a))
  {
    hide Hexits, ValueIn, Join, Lead, GroupBytes, Pair, Ended, Finish;
    FinishIs(st);
    var gs := if st.colon.None? then before else after;
    var g := src[st.tok..];
    assert src == src[..st.tok] + g;
    NoLead();
    if st.seen > 0 {
      assert src[st.tok..|src|] == g;
      JoinSnoc(gs, g);
      GroupBytesSnoc(gs, g);
      gs := gs + [g];
    }
    a := Made(st.colon, before, gs, None);
    assert GroupBytes(gs) + [] == GroupBytes(gs);
    MadeIs(src, st.colon, before, gs, None, Flush(st));
  }

  lemma QuadMeans(src: string, i: nat, st: State6, before: seq<string>, after: seq<string>) returns (a: Address)
    requires i < |src| && Sound6(st, i) && Means6(src, i, st, before, after) && Run6(src, i, st).Some?
    requires HexValue(src[i]).None? && src[i] != ':'
    ensures WellFormed(a) && Spelled(a) == src && Run6(src, i, st) == Some(Denoted(a))
  {
    hide Hexits, ValueIn, Join, Lead, GroupBytes, Pair, Ended, Finish, Parse4, Text4;
    var q := Parse4(src[st.tok..]).value;
    Parse4Iff(src[st.tok..], q);
    var gs := if st.colon.None? then before else after;
    a := Made(st.colon, before, gs, Some(q));
    assert src == src[..st.tok] + src[st.tok..];
    JoinSnoc(gs, Text4(q));
    FinishIs(st.(out := st.out + q, seen := 0));
    MadeIs(src, st.colon, before, gs, Some(q), st.out + q);
  }

  /** What was read spells what is returned. */
  lemma {:induction false} RunMeans(src: string, i: nat, st: State6, before: seq<string>, after: seq<string>)
    returns (a: Address)
    requires i <= |src| && Sound6(st, i) && Means6(src, i, st, before, after) && Run6(src, i, st).Some?
    ensures WellFormed(a) && Spelled(a) == src && Run6(src, i, st) == Some(Denoted(a))
    decreases |src| - i
  {
    hide Means6, WellFormed, Spelled, Denoted, HexValue, Finish, Parse4;
    if i == |src| {
      a := EndMeans(src, st, before, after);
    } else if HexValue(src[i]).Some? {
      DigitMeans(src, i, st, before, after);
      a := RunMeans(src, i + 1, st.(val := st.val * 16 + HexValue(src[i]).value, seen := st.seen + 1), before, after);
    } else if src[i] == ':' {
      if st.seen == 0 {
        DoubleMeans(src, i, st, before, after);
        a := RunMeans(src, i + 1, st.(tok := i + 1, colon := Some(|st.out|)), before, after);
      } else {
        var b', a' := ColonMeans(src, i, st, before, after);
        a := RunMeans(src, i + 1, State6(Flush(st), st.colon, 0, 0, i + 1), b', a');
      }
    } else {
      a := QuadMeans(src, i, st, before, after);
    }
  }

  lemma OnlySpellings(src: string) returns (a: Address)
    requires Parse6(src).Some?
    ensures WellFormed(a) && Spelled(a) == src && Parse6(src) == Some(Denoted(a))
  {
    hide Run6, Parse6, Means6, WellFormed, Spelled, Denoted;
    Start(src);
    if src == "" || src[0] != ':' {
      StartMeans(src);
      a := RunMeans(src, 0, State6([], None, 0, 0, 0), [], []);
    } else {
      StartShortMeans(src);
      a := RunMeans(src, 2, State6([], Some(0), 0, 0, 2), [], []);
    }
  }

  lemma Start(src: string)
    ensures src == "" || src[0] != ':' ==> Parse6(src) == Run6(src, 0, State6([], None, 0, 0, 0))
    ensures src != "" && src[0] == ':' && Parse6(src).Some? ==>
      |src| >= 2 && src[1] == ':' && Parse6(src) == Run6(src, 2, State6([], Some(0), 0, 0, 2))
  {
    hide Run6;
    if |src| >= 2 && src[0] == ':' && src[1] == ':' {
      assert At(src, 1, ":") by { assert src[1..2] == ":"; }
      RunDouble(src, 1, State6([], None, 0, 0, 1));
    }
  }

  lemma StartMeans(src: string)
    requires src == "" || src[0] != ':'
    ensures Means6(src, 0, State6([], None, 0, 0, 0), [], [])
  {}

  lemma StartShortMeans(src: string)
    requires |src| >= 2 && src[0] == ':' && src[1] == ':'
    ensures Means6(src, 2, State6([], Some(0), 0, 0, 2), [], [])
  {
    EmptyGroup(src, 2);
    NoLead();
    assert src[..2] == "::";
    assert "" + "::" + "" == "::";
  }

  ghost predicate Denotes(src: string, b: seq<Byte>) {
    exists a :: WellFormed(a) && Spelled(a) == src && Denoted(a) == b
  }

  /** What inet_pton6 accepts and returns. */
  lemma Parse6Iff(src: string, b: seq<Byte>)
    ensures Parse6(src) == Some(b) <==> Denotes(src, b)
  {
    hide Parse6, Spelled, Denoted;
    if Parse6(src) == Some(b) {
      var a := OnlySpellings(src);
    }
    if Denotes(src, b) {
      var a :| WellFormed(a) && Spelled(a) == src && Denoted(a) == b;
      SpellingIsRead(a);
    }
  }
}
