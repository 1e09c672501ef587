/** The writers of inet.c, which print internet addresses, and what becomes of
    the printed text when it is read. */
module InternetAddresses {
  import opened Bytes
  import opened Powers
  import opened AddressReaders
  import opened AddressGrammar

  type Word = x: nat | x < 65536

  function Hex(w: Word): string {
    Numeral(w, 16)
  }

  lemma HexLength(w: Word)
    ensures 1 <= |Hex(w)| <= 4
  {
    if w >= 16 {
      NumeralStep(w, 16);
      if w / 16 >= 16 {
        NumeralStep(w / 16, 16);
        if w / 16 / 16 >= 16 {
          NumeralStep(w / 16 / 16, 16);
        }
      }
    }
  }

  // ----- writing an IPv6 address -----

  function WordsOf(b: seq<Byte>): (ws: seq<Word>)
    requires |b| == 16
    ensures |ws| == 8
  {
    seq(8, i requires 0 <= i < 8 => WordAt(b, i))
  }

  function WordAt(b: seq<Byte>, i: nat): Word
    requires 2 * i + 1 < |b|
  {
    var hi: int, lo: int := b[2 * i], b[2 * i + 1];
    hi * 256 + lo
  }

  function BytesOf(ws: seq<Word>): (b: seq<Byte>)
    ensures |b| == 2 * |ws|
  {
    if ws == [] then [] else Pair(ws[0]) + BytesOf(ws[1..])
  }

  /** ":" and its digits for each group. */
  function Colons(ws: seq<Word>): string {
    if ws == [] then "" else ":" + Hex(ws[0]) + Colons(ws[1..])
  }

  /** The groups, with ":" between them. */
  function Groups(ws: seq<Word>): string {
    if ws == [] then "" else Hex(ws[0]) + Colons(ws[1..])
  }

  predicate ZeroRun(ws: seq<Word>, base: int, len: int) {
    0 <= base && 1 <= len && base + len <= |ws| && forall k :: base <= k < base + len ==> ws[k] == 0
  }

  /** The run at base beats the other one: longer, or as long and not later. */
  predicate Beats(base: int, len: int, b: int, n: int) {
    base != -1 && (n < len || (n == len && base <= b))
  }

  /** The run that "::" stands for (section 2.2 of RFC 4291): the first of the
      longest runs of two or more zero groups; none is marked by -1. */
  ghost predicate IsBest(ws: seq<Word>, base: int, len: int) {
    if base == -1 then forall b, n :: ZeroRun(ws, b, n) ==> n < 2
    else len >= 2 && ZeroRun(ws, base, len) && forall b, n :: ZeroRun(ws, b, n) ==> Beats(base, len, b, n)
  }

  method BestRun(ws: seq<Word>) returns (base: int, len: int)
    ensures IsBest(ws, base, len)
  {
    base, len := -1, 0;
    var curBase, curLen := -1, 0;
    for i := 0 to |ws|
      invariant base == -1 || ZeroRun(ws, base, len)
      invariant curBase == -1 || (ZeroRun(ws, curBase, curLen) && curBase + curLen == i)
      invariant base < i && (curBase != -1 ==> base < curBase)
      invariant curBase > 0 ==> ws[curBase - 1] != 0
      invariant curBase == -1 && i > 0 ==> ws[i - 1] != 0
      invariant var end := if curBase == -1 then i else curBase;
        forall b, n :: ZeroRun(ws, b, n) && b + n <= end ==> Beats(base, len, b, n)
    {
      if ws[i] == 0 {
        if curBase == -1 {
          curBase, curLen := i, 1;
        } else {
          curLen := curLen + 1;
        }
      } else {
        if curBase != -1 {
          ghost var base0, len0 := base, len;
          if base == -1 || curLen > len {
            base, len := curBase, curLen;
          }
          Closed(ws, curBase, curLen, base0, len0, base, len);
          curBase := -1;
        }
        UpToHere(ws, i, base, len);
      }
    }
    if curBase != -1 {
      ghost var base0, len0 := base, len;
      if base == -1 || curLen > len {
        base, len := curBase, curLen;
      }
      Closed(ws, curBase, curLen, base0, len0, base, len);
    }
    if base != -1 && len < 2 {
      base := -1;
    }
  }

  /** A run that ends by the end of the current one lies before or inside it. */
  lemma Closed(ws: seq<Word>, cur: int, curLen: int, base0: int, len0: int, base: int, len: int)
    requires ZeroRun(ws, cur, curLen) && (cur > 0 ==> ws[cur - 1] != 0)
    requires forall b, n :: ZeroRun(ws, b, n) && b + n <= cur ==> Beats(base0, len0, b, n)
    requires base0 == -1 || ZeroRun(ws, base0, len0)
    requires base0 == -1 || base0 < cur
    requires if base0 == -1 || curLen > len0 then base == cur && len == curLen else base == base0 && len == len0
    ensures forall b, n :: ZeroRun(ws, b, n) && b + n <= cur + curLen ==> Beats(base, len, b, n)
  {
    forall b, n | ZeroRun(ws, b, n) && b + n <= cur + curLen
      ensures Beats(base, len, b, n)
    {
      if b < cur {
        assert Beats(base0, len0, b, n);
      }
    }
  }

  lemma UpToHere(ws: seq<Word>, i: nat, base: int, len: int)
    requires i < |ws| && ws[i] != 0
    requires forall b, n :: ZeroRun(ws, b, n) && b + n <= i ==> Beats(base, len, b, n)
    ensures forall b, n :: ZeroRun(ws, b, n) && b + n <= i + 1 ==> Beats(base, len, b, n)
  {
    forall b, n | ZeroRun(ws, b, n) && b + n <= i + 1
      ensures Beats(base, len, b, n)
    {
      assert b + n <= i;
    }
  }

  /** Shown with the last four bytes in decimal. */
  predicate Embedded(ws: seq<Word>, base: int, len: int)
    requires |ws| == 8
  {
    base == 0 && (len == 6 || (len == 5 && ws[5] == 0xffff))
  }

  /** The text for an address whose run of zeros is at base; the last four bytes
      are in decimal after five zero groups and ffff, or after six. */
  function Text6(b: seq<Byte>, base: int, len: int): string
    requires |b| == 16 && (base == -1 || (0 <= base && 2 <= len && base + len <= 8))
  {
    var ws := WordsOf(b);
    if base == -1 then Groups(ws)
    else if Embedded(ws, base, len) then
      if len == 6 then "::" + Text4(b[12..]) else "::" + Hex(0xffff) + ":" + Text4(b[12..])
    else Groups(ws[..base]) + "::" + Groups(ws[base + len..])
  }

  /** The text after i rounds of the loop of inet_ntop6. */
  function Written(ws: seq<Word>, base: int, len: int, i: nat): string
    requires i <= |ws| && (base == -1 || (0 <= base && 2 <= len && base + len <= |ws|))
  {
    if base == -1 || i <= base then Groups(ws[..i])
    else if i <= base + len then Groups(ws[..base]) + ":"
    else Groups(ws[..base]) + ":" + Colons(ws[base + len..i])
  }

  lemma {:induction false} ColonsSnoc(ws: seq<Word>, w: Word)
    ensures Colons(ws + [w]) == Colons(ws) + (":" + Hex(w))
  {
    if ws == [] {
      assert ws + [w] == [w] && [w][1..] == [];
      assert Colons([w]) == ":" + Hex(w) + Colons([]);
    } else {
      assert (ws + [w])[1..] == ws[1..] + [w];
      ColonsSnoc(ws[1..], w);
    }
  }

  lemma GroupsSnoc(ws: seq<Word>, w: Word)
    ensures Groups(ws + [w]) == if ws == [] then Hex(w) else Groups(ws) + (":" + Hex(w))
  {
    if ws == [] {
      assert ws + [w] == [w] && [w][1..] == [];
    } else {
      assert (ws + [w])[1..] == ws[1..] + [w];
      ColonsSnoc(ws[1..], w);
    }
  }

  lemma {:induction false} ColonsLength(ws: seq<Word>)
    ensures |Colons(ws)| <= 5 * |ws|
  {
    if ws != [] {
      HexLength(ws[0]);
      ColonsLength(ws[1..]);
    }
  }

  lemma GroupsLength(ws: seq<Word>)
    ensures |Groups(ws)| <= 5 * |ws|
  {
    if ws != [] {
      HexLength(ws[0]);
      ColonsLength(ws[1..]);
    }
  }

  /** One round: what is written and that it stays in the buffer. */
  lemma Round(ws: seq<Word>, base: int, len: int, i: nat)
    requires |ws| == 8 && i < 8 && (base == -1 || (0 <= base && 2 <= len && base + len <= 8))
    ensures Written(ws, base, len, i + 1) == Written(ws, base, len, i) +
      if base != -1 && base <= i < base + len then if i == base then ":" else ""
      else if i != 0 then ":" + Hex(ws[i]) else Hex(ws[i])
  {
    hide Groups, Colons, Hex;
    if base == -1 || i < base {
      assert ws[..i + 1] == ws[..i] + [ws[i]];
      GroupsSnoc(ws[..i], ws[i]);
      NoGroups(ws[..i]);
      Empty(Hex(ws[i]));
    } else if i < base + len {
      Empty(Written(ws, base, len, i));
    } else {
      assert ws[base + len..i + 1] == ws[base + len..i] + [ws[i]];
      ColonsSnoc(ws[base + len..i], ws[i]);
      RoundAfter(ws, base, len, i);
    }
  }

  lemma Empty(s: string)
    ensures s + "" == s && "" + s == s
  {}

  lemma RoundAfter(ws: seq<Word>, base: int, len: int, i: nat)
    requires |ws| == 8 && i < 8 && 0 <= base && 2 <= len && base + len <= i
    requires Colons(ws[base + len..i + 1]) == Colons(ws[base + len..i]) + (":" + Hex(ws[i]))
    ensures Written(ws, base, len, i + 1) == Written(ws, base, len, i) + (":" + Hex(ws[i]))
  {
    hide Groups, Colons, Hex;
    var g, c, h := Groups(ws[..base]) + ":", Colons(ws[base + len..i]), ":" + Hex(ws[i]);
    ThreeWay(g, c, h);
    if i == base + len {
      ColonFirst(ws[base + len..i]);
      Empty(g);
    }
  }

  lemma ThreeWay(g: string, c: string, h: string)
    ensures g + (c + h) == g + c + h
  {}

  lemma NothingWritten(ws: seq<Word>, base: int, len: int)
    requires |ws| == 8 && (base == -1 || (0 <= base && 2 <= len && base + len <= 8))
    ensures Written(ws, base, len, 0) == ""
  {}

  lemma WrittenLength(ws: seq<Word>, base: int, len: int, i: nat)
    requires |ws| == 8 && i <= 8 && (base == -1 || (0 <= base && 2 <= len && base + len <= 8))
    ensures |Written(ws, base, len, i)| <= 5 * i + 1
  {
    hide Groups, Colons;
    if base == -1 || i <= base {
      GroupsLength(ws[..i]);
    } else {
      GroupsLength(ws[..base]);
      if base + len < i {
        ColonsLength(ws[base + len..i]);
      }
    }
  }

  /** At the end of the loop, with the colon of a run at the end. */
  lemma AllWritten(b: seq<Byte>, base: int, len: int)
    requires |b| == 16 && (base == -1 || (0 <= base && 2 <= len && base + len <= 8))
    requires !Embedded(WordsOf(b), base, len)
    ensures var s := Written(WordsOf(b), base, len, 8);
      Text6(b, base, len) == if base != -1 && base + len == 8 then s + ":" else s
  {
    hide Groups, Colons;
    var ws := WordsOf(b);
    assert ws[..8] == ws;
    if base != -1 {
      assert ws[base + len..8] == ws[base + len..];
      ColonFirst(ws[base + len..]);
      Twice(Groups(ws[..base]), Groups(ws[base + len..]));
    }
  }

  lemma ColonFirst(ws: seq<Word>)
    ensures if ws == [] then Colons(ws) == Groups(ws) == "" else Colons(ws) == ":" + Groups(ws)
  {
    if ws != [] {
      assert ":" + Hex(ws[0]) + Colons(ws[1..]) == ":" + (Hex(ws[0]) + Colons(ws[1..]));
    }
  }

  lemma Twice(a: string, b: string)
    ensures a + ":" + (":" + b) == a + "::" + b && a + ":" + ":" == a + "::" + ""
  {}

  lemma NoGroups(ws: seq<Word>)
    ensures ws == [] ==> Groups(ws) == ""
  {}

  lemma EmbeddedWritten(b: seq<Byte>, base: int, len: int)
    requires |b| == 16 && Embedded(WordsOf(b), base, len)
    ensures (Written(WordsOf(b), base, len, 6) + ":") + Text4(b[12..]) == Text6(b, base, len)
    ensures |Written(WordsOf(b), base, len, 6)| <= 6 && |Text4(b[12..])| <= 15
  {
    var ws := WordsOf(b);
    if len == 5 {
      assert ws[5..6] == [ws[5]] && ws[5..6][1..] == [];
      assert Colons(ws[5..6]) == ":" + Hex(ws[5]) + Colons([]);
      HexLength(ws[5]);
    }
    DecimalLength(b[12]);
    DecimalLength(b[13]);
    DecimalLength(b[14]);
    DecimalLength(b[15]);
  }

  /** sprintf into the buffer, with the null it ends with. */
  method Print(tmp: array<char>, tp: nat, s: string) returns (tp': nat)
    requires tp + |s| < tmp.Length
    modifies tmp
    ensures tp' == tp + |s| && tmp[..tp'] == old(tmp[..tp]) + s
  {
    forall k | 0 <= k < |s| {
      tmp[tp + k] := s[k];
    }
    tp' := tp + |s|;
    tmp[tp'] := '\0';
  }

  // ----- groups and bytes -----

  lemma {:induction false} BytesAt(ws: seq<Word>, i: nat)
    requires i < |ws|
    ensures BytesOf(ws)[2 * i] == ws[i] / 256 && BytesOf(ws)[2 * i + 1] == ws[i] % 256
  {
    if i > 0 {
      BytesAt(ws[1..], i - 1);
    }
  }

  lemma BytesOfWords(b: seq<Byte>)
    requires |b| == 16
    ensures BytesOf(WordsOf(b)) == b
  {
    hide BytesOf, WordAt;
    var ws := WordsOf(b);
    forall k | 0 <= k < 16
      ensures BytesOf(ws)[k] == b[k]
    {
      BytesAt(ws, k / 2);
      Halves(b, k / 2);
    }
  }

  lemma Halves(b: seq<Byte>, i: nat)
    requires 2 * i + 1 < |b|
    ensures WordAt(b, i) / 256 == b[2 * i] && WordAt(b, i) % 256 == b[2 * i + 1]
  {}

  lemma {:induction false} BytesAppend(a: seq<Word>, b: seq<Word>)
    ensures BytesOf(a + b) == BytesOf(a) + BytesOf(b)
  {
    if a == [] {
      assert a + b == b;
    } else {
      assert (a + b)[1..] == a[1..] + b;
      BytesAppend(a[1..], b);
    }
  }

  lemma {:induction false} ZeroWords(ws: seq<Word>)
    requires forall k :: 0 <= k < |ws| ==> ws[k] == 0
    ensures BytesOf(ws) == ZeroBytes(2 * |ws|)
  {
    if ws != [] {
      ZeroWords(ws[1..]);
      assert ZeroBytes(2 * |ws|) == [0, 0] + ZeroBytes(2 * |ws[1..]|);
    }
  }

  /** The bytes with a run of zeros cut out are spread to where they were. */
  lemma SpreadBack(b: seq<Byte>, base: nat, len: nat)
    requires |b| == 16 && ZeroRun(WordsOf(b), base, len)
    ensures var ws := WordsOf(b); Spread(BytesOf(ws[..base]) + BytesOf(ws[base + len..]), 2 * base) == b
  {
    hide BytesOf, WordsOf;
    var ws := WordsOf(b);
    var pre, mid, rest := ws[..base], ws[base..base + len], ws[base + len..];
    BytesOfWords(b);
    assert ws == pre + mid + rest;
    BytesAppend(pre + mid, rest);
    BytesAppend(pre, mid);
    ZeroWords(mid);
  }

  // ----- the text as a spelling -----

  /** The groups as "%x" prints them. */
  function HexParts(ws: seq<Word>): (ps: seq<string>)
    ensures |ps| == |ws|
  {
    seq(|ws|, i requires 0 <= i < |ws| => Hex(ws[i]))
  }

  lemma HexGroup(w: Word)
    ensures Group(Hex(w)) && ValueIn(Hex(w), 16) == w
  {
    HexLength(w);
    NumeralMeans(w, 16);
  }

  lemma HexPartsSnoc(ws: seq<Word>, w: Word)
    ensures HexParts(ws + [w]) == HexParts(ws) + [Hex(w)]
  {}

  lemma {:induction false} GroupsSpell(ws: seq<Word>)
    ensures Groups(ws) == Join(HexParts(ws)) && AllGroups(HexParts(ws)) && GroupBytes(HexParts(ws)) == BytesOf(ws)
  {
    hide Groups, HexParts, Hex, Join, GroupBytes, BytesOf, ValueIn, Pair;
    if ws == [] {
      NoParts();
    } else {
      var h, w := ws[..|ws| - 1], ws[|ws| - 1];
      assert ws == h + [w];
      GroupsSpell(h);
      GroupsSnoc(h, w);
      HexPartsSnoc(h, w);
      HexGroup(w);
      JoinSnoc(HexParts(h), Hex(w));
      GroupBytesSnoc(HexParts(h), Hex(w));
      BytesAppend(h, [w]);
      OneWord(w);
      if h == [] {
        NoParts();
        Empty(Hex(w));
      } else {
        assert Groups(h) + (":" + Hex(w)) == Groups(h) + ":" + Hex(w);
      }
    }
  }

  lemma NoParts()
    ensures HexParts([]) == [] && Groups([]) == Join([]) == Lead([]) == "" && GroupBytes([]) == BytesOf([]) == []
  {}

  lemma OneWord(w: Word)
    ensures BytesOf([w]) == Pair(w)
  {
    assert [w][1..] == [] && BytesOf([w]) == Pair(w) + BytesOf([]);
  }

  // ----- which addresses end in decimal -----

  predicate Lacks(s: string, c: char) {
    forall k :: 0 <= k < |s| ==> s[k] != c
  }

  lemma NumeralLacks(n: nat, base: nat, c: char)
    requires 2 <= base <= 16 && c !in "0123456789abcdef"
    ensures Lacks(Numeral(n, base), c)
  {
    NumeralMeans(n, base);
    hide Numeral, Hexits, ValueIn;
    assert c !in "0123456789abcdef"[..base];
  }

  lemma {:induction false} ColonsLack(ws: seq<Word>, c: char)
    requires c !in "0123456789abcdef:"
    ensures Lacks(Colons(ws), c)
  {
    if ws != [] {
      NumeralLacks(ws[0], 16, c);
      ColonsLack(ws[1..], c);
    }
  }

  lemma GroupsLack(ws: seq<Word>, c: char)
    requires c !in "0123456789abcdef:"
    ensures Lacks(Groups(ws), c)
  {
    if ws != [] {
      NumeralLacks(ws[0], 16, c);
      ColonsLack(ws[1..], c);
    }
  }

  /** Five zero groups and ffff, or just six zero groups. */
  predicate Embeds(b: seq<Byte>)
    requires |b| == 16
  {
    && (forall i :: 0 <= i < 10 ==> b[i] == 0)
    && ((b[10] == 255 && b[11] == 255) || (b[10] == 0 && b[11] == 0 && !(b[12] == 0 && b[13] == 0)))
  }

  lemma WordParts(b: seq<Byte>, i: nat)
    requires |b| == 16 && i < 8
    ensures WordsOf(b)[i] == 0 <==> b[2 * i] == 0 && b[2 * i + 1] == 0
    ensures WordsOf(b)[i] == 0xffff <==> b[2 * i] == 255 && b[2 * i + 1] == 255
  {}

  lemma EmbedsWords(b: seq<Byte>)
    requires |b| == 16
    ensures var ws := WordsOf(b);
      (Embeds(b) <==> (forall i :: 0 <= i < 5 ==> ws[i] == 0) && (ws[5] == 0xffff || (ws[5] == 0 && ws[6] != 0)))
  {
    hide WordsOf;
    WordParts(b, 0);
    WordParts(b, 1);
    WordParts(b, 2);
    WordParts(b, 3);
    WordParts(b, 4);
    WordParts(b, 5);
    WordParts(b, 6);
  }

  lemma EmbeddedIff(ws: seq<Word>, base: int, len: int)
    requires |ws| == 8 && IsBest(ws, base, len)
    ensures (Embedded(ws, base, len) <==>
      (forall i :: 0 <= i < 5 ==> ws[i] == 0) && (ws[5] == 0xffff || (ws[5] == 0 && ws[6] != 0)))
  {
    if Embedded(ws, base, len) && len == 6 && ws[6] == 0 {
      assert ZeroRun(ws, 0, 7);
    }
    if (forall i :: 0 <= i < 5 ==> ws[i] == 0) && (ws[5] == 0xffff || (ws[5] == 0 && ws[6] != 0)) {
      assert ZeroRun(ws, 0, if ws[5] == 0 then 6 else 5);
      assert Beats(base, len, 0, if ws[5] == 0 then 6 else 5);
      assert ws[base] == 0 && ws[base + len - 1] == 0;
    }
  }

  lemma FourFs()
    ensures Hex(0xffff) == "ffff"
  {
    NumeralStep(0xffff, 16);
    NumeralStep(0xfff, 16);
    NumeralStep(0xff, 16);
    assert Numeral(0xf, 16) == "f";
  }

  /** Only those addresses are printed with a dot, and how. */
  lemma QuadIsShown(b: seq<Byte>, base: int, len: int)
    requires |b| == 16 && IsBest(WordsOf(b), base, len)
    ensures '.' in Text6(b, base, len) <==> Embeds(b)
    ensures Embeds(b) ==> Text6(b, base, len) == (if b[11] == 255 then "::ffff:" else "::") + Text4(b[12..])
  {
    hide Groups, Embeds, WordsOf, Hex, Decimal;
    var ws := WordsOf(b);
    EmbeddedIff(ws, base, len);
    EmbedsWords(b);
    if Embedded(ws, base, len) {
      WordParts(b, 5);
      FourFs();
      assert Text4(b[12..])[|Decimal(b[12])|] == '.';
    } else if base == -1 {
      GroupsLack(ws, '.');
    } else {
      GroupsLack(ws[..base], '.');
      GroupsLack(ws[base + len..], '.');
    }
  }

  // ----- the round trip -----

  lemma TextFits(b: seq<Byte>, base: int, len: int)
    requires |b| == 16 && IsBest(WordsOf(b), base, len)
    ensures |Text6(b, base, len)| + 1 <= 46
  {
    var ws := WordsOf(b);
    if base == -1 {
      HexLength(ws[0]);
      ColonsLength(ws[1..]);
    } else if Embedded(ws, base, len) {
      EmbeddedWritten(b, base, len);
    } else {
      GroupsLength(ws[..base]);
      GroupsLength(ws[base + len..]);
    }
  }

  /** As "%x" prints a number: small digits, and no zero in front. */
  predicate Printed(g: string) {
    SmallDigits(g, 16) && (|g| > 1 ==> g[0] != '0')
  }

  predicate AllPrinted(gs: seq<string>) {
    forall i :: 0 <= i < |gs| ==> Printed(gs[i])
  }

  lemma HexPrinted(w: Word)
    ensures Printed(Hex(w))
  {
    NumeralMeans(w, 16);
  }

  lemma PartsPrinted(ws: seq<Word>)
    ensures AllPrinted(HexParts(ws))
  {
    forall i | 0 <= i < |ws|
      ensures Printed(HexParts(ws)[i])
    {
      HexPrinted(ws[i]);
    }
  }

  lemma PlainSpelled(b: seq<Byte>) returns (a: Address)
    requires |b| == 16
    ensures WellFormed(a) && Spelled(a) == Groups(WordsOf(b)) && Denoted(a) == b
    ensures a.Full? && a.quad.None? && AllPrinted(a.groups)
  {
    hide Groups, BytesOf, WordsOf, HexParts, GroupBytes, AllPrinted;
    GroupsSpell(WordsOf(b));
    PartsPrinted(WordsOf(b));
    BytesOfWords(b);
    assert b + [] == b;
    a := Full(HexParts(WordsOf(b)), None);
  }

  lemma CompressedSpelled(b: seq<Byte>, base: nat, len: nat) returns (a: Address)
    requires |b| == 16 && ZeroRun(WordsOf(b), base, len)
    ensures WellFormed(a) && Denoted(a) == b && a.Short? && a.quad.None?
    ensures var ws := WordsOf(b); Spelled(a) == Groups(ws[..base]) + "::" + Groups(ws[base + len..])
    ensures AllPrinted(a.before) && AllPrinted(a.groups) && |a.before| == base && |a.groups| == 8 - base - len
  {
    hide Groups, BytesOf, WordsOf, HexParts, GroupBytes, AllPrinted;
    var ws := WordsOf(b);
    var pre, rest := ws[..base], ws[base + len..];
    GroupsSpell(pre);
    GroupsSpell(rest);
    PartsPrinted(pre);
    PartsPrinted(rest);
    SpreadBack(b, base, len);
    SpreadIs(BytesOf(pre), BytesOf(rest));
    assert BytesOf(rest) + [] == BytesOf(rest);
    a := Short(HexParts(pre), HexParts(rest), None);
  }

  lemma SpreadIs(front: seq<Byte>, back: seq<Byte>)
    requires |front| + |back| <= 16
    ensures Spread(front + back, |front|) == front + ZeroBytes(16 - |front| - |back|) + back
  {}

  lemma QuadSpelled(h: string, q: seq<Byte>)
    requires |q| == 4
    ensures Spelled(Short([], [], Some(q))) == "::" + Text4(q)
    ensures Spelled(Short([], [h], Some(q))) == "::" + h + ":" + Text4(q)
  {
    hide Text4;
    NoLead();
    JoinSnoc([], Text4(q));
    JoinSnoc([], h);
    JoinSnoc([h], Text4(q));
    assert [] + [h] == [h];
    assert "" + "::" + ("" + h + ":" + Text4(q)) == "::" + h + ":" + Text4(q);
  }

  lemma QuadDenoted(h: string, q: seq<Byte>)
    requires |q| == 4 && Group(h)
    ensures var a := Short([], [], Some(q)); WellFormed(a) && Denoted(a) == Spread(q, 0)
    ensures var a := Short([], [h], Some(q)); WellFormed(a) && Denoted(a) == Spread(Pair(ValueIn(h, 16)) + q, 0)
  {
    hide Hexits, ValueIn;
    NoLead();
    GroupBytesSnoc([], h);
    SpreadIs([], q);
    SpreadIs([], GroupBytes([h]) + q);
    assert [] + [h] == [h] && [] + Pair(ValueIn(h, 16)) == Pair(ValueIn(h, 16)) && [] + q == q;
  }

  lemma EmbeddedSpelled(b: seq<Byte>, len: int) returns (a: Address)
    requires |b| == 16 && ZeroRun(WordsOf(b), 0, len) && Embedded(WordsOf(b), 0, len)
    ensures WellFormed(a) && Spelled(a) == Text6(b, 0, len) && Denoted(a) == b && a.Short? && a.quad.Some?
    ensures a.before == [] && |a.groups| == 6 - len && AllPrinted(a.groups) && AllPrinted(a.before)
  {
    hide Text4, Hex, WellFormed, Spelled, Denoted, ValueIn, Spread, Printed;
    var h, q := Hex(0xffff), b[12..];
    EmbeddedBytes(b, len);
    HexGroup(0xffff);
    HexPrinted(0xffff);
    QuadSpelled(h, q);
    QuadDenoted(h, q);
    a := Short([], if len == 6 then [] else [h], Some(q));
  }

  lemma EmbeddedBytes(b: seq<Byte>, len: int)
    requires |b| == 16 && ZeroRun(WordsOf(b), 0, len) && Embedded(WordsOf(b), 0, len)
    ensures Spread(if len == 6 then b[12..] else Pair(0xffff) + b[12..], 0) == b
  {
    var ws := WordsOf(b);
    forall k | 0 <= k < 2 * len
      ensures b[k] == 0
    {
      assert ws[k / 2] == WordAt(b, k / 2);
    }
    if len == 5 {
      assert ws[5] == WordAt(b, 5);
      assert Pair(0xffff) == [b[10], b[11]];
    }
  }

  /** The printed text of an address spells it: in full when there is no run of
      zero groups, and otherwise with "::" for just that run; the groups are as
      "%x" prints them, and an IPv4 address ends exactly the texts of Embeds. */
  lemma TextSpells(b: seq<Byte>, base: int, len: int) returns (a: Address)
    requires |b| == 16 && IsBest(WordsOf(b), base, len)
    ensures WellFormed(a) && Spelled(a) == Text6(b, base, len) && Denoted(a) == b
    ensures (a.Full? <==> base == -1) && (a.quad.Some? <==> Embeds(b)) && AllPrinted(a.groups)
    ensures a.Short? ==> AllPrinted(a.before) && |a.before| == base
    ensures a.Short? ==> |a.groups| + (if a.quad.Some? then 2 else 0) == 8 - base - len
  {
    hide WordsOf, Groups, WellFormed, Spelled, Denoted, AllPrinted, Embeds;
    EmbeddedIff(WordsOf(b), base, len);
    EmbedsWords(b);
    if base == -1 {
      a := PlainSpelled(b);
    } else if Embedded(WordsOf(b), base, len) {
      a := EmbeddedSpelled(b, len);
    } else {
      a := CompressedSpelled(b, base, len);
    }
  }

  /** Every address is read back from its text, which fits the buffer. */
  lemma RoundTrip6(b: seq<Byte>, base: int, len: int)
    requires |b| == 16 && IsBest(WordsOf(b), base, len)
    ensures Parse6(Text6(b, base, len)) == Some(b) && |Text6(b, base, len)| + 1 <= 46
  {
    hide Parse6, WordsOf, Spelled, Denoted;
    TextFits(b, base, len);
    var a := TextSpells(b, base, len);
    SpellingIsRead(a);
  }

  // ----- the writers -----

  /** inet_ntop4. */
  method Ntop4(src: seq<Byte>, size: nat) returns (r: Option<string>)
    requires |src| == 4
    ensures r.Some? <==> |Text4(src)| < size
    ensures r.Some? ==> r.value == Text4(src) && Parse4(r.value) == Some(src)
    ensures size >= 16 ==> r.Some?
  {
    RoundTrip4(src);
    DecimalLength(src[0]);
    DecimalLength(src[1]);
    DecimalLength(src[2]);
    DecimalLength(src[3]);
    var l := |Text4(src)|;
    if l >= size {
      return None;
    }
    return Some(Text4(src));
  }

  /** inet_ntop6: the text and its null must fit. The test for seven zero groups
      and a last one other than 1 is never reached with the first six of them. */
  method Ntop6(src: seq<Byte>, size: nat) returns (r: Option<string>, ghost base: int, ghost len: int)
    requires |src| == 16
    ensures IsBest(WordsOf(src), base, len)
    ensures r == if |Text6(src, base, len)| + 1 > size then None else Some(Text6(src, base, len))
    ensures r.Some? ==> Parse6(r.value) == Some(src)
    ensures size >= 46 ==> r.Some?
  {
    hide Parse6, Written, Text6, Hex, Text4, WordsOf;
    var tmp := new char[46];
    var words := WordsOf(src);
    var bestBase, bestLen := BestRun(words);
    base, len := bestBase, bestLen;
    var sixth, last := words[5], words[7];
    var tp, i := 0, 0;
    NothingWritten(words, base, len);
    while i < 8
      invariant 0 <= i <= 8 && 0 <= tp <= 46 && tmp[..tp] == Written(words, base, len, i)
      invariant i > 6 ==> !Embedded(words, base, len)
      decreases 8 - i
    {
      Round(words, base, len, i);
      WrittenLength(words, base, len, i);
      HexLength(words[i]);
      if bestBase != -1 && bestBase <= i < bestBase + bestLen {
        if i == bestBase {
          tp := Print(tmp, tp, ":");
        }
        i := i + 1;
        continue;
      }
      if i != 0 {
        tp := Print(tmp, tp, ":");
      }
      if i == 6 && bestBase == 0 && (bestLen == 6 || (bestLen == 7 && last != 1) || (bestLen == 5 && sixth == 0xffff)) {
        EmbeddedWritten(src, base, len);
        tp := Print(tmp, tp, Text4(src[12..]));
        break;
      }
      tp := Print(tmp, tp, Hex(words[i]));
      i := i + 1;
    }
    if i == 8 {
      AllWritten(src, base, len);
      WrittenLength(words, base, len, 8);
    }
    if bestBase != -1 && bestBase + bestLen == 8 {
      tp := Print(tmp, tp, ":");
    }
    RoundTrip6(src, base, len);
    return if tp + 1 > size then None else Some(tmp[..tp]), base, len;
  }

  // ----- zones -----

  function Percent(src: string, i: nat): (k: nat)
    requires i <= |src|
    ensures i <= k <= |src| && (forall m :: i <= m < k ==> src[m] != '%') && (k < |src| ==> src[k] == '%')
    decreases |src| - i
  {
    if i < |src| && src[i] != '%' then Percent(src, i + 1) else i
  }

  /** A zone after "%" is cut off; what stands before it must fit the buffer that
      it is copied to. */
  function ParseZoned(src: string): Option<seq<Byte>> {
    var k := Percent(src, 0);
    if k < |src| && k > 45 then None else Parse6(src[..k])
  }

  /** uv_inet_pton for an IPv6 address. */
  method PtonZoned(src: string) returns (r: Option<seq<Byte>>)
    ensures r == ParseZoned(src)
  {
    hide Parse6;
    var k := 0;
    while k < |src| && src[k] != '%'
      invariant 0 <= k <= |src| && Percent(src, k) == Percent(src, 0)
    {
      k := k + 1;
    }
    if k < |src| && k > 45 {
      return None;
    }
    r := Pton6(src[..k]);
  }

  lemma Text4Lacks(b: seq<Byte>, c: char)
    requires |b| == 4 && c !in "0123456789abcdef."
    ensures Lacks(Text4(b), c)
  {
    NumeralLacks(b[0], 10, c);
    NumeralLacks(b[1], 10, c);
    NumeralLacks(b[2], 10, c);
    NumeralLacks(b[3], 10, c);
  }

  lemma Text6Lacks(b: seq<Byte>, base: int, len: int)
    requires |b| == 16 && (base == -1 || (0 <= base && 2 <= len && base + len <= 8))
    ensures Lacks(Text6(b, base, len), '%')
  {
    hide Groups, Text4, Numeral;
    var ws := WordsOf(b);
    if base == -1 {
      GroupsLack(ws, '%');
    } else if Embedded(ws, base, len) {
      Text4Lacks(b[12..], '%');
      NumeralLacks(0xffff, 16, '%');
    } else {
      GroupsLack(ws[..base], '%');
      GroupsLack(ws[base + len..], '%');
    }
  }

  /** What uv_inet_pton accepts for IPv6: an address, or one of at most 45
      characters and a zone. */
  lemma ZonedIff(src: string, b: seq<Byte>)
    ensures ParseZoned(src) == Some(b) <==>
      || (Lacks(src, '%') && Denotes(src, b))
      || exists n: nat :: n < |src| && src[n] == '%' && Lacks(src[..n], '%') && n <= 45 && Denotes(src[..n], b)
  {
    hide Denotes, Parse6;
    var k := Percent(src, 0);
    Parse6Iff(src[..k], b);
    assert k == |src| ==> src[..k] == src;
    assert k < |src| ==> src[k] == '%';
    forall n: nat | n < |src| && src[n] == '%' && Lacks(src[..n], '%')
      ensures n == k
    {
      FirstPercent(src, n);
    }
  }

  lemma FirstPercent(src: string, n: nat)
    requires n < |src| && src[n] == '%' && Lacks(src[..n], '%')
    ensures Percent(src, 0) == n
  {
    assert forall m :: 0 <= m < n ==> src[..n][m] == src[m];
    assert forall m :: 0 <= m < n ==> src[m] != '%';
  }

  /** Whatever zone follows an address, the address is read back. */
  lemma RoundTripZoned(b: seq<Byte>, base: int, len: int, zone: string)
    requires |b| == 16 && IsBest(WordsOf(b), base, len)
    ensures ParseZoned(Text6(b, base, len) + "%" + zone) == Some(b)
  {
    hide Text6, Parse6, IsBest, WordsOf;
    Zoned(b, base, len);
    var t := Text6(b, base, len);
    var src := t + "%" + zone;
    var k := Percent(src, 0);
    assert src[|t|] == '%';
    assert forall m :: 0 <= m < |t| ==> src[m] == t[m];
    assert src[..k] == t;
  }

  lemma Zoned(b: seq<Byte>, base: int, len: int)
    requires |b| == 16 && IsBest(WordsOf(b), base, len)
    ensures base == -1 || (0 <= base && 2 <= len && base + len <= 8)
    ensures var t := Text6(b, base, len); Lacks(t, '%') && |t| <= 45 && Parse6(t) == Some(b)
  {
    RoundTrip6(b, base, len);
    Text6Lacks(b, base, len);
  }
}
