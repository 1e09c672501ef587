/** JSON texts and the tokens they should give: what jsmn.c promises for every
    value that is printed according to sections 2 to 7 of RFC 8259. */
module JsonText {
  import opened Bytes
  import opened Jsmn
  import opened JsmnItems

  /** A printed value, with all its blanks. */
  datatype Value =
    | Prim(text: string)
    | Str(body: string)
    | Arr(gap: string, elems: Elems)
    | Obj(gap: string, members: Members)

  datatype Elems = NoElem | Elem(before: string, v: Value, after: string, rest: Elems)

  datatype Members =
    | NoMember
    | Member(b1: string, key: string, a1: string, b2: string, v: Value, a2: string, rest: Members)

  // ----- what may be printed -----

  predicate Blanks(s: string) {
    forall i :: 0 <= i < |s| ==> s[i] in " \t\n\r"
  }

  /** Printable characters that end no primitive, of which the first begins
      nothing else. */
  predicate ValidPrim(t: string) {
    t != "" && t[0] !in "{[\"" && forall i :: 0 <= i < |t| ==> Printable(t[i]) && !EndsPrimitive(t[i])
  }

  predicate Valid(v: Value) {
    match v
    case Prim(t) => ValidPrim(t)
    case Str(b) => Body(b)
    case Arr(g, es) => Blanks(g) && ValidElems(es)
    case Obj(g, ms) => Blanks(g) && ValidMembers(ms)
  }

  predicate ValidElems(es: Elems) {
    match es
    case NoElem => true
    case Elem(b, v, a, rest) => Blanks(b) && Valid(v) && Blanks(a) && ValidElems(rest)
  }

  predicate ValidMembers(ms: Members) {
    match ms
    case NoMember => true
    case Member(b1, k, a1, b2, v, a2, rest) =>
      Blanks(b1) && Body(k) && Blanks(a1) && Blanks(b2) && Valid(v) && Blanks(a2) && ValidMembers(rest)
  }

  // ----- what RFC 8259 lets print -----

  /** At least one digit. */
  predicate Numeral(s: string) {
    s != "" && forall i :: 0 <= i < |s| ==> s[i] in "0123456789"
  }

  /** Section 6, int: no zero in front of other digits. */
  predicate IntPart(s: string) {
    Numeral(s) && (s[0] == '0' ==> |s| == 1)
  }

  /** Section 6, frac, which may be missing. */
  predicate FracPart(s: string) {
    s == "" || (s[0] == '.' && Numeral(s[1..]))
  }

  /** Section 6, exp, which may be missing. */
  predicate ExpPart(s: string) {
    s == "" || (s[0] in "eE" && (Numeral(s[1..]) || (|s| > 1 && s[1] in "+-" && Numeral(s[2..]))))
  }

  predicate Unsigned(s: string) {
    exists i, j :: 0 <= i <= j <= |s| && IntPart(s[..i]) && FracPart(s[i..j]) && ExpPart(s[j..])
  }

  predicate Number(s: string) {
    Unsigned(s) || (s != "" && s[0] == '-' && Unsigned(s[1..]))
  }

  /** Section 7: control characters have to be escaped. */
  predicate JsonString(s: string) {
    Body(s) && forall i :: 0 <= i < |s| ==> s[i] as int >= 32
  }

  predicate Json(v: Value) {
    match v
    case Prim(t) => t == "true" || t == "false" || t == "null" || Number(t)
    case Str(b) => JsonString(b)
    case Arr(g, es) => Blanks(g) && JsonElems(es)
    case Obj(g, ms) => Blanks(g) && JsonMembers(ms)
  }

  predicate JsonElems(es: Elems) {
    match es
    case NoElem => true
    case Elem(b, v, a, rest) => Blanks(b) && Json(v) && Blanks(a) && JsonElems(rest)
  }

  predicate JsonMembers(ms: Members) {
    match ms
    case NoMember => true
    case Member(b1, k, a1, b2, v, a2, rest) =>
      Blanks(b1) && JsonString(k) && Blanks(a1) && Blanks(b2) && Json(v) && Blanks(a2) && JsonMembers(rest)
  }

  predicate NumberChar(c: char) {
    c in "0123456789.eE+-"
  }

  lemma NumberChars(s: string)
    requires Number(s)
    ensures s != "" && forall k :: 0 <= k < |s| ==> NumberChar(s[k])
  {
    if Unsigned(s) {
      UnsignedChars(s);
    } else {
      UnsignedChars(s[1..]);
      assert forall k :: 1 <= k < |s| ==> s[k] == s[1..][k - 1];
    }
  }

  lemma UnsignedChars(s: string)
    requires Unsigned(s)
    ensures s != "" && forall k :: 0 <= k < |s| ==> NumberChar(s[k])
  {
    var i, j :| 0 <= i <= j <= |s| && IntPart(s[..i]) && FracPart(s[i..j]) && ExpPart(s[j..]);
    IntChars(s[..i]);
    FracChars(s[i..j]);
    ExpChars(s[j..]);
    hide *;
    forall k | 0 <= k < |s|
      ensures NumberChar(s[k])
    {
      assert s[k] == if k < i then s[..i][k] else if k < j then s[i..j][k - i] else s[j..][k - j];
    }
  }

  lemma IntChars(s: string)
    requires IntPart(s)
    ensures forall k :: 0 <= k < |s| ==> NumberChar(s[k])
  {}

  lemma FracChars(s: string)
    requires FracPart(s)
    ensures forall k :: 0 <= k < |s| ==> NumberChar(s[k])
  {
    assert forall k :: 1 <= k < |s| ==> s[k] == s[1..][k - 1];
  }

  lemma ExpChars(s: string)
    requires ExpPart(s)
    ensures forall k :: 0 <= k < |s| ==> NumberChar(s[k])
  {
    assert forall k :: 1 <= k < |s| ==> s[k] == s[1..][k - 1];
    assert forall k :: 2 <= k < |s| ==> s[k] == s[2..][k - 2];
  }

  lemma NumberCharIs(c: char)
    requires NumberChar(c)
    ensures Printable(c) && !EndsPrimitive(c) && c !in "{[\""
  {}

  lemma JsonPrim(t: string)
    requires t == "true" || t == "false" || t == "null" || Number(t)
    ensures ValidPrim(t)
  {
    if Number(t) {
      NumberChars(t);
      hide Number, NumberChar, Printable, EndsPrimitive;
      forall i | 0 <= i < |t|
        ensures Printable(t[i]) && !EndsPrimitive(t[i]) && t[i] !in "{[\""
      {
        NumberCharIs(t[i]);
      }
    }
  }

  /** Every JSON text of RFC 8259 is one of the values above. */
  lemma {:induction false} JsonIsValid(v: Value)
    requires Json(v)
    ensures Valid(v)
  {
    match v
    case Prim(t) => JsonPrim(t);
    case Str(b) =>
    case Arr(g, es) => JsonElemsValid(es);
    case Obj(g, ms) => JsonMembersValid(ms);
  }

  lemma {:induction false} JsonElemsValid(es: Elems)
    requires JsonElems(es)
    ensures ValidElems(es)
  {
    if es.Elem? {
      JsonIsValid(es.v);
      JsonElemsValid(es.rest);
    }
  }

  lemma {:induction false} JsonMembersValid(ms: Members)
    requires JsonMembers(ms)
    ensures ValidMembers(ms)
  {
    if ms.Member? {
      JsonIsValid(ms.v);
      JsonMembersValid(ms.rest);
    }
  }

  // ----- the text -----

  function Text(v: Value): (t: string)
    ensures v.Prim? || |t| > 0
  {
    match v
    case Prim(t) => t
    case Str(b) => "\"" + b + "\""
    case Arr(g, es) => "[" + g + ElemsText(es, false) + "]"
    case Obj(g, ms) => "{" + g + MembersText(ms, false) + "}"
  }

  function Comma1(again: bool): string {
    if again then "," else ""
  }

  function ElemsText(es: Elems, again: bool): string {
    match es
    case NoElem => ""
    case Elem(b, v, a, rest) => Comma1(again) + b + Text(v) + a + ElemsText(rest, true)
  }

  function MembersText(ms: Members, again: bool): string {
    match ms
    case NoMember => ""
    case Member(b1, k, a1, b2, v, a2, rest) =>
      Comma1(again) + b1 + "\"" + k + "\"" + a1 + ":" + b2 + Text(v) + a2 + MembersText(rest, true)
  }

  // ----- the tokens, in preorder -----

  function ElemCount(es: Elems): nat {
    if es.NoElem? then 0 else 1 + ElemCount(es.rest)
  }

  function MemberCount(ms: Members): nat {
    if ms.NoMember? then 0 else 1 + MemberCount(ms.rest)
  }

  /** The tokens of a value whose text begins at p. */
  function Tokens(v: Value, p: nat): (r: seq<Token>)
    ensures r != []
  {
    match v
    case Prim(t) => [Token(Primitive, p, p + |t|, 0)]
    case Str(b) => [Token(String, p + 1, p + 1 + |b|, 0)]
    case Arr(g, es) => [Token(Array, p, p + |Text(v)|, ElemCount(es))] + ElemTokens(es, false, p + 1 + |g|)
    case Obj(g, ms) => [Token(Object, p, p + |Text(v)|, MemberCount(ms))] + MemberTokens(ms, false, p + 1 + |g|)
  }

  function ElemTokens(es: Elems, again: bool, p: nat): seq<Token> {
    match es
    case NoElem => []
    case Elem(b, v, a, rest) =>
      var q := p + |Comma1(again)| + |b|;
      Tokens(v, q) + ElemTokens(rest, true, q + |Text(v)| + |a|)
  }

  /** A key has one child, its value. */
  function MemberTokens(ms: Members, again: bool, p: nat): seq<Token> {
    match ms
    case NoMember => []
    case Member(b1, k, a1, b2, v, a2, rest) =>
      var q := p + |Comma1(again)| + |b1| + 1;
      var w := q + |k| + 1 + |a1| + 1 + |b2|;
      [Token(String, q, q + |k|, 1)] + Tokens(v, w) + MemberTokens(rest, true, w + |Text(v)| + |a2|)
  }

  // ----- pieces of the text -----

  lemma AtChar(js: string, p: nat, t: string, i: nat)
    requires At(js, p, t) && i < |t|
    ensures p + i < |js| && js[p + i] == t[i]
  {
    assert js[p..p + |t|][i] == js[p + i];
  }

  /** A primitive may end here. */
  predicate EndsPrim(js: string, p: nat) {
    TextEnds(js, p) || EndsPrimitive(js[p])
  }

  // ----- scanning -----

  lemma PrimitiveEndOf(js: string, p: nat, t: string)
    requires At(js, p, t) && EndsPrim(js, p + |t|) && ValidPrim(t)
    ensures PrimitiveEnd(js, p) == Found(p + |t|)
  {
    hide PrimitiveEnd, EndsPrimitive, Printable;
    assert forall i :: p <= i < p + |t| ==> js[i] == t[i - p];
    assert RunsTo(js, p, p + |t|);
    PrimitiveIs(js, p);
  }

  lemma StringEndOf(js: string, p: nat, s: string)
    requires At(js, p, s) && Body(s) && p + |s| < |js| && js[p + |s|] == '"'
    ensures StringEnd(js, p) == Found(p + |s|)
  {
    hide StringEnd, Body, WrongEscape;
    assert Reaches(js, p, p + |s|);
    StringIs(js, p);
  }

  lemma Skip(js: string, p: nat, s: string, n: nat)
    requires At(js, p, s) && n <= |s|
    ensures At(js, p + n, s[n..])
  {
    assert s == s[..n] + s[n..];
    AtBoth(js, p, s[..n], s[n..]);
  }

  // ----- tokens that are there already -----

  ghost predicate AllClosed(toks: seq<Token>) {
    forall i :: 0 <= i < |toks| ==> !Open(toks[i])
  }

  /** The openness of tokens does not change by growing. */
  ghost predicate SameOpen(a: seq<Token>, b: seq<Token>, n: nat) {
    n <= |a| && n <= |b| && forall i :: 0 <= i < n ==> (Open(a[i]) <==> Open(b[i]))
  }

  lemma {:induction false} NearestSame(a: seq<Token>, b: seq<Token>, n: nat)
    requires SameOpen(a, b, n)
    ensures NearestOpen(a, n) == NearestOpen(b, n)
  {
    if n > 0 && !Open(a[n - 1]) { NearestSame(a, b, n - 1); }
  }

  lemma {:induction false} NearestSkips(toks: seq<Token>, n: nat, m: nat)
    requires n <= m <= |toks| && forall i :: n <= i < m ==> !Open(toks[i])
    ensures NearestOpen(toks, m) == NearestOpen(toks, n)
  {
    if m > n { NearestSkips(toks, n, m - 1); }
  }

  /** Closed tokens behind, and growth, leave the nearest open token alone. */
  lemma NearestKept(toks: seq<Token>, super: int, n: int, more: seq<Token>)
    requires -1 <= super < |toks| && AllClosed(more)
    ensures var r := Grown(toks, super, n) + more; NearestOpen(r, |r|) == NearestOpen(toks, |toks|)
  {
    var r := Grown(toks, super, n) + more;
    NearestSkips(r, |toks|, |r|);
    NearestSame(r, toks, |toks|);
  }

  lemma {:induction false} ContainerFound(toks: seq<Token>, n: nat, none: int)
    requires n <= |toks|
    requires var a := NearestOpen(toks, n); a >= 0 && Container(toks[a])
    ensures NearestContainer(toks, n, none) == NearestOpen(toks, n)
  {
    if !Open(toks[n - 1]) { ContainerFound(toks, n - 1, none); }
  }

  lemma {:induction false} TokensClosed(v: Value, p: nat)
    ensures AllClosed(Tokens(v, p))
    decreases v
  {
    match v
    case Prim(_) =>
    case Str(_) =>
    case Arr(g, es) => ElemsClosed(es, false, p + 1 + |g|);
    case Obj(g, ms) => MembersClosed(ms, false, p + 1 + |g|);
  }

  lemma {:induction false} ElemsClosed(es: Elems, again: bool, p: nat)
    ensures AllClosed(ElemTokens(es, again, p))
    decreases es
  {
    match es
    case NoElem =>
    case Elem(b, v, a, rest) =>
      var q := p + |Comma1(again)| + |b|;
      TokensClosed(v, q);
      ElemsClosed(rest, true, q + |Text(v)| + |a|);
  }

  lemma {:induction false} MembersClosed(ms: Members, again: bool, p: nat)
    ensures AllClosed(MemberTokens(ms, again, p))
    decreases ms
  {
    match ms
    case NoMember =>
    case Member(b1, k, a1, b2, v, a2, rest) =>
      var q := p + |Comma1(again)| + |b1| + 1;
      var w := q + |k| + 1 + |a1| + 1 + |b2|;
      TokensClosed(v, w);
      MembersClosed(rest, true, w + |Text(v)| + |a2|);
  }

  lemma GrownTwice(toks: seq<Token>, a: int, n: int, m: int, more: seq<Token>)
    requires -1 <= a < |toks|
    ensures Grown(Grown(toks, a, n) + more, a, m) == Grown(toks, a, n + m) + more
  {}

  // ----- running over pieces -----

  lemma StepBlank(js: string, st: State, cap: nat)
    requires Good(st) && st.pos < |js| && Blank(js[st.pos])
    ensures !AtEnd(js, st.pos) && Step(js, st, cap) == Done(st.(pos := st.pos + 1))
  {}

  lemma StepString(js: string, st: State, cap: nat, q: nat)
    requires Good(st) && st.pos < |js| && js[st.pos] == '"' && StringEnd(js, st.pos + 1) == Found(q) && |st.toks| < cap
    ensures !AtEnd(js, st.pos)
    ensures Step(js, st, cap)
         == Done(State(q + 1, st.super, Grown(st.toks + [Token(String, st.pos + 1, q, 0)], st.super, 1)))
  {}

  lemma {:induction false} RunBlanks(js: string, cap: nat, p: nat, b: string, super: int, toks: seq<Token>)
    requires At(js, p, b) && Blanks(b) && -1 <= super < |toks|
    ensures Run(js, State(p, super, toks), cap) == Run(js, State(p + |b|, super, toks), cap)
    decreases |b|
  {
    hide Run, Step;
    if b != [] {
      AtChar(js, p, b, 0);
      Skip(js, p, b, 1);
      StepBlank(js, State(p, super, toks), cap);
      RunStep(js, State(p, super, toks), cap);
      RunBlanks(js, cap, p + 1, b[1..], super, toks);
    }
  }

  lemma RunPrim(js: string, cap: nat, p: nat, t: string, super: int, toks: seq<Token>)
    requires At(js, p, t) && ValidPrim(t) && EndsPrim(js, p + |t|) && -1 <= super < |toks| < cap
    ensures Run(js, State(p, super, toks), cap)
         == Run(js, State(p + |t|, super, Grown(toks, super, 1) + [Token(Primitive, p, p + |t|, 0)]), cap)
  {
    hide *;
    PrimitiveEndOf(js, p, t);
    PrimStart(t);
    AtChar(js, p, t, 0);
    GoodState(p, super, toks);
    StepPrim(js, State(p, super, toks), cap, p + |t|);
    RunStep(js, State(p, super, toks), cap);
    GrowLast(toks, Token(Primitive, p, p + |t|, 0), super);
  }

  lemma PrimStart(t: string)
    requires ValidPrim(t)
    ensures t != "" && t[0] !in "{[\"" && !Stops(t[0]) && t[0] != '\0'
  {}

  lemma StepPrim(js: string, st: State, cap: nat, q: nat)
    requires Good(st) && st.pos < |js| && |st.toks| < cap && PrimitiveEnd(js, st.pos) == Found(q)
    requires var c := js[st.pos]; c !in "{[\"" && !Stops(c) && c != '\0'
    ensures !AtEnd(js, st.pos)
    ensures Step(js, st, cap)
         == Done(State(q, st.super, Grown(st.toks + [Token(Primitive, st.pos, q, 0)], st.super, 1)))
  {
    hide PrimitiveEnd;
  }

  lemma Quoted(js: string, p: nat, b: string)
    requires At(js, p, "\"" + b + "\"")
    ensures p + 1 + |b| < |js| && js[p] == '"' && At(js, p + 1, b) && js[p + 1 + |b|] == '"'
  {
    var t := "\"" + b + "\"";
    AtChar(js, p, t, 0);
    AtChar(js, p, t, |b| + 1);
    AtBoth(js, p, "\"" + b, "\"");
    AtBoth(js, p, "\"", b);
  }

  lemma RunString(js: string, cap: nat, p: nat, b: string, super: int, toks: seq<Token>)
    requires At(js, p, "\"" + b + "\"") && Body(b) && -1 <= super < |toks| < cap
    ensures Run(js, State(p, super, toks), cap)
         == Run(js, State(p + |b| + 2, super, Grown(toks, super, 1) + [Token(String, p + 1, p + 1 + |b|, 0)]), cap)
  {
    hide *;
    Quoted(js, p, b);
    StringEndOf(js, p + 1, b);
    GoodState(p, super, toks);
    StepString(js, State(p, super, toks), cap, p + 1 + |b|);
    RunStep(js, State(p, super, toks), cap);
    GrowLast(toks, Token(String, p + 1, p + 1 + |b|, 0), super);
  }

  lemma GoodState(p: nat, super: int, toks: seq<Token>)
    requires -1 <= super < |toks|
    ensures Good(State(p, super, toks))
  {}

  lemma GrowLast(toks: seq<Token>, t: Token, super: int)
    requires -1 <= super < |toks|
    ensures Grown(toks + [t], super, 1) == Grown(toks, super, 1) + [t]
  {}

  /** The parent after a value: what it was, or the container around. */
  function Around(v: Value, super: int, toks: seq<Token>): int {
    if v.Prim? || v.Str? then super else NearestOpen(toks, |toks|)
  }

  lemma RunOpen(js: string, cap: nat, p: nat, kind: Kind, super: int, toks: seq<Token>)
    requires p < |js| && js[p] == (if kind == Object then '{' else '[') && (kind == Object || kind == Array)
    requires -1 <= super < |toks| < cap
    ensures Run(js, State(p, super, toks), cap)
         == Run(js, State(p + 1, |toks|, Grown(toks, super, 1) + [Token(kind, p, -1, 0)]), cap)
  {
    RunStep(js, State(p, super, toks), cap);
  }

  /** Closing the nearest open container. */
  lemma RunClose(js: string, cap: nat, p: nat, kind: Kind, super: int, toks: seq<Token>, a: nat)
    requires p < |js| && js[p] == (if kind == Object then '}' else ']') && (kind == Object || kind == Array)
    requires -1 <= super < |toks| && NearestOpen(toks, |toks|) == a && toks[a].kind == kind
    ensures Run(js, State(p, super, toks), cap)
         == Run(js, State(p + 1, NearestOpen(toks, a), toks[a := toks[a].(end := p + 1)]), cap)
  {
    NearestSame(toks, toks[a := toks[a].(end := p + 1)], a);
    RunStep(js, State(p, super, toks), cap);
  }

  /** Between two children the parent is the container again. */
  lemma RunComma(js: string, cap: nat, p: nat, super: int, toks: seq<Token>, a: nat)
    requires p < |js| && js[p] == ',' && 0 <= super < |toks|
    requires NearestOpen(toks, |toks|) == a && Container(toks[a]) && (super == a || !Container(toks[super]))
    ensures Run(js, State(p, super, toks), cap) == Run(js, State(p + 1, a, toks), cap)
  {
    ContainerFound(toks, |toks|, super);
    RunStep(js, State(p, super, toks), cap);
  }

  lemma RunColon(js: string, cap: nat, p: nat, super: int, toks: seq<Token>)
    requires p < |js| && js[p] == ':' && -1 <= super < |toks|
    ensures Run(js, State(p, super, toks), cap) == Run(js, State(p + 1, |toks| - 1, toks), cap)
  {
    RunStep(js, State(p, super, toks), cap);
  }

  /** What follows a child ends a primitive. */
  lemma AfterChild(js: string, p: nat, a: string, rest: string)
    requires At(js, p, a + rest) && Blanks(a) && EndsPrim(js, p + |a + rest|) && (rest == [] || rest[0] == ',')
    ensures EndsPrim(js, p)
  {
    if a + rest != [] { AtChar(js, p, a + rest, 0); }
  }

  // ----- running over a whole value -----

  lemma BracketPieces(js: string, p: nat, open: string, g: string, inner: string, close: string)
    requires At(js, p, open + g + inner + close) && |open| == |close| == 1
    ensures p + 1 + |g| + |inner| < |js| && js[p] == open[0] && At(js, p + 1, g) && At(js, p + 1 + |g|, inner)
    ensures js[p + 1 + |g| + |inner|] == close[0]
  {
    AtBoth(js, p, open + g + inner, close);
    AtBoth(js, p, open + g, inner);
    AtBoth(js, p, open, g);
    AtChar(js, p, open, 0);
    AtChar(js, p + 1 + |g| + |inner|, close, 0);
  }

  /** The tokens of a container whose children are complete, and their closing. */
  lemma Complete(toks: seq<Token>, super: int, kind: Kind, p: nat, n: nat, more: seq<Token>, e: nat)
    requires -1 <= super < |toks| && AllClosed(more)
    ensures var a := |toks|;
      var inside := Grown(toks, super, 1) + [Token(kind, p, -1, 0)];
      var done := Grown(inside, a, n) + more;
      && NearestOpen(inside, |inside|) == a && inside[a].kind == kind
      && NearestOpen(done, |done|) == a && done[a].kind == kind
      && NearestOpen(done, a) == NearestOpen(toks, a)
      && done[a := done[a].(end := e)] == Grown(toks, super, 1) + ([Token(kind, p, e, n)] + more)
  {
    var a := |toks|;
    var inside := Grown(toks, super, 1) + [Token(kind, p, -1, 0)];
    NearestKept(inside, a, n, more);
    NearestSame(Grown(inside, a, n) + more, toks, a);
  }

  lemma {:induction false} RunValue(js: string, cap: nat, p: nat, v: Value, super: int, toks: seq<Token>)
    requires Valid(v) && At(js, p, Text(v)) && EndsPrim(js, p + |Text(v)|)
    requires -1 <= super < |toks| && |toks| + |Tokens(v, p)| <= cap
    ensures Run(js, State(p, super, toks), cap)
         == Run(js, State(p + |Text(v)|, Around(v, super, toks), Grown(toks, super, 1) + Tokens(v, p)), cap)
    decreases v, 2
  {
    hide Run, At, Grown, NearestOpen, Body, EndsPrim;
    match v
    case Prim(t) => RunPrim(js, cap, p, t, super, toks);
    case Str(b) => RunString(js, cap, p, b, super, toks);
    case Arr(g, es) => RunArr(js, cap, p, g, es, super, toks);
    case Obj(g, ms) => RunObj(js, cap, p, g, ms, super, toks);
  }

  lemma {:induction false} RunArr(js: string, cap: nat, p: nat, g: string, es: Elems, super: int, toks: seq<Token>)
    requires Blanks(g) && ValidElems(es) && At(js, p, "[" + g + ElemsText(es, false) + "]")
    requires -1 <= super < |toks| && |toks| + 1 + |ElemTokens(es, false, p + 1 + |g|)| <= cap
    ensures var e := p + 2 + |g| + |ElemsText(es, false)|;
      var own := [Token(Array, p, e, ElemCount(es))] + ElemTokens(es, false, p + 1 + |g|);
      Run(js, State(p, super, toks), cap)
        == Run(js, State(e, NearestOpen(toks, |toks|), Grown(toks, super, 1) + own), cap)
    decreases es, 1
  {
    hide Run, At, Blanks, ValidElems, ElemsText, ElemTokens, ElemCount, Grown, NearestOpen, AllClosed;
    var inner, a, more := ElemsText(es, false), |toks|, ElemTokens(es, false, p + 1 + |g|);
    var inside := Grown(toks, super, 1) + [Token(Array, p, -1, 0)];
    var q := p + 1 + |g| + |inner|;
    BracketPieces(js, p, "[", g, inner, "]");
    ElemsClosed(es, false, p + 1 + |g|);
    Complete(toks, super, Array, p, ElemCount(es), more, q + 1);
    RunOpen(js, cap, p, Array, super, toks);
    RunBlanks(js, cap, p + 1, g, a, inside);
    RunElems(js, cap, p + 1 + |g|, es, false, a, inside);
    RunClose(js, cap, q, Array, a, Grown(inside, a, ElemCount(es)) + more, a);
  }

  lemma {:induction false} RunObj(js: string, cap: nat, p: nat, g: string, ms: Members, super: int, toks: seq<Token>)
    requires Blanks(g) && ValidMembers(ms) && At(js, p, "{" + g + MembersText(ms, false) + "}")
    requires -1 <= super < |toks| && |toks| + 1 + |MemberTokens(ms, false, p + 1 + |g|)| <= cap
    ensures var e := p + 2 + |g| + |MembersText(ms, false)|;
      var own := [Token(Object, p, e, MemberCount(ms))] + MemberTokens(ms, false, p + 1 + |g|);
      Run(js, State(p, super, toks), cap)
        == Run(js, State(e, NearestOpen(toks, |toks|), Grown(toks, super, 1) + own), cap)
    decreases ms, 1
  {
    hide Run, At, Blanks, ValidMembers, MembersText, MemberTokens, MemberCount, Grown, NearestOpen, AllClosed;
    var inner, a, more := MembersText(ms, false), |toks|, MemberTokens(ms, false, p + 1 + |g|);
    var inside := Grown(toks, super, 1) + [Token(Object, p, -1, 0)];
    var q := p + 1 + |g| + |inner|;
    BracketPieces(js, p, "{", g, inner, "}");
    MembersClosed(ms, false, p + 1 + |g|);
    Complete(toks, super, Object, p, MemberCount(ms), more, q + 1);
    RunOpen(js, cap, p, Object, super, toks);
    RunBlanks(js, cap, p + 1, g, a, inside);
    var last := RunMembers(js, cap, p + 1 + |g|, ms, false, a, a, inside);
    RunClose(js, cap, q, Object, last, Grown(inside, a, MemberCount(ms)) + more, a);
  }

  lemma ElemPieces(js: string, p: nat, comma: string, b: string, t: string, a: string, rest: string)
    requires At(js, p, comma + b + t + a + rest)
    ensures At(js, p, comma) && At(js, p + |comma|, b) && At(js, p + |comma| + |b|, t)
    ensures var q := p + |comma| + |b| + |t|; At(js, q, a) && At(js, q + |a|, rest) && At(js, q, a + rest)
  {
    AtBoth(js, p, comma + b + t + a, rest);
    AtBoth(js, p, comma + b + t, a);
    AtBoth(js, p, comma + b, t);
    AtBoth(js, p, comma, b);
    AtBoth(js, p + |comma| + |b| + |t|, a, rest);
  }

  lemma FirstIsComma(es: Elems)
    ensures var r := ElemsText(es, true); r == [] || r[0] == ','
  {}

  lemma MemberPieces(js: string, p: nat, comma: string, b1: string, k: string, a1: string, b2: string,
                     t: string, a2: string, rest: string)
    requires At(js, p, comma + b1 + "\"" + k + "\"" + a1 + ":" + b2 + t + a2 + rest)
    ensures At(js, p, comma) && At(js, p + |comma|, b1)
    ensures var q := p + |comma| + |b1|; At(js, q, "\"" + k + "\"") && At(js, q + |k| + 2, a1)
    ensures var c := p + |comma| + |b1| + |k| + 2 + |a1|;
      c < |js| && js[c] == ':' && At(js, c + 1, b2) && At(js, c + 1 + |b2|, t)
    ensures var w := p + |comma| + |b1| + |k| + 3 + |a1| + |b2| + |t|;
      At(js, w, a2) && At(js, w + |a2|, rest) && At(js, w, a2 + rest)
  {
    hide At;
    var key := "\"" + k + "\"";
    assert comma + b1 + "\"" + k + "\"" + a1 + ":" + b2 + t + a2 + rest
        == (comma + b1 + key + a1) + (":" + (b2 + (t + (a2 + rest))));
    var head := comma + b1 + key + a1;
    AtBoth(js, p, head, ":" + (b2 + (t + (a2 + rest))));
    AtBoth(js, p, comma + b1 + key, a1);
    AtBoth(js, p, comma + b1, key);
    AtBoth(js, p, comma, b1);
    var c := p + |head|;
    AtBoth(js, c, ":", b2 + (t + (a2 + rest)));
    AtChar(js, c, ":", 0);
    AtBoth(js, c + 1, b2, t + (a2 + rest));
    AtBoth(js, c + 1 + |b2|, t, a2 + rest);
    AtBoth(js, c + 1 + |b2| + |t|, a2, rest);
  }

  lemma FirstIsCommaToo(ms: Members)
    ensures var r := MembersText(ms, true); r == [] || r[0] == ','
  {}

  lemma {:induction false} RunMembers(js: string, cap: nat, p: nat, ms: Members, again: bool, a: nat,
                                      super: nat, toks: seq<Token>)
    returns (last: nat)
    requires ValidMembers(ms) && At(js, p, MembersText(ms, again))
    requires var q := p + |MembersText(ms, again)|; q < |js| && js[q] == '}'
    requires a < |toks| && NearestOpen(toks, |toks|) == a && toks[a].kind == Object
    requires super < |toks| && (super == a || (again && !Container(toks[super])))
    requires |toks| + |MemberTokens(ms, again, p)| <= cap
    ensures last < |toks| + |MemberTokens(ms, again, p)|
    ensures Run(js, State(p, super, toks), cap)
         == Run(js, State(p + |MembersText(ms, again)|, last,
                          Grown(toks, a, MemberCount(ms)) + MemberTokens(ms, again, p)), cap)
    decreases ms, 0
  {
    hide Run, At, Grown, NearestOpen, AllClosed, Blanks, Body, Valid, Text, Tokens, EndsPrim, EndsPrimitive, Comma1;
    match ms
    case NoMember =>
      last := super;
      GrownNone(toks, a);
    case Member(b1, k, a1, b2, v, a2, rest) =>
      var q := p + |Comma1(again)| + |b1|;
      var w := q + |k| + 3 + |a1| + |b2|;
      var own := [Token(String, q + 1, q + 1 + |k|, 1)] + Tokens(v, w);
      var more := Grown(toks, a, 1) + own;
      MemberAhead(js, p, ms, again, q, w);
      RunToChild(js, cap, p, again, b1, super, a, toks);
      var after := RunMember(js, cap, q, k, a1, b2, v, a, toks);
      RunBlanks(js, cap, w + |Text(v)|, a2, after, more);
      last := RunMembers(js, cap, w + |Text(v)| + |a2|, rest, true, a, after, more);
      Joined(toks, a, MemberCount(rest), own, MemberTokens(rest, true, w + |Text(v)| + |a2|));
  }

  /** What stands where a member begins, at q its key and at w its value. */
  lemma MemberAhead(js: string, p: nat, ms: Members, again: bool, q: nat, w: nat)
    requires ms.Member? && Blanks(ms.a2) && At(js, p, MembersText(ms, again))
    requires var e := p + |MembersText(ms, again)|; e < |js| && js[e] == '}'
    requires q == p + |Comma1(again)| + |ms.b1| && w == q + |ms.key| + 3 + |ms.a1| + |ms.b2|
    ensures At(js, p, Comma1(again)) && At(js, p + |Comma1(again)|, ms.b1)
    ensures At(js, q, "\"" + ms.key + "\"") && At(js, q + |ms.key| + 2, ms.a1)
    ensures var c := q + |ms.key| + 2 + |ms.a1|; c < |js| && js[c] == ':' && At(js, c + 1, ms.b2)
    ensures At(js, w, Text(ms.v)) && EndsPrim(js, w + |Text(ms.v)|) && At(js, w + |Text(ms.v)|, ms.a2)
    ensures At(js, w + |Text(ms.v)| + |ms.a2|, MembersText(ms.rest, true))
    ensures p + |MembersText(ms, again)| == w + |Text(ms.v)| + |ms.a2| + |MembersText(ms.rest, true)|
  {
    hide At, Text, Blanks, EndsPrim, MembersText, Comma1;
    var comma, t, tail := Comma1(again), Text(ms.v), MembersText(ms.rest, true);
    MembersTextStep(ms, again);
    MemberPieces(js, p, comma, ms.b1, ms.key, ms.a1, ms.b2, t, ms.a2, tail);
    FirstIsCommaToo(ms.rest);
    var more := ms.a2 + tail;
    BracketEnds(js, w + |t| + |more|);
    AfterChild(js, w + |t|, ms.a2, tail);
  }

  lemma MembersTextStep(ms: Members, again: bool)
    requires ms.Member?
    ensures MembersText(ms, again) == Comma1(again) + ms.b1 + "\"" + ms.key + "\"" + ms.a1 + ":" + ms.b2
      + Text(ms.v) + ms.a2 + MembersText(ms.rest, true)
    ensures |MembersText(ms, again)| == |Comma1(again)| + |ms.b1| + |ms.key| + 3 + |ms.a1| + |ms.b2|
      + |Text(ms.v)| + |ms.a2| + |MembersText(ms.rest, true)|
  {}

  /** The comma before a further child, and the blanks before it. */
  lemma RunToChild(js: string, cap: nat, p: nat, again: bool, b: string, super: nat, a: nat, toks: seq<Token>)
    requires At(js, p, Comma1(again)) && At(js, p + |Comma1(again)|, b) && Blanks(b)
    requires super < |toks| && (super == a || (again && !Container(toks[super])))
    requires NearestOpen(toks, |toks|) == a && Container(toks[a])
    ensures Run(js, State(p, super, toks), cap) == Run(js, State(p + |Comma1(again)| + |b|, a, toks), cap)
  {
    hide Run, At, NearestOpen, Blanks;
    if again {
      AtChar(js, p, Comma1(again), 0);
      RunComma(js, cap, p, super, toks, a);
    }
    RunBlanks(js, cap, p + |Comma1(again)|, b, a, toks);
  }

  /** The tokens of one child and of the rest. */
  lemma Joined(toks: seq<Token>, a: int, n: nat, own: seq<Token>, rest: seq<Token>)
    requires -1 <= a < |toks|
    ensures Grown(Grown(toks, a, 1) + own, a, n) + rest == Grown(toks, a, 1 + n) + (own + rest)
  {
    GrownTwice(toks, a, 1, n, own);
    assert Grown(toks, a, 1 + n) + own + rest == Grown(toks, a, 1 + n) + (own + rest);
  }

  lemma GrownNone(toks: seq<Token>, a: int)
    requires -1 <= a < |toks|
    ensures Grown(toks, a, 0) + [] == toks
  {}

  /** A key, the colon, and the value that becomes the key's child. */
  lemma {:induction false} RunMember(js: string, cap: nat, q: nat, k: string, a1: string, b2: string, v: Value,
                                     a: nat, toks: seq<Token>)
    returns (after: nat)
    requires Body(k) && Blanks(a1) && Blanks(b2) && Valid(v)
    requires At(js, q, "\"" + k + "\"") && At(js, q + |k| + 2, a1)
    requires var c := q + |k| + 2 + |a1|;
      && c < |js| && js[c] == ':' && At(js, c + 1, b2)
      && At(js, c + 1 + |b2|, Text(v)) && EndsPrim(js, c + 1 + |b2| + |Text(v)|)
    requires a < |toks| && NearestOpen(toks, |toks|) == a && toks[a].kind == Object
    requires |toks| + 1 + |Tokens(v, q + |k| + 3 + |a1| + |b2|)| <= cap
    ensures var w := q + |k| + 3 + |a1| + |b2|;
      var more := Grown(toks, a, 1) + ([Token(String, q + 1, q + 1 + |k|, 1)] + Tokens(v, w));
      && after < |more| && (after == a || !Container(more[after]))
      && NearestOpen(more, |more|) == a && more[a].kind == Object
      && Run(js, State(q, a, toks), cap) == Run(js, State(w + |Text(v)|, after, more), cap)
    decreases v, 3
  {
    hide Run, At, Grown, NearestOpen, AllClosed, Blanks, Body, Valid, Text, Tokens, EndsPrim;
    var w := q + |k| + 3 + |a1| + |b2|;
    var key := Token(String, q + 1, q + 1 + |k|, 0);
    var named := Grown(toks, a, 1) + [key];
    RunString(js, cap, q, k, a, toks);
    RunBlanks(js, cap, q + |k| + 2, a1, a, named);
    RunColon(js, cap, q + |k| + 2 + |a1|, a, named);
    RunBlanks(js, cap, q + |k| + 3 + |a1|, b2, |toks|, named);
    RunValue(js, cap, w, v, |toks|, named);
    TokensClosed(v, w);
    NamedTokens(toks, a, key, Tokens(v, w));
    after := Around(v, |toks|, named);
  }

  /** The key and its value are closed tokens behind the open object. */
  lemma NamedTokens(toks: seq<Token>, a: nat, key: Token, more: seq<Token>)
    requires a < |toks| && NearestOpen(toks, |toks|) == a && toks[a].kind == Object
    requires key.kind == String && key.size == 0 && !Open(key) && AllClosed(more)
    ensures var named := Grown(toks, a, 1) + [key];
      && NearestOpen(named, |named|) == a
      && Grown(named, |toks|, 1) + more == Grown(toks, a, 1) + ([key.(size := 1)] + more)
    ensures var r := Grown(toks, a, 1) + ([key.(size := 1)] + more);
      NearestOpen(r, |r|) == a && r[a].kind == Object && r[|toks|].kind == String
  {
    NearestKept(toks, a, 1, [key]);
    NearestKept(toks, a, 1, [key.(size := 1)] + more);
  }

  /** One element, with the blanks around it. */
  lemma {:induction false} RunElem(js: string, cap: nat, p: nat, again: bool, b: string, v: Value, after: string,
                                   a: nat, toks: seq<Token>)
    requires Blanks(b) && Valid(v) && Blanks(after) && At(js, p, Comma1(again)) && At(js, p + |Comma1(again)|, b)
    requires var q := p + |Comma1(again)| + |b|;
      && At(js, q, Text(v)) && At(js, q + |Text(v)|, after) && EndsPrim(js, q + |Text(v)|)
      && |toks| + |Tokens(v, q)| <= cap
    requires a < |toks| && NearestOpen(toks, |toks|) == a && toks[a].kind == Array
    ensures var q := p + |Comma1(again)| + |b|;
      var more := Grown(toks, a, 1) + Tokens(v, q);
      && NearestOpen(more, |more|) == a && more[a].kind == Array
      && Run(js, State(p, a, toks), cap) == Run(js, State(q + |Text(v)| + |after|, a, more), cap)
    decreases v, 3
  {
    hide Run, At, Grown, NearestOpen, AllClosed, Blanks, Valid, Text, Tokens, EndsPrim, EndsPrimitive;
    var q := p + |Comma1(again)| + |b|;
    var more := Grown(toks, a, 1) + Tokens(v, q);
    RunToChild(js, cap, p, again, b, a, a, toks);
    RunValue(js, cap, q, v, a, toks);
    TokensClosed(v, q);
    NearestKept(toks, a, 1, Tokens(v, q));
    KindKept(toks, a, 1, Tokens(v, q));
    RunBlanks(js, cap, q + |Text(v)|, after, a, more);
  }

  lemma {:induction false} RunElems(js: string, cap: nat, p: nat, es: Elems, again: bool, a: nat, toks: seq<Token>)
    requires ValidElems(es) && At(js, p, ElemsText(es, again))
    requires var q := p + |ElemsText(es, again)|; q < |js| && js[q] == ']'
    requires a < |toks| && NearestOpen(toks, |toks|) == a && toks[a].kind == Array
    requires |toks| + |ElemTokens(es, again, p)| <= cap
    ensures Run(js, State(p, a, toks), cap)
         == Run(js, State(p + |ElemsText(es, again)|, a, Grown(toks, a, ElemCount(es)) + ElemTokens(es, again, p)), cap)
    decreases es, 0
  {
    hide Run, At, Grown, NearestOpen, AllClosed, Blanks, Valid, Text, Tokens, EndsPrim, EndsPrimitive, Comma1;
    match es
    case NoElem => GrownNone(toks, a);
    case Elem(b, v, after, rest) =>
      var q := p + |Comma1(again)| + |b|;
      var more := Grown(toks, a, 1) + Tokens(v, q);
      ElemAhead(js, p, es, again);
      RunElem(js, cap, p, again, b, v, after, a, toks);
      RunElems(js, cap, q + |Text(v)| + |after|, rest, true, a, more);
      Joined(toks, a, ElemCount(rest), Tokens(v, q), ElemTokens(rest, true, q + |Text(v)| + |after|));
  }

  /** What stands where an element begins. */
  lemma ElemAhead(js: string, p: nat, es: Elems, again: bool)
    requires es.Elem? && Blanks(es.after) && At(js, p, ElemsText(es, again))
    requires var e := p + |ElemsText(es, again)|; e < |js| && js[e] == ']'
    ensures At(js, p, Comma1(again)) && At(js, p + |Comma1(again)|, es.before)
    ensures var q := p + |Comma1(again)| + |es.before|;
      && At(js, q, Text(es.v)) && At(js, q + |Text(es.v)|, es.after) && EndsPrim(js, q + |Text(es.v)|)
      && At(js, q + |Text(es.v)| + |es.after|, ElemsText(es.rest, true))
      && p + |ElemsText(es, again)| == q + |Text(es.v)| + |es.after| + |ElemsText(es.rest, true)|
  {
    hide At, Text, Blanks, EndsPrim, ElemsText, Comma1;
    var comma, t, tail := Comma1(again), Text(es.v), ElemsText(es.rest, true);
    ElemsTextStep(es, again);
    ElemPieces(js, p, comma, es.before, t, es.after, tail);
    FirstIsComma(es.rest);
    var q, w := p + |comma| + |es.before| + |t|, es.after + tail;
    BracketEnds(js, q + |w|);
    AfterChild(js, q, es.after, tail);
  }

  lemma ElemsTextStep(es: Elems, again: bool)
    requires es.Elem?
    ensures ElemsText(es, again) == Comma1(again) + es.before + Text(es.v) + es.after + ElemsText(es.rest, true)
    ensures |ElemsText(es, again)| == |Comma1(again)| + |es.before| + |Text(es.v)| + |es.after|
      + |ElemsText(es.rest, true)|
  {}

  lemma BracketEnds(js: string, q: nat)
    requires q < |js| && (js[q] == ']' || js[q] == '}')
    ensures EndsPrim(js, q)
  {}

  lemma KindKept(toks: seq<Token>, a: nat, n: int, more: seq<Token>)
    requires a < |toks|
    ensures (Grown(toks, a, n) + more)[a].kind == toks[a].kind
  {}

  /** Every printed value is accepted, and the tokens are its preorder listing,
      given room for them. */
  lemma ParsesJson(before: string, v: Value, after: string, cap: nat)
    requires Blanks(before) && Valid(v) && Blanks(after) && |Tokens(v, |before|)| <= cap
    ensures var js := before + Text(v) + after;
      Run(js, INIT, cap) == Done(State(|js|, -1, Tokens(v, |before|)))
  {
    var js, p := before + Text(v) + after, |before|;
    var q := p + |Text(v)|;
    hide Run, At, Valid, Text, Tokens, Blanks, EndsPrim;
    TopPieces(js, before, Text(v), after);
    AfterValue(js, q, after);
    RunBlanks(js, cap, 0, before, -1, []);
    RunValue(js, cap, p, v, -1, []);
    RunBlanks(js, cap, q, after, -1, Tokens(v, p));
    TokensClosed(v, p);
    TopResult(v, Tokens(v, p));
    RunEnds(js, cap, -1, Tokens(v, p));
  }

  lemma TopResult(v: Value, t: seq<Token>)
    ensures Around(v, -1, []) == -1 && Grown([], -1, 1) + t == t
  {}

  lemma TopPieces(js: string, a: string, b: string, c: string)
    requires js == a + b + c
    ensures At(js, 0, a) && At(js, |a|, b) && At(js, |a| + |b|, c) && |js| == |a| + |b| + |c|
  {
    assert js[0..|js|] == a + b + c;
    AtBoth(js, 0, a + b, c);
    AtBoth(js, 0, a, b);
  }

  lemma AfterValue(js: string, q: nat, after: string)
    requires At(js, q, after) && Blanks(after) && q + |after| == |js|
    ensures EndsPrim(js, q)
  {
    if after != [] { AtChar(js, q, after, 0); }
  }

  lemma RunEnds(js: string, cap: nat, super: int, toks: seq<Token>)
    requires -1 <= super < |toks| && AllClosed(toks)
    ensures Run(js, State(|js|, super, toks), cap) == Done(State(|js|, super, toks))
  {
    NearestSkips(toks, 0, |toks|);
  }

  /** And so does counting first. */
  lemma CountsJson(before: string, v: Value, after: string)
    requires Blanks(before) && Valid(v) && Blanks(after)
    ensures var js := before + Text(v) + after; CountRun(js, 0, 0) == Counted(|Tokens(v, |before|)|, |js|)
  {
    hide Run, CountRun, Text, Tokens, Valid, Blanks;
    var n := |Tokens(v, |before|)|;
    ParsesJson(before, v, after, n);
    CountAgrees(before + Text(v) + after, INIT, n);
  }

  // ----- the size of a subtree -----

  /** obj_val_size at the token of any value gives the number of tokens of its
      whole subtree. */
  method ObjValSize(toks: seq<Token>, i: nat, ghost v: Value, ghost p: nat) returns (offset: nat)
    requires At(toks, i, Tokens(v, p))
    ensures offset == |Tokens(v, p)|
    decreases v, 1
  {
    assert toks[i] == Tokens(v, p)[0] by { assert toks[i..i + |Tokens(v, p)|][0] == toks[i]; }
    offset := 1;
    if toks[i].kind == Object {
      AtBoth(toks, i, [toks[i]], MemberTokens(v.members, false, p + 1 + |v.gap|));
      var n := MembersSize(toks, i + 1, toks[i].size, v.members, p + 1 + |v.gap|);
      offset := offset + n;
    } else if toks[i].kind == Array {
      AtBoth(toks, i, [toks[i]], ElemTokens(v.elems, false, p + 1 + |v.gap|));
      var n := ElemsSize(toks, i + 1, toks[i].size, v.elems, p + 1 + |v.gap|);
      offset := offset + n;
    }
  }

  /** The loop over the members of an object. */
  method MembersSize(toks: seq<Token>, i: nat, size: int, ghost members: Members, ghost p: nat) returns (offset: nat)
    requires At(toks, i, MemberTokens(members, false, p)) && size == MemberCount(members)
    ensures offset == |MemberTokens(members, false, p)|
    decreases members
  {
    hide Text, Tokens, At, Comma1;
    offset := 0;
    ghost var ms, again, q: nat := members, false, p;
    var k := 0;
    while k < size
      invariant 0 <= k <= size && size - k == MemberCount(ms)
      invariant At(toks, i + offset, MemberTokens(ms, again, q))
      invariant offset + |MemberTokens(ms, again, q)| == |MemberTokens(members, false, p)|
      invariant ms == members || ms < members
    {
      ghost var w: nat := q + |Comma1(again)| + |ms.b1| + 1 + |ms.key| + 1 + |ms.a1| + 1 + |ms.b2|;
      NextMember(toks, i + offset, ms, again, q, w);
      offset := offset + 1;
      var n := ObjValSize(toks, i + offset, ms.v, w);
      offset := offset + n;
      q, ms, again := w + |Text(ms.v)| + |ms.a2|, ms.rest, true;
      k := k + 1;
    }
  }

  /** The loop over the elements of an array. */
  method ElemsSize(toks: seq<Token>, i: nat, size: int, ghost elems: Elems, ghost p: nat) returns (offset: nat)
    requires At(toks, i, ElemTokens(elems, false, p)) && size == ElemCount(elems)
    ensures offset == |ElemTokens(elems, false, p)|
    decreases elems
  {
    hide Text, Tokens, At, Comma1;
    offset := 0;
    ghost var es, again, q: nat := elems, false, p;
    var k := 0;
    while k < size
      invariant 0 <= k <= size && size - k == ElemCount(es)
      invariant At(toks, i + offset, ElemTokens(es, again, q))
      invariant offset + |ElemTokens(es, again, q)| == |ElemTokens(elems, false, p)|
      invariant es == elems || es < elems
    {
      ghost var w: nat := q + |Comma1(again)| + |es.before|;
      AtBoth(toks, i + offset, Tokens(es.v, w), ElemTokens(es.rest, true, w + |Text(es.v)| + |es.after|));
      var n := ObjValSize(toks, i + offset, es.v, w);
      offset := offset + n;
      q, es, again := w + |Text(es.v)| + |es.after|, es.rest, true;
      k := k + 1;
    }
  }

  lemma NextMember(toks: seq<Token>, i: nat, ms: Members, again: bool, q: nat, w: nat)
    requires ms.Member? && At(toks, i, MemberTokens(ms, again, q))
    requires w == q + |Comma1(again)| + |ms.b1| + 1 + |ms.key| + 1 + |ms.a1| + 1 + |ms.b2|
    ensures At(toks, i + 1, Tokens(ms.v, w))
    ensures At(toks, i + 1 + |Tokens(ms.v, w)|, MemberTokens(ms.rest, true, w + |Text(ms.v)| + |ms.a2|))
    ensures |MemberTokens(ms, again, q)|
         == 1 + |Tokens(ms.v, w)| + |MemberTokens(ms.rest, true, w + |Text(ms.v)| + |ms.a2|)|
  {
    var s := q + |Comma1(again)| + |ms.b1| + 1;
    var key := [Token(String, s, s + |ms.key|, 1)];
    AtBoth(toks, i, key + Tokens(ms.v, w), MemberTokens(ms.rest, true, w + |Text(ms.v)| + |ms.a2|));
    AtBoth(toks, i, key, Tokens(ms.v, w));
  }
}
