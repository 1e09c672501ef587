/** The incremental JSON tokenizer jsmn.c, in its default build: neither strict
    nor with parent links. */
module Jsmn {

  datatype Kind = Undefined | Object | Array | String | Primitive

  datatype Token = Token(kind: Kind, start: int, end: int, size: int)

  datatype Error = NoMem | Inval | Part

  /** The parser with the tokens allocated so far. */
  datatype State = State(pos: nat, super: int, toks: seq<Token>)

  datatype Result = Done(st: State) | Failed(error: Error, st: State)

  const INIT := State(0, -1, [])

  // ----- scanning one string or primitive -----

  datatype Scan = Found(at: nat) | Bad | Cut

  predicate AtEnd(js: string, p: nat) {
    p >= |js| || js[p] == '\0'
  }

  predicate Stops(c: char) {
    c == ':' || c == '\t' || c == '\r' || c == '\n' || c == ' ' || c == ',' || c == ']' || c == '}'
  }

  predicate Blank(c: char) {
    c == '\t' || c == '\r' || c == '\n' || c == ' '
  }

  function PrimitiveEnd(js: string, p: nat): (r: Scan)
    ensures r.Found? ==> r.at >= p && (p <= |js| ==> r.at <= |js|)
    ensures !r.Cut? && (r.Found? && !AtEnd(js, p) && !Stops(js[p]) ==> r.at > p)
    decreases |js| - p
  {
    if AtEnd(js, p) || Stops(js[p]) then Found(p)
    else if js[p] < ' ' || js[p] >= 127 as char then Bad
    else PrimitiveEnd(js, p + 1)
  }

  predicate SimpleEscape(c: char) {
    c == '"' || c == '/' || c == '\\' || c == 'b' || c == 'f' || c == 'r' || c == 'n' || c == 't'
  }

  predicate Hex(c: char) {
    '0' <= c <= '9' || 'A' <= c <= 'F' || 'a' <= c <= 'f'
  }

  /** Up to i hexadecimal digits. */
  function HexEnd(js: string, p: nat, i: nat): (r: Scan)
    ensures r.Found? ==> r.at >= p && (p <= |js| ==> r.at <= |js|)
    ensures !r.Cut?
    decreases i
  {
    if i == 0 || AtEnd(js, p) then Found(p)
    else if !Hex(js[p]) then Bad
    else HexEnd(js, p + 1, i - 1)
  }

  /** From behind the opening quote to the closing one. */
  function StringEnd(js: string, p: nat): (r: Scan)
    ensures r.Found? ==> p <= r.at < |js|
    decreases |js| - p
  {
    if AtEnd(js, p) then Cut
    else if js[p] == '"' then Found(p)
    else if js[p] == '\\' && p + 1 < |js| then
      if SimpleEscape(js[p + 1]) then StringEnd(js, p + 2)
      else if js[p + 1] == 'u' then
        var h := HexEnd(js, p + 2, 4);
        if h.Found? then StringEnd(js, h.at) else Bad
      else Bad
    else StringEnd(js, p + 1)
  }

  // ----- tokens -----

  predicate Open(t: Token) {
    t.start != -1 && t.end == -1
  }

  predicate Container(t: Token) {
    t.kind == Array || t.kind == Object
  }

  /** The last open token before n, -1 if there is none. */
  function NearestOpen(toks: seq<Token>, n: nat): (i: int)
    requires n <= |toks|
    ensures -1 <= i < n && (i >= 0 ==> Open(toks[i]))
    ensures forall k :: i < k < n ==> !Open(toks[k])
  {
    if n == 0 then -1 else if Open(toks[n - 1]) then n - 1 else NearestOpen(toks, n - 1)
  }

  /** The last open container before n, or the given value. */
  function NearestContainer(toks: seq<Token>, n: nat, none: int): (i: int)
    requires n <= |toks|
    ensures i == none || (0 <= i < n && Open(toks[i]) && Container(toks[i]))
  {
    if n == 0 then none
    else if Container(toks[n - 1]) && Open(toks[n - 1]) then n - 1
    else NearestContainer(toks, n - 1, none)
  }

  /** n more children for the token at i, if there is one. */
  function Grown(toks: seq<Token>, i: int, n: int): (r: seq<Token>)
    requires -1 <= i < |toks|
    ensures |r| == |toks|
  {
    if i == -1 then toks else toks[i := toks[i].(size := toks[i].size + n)]
  }

  ghost predicate Good(st: State) {
    -1 <= st.super < |st.toks|
  }

  // ----- one character of the main loop -----

  function Opened(st: State, cap: nat, kind: Kind): Result
    requires Good(st)
  {
    if |st.toks| >= cap then Failed(NoMem, st)
    else Done(State(st.pos + 1, |st.toks|, Grown(st.toks, st.super, 1) + [Token(kind, st.pos, -1, 0)]))
  }

  function Closed(st: State, kind: Kind): Result {
    var i := NearestOpen(st.toks, |st.toks|);
    if i == -1 || st.toks[i].kind != kind then Failed(Inval, st)
    else
      var toks := st.toks[i := st.toks[i].(end := st.pos + 1)];
      Done(State(st.pos + 1, NearestOpen(toks, i), toks))
  }

  function Scanned(st: State, cap: nat, kind: Kind, start: nat, scan: Scan, next: nat): Result
    requires Good(st)
  {
    match scan
    case Bad => Failed(Inval, st)
    case Cut => Failed(Part, st)
    case Found(end) =>
      if |st.toks| >= cap then Failed(NoMem, st)
      else Done(State(next, st.super, Grown(st.toks + [Token(kind, start, end, 0)], st.super, 1)))
  }

  function Comma(st: State): State
    requires Good(st)
  {
    var super := if st.super != -1 && !Container(st.toks[st.super])
                 then NearestContainer(st.toks, |st.toks|, st.super) else st.super;
    State(st.pos + 1, super, st.toks)
  }

  function Step(js: string, st: State, cap: nat): (r: Result)
    requires Good(st) && !AtEnd(js, st.pos)
    ensures Good(r.st) && (r.Done? ==> st.pos < r.st.pos)
    ensures r.Failed? ==> r.st == st
  {
    var p := st.pos;
    var c := js[p];
    if c == '{' then Opened(st, cap, Object)
    else if c == '[' then Opened(st, cap, Array)
    else if c == '}' then Closed(st, Object)
    else if c == ']' then Closed(st, Array)
    else if c == '"' then
      var e := StringEnd(js, p + 1);
      Scanned(st, cap, String, p + 1, e, if e.Found? then e.at + 1 else p)
    else if Blank(c) then Done(st.(pos := p + 1))
    else if c == ':' then Done(State(p + 1, |st.toks| - 1, st.toks))
    else if c == ',' then Done(Comma(st))
    else
      var e := PrimitiveEnd(js, p);
      Scanned(st, cap, Primitive, p, e, if e.Found? then e.at else p)
  }

  /** The characters that begin a token. */
  predicate MakesToken(c: char) {
    c != '}' && c != ']' && !Blank(c) && c != ':' && c != ','
  }

  /** The whole of jsmn_parse; the count it returns on success is the number of
      tokens. */
  function Run(js: string, st: State, cap: nat): (r: Result)
    requires Good(st)
    ensures Good(r.st)
    decreases |js| - st.pos
  {
    if AtEnd(js, st.pos) then
      if NearestOpen(st.toks, |st.toks|) != -1 then Failed(Part, st) else Done(st)
    else
      var r := Step(js, st, cap);
      if r.Failed? then r else Run(js, r.st, cap)
  }

  lemma RunStep(js: string, st: State, cap: nat)
    requires Good(st) && !AtEnd(js, st.pos) && Step(js, st, cap).Done?
    ensures Run(js, st, cap) == Run(js, Step(js, st, cap).st, cap)
  {}

  // ----- counting without tokens -----

  /** The count, or the error, and where the parser is left. */
  datatype Count = Counted(n: nat, at: nat) | Refused(error: Error, at: nat)

  /** jsmn_parse when it is given no token array. */
  function CountRun(js: string, p: nat, n: nat): Count
    decreases |js| - p
  {
    if AtEnd(js, p) then Counted(n, p)
    else
      var c := js[p];
      if c == '{' || c == '[' then CountRun(js, p + 1, n + 1)
      else if !MakesToken(c) then CountRun(js, p + 1, n)
      else
        var e := if c == '"' then StringEnd(js, p + 1) else PrimitiveEnd(js, p);
        match e
        case Bad => Refused(Inval, p)
        case Cut => Refused(Part, p)
        case Found(at) => CountRun(js, if c == '"' then at + 1 else at, n + 1)
  }

  /** The count without tokens is the number of tokens that a call with enough
      of them uses. */
  lemma {:induction false} CountAgrees(js: string, st: State, cap: nat)
    requires Good(st) && Run(js, st, cap).Done?
    ensures var r := Run(js, st, cap).st; CountRun(js, st.pos, |st.toks|) == Counted(|r.toks|, r.pos)
    decreases |js| - st.pos
  {
    hide Step, CountRun, NearestOpen;
    if !AtEnd(js, st.pos) {
      CountStep(js, st, cap);
      CountAgrees(js, Step(js, st, cap).st, cap);
    } else {
      CountEnd(js, st.pos, |st.toks|);
    }
  }

  lemma CountEnd(js: string, p: nat, n: nat)
    requires AtEnd(js, p)
    ensures CountRun(js, p, n) == Counted(n, p)
  {}

  lemma CountStep(js: string, st: State, cap: nat)
    requires Good(st) && !AtEnd(js, st.pos) && Step(js, st, cap).Done?
    ensures var r := Step(js, st, cap).st; CountRun(js, st.pos, |st.toks|) == CountRun(js, r.pos, |r.toks|)
  {}

  // ----- running out of tokens -----

  lemma StepRoom(js: string, st: State, cap: nat, cap': nat)
    requires Good(st) && !AtEnd(js, st.pos) && cap <= cap'
    ensures Step(js, st, cap) == Failed(NoMem, st) || Step(js, st, cap') == Step(js, st, cap)
  {}

  /** More room than needed changes nothing. */
  lemma {:induction false} EnoughRoom(js: string, st: State, cap: nat, cap': nat)
    requires Good(st) && cap <= cap'
    ensures var r := Run(js, st, cap); (r.Failed? && r.error == NoMem) || Run(js, st, cap') == r
    decreases |js| - st.pos
  {
    if !AtEnd(js, st.pos) {
      StepRoom(js, st, cap, cap');
      var r := Step(js, st, cap);
      if r.Done? { EnoughRoom(js, r.st, cap, cap'); }
    }
  }

  /** Where parsing stopped for want of tokens it goes on as if it never had. */
  lemma {:induction false} Resume(js: string, st: State, cap: nat, cap': nat)
    requires Good(st) && cap <= cap'
    ensures var r := Run(js, st, cap); r.Failed? && r.error == NoMem ==> Run(js, r.st, cap') == Run(js, st, cap')
    decreases |js| - st.pos
  {
    if !AtEnd(js, st.pos) {
      StepRoom(js, st, cap, cap');
      var r := Step(js, st, cap);
      if r.Done? { Resume(js, r.st, cap, cap'); }
    }
  }

  /** Calling again with more room after every NOMEM, keeping the tokens. */
  function Retried(js: string, st: State, caps: seq<nat>): (r: Result)
    requires Good(st) && caps != []
    ensures Good(r.st)
    decreases |caps|
  {
    var r := Run(js, st, caps[0]);
    if |caps| == 1 || r.Done? || r.error != NoMem then r else Retried(js, r.st, caps[1..])
  }

  /** However often that happens, the outcome is that of one call with the last
      amount of room. */
  lemma {:induction false} RetriedIsOne(js: string, st: State, caps: seq<nat>, last: nat)
    requires Good(st) && caps != [] && (forall i, j :: 0 <= i < j < |caps| ==> caps[i] <= caps[j])
    requires caps[|caps| - 1] <= last
    ensures var r := Retried(js, st, caps);
      (r.Failed? && r.error == NoMem) || r == Run(js, st, last)
    decreases |caps|
  {
    EnoughRoom(js, st, caps[0], last);
    Resume(js, st, caps[0], last);
    var r := Run(js, st, caps[0]);
    if |caps| > 1 && r.Failed? && r.error == NoMem {
      RetriedIsOne(js, r.st, caps[1..], last);
    }
  }

  // ----- spans -----

  /** A later token starts later, and lies inside an earlier one or behind it;
      an open token has nothing behind it. */
  ghost predicate NestedPair(a: Token, b: Token) {
    && a.start < b.start
    && (a.end != -1 ==> b.start >= a.end || (b.end != -1 && b.end <= a.end))
  }

  predicate SpanTo(t: Token, pos: nat) {
    t.end == -1 || t.start <= t.end <= pos
  }

  ghost predicate Nested(st: State) {
    && (forall i :: 0 <= i < |st.toks| ==> 0 <= st.toks[i].start < st.pos && SpanTo(st.toks[i], st.pos))
    && (forall i, j :: 0 <= i < j < |st.toks| ==> NestedPair(st.toks[i], st.toks[j]))
  }

  lemma NestedAdd(st: State, toks: seq<Token>, t: Token, pos: nat, super: int)
    requires Nested(st) && |toks| == |st.toks| && pos > t.start >= st.pos && SpanTo(t, pos)
    requires forall i :: 0 <= i < |toks| ==> toks[i].start == st.toks[i].start && toks[i].end == st.toks[i].end
    ensures Nested(State(pos, super, toks + [t]))
  {
    var all := toks + [t];
    forall i, j | 0 <= i < j < |all|
      ensures NestedPair(all[i], all[j])
    {
      if j < |toks| { assert NestedPair(st.toks[i], st.toks[j]); }
    }
  }

  lemma NestedClose(st: State, kind: Kind)
    requires Nested(st) && Closed(st, kind).Done?
    ensures Nested(Closed(st, kind).st)
  {
    var i := NearestOpen(st.toks, |st.toks|);
    var r := Closed(st, kind).st;
    forall k, j | 0 <= k < j < |r.toks|
      ensures NestedPair(r.toks[k], r.toks[j])
    {
      assert NestedPair(st.toks[k], st.toks[j]);
      if k == i { assert !Open(st.toks[j]); }
    }
  }

  lemma NestedStep(js: string, st: State, cap: nat)
    requires Good(st) && !AtEnd(js, st.pos) && Nested(st)
    ensures Nested(Step(js, st, cap).st)
  {
    hide Nested, Closed, Comma;
    var r := Step(js, st, cap);
    var c, p := js[st.pos], st.pos;
    if r.Done? {
      if c == '{' || c == '[' {
        var t := Token(if c == '{' then Object else Array, p, -1, 0);
        NestedAdd(st, Grown(st.toks, st.super, 1), t, p + 1, |st.toks|);
      } else if c == '}' || c == ']' {
        NestedClose(st, if c == '}' then Object else Array);
      } else if MakesToken(c) {
        var t := r.st.toks[|st.toks|];
        assert r.st.toks == Grown(st.toks, st.super, 1) + [t];
        NestedAdd(st, Grown(st.toks, st.super, 1), t, r.st.pos, st.super);
      } else {
        CommaKeeps(st);
        NestedMove(st, r.st.super);
      }
    }
  }

  lemma CommaKeeps(st: State)
    requires Good(st)
    ensures Comma(st).pos == st.pos + 1 && Comma(st).toks == st.toks
  {}

  lemma NestedMove(st: State, super: int)
    requires Nested(st)
    ensures Nested(State(st.pos + 1, super, st.toks))
  {}

  lemma {:induction false} NestedRun(js: string, st: State, cap: nat)
    requires Good(st) && Nested(st)
    ensures Nested(Run(js, st, cap).st)
    decreases |js| - st.pos
  {
    if !AtEnd(js, st.pos) {
      NestedStep(js, st, cap);
      var r := Step(js, st, cap);
      if r.Done? { NestedRun(js, r.st, cap); }
    }
  }

  lemma {:induction false} DoneMeansClosed(js: string, st: State, cap: nat)
    requires Good(st) && Run(js, st, cap).Done?
    ensures var r := Run(js, st, cap).st; forall i :: 0 <= i < |r.toks| ==> !Open(r.toks[i])
    decreases |js| - st.pos
  {
    if !AtEnd(js, st.pos) {
      DoneMeansClosed(js, Step(js, st, cap).st, cap);
    }
  }

  /** On success every container has been closed, and the spans of any two
      tokens are nested or disjoint, in the order of the tokens. */
  lemma SpansNest(js: string, cap: nat, i: nat, j: nat)
    requires Run(js, INIT, cap).Done? && i < j < |Run(js, INIT, cap).st.toks|
    ensures var toks := Run(js, INIT, cap).st.toks;
      && 0 <= toks[i].start <= toks[i].end && toks[i].start < toks[j].start
      && (toks[j].start >= toks[i].end || toks[j].end <= toks[i].end)
  {
    NestedRun(js, INIT, cap);
    DoneMeansClosed(js, INIT, cap);
    var toks := Run(js, INIT, cap).st.toks;
    assert NestedPair(toks[i], toks[j]);
  }

  function Code(e: Error): int {
    match e
    case NoMem => -1
    case Inval => -2
    case Part => -3
  }

  /** jsmn_parser, working on the caller's token array. */
  class Parser {
    var pos: nat
    var toknext: nat
    var toksuper: int

    constructor ()
      ensures pos == 0 && toknext == 0 && toksuper == -1
    {
      pos, toknext, toksuper := 0, 0, -1;
    }

    ghost function Now(tokens: array<Token>): State
      reads this, tokens
      requires toknext <= tokens.Length
    {
      State(pos, toksuper, tokens[..toknext])
    }

    ghost predicate Ready(tokens: array<Token>)
      reads this
    {
      toknext <= tokens.Length && -1 <= toksuper < toknext
    }

    /** jsmn_alloc_token and jsmn_fill_token; false when there is no room. */
    method Append(tokens: array<Token>, t: Token) returns (ok: bool)
      requires toknext <= tokens.Length
      modifies this`toknext, tokens
      ensures ok <==> old(toknext) < tokens.Length
      ensures toknext <= tokens.Length
      ensures ok ==> toknext == old(toknext) + 1 && tokens[..toknext] == old(tokens[..toknext]) + [t]
      ensures !ok ==> toknext == old(toknext) && tokens[..] == old(tokens[..])
    {
      if toknext >= tokens.Length {
        return false;
      }
      tokens[toknext] := t;
      toknext := toknext + 1;
      return true;
    }

    method Grow(tokens: array<Token>)
      requires Ready(tokens)
      modifies tokens
      ensures tokens[..toknext] == Grown(old(tokens[..toknext]), toksuper, 1)
    {
      if toksuper != -1 {
        tokens[toksuper] := tokens[toksuper].(size := tokens[toksuper].size + 1);
      }
    }

    /** The scan of jsmn_parse_primitive. */
    method ScanPrimitive(js: string) returns (ok: bool)
      modifies this`pos
      ensures var e := PrimitiveEnd(js, old(pos)); if ok then e == Found(pos) else e == Bad
    {
      while pos < |js| && js[pos] != '\0'
        invariant PrimitiveEnd(js, pos) == PrimitiveEnd(js, old(pos))
        decreases |js| - pos
      {
        if Stops(js[pos]) {
          return true;
        }
        if js[pos] < ' ' || js[pos] >= 127 as char {
          return false;
        }
        pos := pos + 1;
      }
      return true;
    }

    /** jsmn_parse_primitive; leaves pos before the character that ended it. */
    method ParsePrimitive(js: string, tokens: array<Token>) returns (r: int)
      requires Ready(tokens) && !AtEnd(js, pos) && !Stops(js[pos])
      modifies this`pos, this`toknext, tokens
      ensures old(toknext) <= toknext <= tokens.Length
      ensures var e := PrimitiveEnd(js, old(pos));
        if e.Bad? then r == -2 && Now(tokens) == old(Now(tokens))
        else if old(toknext) >= tokens.Length then r == -1 && Now(tokens) == old(Now(tokens))
        else r == 0 && pos == e.at - 1 && toknext == old(toknext) + 1
             && tokens[..toknext] == old(tokens[..toknext]) + [Token(Primitive, old(pos), e.at, 0)]
    {
      var start := pos;
      var ok := ScanPrimitive(js);
      if !ok {
        pos := start;
        return -2;
      }
      ok := Append(tokens, Token(Primitive, start, pos, 0));
      if !ok {
        pos := start;
        return -1;
      }
      pos := pos - 1;
      return 0;
    }

    /** Up to four hexadecimal digits. */
    method ScanHex(js: string) returns (ok: bool)
      modifies this`pos
      ensures var e := HexEnd(js, old(pos), 4); if ok then e == Found(pos) else e == Bad
    {
      var i: nat := 0;
      while i < 4 && pos < |js| && js[pos] != '\0'
        invariant i <= 4 && HexEnd(js, pos, 4 - i) == HexEnd(js, old(pos), 4)
      {
        if !Hex(js[pos]) {
          return false;
        }
        pos := pos + 1;
        i := i + 1;
      }
      return true;
    }

    /** The scan of jsmn_parse_string, from behind the opening quote. */
    method ScanString(js: string) returns (e: Scan)
      modifies this`pos
      ensures e == StringEnd(js, old(pos)) && (e.Found? ==> pos == e.at)
    {
      while pos < |js| && js[pos] != '\0'
        invariant StringEnd(js, pos) == StringEnd(js, old(pos))
        decreases |js| - pos
      {
        var c := js[pos];
        if c == '"' {
          return Found(pos);
        }
        if c == '\\' && pos + 1 < |js| {
          pos := pos + 1;
          if js[pos] == 'u' {
            pos := pos + 1;
            var ok := ScanHex(js);
            if !ok {
              return Bad;
            }
            pos := pos - 1;
          } else if !SimpleEscape(js[pos]) {
            return Bad;
          }
        }
        pos := pos + 1;
      }
      return Cut;
    }

    /** jsmn_parse_string; leaves pos at the closing quote. */
    method ParseString(js: string, tokens: array<Token>) returns (r: int)
      requires Ready(tokens) && pos < |js|
      modifies this`pos, this`toknext, tokens
      ensures old(toknext) <= toknext <= tokens.Length
      ensures var e := StringEnd(js, old(pos) + 1);
        if e.Bad? then r == -2 && Now(tokens) == old(Now(tokens))
        else if e.Cut? then r == -3 && Now(tokens) == old(Now(tokens))
        else if old(toknext) >= tokens.Length then r == -1 && Now(tokens) == old(Now(tokens))
        else r == 0 && pos == e.at && toknext == old(toknext) + 1
             && tokens[..toknext] == old(tokens[..toknext]) + [Token(String, old(pos) + 1, e.at, 0)]
    {
      var start := pos;
      pos := pos + 1;
      var e := ScanString(js);
      if e == Cut {
        pos := start;
        return -3;
      }
      if e == Bad {
        pos := start;
        return -2;
      }
      var ok := Append(tokens, Token(String, start + 1, pos, 0));
      if !ok {
        pos := start;
        return -1;
      }
      return 0;
    }

    /** The two loops behind a closing bracket. */
    method Close(tokens: array<Token>, kind: Kind) returns (r: int)
      requires Ready(tokens)
      modifies this`toksuper, tokens
      ensures var c := Closed(old(Now(tokens)), kind);
        if c.Failed? then r == -2 && Now(tokens) == old(Now(tokens))
        else r == 0 && Now(tokens) == c.st.(pos := pos)
    {
      var i: int := toknext - 1;
      while i >= 0
        invariant -1 <= i < toknext && NearestOpen(tokens[..toknext], i + 1) == NearestOpen(tokens[..toknext], toknext)
      {
        if Open(tokens[i]) {
          break;
        }
        i := i - 1;
      }
      if i == -1 || tokens[i].kind != kind {
        return -2;
      }
      ghost var before, first := Now(tokens), i;
      toksuper := -1;
      tokens[i] := tokens[i].(end := pos + 1);
      assert tokens[..toknext] == before.toks[i := before.toks[i].(end := pos + 1)];
      while i >= 0
        invariant -1 <= i <= first && NearestOpen(tokens[..toknext], i + 1) == NearestOpen(tokens[..toknext], first)
        invariant toksuper == -1
      {
        if Open(tokens[i]) {
          toksuper := i;
          break;
        }
        i := i - 1;
      }
      return 0;
    }

    /** The search behind a comma. */
    method Separate(tokens: array<Token>)
      requires Ready(tokens)
      modifies this`toksuper
      ensures State(pos + 1, toksuper, tokens[..toknext]) == Comma(old(Now(tokens)))
    {
      if toksuper != -1 && !Container(tokens[toksuper]) {
        ghost var none := toksuper;
        var i: int := toknext - 1;
        while i >= 0
          invariant -1 <= i < toknext && toksuper == none
          invariant NearestContainer(tokens[..toknext], i + 1, none)
                 == NearestContainer(tokens[..toknext], toknext, none)
        {
          if Container(tokens[i]) && Open(tokens[i]) {
            toksuper := i;
            break;
          }
          i := i - 1;
        }
      }
    }

    /** '{' or '['. */
    method OpenContainer(tokens: array<Token>, kind: Kind) returns (r: int)
      requires Ready(tokens)
      modifies this`toknext, this`toksuper, tokens
      ensures Ready(tokens)
      ensures var s := Opened(old(Now(tokens)), tokens.Length, kind);
        if s.Failed? then r == Code(s.error) && Now(tokens) == old(Now(tokens))
        else r == 0 && State(pos + 1, toksuper, tokens[..toknext]) == s.st
    {
      ghost var before := Now(tokens);
      if toknext >= tokens.Length {
        return -1;
      }
      Grow(tokens);
      var _ := Append(tokens, Token(kind, pos, -1, 0));
      toksuper := toknext - 1;
      assert tokens[..toknext] == Grown(before.toks, before.super, 1) + [Token(kind, before.pos, -1, 0)];
      return 0;
    }

    /** A string becomes a child of the current parent. */
    method StringChild(js: string, tokens: array<Token>) returns (r: int)
      requires Ready(tokens) && !AtEnd(js, pos) && js[pos] == '"'
      modifies this`pos, this`toknext, tokens
      ensures Ready(tokens)
      ensures var st := old(Now(tokens));
        var e := StringEnd(js, st.pos + 1);
        var s := Scanned(st, tokens.Length, String, st.pos + 1, e, if e.Found? then e.at + 1 else st.pos);
        if s.Failed? then r == Code(s.error) && Now(tokens) == st
        else r == 0 && State(pos + 1, toksuper, tokens[..toknext]) == s.st
    {
      r := ParseString(js, tokens);
      if r == 0 {
        Grow(tokens);
      }
    }

    /** And so does a primitive. */
    method PrimitiveChild(js: string, tokens: array<Token>) returns (r: int)
      requires Ready(tokens) && !AtEnd(js, pos) && !Stops(js[pos])
      modifies this`pos, this`toknext, tokens
      ensures Ready(tokens)
      ensures var st := old(Now(tokens));
        var e := PrimitiveEnd(js, st.pos);
        var s := Scanned(st, tokens.Length, Primitive, st.pos, e, if e.Found? then e.at else st.pos);
        if s.Failed? then r == Code(s.error) && Now(tokens) == st
        else r == 0 && State(pos + 1, toksuper, tokens[..toknext]) == s.st
    {
      r := ParsePrimitive(js, tokens);
      if r == 0 {
        Grow(tokens);
      }
    }

    /** The switch of jsmn_parse. */
    method Character(js: string, tokens: array<Token>) returns (r: int)
      requires Ready(tokens) && !AtEnd(js, pos)
      modifies this, tokens
      ensures Ready(tokens)
      ensures r == 0 ==> toknext == old(toknext) + if MakesToken(js[old(pos)]) then 1 else 0
      ensures var s := Step(js, old(Now(tokens)), tokens.Length);
        if s.Failed? then r == Code(s.error) && Now(tokens) == old(Now(tokens))
        else r == 0 && State(pos + 1, toksuper, tokens[..toknext]) == s.st
    {
      var c := js[pos];
      r := 0;
      if c == '{' || c == '[' {
        r := OpenContainer(tokens, if c == '{' then Object else Array);
      } else if c == '}' || c == ']' {
        r := Close(tokens, if c == '}' then Object else Array);
      } else if c == '"' {
        r := StringChild(js, tokens);
      } else if Blank(c) {
      } else if c == ':' {
        toksuper := toknext - 1;
      } else if c == ',' {
        Separate(tokens);
      } else {
        r := PrimitiveChild(js, tokens);
      }
      assert |tokens[..toknext]| == toknext;
    }

    /** jsmn_parse with a token array. */
    method Parse(js: string, tokens: array<Token>) returns (r: int)
      requires Ready(tokens)
      modifies this, tokens
      ensures Ready(tokens)
      ensures var res := Run(js, old(Now(tokens)), tokens.Length);
        Now(tokens) == res.st && r == if res.Done? then |res.st.toks| else Code(res.error)
    {
      hide Step, NearestOpen;
      var count := toknext;
      while pos < |js| && js[pos] != '\0'
        invariant Ready(tokens) && Run(js, Now(tokens), tokens.Length) == Run(js, old(Now(tokens)), tokens.Length)
        invariant count == toknext
        decreases |js| - pos
      {
        var makesToken := MakesToken(js[pos]);
        r := Character(js, tokens);
        if r < 0 {
          return;
        }
        if makesToken { count := count + 1; }
        pos := pos + 1;
      }
      var open := AnyOpen(tokens);
      return if open then -3 else count;
    }

    /** jsmn_parse without a token array. */
    method ParseWithoutTokens(js: string) returns (r: int)
      modifies this
      ensures var c := CountRun(js, old(pos), old(toknext));
        r == (if c.Counted? then c.n else Code(c.error)) && pos == c.at
      ensures toknext == old(toknext) && (toksuper == old(toksuper) || toksuper == toknext - 1)
    {
      var count := toknext;
      while pos < |js| && js[pos] != '\0'
        invariant CountRun(js, pos, count) == CountRun(js, old(pos), old(toknext))
        invariant toknext == old(toknext) && (toksuper == old(toksuper) || toksuper == toknext - 1)
        decreases |js| - pos
      {
        var c := js[pos];
        if c == ':' {
          toksuper := toknext - 1;
        } else if c == '"' {
          var start := pos;
          pos := pos + 1;
          var e := ScanString(js);
          if e != Found(pos) {
            pos := start;
            return if e == Bad then -2 else -3;
          }
          count := count + 1;
        } else if c == '{' || c == '[' {
          count := count + 1;
        } else if MakesToken(c) {
          var start := pos;
          var ok := ScanPrimitive(js);
          if !ok {
            pos := start;
            return -2;
          }
          pos := pos - 1;
          count := count + 1;
        }
        pos := pos + 1;
      }
      return count;
    }

    /** Is there an unmatched container? */
    method AnyOpen(tokens: array<Token>) returns (open: bool)
      requires Ready(tokens)
      ensures open <==> NearestOpen(tokens[..toknext], toknext) != -1
    {
      var i: int := toknext - 1;
      while i >= 0
        invariant -1 <= i < toknext && NearestOpen(tokens[..toknext], i + 1) == NearestOpen(tokens[..toknext], toknext)
      {
        if Open(tokens[i]) {
          return true;
        }
        i := i - 1;
      }
      return false;
    }
  }
}
