/** What a successful run of jsmn.c says about the brackets of the text. */
module JsmnBrackets {
  import opened Jsmn
  import opened JsmnItems

  predicate Opener(c: char) {
    c == '{' || c == '['
  }

  predicate Closer(c: char) {
    c == '}' || c == ']'
  }

  function KindOf(c: char): Kind {
    if c == '{' || c == '}' then Object else Array
  }

  /** Where the item at p ends: a string, a primitive, or a single character. */
  function Item(js: string, p: nat): (r: Scan)
    requires !AtEnd(js, p)
    ensures r.Found? ==> p < r.at <= |js|
  {
    if js[p] == '"' then
      var e := StringEnd(js, p + 1);
      if e.Found? then Found(e.at + 1) else e
    else if MakesToken(js[p]) && !Opener(js[p]) then PrimitiveEnd(js, p)
    else Found(p + 1)
  }

  /** Where an item ends and which items are tokens, by the characters. */
  lemma ItemIs(js: string, p: nat)
    requires !AtEnd(js, p)
    ensures MakesToken(js[p]) <==> js[p] !in "}]:, \t\r\n"
    ensures forall q: nat :: Item(js, p) == Found(q) <==>
      if js[p] == '"' then p + 1 < q <= |js| && js[q - 1] == '"' && Reaches(js, p + 1, q - 1)
      else if js[p] in "{[}]:, \t\r\n" then q == p + 1
      else RunsTo(js, p, q) && (TextEnds(js, q) || EndsPrimitive(js[q]))
  {
    hide StringEnd, PrimitiveEnd, Reaches, RunsTo, TextEnds, EndsPrimitive;
    StringIs(js, p + 1);
    PrimitiveIs(js, p);
  }

  predicate IsPrimitive(c: char) {
    MakesToken(c) && !Opener(c) && c != '"'
  }

  // ----- brackets -----

  /** The brackets that are items: those outside strings and primitives. */
  function Brackets(js: string, p: nat): string
    decreases |js| - p
  {
    if AtEnd(js, p) || !Item(js, p).Found? then ""
    else (if Opener(js[p]) || Closer(js[p]) then [js[p]] else "") + Brackets(js, Item(js, p).at)
  }

  /** All brackets outside strings. */
  function OutsideStrings(js: string, p: nat): string
    decreases |js| - p
  {
    if AtEnd(js, p) || !Item(js, p).Found? then ""
    else (if js[p] == '"' then "" else BracketsIn(js[p..Item(js, p).at])) + OutsideStrings(js, Item(js, p).at)
  }

  function BracketsIn(s: string): string {
    if s == "" then "" else (if Opener(s[0]) || Closer(s[0]) then [s[0]] else "") + BracketsIn(s[1..])
  }

  /** No primitive contains an opening bracket. */
  predicate CleanPrimitives(js: string, p: nat)
    decreases |js| - p
  {
    AtEnd(js, p) || !Item(js, p).Found? ||
    (&& (IsPrimitive(js[p]) ==> forall k :: p <= k < Item(js, p).at ==> !Opener(js[k]))
     && CleanPrimitives(js, Item(js, p).at))
  }

  /** The brackets of b close what is open, the last first, and what they open
      themselves, each with its own kind. */
  predicate Balanced(b: string, open: seq<Kind>) {
    if b == "" then open == []
    else if Opener(b[0]) then Balanced(b[1..], open + [KindOf(b[0])])
    else open != [] && open[|open| - 1] == KindOf(b[0]) && Balanced(b[1..], open[..|open| - 1])
  }

  /** The kinds of the open tokens among the first n. */
  function OpenKinds(toks: seq<Token>, n: nat): (r: seq<Kind>)
    requires n <= |toks|
  {
    if n == 0 then []
    else OpenKinds(toks, n - 1) + if Open(toks[n - 1]) then [toks[n - 1].kind] else []
  }

  lemma {:induction false} OpenKindsSame(a: seq<Token>, b: seq<Token>, n: nat)
    requires n <= |a| && n <= |b|
    requires forall i :: 0 <= i < n ==> a[i].kind == b[i].kind && a[i].start == b[i].start && a[i].end == b[i].end
    ensures OpenKinds(a, n) == OpenKinds(b, n)
  {
    if n > 0 {
      OpenKindsSame(a, b, n - 1);
    }
  }

  /** The nearest open token is the last of them. */
  lemma {:induction false} NearestIsLast(toks: seq<Token>, n: nat)
    requires n <= |toks|
    ensures var i := NearestOpen(toks, n);
      OpenKinds(toks, n) == if i == -1 then [] else OpenKinds(toks, i) + [toks[i].kind]
  {
    if n > 0 && !Open(toks[n - 1]) {
      NearestIsLast(toks, n - 1);
    }
  }

  lemma {:induction false} NoneOpen(toks: seq<Token>, i: nat, n: nat)
    requires i <= n <= |toks| && forall k :: i <= k < n ==> !Open(toks[k])
    ensures OpenKinds(toks, n) == OpenKinds(toks, i)
  {
    if i < n {
      NoneOpen(toks, i, n - 1);
    }
  }

  lemma OpenKindsAdd(toks: seq<Token>, super: int, t: Token)
    requires -1 <= super < |toks|
    ensures OpenKinds(Grown(toks, super, 1) + [t], |toks| + 1)
         == OpenKinds(toks, |toks|) + if Open(t) then [t.kind] else []
  {
    hide *;
    var g := Grown(toks, super, 1);
    GrownKeeps(toks, super);
    OpenKindsSame(g, toks, |toks|);
    OpenKindsSnoc(g, t);
  }

  lemma GrownKeeps(toks: seq<Token>, super: int)
    requires -1 <= super < |toks|
    ensures var r := Grown(toks, super, 1);
      && (forall i :: 0 <= i < |toks| ==> r[i].kind == toks[i].kind)
      && (forall i :: 0 <= i < |toks| ==> r[i].start == toks[i].start && r[i].end == toks[i].end)
  {}

  lemma OpenKindsSnoc(toks: seq<Token>, t: Token)
    ensures OpenKinds(toks + [t], |toks| + 1) == OpenKinds(toks, |toks|) + if Open(t) then [t.kind] else []
  {
    OpenKindsSame(toks + [t], toks, |toks|);
  }

  lemma OpenKindsClose(st: State, kind: Kind)
    ensures var open, r := OpenKinds(st.toks, |st.toks|), Closed(st, kind);
      && (r.Done? <==> open != [] && open[|open| - 1] == kind)
      && (r.Done? ==> OpenKinds(r.st.toks, |r.st.toks|) == open[..|open| - 1])
  {
    var i := NearestOpen(st.toks, |st.toks|);
    NearestIsLast(st.toks, |st.toks|);
    if Closed(st, kind).Done? {
      var toks := Closed(st, kind).st.toks;
      NoneOpen(toks, i, |toks|);
      OpenKindsSame(toks, st.toks, i);
    }
  }

  // ----- the main loop and the brackets -----

  lemma BracketsStep(js: string, p: nat)
    requires !AtEnd(js, p) && Item(js, p).Found?
    ensures Brackets(js, p) == (if Opener(js[p]) || Closer(js[p]) then [js[p]] else "") + Brackets(js, Item(js, p).at)
  {}

  lemma BalancedStep(c: char, b: string, open: seq<Kind>)
    ensures Balanced([c] + b, open) <==>
      if Opener(c) then Balanced(b, open + [KindOf(c)])
      else open != [] && open[|open| - 1] == KindOf(c) && Balanced(b, open[..|open| - 1])
  {
    assert ([c] + b)[1..] == b;
  }

  /** A step of the tokenizer is one item, and succeeds exactly when the item is
      complete, a closing bracket fits, and a new token has room. */
  lemma StepIsItem(js: string, st: State, cap: nat)
    requires Good(st) && !AtEnd(js, st.pos)
    ensures var r, e, c := Step(js, st, cap), Item(js, st.pos), js[st.pos];
      && (r.Done? <==> e.Found? && (MakesToken(c) ==> |st.toks| < cap) && (Closer(c) ==> Closed(st, KindOf(c)).Done?))
      && (r.Done? ==> r.st.pos == e.at && |r.st.toks| == |st.toks| + if MakesToken(c) then 1 else 0)
      && (r.Failed? ==> r.error == if e.Bad? || Closer(c) then Inval else if e.Cut? then Part else NoMem)
  {}

  /** Why a run fails, and where the parser is left: with every item before it
      taken. A text that ends too early is told from one that is wrong, and both
      from a want of tokens. */
  lemma {:induction false} FailureIs(js: string, st: State, cap: nat)
    requires Good(st) && Run(js, st, cap).Failed?
    ensures var r := Run(js, st, cap);
      if AtEnd(js, r.st.pos) then r.error == Part && OpenKinds(r.st.toks, |r.st.toks|) != []
      else
        var e, c := Item(js, r.st.pos), js[r.st.pos];
        match r.error
        case Part => e == Cut
        case Inval => e == Bad || (Closer(c) && Closed(r.st, KindOf(c)).Failed?)
        case NoMem => e.Found? && MakesToken(c) && |r.st.toks| >= cap
    decreases |js| - st.pos
  {
    hide Step, Item, OpenKinds, Closed, NearestOpen;
    if AtEnd(js, st.pos) {
      NearestIsLast(st.toks, |st.toks|);
    } else {
      StepIsItem(js, st, cap);
      CloserFound(js, st.pos);
      var r := Step(js, st, cap);
      if r.Done? { FailureIs(js, r.st, cap); }
    }
  }

  lemma CloserFound(js: string, p: nat)
    requires !AtEnd(js, p)
    ensures Closer(js[p]) ==> Item(js, p) == Found(p + 1)
  {}

  lemma StepKinds(js: string, st: State, cap: nat)
    requires Good(st) && !AtEnd(js, st.pos) && Step(js, st, cap).Done?
    ensures var r, c := Step(js, st, cap).st, js[st.pos];
      var open := OpenKinds(st.toks, |st.toks|);
      OpenKinds(r.toks, |r.toks|) == if Opener(c) then open + [KindOf(c)]
        else if Closer(c) && open != [] then open[..|open| - 1] else open
  {
    hide Step, Grown, OpenKinds, Open, Closed;
    var c := js[st.pos];
    if Opener(c) || MakesToken(c) {
      var t := StepAdds(js, st, cap);
      OpenKindsAdd(st.toks, st.super, t);
    } else if Closer(c) {
      StepCloses(js, st, cap);
      OpenKindsClose(st, KindOf(c));
    } else {
      StepMoves(js, st, cap);
    }
  }

  lemma StepAdds(js: string, st: State, cap: nat) returns (t: Token)
    requires Good(st) && !AtEnd(js, st.pos) && Step(js, st, cap).Done? && MakesToken(js[st.pos])
    ensures Step(js, st, cap).st.toks == Grown(st.toks, st.super, 1) + [t]
    ensures if Opener(js[st.pos]) then Open(t) && t.kind == KindOf(js[st.pos]) else !Open(t)
  {
    t := Step(js, st, cap).st.toks[|st.toks|];
    assert Step(js, st, cap).st.toks == Grown(st.toks, st.super, 1) + [t];
  }

  lemma StepCloses(js: string, st: State, cap: nat)
    requires Good(st) && !AtEnd(js, st.pos) && Closer(js[st.pos])
    ensures Step(js, st, cap) == Closed(st, KindOf(js[st.pos]))
  {}

  lemma StepMoves(js: string, st: State, cap: nat)
    requires Good(st) && !AtEnd(js, st.pos) && !MakesToken(js[st.pos]) && !Closer(js[st.pos])
    ensures Step(js, st, cap).st.toks == st.toks
  {
    CommaKeeps(st);
  }

  lemma CountIsItem(js: string, p: nat, n: nat)
    requires !AtEnd(js, p)
    ensures var e := Item(js, p);
      if e.Found? then CountRun(js, p, n) == CountRun(js, e.at, n + if MakesToken(js[p]) then 1 else 0)
      else CountRun(js, p, n) == Refused(if e.Bad? then Inval else Part, p)
  {}

  lemma {:induction false} CountGrows(js: string, p: nat, n: nat)
    ensures CountRun(js, p, n).Counted? ==> CountRun(js, p, n).n >= n
    decreases |js| - p
  {
    hide CountRun;
    if AtEnd(js, p) {
      CountEnd(js, p, n);
    } else {
      CountIsItem(js, p, n);
      if Item(js, p).Found? {
        CountGrows(js, Item(js, p).at, n + if MakesToken(js[p]) then 1 else 0);
      }
    }
  }

  /** From any state the run succeeds exactly when all strings and primitives are
      complete, there are enough tokens, and the brackets close what is open. */
  lemma {:induction false} RunBalances(js: string, st: State, cap: nat)
    requires Good(st) && |st.toks| <= cap
    ensures Run(js, st, cap).Done? <==>
      (var c := CountRun(js, st.pos, |st.toks|);
       c.Counted? && c.n <= cap && Balanced(Brackets(js, st.pos), OpenKinds(st.toks, |st.toks|)))
    decreases |js| - st.pos
  {
    hide Step, CountRun, Item, OpenKinds, Closed, Balanced, NearestOpen;
    var p, open, n := st.pos, OpenKinds(st.toks, |st.toks|), |st.toks|;
    if AtEnd(js, p) {
      CountEnd(js, p, n);
      NearestIsLast(st.toks, n);
      BalancedEnd(open);
    } else {
      StepIsItem(js, st, cap);
      CountIsItem(js, p, n);
      OpenKindsClose(st, KindOf(js[p]));
      if Item(js, p).Found? {
        BracketsStep(js, p);
        CountGrows(js, Item(js, p).at, n + if MakesToken(js[p]) then 1 else 0);
        var rest := Brackets(js, Item(js, p).at);
        BalancedStep(js[p], rest, open);
        assert "" + rest == rest;
        var r := Step(js, st, cap);
        if r.Done? {
          StepKinds(js, st, cap);
          RunBalances(js, r.st, cap);
        }
      }
    }
  }

  lemma BalancedEnd(open: seq<Kind>)
    ensures Balanced("", open) <==> open == []
  {}

  /** A whole text succeeds exactly when it can be counted, there are that many
      tokens, and its brackets outside strings and primitives are balanced. */
  lemma SuccessIffBalanced(js: string, cap: nat)
    ensures Run(js, INIT, cap).Done? <==>
      CountRun(js, 0, 0).Counted? && CountRun(js, 0, 0).n <= cap && Balanced(Brackets(js, 0), [])
  {
    RunBalances(js, INIT, cap);
  }

  // ----- tokens and brackets -----

  /** The token of a container starts at its opening bracket and, once closed,
      ends behind its closing one. */
  predicate Spans(js: string, t: Token) {
    Container(t) ==>
      && 0 <= t.start < |js| && Opener(js[t.start]) && KindOf(js[t.start]) == t.kind
      && (t.end != -1 ==> t.start < t.end <= |js| && Closer(js[t.end - 1]) && KindOf(js[t.end - 1]) == t.kind)
  }

  ghost predicate AllSpan(js: string, st: State) {
    forall i :: 0 <= i < |st.toks| ==> Spans(js, st.toks[i]) && st.toks[i].start < st.pos
  }

  lemma StepSpans(js: string, st: State, cap: nat)
    requires Good(st) && !AtEnd(js, st.pos) && AllSpan(js, st)
    ensures AllSpan(js, Step(js, st, cap).st)
  {
    hide Step;
    StepIsItem(js, st, cap);
    if Step(js, st, cap).Done? {
      if MakesToken(js[st.pos]) {
        var t := StepAdds(js, st, cap);
        NewSpans(js, st, cap, t);
        GrownKeeps(st.toks, st.super);
      } else if Closer(js[st.pos]) {
        StepCloses(js, st, cap);
      } else {
        StepMoves(js, st, cap);
      }
    }
  }

  lemma NewSpans(js: string, st: State, cap: nat, t: Token)
    requires Good(st) && !AtEnd(js, st.pos) && Step(js, st, cap).Done?
    requires MakesToken(js[st.pos]) && Step(js, st, cap).st.toks == Grown(st.toks, st.super, 1) + [t]
    ensures Spans(js, t) && t.start < Step(js, st, cap).st.pos
  {
    assert t == Step(js, st, cap).st.toks[|st.toks|];
  }

  lemma {:induction false} RunSpans(js: string, st: State, cap: nat)
    requires Good(st) && AllSpan(js, st)
    ensures AllSpan(js, Run(js, st, cap).st)
    decreases |js| - st.pos
  {
    hide Step, AllSpan;
    if !AtEnd(js, st.pos) {
      StepSpans(js, st, cap);
      var r := Step(js, st, cap);
      if r.Done? { RunSpans(js, r.st, cap); }
    }
  }

  /** On success every container token goes from an opening bracket of its kind
      to a closing one. */
  lemma ContainersSpan(js: string, cap: nat, i: nat)
    requires Run(js, INIT, cap).Done? && i < |Run(js, INIT, cap).st.toks|
    ensures var t := Run(js, INIT, cap).st.toks[i]; Spans(js, t) && (Container(t) ==> t.end != -1)
  {
    RunSpans(js, INIT, cap);
    DoneMeansClosed(js, INIT, cap);
  }

  // ----- brackets in primitives -----

  /** More openings than closings. */
  function Excess(b: string): int {
    if b == "" then 0 else (if Opener(b[0]) then 1 else -1) + Excess(b[1..])
  }

  lemma {:induction false} BalancedExcess(b: string, open: seq<Kind>)
    requires Balanced(b, open)
    ensures |open| + Excess(b) == 0
  {
    if b != "" {
      BalancedExcess(b[1..], if Opener(b[0]) then open + [KindOf(b[0])] else open[..|open| - 1]);
    }
  }

  lemma {:induction false} ExcessConcat(a: string, b: string)
    ensures Excess(a + b) == Excess(a) + Excess(b)
  {
    if a == "" {
      assert a + b == b;
    } else {
      assert (a + b)[1..] == a[1..] + b;
      ExcessConcat(a[1..], b);
    }
  }

  lemma {:induction false} PrimitiveHasNoStop(js: string, p: nat)
    requires PrimitiveEnd(js, p).Found?
    ensures forall k :: p <= k < PrimitiveEnd(js, p).at ==> k < |js| && !Closer(js[k])
    decreases |js| - p
  {
    if !AtEnd(js, p) && !Stops(js[p]) {
      PrimitiveHasNoStop(js, p + 1);
    }
  }

  /** Without closings, there are as many as the excess says. */
  lemma {:induction false} OnlyOpenings(s: string)
    requires forall k :: 0 <= k < |s| ==> !Closer(s[k])
    ensures Excess(BracketsIn(s)) >= 0
    ensures Excess(BracketsIn(s)) == 0 <==> forall k :: 0 <= k < |s| ==> !Opener(s[k])
    ensures Excess(BracketsIn(s)) == 0 ==> BracketsIn(s) == ""
  {
    if s != "" {
      OnlyOpenings(s[1..]);
      assert forall k :: 0 < k < |s| ==> s[k] == s[1..][k - 1];
      var rest := BracketsIn(s[1..]);
      assert "" + rest == rest;
      if Opener(s[0]) {
        ExcessConcat([s[0]], rest);
        assert Excess([s[0]]) == 1;
      }
    }
  }

  lemma BracketsInOne(js: string, p: nat)
    requires p < |js|
    ensures BracketsIn(js[p..p + 1]) == if Opener(js[p]) || Closer(js[p]) then [js[p]] else ""
  {
    assert js[p..p + 1] == [js[p]];
    assert BracketsIn([js[p]][1..]) == "";
  }

  /** What one item adds to the brackets outside strings. */
  lemma ItemBrackets(js: string, p: nat)
    requires !AtEnd(js, p) && Item(js, p).Found?
    ensures var own := if js[p] == '"' then "" else BracketsIn(js[p..Item(js, p).at]);
      if IsPrimitive(js[p]) then
        && Excess(own) >= 0 && (Excess(own) == 0 ==> own == "")
        && (Excess(own) == 0 <==> forall k :: p <= k < Item(js, p).at ==> !Opener(js[k]))
      else own == if Opener(js[p]) || Closer(js[p]) then [js[p]] else ""
  {
    if IsPrimitive(js[p]) {
      PrimitiveHasNoStop(js, p);
      var s := js[p..Item(js, p).at];
      assert forall k :: p <= k < Item(js, p).at ==> js[k] == s[k - p];
      assert forall k :: 0 <= k < |s| ==> s[k] == js[p + k];
      OnlyOpenings(s);
    } else if js[p] != '"' {
      BracketsInOne(js, p);
    }
  }

  /** Counting the brackets in primitives can only add openings, and adds none
      exactly when the primitives are clean. */
  lemma {:induction false} OutsideExcess(js: string, p: nat)
    ensures Excess(OutsideStrings(js, p)) >= Excess(Brackets(js, p))
    ensures Excess(OutsideStrings(js, p)) == Excess(Brackets(js, p)) <==> CleanPrimitives(js, p)
    ensures CleanPrimitives(js, p) ==> OutsideStrings(js, p) == Brackets(js, p)
    decreases |js| - p
  {
    hide Item, Excess, BracketsIn, IsPrimitive, MakesToken;
    if !AtEnd(js, p) && Item(js, p).Found? {
      var at := Item(js, p).at;
      var own := if js[p] == '"' then "" else BracketsIn(js[p..at]);
      ItemBrackets(js, p);
      NotBracket(js[p]);
      OutsideExcess(js, at);
      ExcessConcat(own, OutsideStrings(js, at));
      ExcessConcat(if Opener(js[p]) || Closer(js[p]) then [js[p]] else "", Brackets(js, at));
      NoExcess();
    }
  }

  lemma NotBracket(c: char)
    ensures IsPrimitive(c) ==> !Opener(c) && !Closer(c)
  {}

  lemma NoExcess()
    ensures Excess("") == 0
  {}

  /** After success, the brackets outside strings are balanced if and only if no
      primitive contains an opening bracket. */
  lemma OutsideStringsIff(js: string, cap: nat)
    requires Run(js, INIT, cap).Done?
    ensures Balanced(OutsideStrings(js, 0), []) <==> CleanPrimitives(js, 0)
  {
    SuccessIffBalanced(js, cap);
    OutsideExcess(js, 0);
    BalancedExcess(Brackets(js, 0), []);
    if Balanced(OutsideStrings(js, 0), []) {
      BalancedExcess(OutsideStrings(js, 0), []);
    }
  }

  /** A text that is accepted although its brackets are not balanced: the
      primitive takes one of them. */
  lemma PrimitiveTakesBracket()
    ensures Run("[a[]", INIT, 2) == Done(State(4, -1, [Token(Array, 0, 4, 1), Token(Primitive, 1, 3, 0)]))
    ensures OutsideStrings("[a[]", 0) == "[[]" && !Balanced(OutsideStrings("[a[]", 0), [])
  {
    TakenPrimitive();
    TakenRun();
    TakenOutside();
  }

  lemma TakenPrimitive()
    ensures PrimitiveEnd("[a[]", 1) == Found(3)
  {
    var js := "[a[]";
    assert PrimitiveEnd(js, 3) == Found(3);
    assert PrimitiveEnd(js, 2) == Found(3);
  }

  lemma TakenRun()
    requires PrimitiveEnd("[a[]", 1) == Found(3)
    ensures Run("[a[]", INIT, 2) == Done(State(4, -1, [Token(Array, 0, 4, 1), Token(Primitive, 1, 3, 0)]))
  {
    hide Run, NearestOpen, PrimitiveEnd;
    var js := "[a[]";
    var s1 := State(1, 0, [Token(Array, 0, -1, 0)]);
    var s2 := State(3, 0, [Token(Array, 0, -1, 1), Token(Primitive, 1, 3, 0)]);
    var s3 := State(4, -1, [Token(Array, 0, 4, 1), Token(Primitive, 1, 3, 0)]);
    assert Step(js, INIT, 2) == Done(s1);
    assert Step(js, s1, 2) == Done(s2);
    assert NearestOpen(s2.toks, 2) == 0 by { NearestIs(s2.toks, 0); }
    assert NearestOpen(s3.toks, 0) == -1 == NearestOpen(s3.toks, 2) by { NearestIs(s3.toks, -1); }
    assert Step(js, s2, 2) == Done(s3);
    RunStep(js, INIT, 2);
    RunStep(js, s1, 2);
    RunStep(js, s2, 2);
    RunStops(js, s3, 2);
  }

  lemma NearestIs(toks: seq<Token>, i: int)
    requires -1 <= i < |toks| == 2 && (i >= 0 ==> Open(toks[i])) && forall k :: i < k < 2 ==> !Open(toks[k])
    ensures NearestOpen(toks, 2) == i && NearestOpen(toks, 0) == -1
  {}

  lemma RunStops(js: string, st: State, cap: nat)
    requires Good(st) && AtEnd(js, st.pos) && NearestOpen(st.toks, |st.toks|) == -1
    ensures Run(js, st, cap) == Done(st)
  {}

  lemma TakenOutside()
    requires PrimitiveEnd("[a[]", 1) == Found(3)
    ensures OutsideStrings("[a[]", 0) == "[[]" && !Balanced(OutsideStrings("[a[]", 0), [])
  {
    hide PrimitiveEnd, StringEnd, OutsideStrings, BracketsIn, Balanced, Excess;
    var js := "[a[]";
    assert js[0..1] == "[" && js[1..3] == "a[" && js[3..4] == "]";
    BracketsOf();
    OutsideStep(js, 0);
    OutsideStep(js, 1);
    OutsideStep(js, 3);
    OutsideStep(js, 4);
    ExcessOf();
    if Balanced("[[]", []) { BalancedExcess("[[]", []); }
  }

  lemma OutsideStep(js: string, p: nat)
    requires AtEnd(js, p) || Item(js, p).Found?
    ensures OutsideStrings(js, p) == if AtEnd(js, p) then ""
      else (if js[p] == '"' then "" else BracketsIn(js[p..Item(js, p).at])) + OutsideStrings(js, Item(js, p).at)
  {}

  lemma BracketsOf()
    ensures BracketsIn("[") == "[" && BracketsIn("a[") == "[" && BracketsIn("]") == "]"
  {
    assert "["[1..] == "" && "a["[1..] == "[" && "]"[1..] == "";
  }

  lemma ExcessOf()
    ensures Excess("[[]") == 1
  {
    assert "[[]"[1..] == "[]" && "[]"[1..] == "]" && "]"[1..] == "";
    assert Excess("]") == -1;
  }
}
