/** Which strings and primitives jsmn.c takes, in terms of the characters of the
    text alone. */
module JsmnItems {
  import opened Jsmn

  // ----- strings -----

  predicate HexDigit(c: char) {
    c in "0123456789abcdefABCDEF"
  }

  predicate Escaped(c: char) {
    c in "\"\\/bfnrt"
  }

  /** The first n characters are an escape, or one other character. */
  predicate Unit(s: string, n: nat) {
    || (n == 1 && |s| >= 1 && s[0] !in "\"\\\0")
    || (n == 2 && |s| >= 2 && s[0] == '\\' && Escaped(s[1]))
    || (n == 6 && |s| >= 6 && s[0] == '\\' && s[1] == 'u' && forall i :: 2 <= i < 6 ==> HexDigit(s[i]))
  }

  /** Every quote and every backslash belongs to an escape. */
  predicate Body(s: string) {
    s == "" || exists n :: 1 <= n <= |s| && Unit(s, n) && Body(s[n..])
  }

  /** A backslash that begins no escape, and not for want of characters. */
  predicate WrongEscape(js: string, q: nat) {
    && q + 1 < |js| && js[q] == '\\' && !Escaped(js[q + 1])
    && (js[q + 1] == 'u' ==> Stray(js, q + 2, 4))
  }

  /** One of the n characters from p on is none of the digits they should be. */
  predicate Stray(js: string, p: nat, n: nat) {
    exists r :: p <= r < p + n && StrayAt(js, p, r)
  }

  predicate StrayAt(js: string, p: nat, r: nat) {
    p <= r < |js| && js[r] != '\0' && !HexDigit(js[r]) && Digits(js, p, r)
  }

  predicate Digits(js: string, p: nat, q: nat) {
    q <= |js| && forall i :: p <= i < q ==> HexDigit(js[i])
  }

  lemma HexIs(c: char)
    ensures (Hex(c) <==> HexDigit(c)) && !HexDigit('\0')
  {}

  lemma EscapeIs(c: char)
    ensures (SimpleEscape(c) <==> Escaped(c)) && !Escaped('u')
  {}

  lemma {:induction false} HexEndIs(js: string, p: nat, i: nat)
    requires p <= |js|
    ensures HexEnd(js, p, i) == Bad <==> Stray(js, p, i)
    ensures HexEnd(js, p, i).Found? ==>
      var q := HexEnd(js, p, i).at; p <= q <= p + i && (q < p + i ==> AtEnd(js, q)) && Digits(js, p, q)
    decreases i
  {
    hide Hex, HexDigit;
    HexIs('\0');
    if i > 0 && !AtEnd(js, p) {
      HexIs(js[p]);
      if Hex(js[p]) {
        HexEndIs(js, p + 1, i - 1);
        StrayLater(js, p, i);
      } else {
        assert StrayAt(js, p, p);
      }
    }
  }

  lemma StrayLater(js: string, p: nat, i: nat)
    requires p < |js| && i > 0 && HexDigit(js[p])
    ensures Stray(js, p, i) <==> Stray(js, p + 1, i - 1)
  {
    hide HexDigit;
    if Stray(js, p, i) {
      var r :| p <= r < p + i && StrayAt(js, p, r);
      assert StrayAt(js, p + 1, r);
    }
    if Stray(js, p + 1, i - 1) {
      var r :| p + 1 <= r < p + i && StrayAt(js, p + 1, r);
      assert StrayAt(js, p, r);
    }
  }

  // ----- how a string ends -----

  /** How long the unit at p is, 0 if there is none. */
  function UnitLen(js: string, p: nat): (n: nat)
    requires p <= |js|
    ensures p + n <= |js|
  {
    if p == |js| then 0
    else if js[p] !in "\"\\\0" then 1
    else if p + 1 == |js| || js[p] != '\\' then 0
    else if Escaped(js[p + 1]) then 2
    else if js[p + 1] == 'u' && Digits(js, p + 2, p + 6) then 6
    else 0
  }

  lemma UnitIs(js: string, p: nat, q: nat, n: nat)
    requires p <= q <= |js|
    ensures Unit(js[p..q], n) <==> n == UnitLen(js, p) && n > 0 && p + n <= q
  {
    hide HexDigit;
    if p + 6 <= q {
      var s := js[p..q];
      assert forall i :: p <= i < q ==> js[i] == s[i - p];
    }
  }

  lemma StringStep(js: string, p: nat)
    requires p <= |js|
    ensures var n := UnitLen(js, p);
      StringEnd(js, p) == if n > 0 then StringEnd(js, p + n)
                          else if p < |js| && js[p] == '"' then Found(p)
                          else if WrongEscape(js, p) then Bad
                          else Cut
  {
    hide Hex, HexDigit, Stray, Escaped, SimpleEscape;
    if !AtEnd(js, p) && js[p] == '\\' && p + 1 < |js| {
      EscapeIs(js[p + 1]);
      if js[p + 1] == 'u' {
        HexEndIs(js, p + 2, 4);
        StrayOrDigits(js, p + 2, 4);
      }
    }
  }

  lemma StrayOrDigits(js: string, p: nat, n: nat)
    ensures Stray(js, p, n) ==> !Digits(js, p, p + n)
    ensures forall q :: p <= q < p + n && AtEnd(js, q) ==> !Digits(js, p, p + n)
  {}

  /** Whole units lead from p to q. */
  predicate Reaches(js: string, p: nat, q: nat) {
    p <= q <= |js| && Body(js[p..q])
  }

  lemma ReachesStep(js: string, p: nat, q: nat)
    requires p <= |js|
    ensures Reaches(js, p, q) <==> p == q || (var n := UnitLen(js, p); n > 0 && Reaches(js, p + n, q))
  {
    if p < q <= |js| {
      var s := js[p..q];
      if Body(s) {
        var n :| 1 <= n <= |s| && Unit(s, n) && Body(s[n..]);
        UnitIs(js, p, q, n);
        assert s[n..] == js[p + n..q];
      }
      var n := UnitLen(js, p);
      if n > 0 && Reaches(js, p + n, q) {
        UnitIs(js, p, q, n);
        assert s[n..] == js[p + n..q];
      }
    }
  }

  /** A string is complete exactly when whole units lead to a quote, and refused
      exactly when they lead to a backslash that begins no escape; otherwise the
      text ends before the string does. */
  lemma {:induction false} StringIs(js: string, p: nat)
    requires p <= |js|
    ensures forall q: nat :: StringEnd(js, p) == Found(q) <==> Reaches(js, p, q) && q < |js| && js[q] == '"'
    ensures StringEnd(js, p) == Bad <==> exists q: nat :: Reaches(js, p, q) && WrongEscape(js, q)
    decreases |js| - p
  {
    hide StringEnd, Reaches, WrongEscape, UnitLen;
    StringStep(js, p);
    UnitStart(js, p);
    var n := UnitLen(js, p);
    forall q: nat
      ensures Reaches(js, p, q) <==> p == q || (n > 0 && Reaches(js, p + n, q))
    {
      ReachesStep(js, p, q);
    }
    if n > 0 {
      StringIs(js, p + n);
    }
  }

  lemma UnitStart(js: string, p: nat)
    requires p <= |js|
    ensures UnitLen(js, p) > 0 ==> p < |js| && js[p] != '"' && !WrongEscape(js, p)
    ensures WrongEscape(js, p) ==> p < |js| && js[p] != '"'
  {}

  // ----- primitives -----

  predicate EndsPrimitive(c: char) {
    c in "\t\r\n ,:]}"
  }

  /** The printable characters of ASCII. */
  predicate Printable(c: char) {
    32 <= c as int < 127
  }

  /** Printable characters that end nothing lead from p to q. */
  predicate RunsTo(js: string, p: nat, q: nat) {
    p <= q <= |js| && forall i :: p <= i < q ==> Printable(js[i]) && !EndsPrimitive(js[i])
  }

  predicate TextEnds(js: string, q: nat) {
    q >= |js| || js[q] == '\0'
  }

  /** A primitive ends at the first character that ends one, or with the text,
      and is refused exactly when a character that is not printable comes
      first. */
  lemma {:induction false} PrimitiveIs(js: string, p: nat)
    requires p <= |js|
    ensures forall q: nat :: PrimitiveEnd(js, p) == Found(q) <==>
      RunsTo(js, p, q) && (TextEnds(js, q) || EndsPrimitive(js[q]))
    ensures PrimitiveEnd(js, p) == Bad <==>
      exists q: nat :: RunsTo(js, p, q) && !TextEnds(js, q) && !EndsPrimitive(js[q]) && !Printable(js[q])
    decreases |js| - p
  {
    hide PrimitiveEnd, RunsTo, EndsPrimitive, Printable;
    PrimitiveStep(js, p);
    forall q: nat
      ensures RunsTo(js, p, q) <==>
        p == q || (p < |js| && RunsTo(js, p + 1, q) && Printable(js[p]) && !EndsPrimitive(js[p]))
    {
      RunsToStep(js, p, q);
    }
    if !TextEnds(js, p) && !EndsPrimitive(js[p]) && Printable(js[p]) {
      PrimitiveIs(js, p + 1);
    }
  }

  lemma PrimitiveStep(js: string, p: nat)
    requires p <= |js|
    ensures PrimitiveEnd(js, p) == if TextEnds(js, p) || EndsPrimitive(js[p]) then Found(p)
                                   else if !Printable(js[p]) then Bad
                                   else PrimitiveEnd(js, p + 1)
    ensures p < |js| && TextEnds(js, p) ==> !Printable(js[p])
  {}

  lemma RunsToStep(js: string, p: nat, q: nat)
    requires p <= |js|
    ensures RunsTo(js, p, q) <==>
      p == q || (p < |js| && RunsTo(js, p + 1, q) && Printable(js[p]) && !EndsPrimitive(js[p]))
  {}
}
