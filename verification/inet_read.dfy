/** The readers of inet.c, which turn text into an internet address. A string
    stands for the characters before the terminating null. */
module AddressReaders {
  import opened Bytes

  // ----- reading an IPv4 address -----

  function DigitValue(c: char): (v: Option<nat>)
    ensures v.Some? ==> v.value < 10
  {
    if '0' <= c <= '9' then Some(c as int - '0' as int) else None
  }

  /** The octets before the last dot, the octet at the pointer, whether a digit of
      it was seen, and how many octets have begun. */
  datatype State4 = State4(done: seq<Byte>, cur: Byte, saw: bool, octets: nat)

  const INIT4 := State4([], 0, false, 0)

  function Step4(c: char, st: State4): Option<State4> {
    var v := DigitValue(c);
    if v.Some? then
      var nw := st.cur * 10 + v.value;
      if st.saw && st.cur == 0 then None
      else if nw > 255 then None
      else if st.saw then Some(st.(cur := nw))
      else if st.octets + 1 > 4 then None
      else Some(st.(cur := nw, saw := true, octets := st.octets + 1))
    else if c == '.' && st.saw then
      if st.octets == 4 then None else Some(State4(st.done + [st.cur], 0, false, st.octets))
    else None
  }

  function Run4(src: string, i: nat, st: State4): Option<seq<Byte>>
    requires i <= |src|
    decreases |src| - i
  {
    if i == |src| then
      if st.octets < 4 then None else Some(st.done + [st.cur])
    else
      var st' := Step4(src[i], st);
      if st'.None? then None else Run4(src, i + 1, st'.value)
  }

  /** As many octets have begun as there are places in use. */
  predicate Sound4(st: State4) {
    |st.done| + (if st.saw then 1 else 0) == st.octets <= 4 && |st.done| <= 3
  }

  /** inet_pton4: only four octets are ever read. */
  function Parse4(src: string): (r: Option<seq<Byte>>)
    ensures r.Some? ==> |r.value| == 4
  {
    Run4Length(src, 0, INIT4);
    Run4(src, 0, INIT4)
  }

  lemma {:induction false} Run4Length(src: string, i: nat, st: State4)
    requires i <= |src| && Sound4(st)
    ensures Run4(src, i, st).Some? ==> |Run4(src, i, st).value| == 4
    decreases |src| - i
  {
    if i < |src| && Step4(src[i], st).Some? {
      Run4Length(src, i + 1, Step4(src[i], st).value);
    }
  }

  method Pton4(src: string) returns (r: Option<seq<Byte>>)
    ensures r == Parse4(src)
  {
    var tmp := new Byte[4];
    var tp, sawDigit, octets, i := 0, false, 0, 0;
    tmp[0] := 0;
    Run4Length(src, 0, INIT4);
    while i < |src|
      invariant 0 <= i <= |src| && 0 <= tp < 4 && Sound4(State4(tmp[..tp], tmp[tp], sawDigit, octets))
      invariant Run4(src, i, State4(tmp[..tp], tmp[tp], sawDigit, octets)) == Parse4(src)
      decreases |src| - i
    {
      var ch := src[i];
      var v := DigitValue(ch);
      ghost var st := State4(tmp[..tp], tmp[tp], sawDigit, octets);
      if v.Some? {
        var nw := tmp[tp] * 10 + v.value;
        if sawDigit && tmp[tp] == 0 {
          return None;
        }
        if nw > 255 {
          return None;
        }
        tmp[tp] := nw;
        if !sawDigit {
          octets := octets + 1;
          if octets > 4 {
            return None;
          }
          sawDigit := true;
        }
      } else if ch == '.' && sawDigit {
        if octets == 4 {
          return None;
        }
        tp := tp + 1;
        tmp[tp] := 0;
        assert tmp[..tp] == st.done + [st.cur];
        sawDigit := false;
      } else {
        return None;
      }
      assert Step4(ch, st) == Some(State4(tmp[..tp], tmp[tp], sawDigit, octets));
      i := i + 1;
    }
    if octets < 4 {
      return None;
    }
    assert tmp[..] == tmp[..tp] + [tmp[tp]];
    return Some(tmp[..]);
  }

  // ----- reading an IPv6 address -----

  function HexValue(c: char): (v: Option<nat>)
    ensures v.Some? ==> v.value < 16
  {
    if '0' <= c <= '9' then Some(c as int - '0' as int)
    else if 'a' <= c <= 'f' then Some(c as int - 'a' as int + 10)
    else if 'A' <= c <= 'F' then Some(c as int - 'A' as int + 10)
    else None
  }

  function Pair(val: nat): (s: seq<Byte>)
    ensures |s| == 2
  {
    [val / 256 % 256, val % 256]
  }

  /** The bytes written, where the "::" was, the group being read and how many of
      its digits were seen, and where it began. */
  datatype State6 = State6(out: seq<Byte>, colon: Option<nat>, val: nat, seen: nat, tok: nat)

  predicate Sound6(st: State6, i: nat) {
    |st.out| <= 16 && (st.colon.Some? ==> st.colon.value <= |st.out|) && st.tok <= i
  }

  /** The bytes with those of the group being read. */
  function Flush(st: State6): seq<Byte> {
    if st.seen != 0 then st.out + Pair(st.val) else st.out
  }

  /** The bytes after the "::" go to the end. */
  function Spread(out: seq<Byte>, c: nat): (r: seq<Byte>)
    requires c <= |out| <= 16
    ensures |r| == 16
  {
    out[..c] + ZeroBytes(16 - |out|) + out[c..]
  }

  function Finish(st: State6): (r: Option<seq<Byte>>)
    requires st.colon.Some? ==> st.colon.value <= |st.out|
    ensures r.Some? ==> |r.value| == 16
  {
    if |Flush(st)| > 16 then None
    else if st.colon.None? then if |Flush(st)| == 16 then Some(Flush(st)) else None
    else if |Flush(st)| == 16 then None
    else Some(Spread(Flush(st), st.colon.value))
  }

  function Run6(src: string, i: nat, st: State6): (r: Option<seq<Byte>>)
    requires i <= |src| && Sound6(st, i)
    ensures r.Some? ==> |r.value| == 16
    decreases |src| - i
  {
    if i == |src| then Finish(st)
    else if HexValue(src[i]).Some? then
      if st.seen + 1 > 4 then None
      else Run6(src, i + 1, st.(val := st.val * 16 + HexValue(src[i]).value, seen := st.seen + 1))
    else if src[i] == ':' then
      if st.seen == 0 then
        if st.colon.Some? then None else Run6(src, i + 1, st.(tok := i + 1, colon := Some(|st.out|)))
      else if i + 1 == |src| || |st.out| + 2 > 16 then None
      else Run6(src, i + 1, State6(Flush(st), st.colon, 0, 0, i + 1))
    else if src[i] == '.' && |st.out| + 4 <= 16 && Parse4(src[st.tok..]).Some? then
      Finish(st.(out := st.out + Parse4(src[st.tok..]).value, seen := 0))
    else None
  }

  /** inet_pton6. */
  function Parse6(src: string): (r: Option<seq<Byte>>)
    ensures r.Some? ==> |r.value| == 16
  {
    if |src| == 0 || src[0] != ':' then Run6(src, 0, State6([], None, 0, 0, 0))
    else if |src| == 1 || src[1] != ':' then None
    else Run6(src, 1, State6([], None, 0, 0, 1))
  }

  /** The shift by hand, from the end: source and target overlap. */
  method Shift(tmp: array<Byte>, colonp: nat, tp: nat)
    requires colonp <= tp < tmp.Length == 16
    requires forall k :: tp <= k < 16 ==> tmp[k] == 0
    modifies tmp
    ensures tmp[..] == Spread(old(tmp[..tp]), colonp)
  {
    var n := tp - colonp;
    for i := 1 to n + 1
      invariant forall k :: 0 <= k < colonp ==> tmp[k] == old(tmp[k])
      invariant forall k :: colonp <= k < tp - i + 1 ==> tmp[k] == old(tmp[k])
      invariant forall k :: tp - i + 1 <= k < 16 - i + 1 ==> tmp[k] == 0
      invariant forall k :: 16 - i + 1 <= k < 16 ==> tmp[k] == old(tmp[k - (16 - tp)])
    {
      tmp[16 - i] := tmp[colonp + n - i];
      tmp[colonp + n - i] := 0;
    }
  }

  method Put(tmp: array<Byte>, tp: nat, b: seq<Byte>) returns (tp': nat)
    requires tp + |b| <= tmp.Length
    modifies tmp
    ensures tp' == tp + |b| && tmp[..tp'] == old(tmp[..tp]) + b
    ensures forall k :: tp' <= k < tmp.Length ==> tmp[k] == old(tmp[k])
  {
    forall k | 0 <= k < |b| {
      tmp[tp + k] := b[k];
    }
    tp' := tp + |b|;
  }

  method Pton6(src: string) returns (r: Option<seq<Byte>>)
    ensures r == Parse6(src)
  {
    hide Finish, Parse4, Pair;
    var tmp := new Byte[16](_ => 0);
    var tp, i, colonp: int := 0, 0, -1;
    if |src| > 0 && src[0] == ':' {
      i := 1;
      if |src| == 1 || src[1] != ':' {
        return None;
      }
    }
    var curtok, seen, val := i, 0, 0;
    while i < |src|
      invariant 0 <= i <= |src| && 0 <= tp <= 16 && -1 <= colonp <= tp && 0 <= curtok <= i && 0 <= seen && 0 <= val
      invariant forall k :: tp <= k < 16 ==> tmp[k] == 0
      invariant Run6(src, i, Now(tmp, tp, colonp, val, seen, curtok)) == Parse6(src)
      decreases |src| - i
    {
      var ch := src[i];
      i := i + 1;
      if HexValue(ch).Some? {
        val := val * 16 + HexValue(ch).value;
        seen := seen + 1;
        if seen > 4 {
          return None;
        }
        continue;
      }
      if ch == ':' {
        curtok := i;
        if seen == 0 {
          if colonp != -1 {
            return None;
          }
          colonp := tp;
          continue;
        } else if i == |src| {
          return None;
        }
        if tp + 2 > 16 {
          return None;
        }
        tp := Put(tmp, tp, Pair(val));
        seen, val := 0, 0;
        continue;
      }
      if ch == '.' && tp + 4 <= 16 {
        var quad := Pton4(src[curtok..]);
        if quad.Some? {
          tp := Put(tmp, tp, quad.value);
          seen := 0;
          r := End(tmp, tp, colonp, val, seen, curtok);
          return;
        }
      }
      return None;
    }
    r := End(tmp, tp, colonp, val, seen, curtok);
  }

  /** The state the variables of Pton6 stand for. */
  ghost function Now(tmp: array<Byte>, tp: int, colonp: int, val: int, seen: int, tok: int): State6
    requires tmp.Length == 16 && 0 <= tp <= 16 && -1 <= colonp <= tp && 0 <= val && 0 <= seen && 0 <= tok
    reads tmp
  {
    State6(tmp[..tp], if colonp == -1 then None else Some(colonp), val, seen, tok)
  }

  /** What Pton6 does after its loop. */
  method End(tmp: array<Byte>, tp0: int, colonp: int, val: int, seen: int, ghost tok: int)
    returns (r: Option<seq<Byte>>)
    requires tmp.Length == 16 && 0 <= tp0 <= 16 && -1 <= colonp <= tp0 && 0 <= val && 0 <= seen && 0 <= tok
    requires forall k :: tp0 <= k < 16 ==> tmp[k] == 0
    modifies tmp
    ensures r == Finish(old(Now(tmp, tp0, colonp, val, seen, tok)))
  {
    ghost var st := Now(tmp, tp0, colonp, val, seen, tok);
    var tp := tp0;
    if seen != 0 {
      if tp + 2 > 16 {
        return None;
      }
      tp := Put(tmp, tp, Pair(val));
    }
    assert tmp[..tp] == Flush(st);
    if colonp != -1 {
      if tp == 16 {
        return None;
      }
      Shift(tmp, colonp, tp);
      tp := 16;
    }
    if tp != 16 {
      return None;
    }
    assert tmp[..tp] == tmp[..];
    return Some(tmp[..]);
  }
}
