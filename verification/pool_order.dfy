/** In which order the worker pool serves: the work of requests in the order in
    which they were submitted, and their done callbacks in the order in which
    they were queued for the loop. The order is that of the steps of a run. */
module PoolOrder {
  import opened ThreadPool

  /** What a step means to a line of waiting requests. */
  datatype Event = Nothing | Enters(req: Req) | Served(req: Req) | Withdrawn(req: Req)

  /** A cancel has won. */
  function CancelEvent(s': State): Event {
    if s'.loop.CancelUnlock2? && s'.loop.ok then Withdrawn(s'.loop.creq) else Nothing
  }

  function WorkEvent(st: Step, s': State): Event {
    match st
    case LSubmit(r) => Enters(r)
    case WTake(i, r) => Served(r)
    case LCancelTest => CancelEvent(s')
    case _ => Nothing
  }

  function DoneEvent(st: Step, s': State): Event {
    match st
    case WPublish(i, r) => Enters(r)
    case LCancelInsert(r) => Enters(r)
    case LDoneNext(r) => Served(r)
    case LCancelTest => CancelEvent(s')
    case _ => Nothing
  }

  // ----- lines -----

  ghost predicate NoDup(q: seq<Req>) {
    forall i, j :: 0 <= i < j < |q| ==> q[i] != q[j]
  }

  ghost predicate Ahead(q: seq<Req>, x: Req, y: Req) {
    exists i, j :: 0 <= i < j < |q| && q[i] == x && q[j] == y
  }

  /** First come, first served, except for those that are withdrawn. */
  ghost predicate Moves(q: seq<Req>, e: Event, q': seq<Req>) {
    match e
    case Nothing => q' == q
    case Enters(r) => q' == q + [r]
    case Served(r) => q == [r] + q'
    case Withdrawn(r) => q' == Without(q, r)
  }

  ghost predicate Obeys(lines: seq<seq<Req>>, events: seq<Event>) {
    && |lines| == |events| + 1
    && (forall k :: 0 <= k < |lines| ==> NoDup(lines[k]))
    && (forall k :: 0 <= k < |events| ==> Moves(lines[k], events[k], lines[k + 1]))
  }

  predicate Gone(e: Event, r: Req) {
    e == Served(r) || e == Withdrawn(r)
  }

  ghost predicate GoneBetween(events: seq<Event>, a: nat, n: nat, r: Req) {
    exists m :: a < m < n <= |events| && Gone(events[m], r)
  }

  /** Taking x out leaves the others in order. */
  lemma WithoutIs(q: seq<Req>, x: Req) returns (k: nat)
    ensures x !in q ==> Without(q, x) == q
    ensures x in q ==> k < |q| && q[k] == x && Without(q, x) == q[..k] + q[k + 1..]
  {
    k := 0;
    if x in q {
      while q[k] != x
        invariant 0 <= k < |q| && x !in q[..k]
        decreases |q| - k
      {
        assert q == q[..k] + [q[k]] + q[k + 1..];
        k := k + 1;
      }
      WithoutAt(q, x, k);
    } else {
      WithoutMissing(q, x);
    }
  }

  lemma {:induction false} WithoutMissing(q: seq<Req>, x: Req)
    requires x !in q
    ensures Without(q, x) == q
  {
    if q != [] {
      WithoutMissing(q[1..], x);
    }
  }

  /** One step keeps x in line unless it goes, and keeps it ahead of y. */
  lemma StaysAhead(q: seq<Req>, e: Event, q': seq<Req>, x: Req, y: Req)
    requires Moves(q, e, q') && NoDup(q) && x in q && !Gone(e, x)
    requires y in q ==> Ahead(q, x, y)
    ensures x in q' && (y in q' ==> Ahead(q', x, y))
  {
    match e {
      case Nothing =>
      case Enters(r) =>
        assert q'[|q|] == r;
        var i :| 0 <= i < |q| && q[i] == x;
        assert q'[i] == x;
        if y in q' {
          if y in q {
            var k, j :| 0 <= k < j < |q| && q[k] == x && q[j] == y;
            assert q'[k] == x && q'[j] == y;
          } else {
            assert q'[i] == x && q'[|q|] == y;
          }
        }
      case Served(r) =>
        var i :| 0 <= i < |q| && q[i] == x;
        assert q[0] == r && q'[i - 1] == x;
        if y in q' {
          var k, j :| 0 <= k < j < |q| && q[k] == x && q[j] == y;
          assert q'[k - 1] == x && q'[j - 1] == y;
        }
      case Withdrawn(r) =>
        StaysWithout(q, r, x, y);
    }
  }

  lemma StaysWithout(q: seq<Req>, r: Req, x: Req, y: Req)
    requires NoDup(q) && x in q && x != r && (y in q ==> Ahead(q, x, y))
    ensures x in Without(q, r) && (y in Without(q, r) ==> Ahead(Without(q, r), x, y))
  {
    var k := WithoutIs(q, r);
    if r in q {
      hide Without, NoDup;
      var i: nat :| i < |q| && q[i] == x;
      Shifts(q, k, i);
      if y in q[..k] + q[k + 1..] {
        NotTaken(q, k, y);
        var a: nat, b: nat :| a < b < |q| && q[a] == x && q[b] == y;
        Shifts(q, k, a);
        Shifts(q, k, b);
        assert Shift(k, a) < Shift(k, b);
      }
    }
  }

  /** Where the element at i is after that at k has been taken out. */
  function Shift(k: nat, i: nat): nat
    requires i != k
  {
    if i < k then i else i - 1
  }

  lemma Shifts(q: seq<Req>, k: nat, i: nat)
    requires k < |q| && i < |q| && i != k
    ensures var q' := q[..k] + q[k + 1..]; Shift(k, i) < |q'| && q'[Shift(k, i)] == q[i]
  {}

  lemma NotTaken(q: seq<Req>, k: nat, y: Req)
    requires NoDup(q) && k < |q| && y in q[..k] + q[k + 1..]
    ensures y in q && y != q[k]
  {
    var q' := q[..k] + q[k + 1..];
    var c :| 0 <= c < |q'| && q'[c] == y;
    assert q[if c < k then c else c + 1] == y;
  }

  lemma StaysIn(q: seq<Req>, e: Event, q': seq<Req>, x: Req)
    requires Moves(q, e, q') && NoDup(q) && x in q && !Gone(e, x)
    ensures x in q'
  {
    var i :| 0 <= i < |q| && q[i] == x;
    match e {
      case Nothing =>
      case Enters(r) => assert q'[i] == x;
      case Served(r) => assert q[0] == r && q'[i - 1] == x;
      case Withdrawn(r) =>
        var k := WithoutIs(q, r);
        if r in q { assert q'[if i < k then i else i - 1] == x; }
    }
  }

  lemma EntersBehind(q: seq<Req>, y: Req, q': seq<Req>, x: Req)
    requires Moves(q, Enters(y), q')
    ensures y in q' && (x in q ==> x in q' && Ahead(q', x, y))
  {
    assert q'[|q|] == y;
    if x in q {
      var i :| 0 <= i < |q| && q[i] == x;
      assert q'[i] == x;
    }
  }

  /** Who entered first has gone by the time the later one is served. */
  lemma {:induction false} InLine(lines: seq<seq<Req>>, events: seq<Event>, a: nat, b: nat, n: nat, x: Req, y: Req)
    requires Obeys(lines, events) && a < b < |events| && a < n <= |events|
    requires events[a] == Enters(x) && events[b] == Enters(y)
    ensures GoneBetween(events, a, n, x) || (x in lines[n] && (n > b ==> y in lines[n] ==> Ahead(lines[n], x, y)))
    decreases n
  {
    hide Moves, NoDup, Ahead;
    if n == a + 1 {
      EntersBehind(lines[a], x, lines[n], x);
    } else {
      InLine(lines, events, a, b, n - 1, x, y);
      if GoneBetween(events, a, n - 1, x) {
        var m :| a < m < n - 1 && Gone(events[m], x);
        assert Gone(events[m], x);
      } else if Gone(events[n - 1], x) {
        assert GoneBetween(events, a, n, x);
      } else if n - 1 == b {
        EntersBehind(lines[b], y, lines[n], x);
      } else if n - 1 < b {
        StaysIn(lines[n - 1], events[n - 1], lines[n], x);
      } else {
        StaysAhead(lines[n - 1], events[n - 1], lines[n], x, y);
      }
    }
  }

  /** Whoever entered a line earlier was served or withdrawn before a later one
      is served. */
  lemma FirstComeFirstServed(lines: seq<seq<Req>>, events: seq<Event>, a: nat, b: nat, k: nat, x: Req, y: Req)
    requires Obeys(lines, events) && a < b < k < |events|
    requires events[a] == Enters(x) && events[b] == Enters(y) && events[k] == Served(y)
    ensures GoneBetween(events, a, k, x)
  {
    InLine(lines, events, a, b, k, x, y);
    assert Moves(lines[k], events[k], lines[k + 1]) && NoDup(lines[k]);
    assert lines[k][0] == y;
  }

  // ----- the two lines of the pool -----

  function Asked(it: Item): seq<Req> {
    if it.Job? then [it.req] else []
  }

  function Jobs(q: seq<Item>): seq<Req> {
    if q == [] then [] else Asked(q[0]) + Jobs(q[1..])
  }

  /** The request that is being posted. */
  function Posted(l: LoopPc): seq<Req> {
    match l
    case Posting(it) => Asked(it)
    case Inserting(it) => Asked(it)
    case _ => []
  }

  /** Requests that wait for a worker, in the order of their entries. */
  function WorkLine(s: State): seq<Req> {
    Jobs(s.wq) + Posted(s.loop)
  }

  /** Requests that wait for their done callback. */
  function DoneLine(s: State): seq<Req> {
    s.local + s.loopq
  }

  lemma {:induction false} JobsMultiset(q: seq<Item>)
    ensures multiset(Jobs(q)) == JobsIn(q)
  {
    if q != [] {
      JobsMultiset(q[1..]);
    }
  }

  lemma {:induction false} JobsSnoc(q: seq<Item>, x: Item)
    ensures Jobs(q + [x]) == Jobs(q) + Asked(x)
  {
    hide Asked;
    if q == [] {
      assert q + [x] == [x];
    } else {
      assert (q + [x])[1..] == q[1..] + [x];
      JobsSnoc(q[1..], x);
    }
  }

  lemma {:induction false} JobsWithoutOne(q: seq<Item>, r: Req)
    ensures Jobs(Without(q, Job(r))) == Without(Jobs(q), r)
  {
    if q != [] && q[0] != Job(r) {
      JobsWithoutOne(q[1..], r);
      var rest := Without(q[1..], Job(r));
      assert ([q[0]] + rest)[1..] == rest;
      if q[0].Job? {
        assert Jobs(q)[1..] == Jobs(q[1..]) && Jobs(q)[0] == q[0].req;
        assert Jobs([q[0]] + rest) == [q[0].req] + Jobs(rest);
      } else {
        assert [] + Jobs(q[1..]) == Jobs(q[1..]) && [] + Jobs(rest) == Jobs(rest);
      }
    } else if q != [] {
      assert Jobs(q)[1..] == Jobs(q[1..]);
    }
  }

  lemma WithoutConcat(a: seq<Req>, b: seq<Req>, x: Req)
    requires !(x in a && x in b)
    ensures Without(a, x) + Without(b, x) == Without(a + b, x)
  {
    if x in a {
      WithoutMissing(b, x);
      WithoutFront(a, b, x);
    } else {
      WithoutMissing(a, x);
      WithoutBack(a, b, x);
    }
  }

  lemma {:induction false} WithoutFront(a: seq<Req>, b: seq<Req>, x: Req)
    requires x in a
    ensures Without(a + b, x) == Without(a, x) + b
  {
    assert (a + b)[1..] == a[1..] + b;
    if a[0] != x {
      WithoutFront(a[1..], b, x);
    }
  }

  lemma {:induction false} WithoutBack(a: seq<Req>, b: seq<Req>, x: Req)
    requires x !in a
    ensures Without(a + b, x) == a + Without(b, x)
  {
    if a == [] {
      assert a + b == b;
    } else {
      assert (a + b)[1..] == a[1..] + b;
      WithoutBack(a[1..], b, x);
    }
  }

  lemma NoDupFromCounts(q: seq<Req>, m: multiset<Req>)
    requires multiset(q) <= m && forall r :: m[r] <= 1
    ensures NoDup(q)
  {
    forall i, j | 0 <= i < j < |q|
      ensures q[i] != q[j]
    {
      var a, b := q[..j], q[j..];
      assert q == a + b && a[i] == q[i] && b[0] == q[j];
      assert multiset(q)[q[i]] == multiset(a)[q[i]] + multiset(b)[q[i]];
      assert q[i] in multiset(a) && q[j] in multiset(b);
    }
  }

  lemma LinesNoDup(s: State)
    requires Conserved(s)
    ensures NoDup(WorkLine(s)) && NoDup(DoneLine(s))
  {
    hide Conserved, Places, Jobs, Posted, JobsIn;
    OnceEach(s);
    LinesInPlaces(s);
    NoDupFromCounts(WorkLine(s), Places(s));
    NoDupFromCounts(DoneLine(s), Places(s));
  }

  lemma OnceEach(s: State)
    requires Conserved(s)
    ensures forall r :: Places(s)[r] <= 1
  {
    hide Places;
    assert forall r :: Places(s)[r] + s.rq.dones[r] == multiset(s.rq.submitted)[r];
  }

  lemma LinesInPlaces(s: State)
    ensures multiset(WorkLine(s)) <= Places(s) && multiset(DoneLine(s)) <= Places(s)
  {
    hide Jobs, JobsIn, Held;
    JobsMultiset(s.wq);
    assert multiset(Posted(s.loop)) <= LoopHolds(s.loop);
    assert multiset(WorkLine(s)) == JobsIn(s.wq) + multiset(Posted(s.loop));
    assert multiset(DoneLine(s)) == multiset(s.local) + multiset(s.loopq);
  }

  /** Every step moves both lines as its meaning says. */
  lemma WorkLineMoves(s: State, s': State, st: Step)
    requires Sound(s) && Next(s, s', st)
    ensures Moves(WorkLine(s), WorkEvent(st, s'), WorkLine(s'))
  {
    hide Sound, Jobs;
    match st
    case LSubmit(r) => SubmitLine(s, s', r);
    case LInsert => InsertLine(s, s');
    case WTake(i, r) => TakeLine(s, s', i, r);
    case LCancelTest => CancelLine(s, s');
    case _ => OtherLine(s, s', st);
  }

  lemma SubmitLine(s: State, s': State, r: Req)
    requires LSubmitStep(s, s', r)
    ensures WorkLine(s') == WorkLine(s) + [r]
  {
    assert Posted(s.loop) == [] && Posted(s'.loop) == [r] && s'.wq == s.wq;
  }

  lemma InsertLine(s: State, s': State)
    requires LInsertStep(s, s')
    ensures WorkLine(s') == WorkLine(s)
  {
    JobsSnoc(s.wq, s.loop.iitem);
    assert Posted(s'.loop) == [];
  }

  lemma TakeLine(s: State, s': State, i: nat, r: Req)
    requires WTakeStep(s, s', i, r)
    ensures WorkLine(s) == [r] + WorkLine(s')
  {
    assert Jobs(s.wq) == [r] + Jobs(s'.wq);
  }

  lemma CancelLine(s: State, s': State)
    requires Sound(s) && LCancelTestStep(s, s')
    ensures Moves(WorkLine(s), CancelEvent(s'), WorkLine(s')) && Moves(DoneLine(s), CancelEvent(s'), DoneLine(s'))
  {
    hide Sound, Conserved, NoDup, CancelWins, WorkLine, DoneLine;
    var r := s.loop.creq;
    SoundConserved(s);
    LinesNoDup(s);
    CancelWorkLine(s, s', r);
    CancelDoneLine(s, s', r);
  }

  lemma CancelWorkLine(s: State, s': State, r: Req)
    requires LCancelTestStep(s, s') && s.loop.creq == r
    ensures WorkLine(s') == if s'.loop.ok then Without(WorkLine(s), r) else WorkLine(s)
  {
    hide Jobs, CancelWins;
    JobsWithoutOne(s.wq, r);
    assert Jobs(s.wq) + [] == Jobs(s.wq) && Jobs(s'.wq) + [] == Jobs(s'.wq);
  }

  lemma CancelDoneLine(s: State, s': State, r: Req)
    requires LCancelTestStep(s, s') && s.loop.creq == r && NoDup(DoneLine(s))
    ensures DoneLine(s') == if s'.loop.ok then Without(DoneLine(s), r) else DoneLine(s)
  {
    hide CancelWins, NoDup;
    NotInBoth(s.local, s.loopq, r);
    WithoutConcat(s.local, s.loopq, r);
  }

  lemma NotInBoth(a: seq<Req>, b: seq<Req>, r: Req)
    requires NoDup(a + b)
    ensures !(r in a && r in b)
  {
    forall i, j | 0 <= i < |a| && 0 <= j < |b|
      ensures a[i] != b[j]
    {
      assert (a + b)[i] == a[i] && (a + b)[|a| + j] == b[j];
    }
  }

  lemma OtherLine(s: State, s': State, st: Step)
    requires Next(s, s', st) && !st.LSubmit? && !st.LInsert? && !st.WTake? && !st.LCancelTest?
    ensures WorkLine(s') == WorkLine(s)
  {
    hide Jobs;
    assert s'.wq == s.wq && Posted(s'.loop) == Posted(s.loop);
  }

  lemma DoneLineMoves(s: State, s': State, st: Step)
    requires Sound(s) && Locks(s) && Next(s, s', st)
    ensures Moves(DoneLine(s), DoneEvent(st, s'), DoneLine(s'))
  {
    hide Next, Sound, Locks, DoneLine, DoneEvent, CancelEvent;
    DoneEvents(st, s');
    if st.WPublish? || st.LCancelInsert? {
      QueuedLine(s, s', st, st.r);
    } else if st.LDoneNext? {
      CalledLine(s, s', st.r);
    } else if st.LCancelTest? {
      CancelTested(s, s');
      CancelLine(s, s');
    } else if st.LDoneMove? {
      MovedLine(s, s');
    } else {
      OtherDoneLine(s, s', st);
    }
  }

  lemma DoneEvents(st: Step, s': State)
    ensures st.WPublish? || st.LCancelInsert? ==> DoneEvent(st, s') == Enters(st.r)
    ensures st.LDoneNext? ==> DoneEvent(st, s') == Served(st.r)
    ensures st.LCancelTest? ==> DoneEvent(st, s') == CancelEvent(s')
    ensures DoneEvent(st, s') == Nothing || st.WPublish? || st.LCancelInsert? || st.LDoneNext? || st.LCancelTest?
  {}

  lemma WorkEvents(st: Step, s': State)
    ensures st.LSubmit? ==> WorkEvent(st, s') == Enters(st.r)
    ensures st.WTake? ==> WorkEvent(st, s') == Served(st.r)
    ensures st.LCancelTest? ==> WorkEvent(st, s') == CancelEvent(s')
    ensures WorkEvent(st, s') == Nothing || st.LSubmit? || st.WTake? || st.LCancelTest?
  {}

  lemma Wins(s': State, r: Req)
    ensures CancelEvent(s') == Withdrawn(r) <==> s'.loop == CancelUnlock2(r, true)
    ensures !CancelEvent(s').Served?
  {}

  lemma QueuedLine(s: State, s': State, st: Step, r: Req)
    requires Next(s, s', st) && ((st.WPublish? && st.r == r) || st == LCancelInsert(r))
    ensures DoneLine(s') == DoneLine(s) + [r]
  {
    assert s'.local == s.local && s'.loopq == s.loopq + [r];
    assert s.local + (s.loopq + [r]) == s.local + s.loopq + [r];
  }

  lemma CalledLine(s: State, s': State, r: Req)
    requires Next(s, s', LDoneNext(r))
    ensures DoneLine(s) == [r] + DoneLine(s')
  {
    assert s.local == [r] + s'.local;
  }

  lemma CancelTested(s: State, s': State)
    requires Next(s, s', LCancelTest)
    ensures LCancelTestStep(s, s')
  {}

  lemma MovedLine(s: State, s': State)
    requires Locks(s) && Next(s, s', LDoneMove)
    ensures DoneLine(s') == DoneLine(s)
  {
    LoopLocks(s);
    assert [] + s.loopq == s.loopq + [];
  }

  lemma OtherDoneLine(s: State, s': State, st: Step)
    requires Next(s, s', st) && !st.WPublish? && !st.LCancelInsert?
    requires !st.LDoneNext? && !st.LCancelTest? && !st.LDoneMove?
    ensures DoneLine(s') == DoneLine(s)
  {
    assert s'.local == s.local && s'.loopq == s.loopq;
  }

  // ----- runs -----

  ghost function WorkLines(states: seq<State>): (r: seq<seq<Req>>)
    ensures |r| == |states| && forall k :: 0 <= k < |r| ==> r[k] == WorkLine(states[k])
  {
    seq(|states|, k requires 0 <= k < |states| => WorkLine(states[k]))
  }

  ghost function DoneLines(states: seq<State>): (r: seq<seq<Req>>)
    ensures |r| == |states| && forall k :: 0 <= k < |r| ==> r[k] == DoneLine(states[k])
  {
    seq(|states|, k requires 0 <= k < |states| => DoneLine(states[k]))
  }

  ghost function Events(states: seq<State>, steps: seq<Step>, done: bool): (r: seq<Event>)
    requires |states| == |steps| + 1
    ensures |r| == |steps|
    ensures forall k :: 0 <= k < |r| ==> r[k] == EventAt(states, steps, done, k)
  {
    seq(|steps|, k requires 0 <= k < |steps| => EventAt(states, steps, done, k))
  }

  function EventAt(states: seq<State>, steps: seq<Step>, done: bool, k: nat): Event
    requires |states| == |steps| + 1 && k < |steps|
  {
    if done then DoneEvent(steps[k], states[k + 1]) else WorkEvent(steps[k], states[k + 1])
  }

  lemma LinesObey(states: seq<State>, steps: seq<Step>)
    requires Run(states, steps)
    ensures Obeys(WorkLines(states), Events(states, steps, false))
    ensures Obeys(DoneLines(states), Events(states, steps, true))
  {
    hide Next, Init, Sound, Locks, Waiting, Ending, Serving, NoDup, Moves;
    forall k | 0 <= k < |states|
      ensures NoDup(WorkLine(states[k])) && NoDup(DoneLine(states[k]))
    {
      RunInv(states, steps, k);
      SoundConserved(states[k]);
      LinesNoDup(states[k]);
    }
    forall k | 0 <= k < |steps|
      ensures Moves(WorkLine(states[k]), WorkEvent(steps[k], states[k + 1]), WorkLine(states[k + 1]))
      ensures Moves(DoneLine(states[k]), DoneEvent(steps[k], states[k + 1]), DoneLine(states[k + 1]))
    {
      RunInv(states, steps, k);
      RunStep(states, steps, k);
      WorkLineMoves(states[k], states[k + 1], steps[k]);
      DoneLineMoves(states[k], states[k + 1], steps[k]);
    }
  }

  lemma SoundConserved(s: State)
    requires Sound(s)
    ensures Conserved(s)
  {}

  /** In step k a worker takes r. */
  predicate Takes(steps: seq<Step>, k: nat, r: Req) {
    k < |steps| && steps[k].WTake? && steps[k].r == r
  }

  /** In step k a cancel of r wins. */
  predicate CancelSucceeds(states: seq<State>, steps: seq<Step>, k: nat, r: Req) {
    k < |steps| && k + 1 < |states| && steps[k] == LCancelTest && states[k + 1].loop == CancelUnlock2(r, true)
  }

  /** In step k r is queued for the loop, worked on or cancelled. */
  predicate Queues(steps: seq<Step>, k: nat, r: Req) {
    k < |steps| && ((steps[k].WPublish? && steps[k].r == r) || steps[k] == LCancelInsert(r))
  }

  /** Requests are taken in the order in which they were submitted: whatever was
      submitted before one that is taken has been taken or cancelled before. */
  lemma TakenInOrder(states: seq<State>, steps: seq<Step>, a: nat, b: nat, k: nat, x: Req, y: Req)
    requires Run(states, steps) && a < b < k < |steps|
    requires steps[a] == LSubmit(x) && steps[b] == LSubmit(y) && Takes(steps, k, y)
    ensures exists m :: a < m < k && (Takes(steps, m, x) || CancelSucceeds(states, steps, m, x))
  {
    hide Run, Obeys, Next, WorkEvent, CancelEvent, CancelSucceeds;
    LinesObey(states, steps);
    RunLength(states, steps);
    var events := Events(states, steps, false);
    WorkEvents(steps[a], states[a + 1]);
    WorkEvents(steps[b], states[b + 1]);
    WorkEvents(steps[k], states[k + 1]);
    FirstComeFirstServed(WorkLines(states), events, a, b, k, x, y);
    var m :| a < m < k && Gone(events[m], x);
    WorkGone(states, steps, m, x);
  }

  lemma RunLength(states: seq<State>, steps: seq<Step>)
    requires Run(states, steps)
    ensures |states| == |steps| + 1
  {
    hide Next;
  }

  /** Done callbacks run in the order in which the requests were queued for the
      loop, by a worker or by a cancel; a cancel that wins takes its request out
      and queues it again. */
  lemma DoneInOrder(states: seq<State>, steps: seq<Step>, a: nat, b: nat, k: nat, x: Req, y: Req)
    requires Run(states, steps) && a < b < k < |steps|
    requires Queues(steps, a, x) && Queues(steps, b, y) && steps[k] == LDoneNext(y)
    ensures exists m :: a < m < k && (steps[m] == LDoneNext(x) || CancelSucceeds(states, steps, m, x))
  {
    hide Run, Obeys, Next, DoneEvent, CancelEvent, CancelSucceeds;
    LinesObey(states, steps);
    RunLength(states, steps);
    var events := Events(states, steps, true);
    DoneEvents(steps[a], states[a + 1]);
    DoneEvents(steps[b], states[b + 1]);
    DoneEvents(steps[k], states[k + 1]);
    FirstComeFirstServed(DoneLines(states), events, a, b, k, x, y);
    var m :| a < m < k && Gone(events[m], x);
    DoneGone(states, steps, m, x);
  }

  lemma DoneGone(states: seq<State>, steps: seq<Step>, m: nat, x: Req)
    requires |states| == |steps| + 1 && m < |steps| && Gone(DoneEvent(steps[m], states[m + 1]), x)
    ensures steps[m] == LDoneNext(x) || CancelSucceeds(states, steps, m, x)
  {
    hide DoneEvent, CancelEvent;
    DoneEvents(steps[m], states[m + 1]);
    Wins(states[m + 1], x);
  }

  lemma WorkGone(states: seq<State>, steps: seq<Step>, m: nat, x: Req)
    requires |states| == |steps| + 1 && m < |steps| && Gone(WorkEvent(steps[m], states[m + 1]), x)
    ensures Takes(steps, m, x) || CancelSucceeds(states, steps, m, x)
  {
    hide WorkEvent, CancelEvent;
    WorkEvents(steps[m], states[m + 1]);
    Wins(states[m + 1], x);
  }
}
