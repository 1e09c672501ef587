/** The worker pool as a protocol of atomic steps: any number of workers, one
    loop thread, the global mutex with its condition variable, and the loop's
    own mutex. One step is one lock or unlock, or one access to shared state
    made under the locks the source holds there. */
module ThreadPool {

  type Req = nat

  /** An entry of the global queue: a request or the exit message. */
  datatype Item = Exit | Job(req: Req)

  /** The work field of a request: the user's callback, the null that marks it
      finished, or the uv__cancelled marker. */
  datatype WorkField = Callback | Null | CancelMark

  /** Where a worker is in its loop. */
  datatype WorkerPc =
    | Idle                       // about to lock the global mutex
    | Check                      // holds it, about to test the queue
    | Parked(signalled: bool)    // in uv_cond_wait
    | Take                       // holds it, the queue is not empty
    | Leaving                    // holds it, has seen the exit message
    | Exited
    | Holding(hreq: Req)         // holds it, has removed a request
    | Running(rreq: Req)         // about to run the work callback
    | Ran(dreq: Req)             // about to lock the loop mutex
    | Publishing(preq: Req)      // holds the loop mutex
    | Published                  // holds the loop mutex, has queued the result

  /** Where the loop thread is. */
  datatype LoopPc =
    | Free
    | Posting(pitem: Item)       // post: about to lock the global mutex
    | Inserting(iitem: Item)     // post: holds it
    | Signalling(sexit: bool)    // post: has inserted
    | Unlocking(uexit: bool)     // post: has signalled if it had to
    | CancelLock(creq: Req)      // cancel: about to lock the global mutex
    | CancelLock2(creq: Req)     // cancel: holds it, about to lock the loop mutex
    | CancelTest(creq: Req)      // cancel: holds both
    | CancelUnlock2(creq: Req, ok: bool)
    | CancelUnlock(creq: Req, ok: bool)
    | CancelSet(creq: Req)       // cancel: won, holds nothing
    | CancelRelock(creq: Req)    // cancel: about to lock the loop mutex again
    | CancelInsert(creq: Req)    // cancel: holds it
    | CancelUnlock3(creq: Req)   // cancel: has queued the request
    | DoneLock                   // work_done: about to lock the loop mutex
    | DoneMove                   // work_done: holds it
    | DoneUnlock                 // work_done: has moved the queue
    | Closed                     // the exit message is posted

  datatype Owner = Nobody | Worker(id: nat) | LoopThread

  /** What the requests themselves say: their work fields and which of them are
      linked to themselves. The rest is history: which requests were submitted,
      how often each work and done callback ran, which status the done callback
      got (true for UV_ECANCELED), and for which requests a cancel returned 0. */
  datatype Requests = Requests(
    work: map<Req, WorkField>,
    selfLinked: set<Req>,
    submitted: set<Req>,
    runs: multiset<Req>,
    dones: multiset<Req>,
    flags: map<Req, bool>,
    cancels: set<Req>)

  datatype State = State(
    workers: seq<WorkerPc>,
    loop: LoopPc,
    mutex: Owner,
    loopMutex: Owner,
    wq: seq<Item>,
    loopq: seq<Req>,
    local: seq<Req>,
    idle: int,
    rq: Requests)

  ghost predicate Init(s: State) {
    && |s.workers| > 0 && (forall i :: 0 <= i < |s.workers| ==> s.workers[i] == Idle)
    && s.loop == Free && s.mutex == Nobody && s.loopMutex == Nobody
    && s.wq == [] && s.loopq == [] && s.local == [] && s.rq.selfLinked == {} && s.idle == 0
    && s.rq.submitted == {} && s.rq.runs == multiset{} && s.rq.dones == multiset{} && s.rq.cancels == {}
  }

  function Without<T(==)>(q: seq<T>, x: T): seq<T> {
    if q == [] then []
    else if q[0] == x then q[1..]
    else [q[0]] + Without(q[1..], x)
  }

  /** This is what unlinking the first node that carries x leaves. */
  lemma {:induction false} WithoutAt<T>(q: seq<T>, x: T, k: nat)
    requires k < |q| && q[k] == x && x !in q[..k]
    ensures Without(q, x) == q[..k] + q[k + 1..]
  {
    if k > 0 {
      assert q[..k][0] == q[0];
      assert q[1..][..k - 1] == q[..k][1..];
      WithoutAt(q[1..], x, k - 1);
    }
  }

  /** A signal wakes one parked worker that is not woken yet, if there is one. */
  ghost predicate SignalOk(ws: seq<WorkerPc>, wakes: bool, j: nat) {
    if wakes then j < |ws| && ws[j] == Parked(false)
    else forall k :: 0 <= k < |ws| ==> ws[k] != Parked(false)
  }

  function Signal(ws: seq<WorkerPc>, wakes: bool, j: nat): seq<WorkerPc>
    requires wakes ==> j < |ws|
  {
    if wakes then ws[j := Parked(true)] else ws
  }

  ghost predicate At(s: State, i: nat, pc: WorkerPc) {
    i < |s.workers| && s.workers[i] == pc
  }

  // ----- the worker's steps -----

  ghost predicate WLockStep(s: State, s': State, i: nat) {
    && At(s, i, Idle) && s.mutex == Nobody
    && s' == s.(workers := s.workers[i := Check], mutex := Worker(i))
  }

  /** Testing the queue: parking gives the mutex up in the same step. */
  ghost predicate WCheckStep(s: State, s': State, i: nat) {
    && At(s, i, Check)
    && s' == if s.wq == []
             then s.(workers := s.workers[i := Parked(false)], mutex := Nobody, idle := s.idle + 1)
             else s.(workers := s.workers[i := Take])
  }

  /** Waking up: after a signal, or without one. */
  ghost predicate WWakeStep(s: State, s': State, i: nat) {
    && i < |s.workers| && s.workers[i].Parked? && s.mutex == Nobody
    && s' == s.(workers := s.workers[i := Check], mutex := Worker(i), idle := s.idle - 1)
  }

  /** Seeing the exit message, which stays queued and is passed on. */
  ghost predicate WSeeExitStep(s: State, s': State, i: nat, wakes: bool, j: nat) {
    && At(s, i, Take) && s.wq != [] && s.wq[0] == Exit && SignalOk(s.workers, wakes, j)
    && s' == s.(workers := Signal(s.workers, wakes, j)[i := Leaving])
  }

  /** Taking a request out and linking it to itself. */
  ghost predicate WTakeStep(s: State, s': State, i: nat, r: Req) {
    && At(s, i, Take) && s.wq != [] && s.wq[0] == Job(r)
    && s' == s.(workers := s.workers[i := Holding(r)], wq := s.wq[1..],
                rq := s.rq.(selfLinked := s.rq.selfLinked + {r}))
  }

  ghost predicate WUnlockStep(s: State, s': State, i: nat) {
    && i < |s.workers| && (s.workers[i].Leaving? || s.workers[i].Holding?)
    && s' == s.(mutex := Nobody,
                workers := s.workers[i := if s.workers[i].Leaving? then Exited else Running(s.workers[i].hreq)])
  }

  ghost predicate WRunStep(s: State, s': State, i: nat, r: Req) {
    && At(s, i, Running(r))
    && s' == s.(workers := s.workers[i := Ran(r)], rq := s.rq.(runs := s.rq.runs + multiset{r}))
  }

  ghost predicate WLockLoopStep(s: State, s': State, i: nat) {
    && i < |s.workers| && s.workers[i].Ran? && s.loopMutex == Nobody
    && s' == s.(workers := s.workers[i := Publishing(s.workers[i].dreq)], loopMutex := Worker(i))
  }

  ghost predicate WPublishStep(s: State, s': State, i: nat, r: Req) {
    && At(s, i, Publishing(r))
    && s' == s.(workers := s.workers[i := Published], loopq := s.loopq + [r],
                rq := s.rq.(work := s.rq.work[r := Null], selfLinked := s.rq.selfLinked - {r}))
  }

  ghost predicate WUnlockLoopStep(s: State, s': State, i: nat) {
    && At(s, i, Published)
    && s' == s.(workers := s.workers[i := Idle], loopMutex := Nobody)
  }

  // ----- the loop thread's steps: submit and cleanup -----

  ghost predicate LSubmitStep(s: State, s': State, r: Req) {
    && s.loop == Free && r !in s.rq.submitted
    && s' == s.(loop := Posting(Job(r)),
                rq := s.rq.(work := s.rq.work[r := Callback], submitted := s.rq.submitted + {r}))
  }

  ghost predicate LCleanupStep(s: State, s': State) {
    s.loop == Free && s' == s.(loop := Posting(Exit))
  }

  ghost predicate LPostLockStep(s: State, s': State) {
    && s.loop.Posting? && s.mutex == Nobody
    && s' == s.(loop := Inserting(s.loop.pitem), mutex := LoopThread)
  }

  ghost predicate LInsertStep(s: State, s': State) {
    && s.loop.Inserting?
    && s' == s.(loop := Signalling(s.loop.iitem == Exit), wq := s.wq + [s.loop.iitem])
  }

  /** Signals if idle_threads is positive. */
  ghost predicate LSignalStep(s: State, s': State, wakes: bool, j: nat) {
    && s.loop.Signalling? && (if s.idle > 0 then SignalOk(s.workers, wakes, j) else !wakes)
    && s' == s.(loop := Unlocking(s.loop.sexit), workers := Signal(s.workers, wakes, j))
  }

  ghost predicate LPostUnlockStep(s: State, s': State) {
    && s.loop.Unlocking?
    && s' == s.(loop := if s.loop.uexit then Closed else Free, mutex := Nobody)
  }

  // ----- the loop thread's steps: cancel -----

  /** Cancel is for a submitted request whose done callback has not started. */
  ghost predicate LCancelStep(s: State, s': State, r: Req) {
    && s.loop == Free && r in s.rq.submitted && r !in s.rq.dones
    && s' == s.(loop := CancelLock(r))
  }

  ghost predicate LCancelLockStep(s: State, s': State) {
    && s.loop.CancelLock? && s.mutex == Nobody
    && s' == s.(loop := CancelLock2(s.loop.creq), mutex := LoopThread)
  }

  ghost predicate LCancelLock2Step(s: State, s': State) {
    && s.loop.CancelLock2? && s.loopMutex == Nobody
    && s' == s.(loop := CancelTest(s.loop.creq), loopMutex := LoopThread)
  }

  /** The test that decides whether a cancel wins. */
  ghost predicate CancelWins(s: State, r: Req) {
    r !in s.rq.selfLinked && r in s.rq.work && s.rq.work[r] != Null
  }

  /** A win takes the request out of whichever queue it is in. */
  ghost predicate LCancelTestStep(s: State, s': State) {
    && s.loop.CancelTest?
    && var r := s.loop.creq;
       s' == if CancelWins(s, r)
             then s.(loop := CancelUnlock2(r, true), wq := Without(s.wq, Job(r)),
                     loopq := Without(s.loopq, r), local := Without(s.local, r))
             else s.(loop := CancelUnlock2(r, false))
  }

  ghost predicate LCancelUnlock2Step(s: State, s': State) {
    && s.loop.CancelUnlock2?
    && s' == s.(loop := CancelUnlock(s.loop.creq, s.loop.ok), loopMutex := Nobody)
  }

  ghost predicate LCancelUnlockStep(s: State, s': State) {
    && s.loop.CancelUnlock?
    && s' == s.(loop := if s.loop.ok then CancelSet(s.loop.creq) else Free, mutex := Nobody)
  }

  ghost predicate LCancelSetStep(s: State, s': State, r: Req) {
    && s.loop == CancelSet(r)
    && s' == s.(loop := CancelRelock(r), rq := s.rq.(work := s.rq.work[r := CancelMark]))
  }

  ghost predicate LCancelRelockStep(s: State, s': State) {
    && s.loop.CancelRelock? && s.loopMutex == Nobody
    && s' == s.(loop := CancelInsert(s.loop.creq), loopMutex := LoopThread)
  }

  ghost predicate LCancelInsertStep(s: State, s': State, r: Req) {
    && s.loop == CancelInsert(r)
    && s' == s.(loop := CancelUnlock3(r), loopq := s.loopq + [r])
  }

  /** Unlocks and returns 0. */
  ghost predicate LCancelReturnStep(s: State, s': State, r: Req) {
    && s.loop == CancelUnlock3(r)
    && s' == s.(loop := Free, loopMutex := Nobody, rq := s.rq.(cancels := s.rq.cancels + {r}))
  }

  // ----- the loop thread's steps: work_done -----

  ghost predicate LDoneStep(s: State, s': State) {
    s.loop == Free && s.local == [] && s' == s.(loop := DoneLock)
  }

  ghost predicate LDoneLockStep(s: State, s': State) {
    && s.loop == DoneLock && s.loopMutex == Nobody
    && s' == s.(loop := DoneMove, loopMutex := LoopThread)
  }

  ghost predicate LDoneMoveStep(s: State, s': State) {
    && s.loop == DoneMove
    && s' == s.(loop := DoneUnlock, local := s.loopq, loopq := [])
  }

  ghost predicate LDoneUnlockStep(s: State, s': State) {
    && s.loop == DoneUnlock
    && s' == s.(loop := Free, loopMutex := Nobody)
  }

  /** One done callback. Callbacks may submit and cancel before the next one. */
  ghost predicate LDoneNextStep(s: State, s': State, r: Req) {
    && s.loop == Free && s.local != [] && s.local[0] == r && r in s.rq.work
    && s' == s.(local := s.local[1..],
                rq := s.rq.(dones := s.rq.dones + multiset{r},
                            flags := s.rq.flags[r := s.rq.work[r] == CancelMark]))
  }

  /** The steps; a signal names the worker it wakes, if it wakes one. */
  datatype Step =
    | WLock(i: nat) | WCheck(i: nat) | WWake(i: nat)
    | WSeeExit(i: nat, wakes: bool, j: nat) | WTake(i: nat, r: Req) | WUnlock(i: nat)
    | WRun(i: nat, r: Req) | WLockLoop(i: nat) | WPublish(i: nat, r: Req) | WUnlockLoop(i: nat)
    | LSubmit(r: Req) | LCleanup | LPostLock | LInsert | LSignal(wakes: bool, j: nat) | LPostUnlock
    | LCancel(r: Req) | LCancelLock | LCancelLock2 | LCancelTest | LCancelUnlock2 | LCancelUnlock
    | LCancelSet(r: Req) | LCancelRelock | LCancelInsert(r: Req) | LCancelReturn(r: Req)
    | LDone | LDoneLock | LDoneMove | LDoneUnlock | LDoneNext(r: Req)

  ghost predicate Next(s: State, s': State, st: Step) {
    match st
    case WLock(i) => WLockStep(s, s', i)
    case WCheck(i) => WCheckStep(s, s', i)
    case WWake(i) => WWakeStep(s, s', i)
    case WSeeExit(i, wakes, j) => WSeeExitStep(s, s', i, wakes, j)
    case WTake(i, r) => WTakeStep(s, s', i, r)
    case WUnlock(i) => WUnlockStep(s, s', i)
    case WRun(i, r) => WRunStep(s, s', i, r)
    case WLockLoop(i) => WLockLoopStep(s, s', i)
    case WPublish(i, r) => WPublishStep(s, s', i, r)
    case WUnlockLoop(i) => WUnlockLoopStep(s, s', i)
    case LSubmit(r) => LSubmitStep(s, s', r)
    case LCleanup => LCleanupStep(s, s')
    case LPostLock => LPostLockStep(s, s')
    case LInsert => LInsertStep(s, s')
    case LSignal(wakes, j) => LSignalStep(s, s', wakes, j)
    case LPostUnlock => LPostUnlockStep(s, s')
    case LCancel(r) => LCancelStep(s, s', r)
    case LCancelLock => LCancelLockStep(s, s')
    case LCancelLock2 => LCancelLock2Step(s, s')
    case LCancelTest => LCancelTestStep(s, s')
    case LCancelUnlock2 => LCancelUnlock2Step(s, s')
    case LCancelUnlock => LCancelUnlockStep(s, s')
    case LCancelSet(r) => LCancelSetStep(s, s', r)
    case LCancelRelock => LCancelRelockStep(s, s')
    case LCancelInsert(r) => LCancelInsertStep(s, s', r)
    case LCancelReturn(r) => LCancelReturnStep(s, s', r)
    case LDone => LDoneStep(s, s')
    case LDoneLock => LDoneLockStep(s, s')
    case LDoneMove => LDoneMoveStep(s, s')
    case LDoneUnlock => LDoneUnlockStep(s, s')
    case LDoneNext(r) => LDoneNextStep(s, s', r)
  }

  predicate ByWorker(st: Step) {
    st.WLock? || st.WCheck? || st.WWake? || st.WSeeExit? || st.WTake? || st.WUnlock? || st.WRun? || st.WLockLoop?
    || st.WPublish? || st.WUnlockLoop?
  }

  // ----- where the requests are -----

  function JobsIn(q: seq<Item>): multiset<Req> {
    if q == [] then multiset{}
    else (if q[0].Job? then multiset{q[0].req} else multiset{}) + JobsIn(q[1..])
  }

  function HeldBy(pc: WorkerPc): multiset<Req> {
    match pc
    case Holding(r) => multiset{r}
    case Running(r) => multiset{r}
    case Ran(r) => multiset{r}
    case Publishing(r) => multiset{r}
    case _ => multiset{}
  }

  function Held(ws: seq<WorkerPc>): multiset<Req> {
    if ws == [] then multiset{} else HeldBy(ws[0]) + Held(ws[1..])
  }

  function LoopHolds(l: LoopPc): multiset<Req> {
    match l
    case Posting(it) => if it.Job? then multiset{it.req} else multiset{}
    case Inserting(it) => if it.Job? then multiset{it.req} else multiset{}
    case CancelUnlock2(r, ok) => if ok then multiset{r} else multiset{}
    case CancelUnlock(r, ok) => if ok then multiset{r} else multiset{}
    case CancelSet(r) => multiset{r}
    case CancelRelock(r) => multiset{r}
    case CancelInsert(r) => multiset{r}
    case _ => multiset{}
  }

  /** Every place a pending request can be in. */
  function Places(s: State): multiset<Req> {
    JobsIn(s.wq) + multiset(s.loopq) + multiset(s.local) + Held(s.workers) + LoopHolds(s.loop)
  }

  /** Each submitted request is in one place, once, until its done callback runs. */
  ghost predicate Conserved(s: State) {
    Places(s) + s.rq.dones == multiset(s.rq.submitted)
  }

  lemma {:induction false} JobsAppend(q: seq<Item>, x: Item)
    ensures JobsIn(q + [x]) == JobsIn(q) + JobsIn([x])
  {
    if q == [] {
      assert q + [x] == [x];
    } else {
      JobsAppend(q[1..], x);
      assert (q + [x])[1..] == q[1..] + [x];
    }
  }

  lemma {:induction false} JobsMember(q: seq<Item>, r: Req)
    ensures JobsIn(q)[r] > 0 <==> Job(r) in q
  {
    if q != [] { JobsMember(q[1..], r); }
  }

  lemma {:induction false} JobsWithout(q: seq<Item>, r: Req)
    ensures JobsIn(Without(q, Job(r))) == JobsIn(q) - multiset{r}
  {
    if q != [] && q[0] != Job(r) {
      JobsWithout(q[1..], r);
      var w := Without(q[1..], Job(r));
      assert ([q[0]] + w)[1..] == w;
      JobsMember(q, r);
    }
  }

  lemma {:induction false} MultisetWithout(q: seq<Req>, r: Req)
    ensures multiset(Without(q, r)) == multiset(q) - multiset{r}
  {
    if q != [] {
      assert q == [q[0]] + q[1..];
      if q[0] != r { MultisetWithout(q[1..], r); }
    }
  }

  lemma {:induction false} WithoutMember<T>(q: seq<T>, x: T, y: T)
    requires y in Without(q, x)
    ensures y in q
  {
    if q != [] && q[0] != x && y != q[0] { WithoutMember(q[1..], x, y); }
  }

  lemma {:induction false} HeldUpdate(ws: seq<WorkerPc>, i: nat, pc: WorkerPc)
    requires i < |ws|
    ensures Held(ws[i := pc]) == Held(ws) - HeldBy(ws[i]) + HeldBy(pc)
    ensures HeldBy(ws[i]) <= Held(ws)
  {
    if i > 0 {
      HeldUpdate(ws[1..], i - 1, pc);
      assert ws[i := pc][1..] == ws[1..][i - 1 := pc];
    } else {
      assert ws[0 := pc][1..] == ws[1..];
    }
  }

  lemma {:induction false} HeldAt(ws: seq<WorkerPc>, i: nat)
    requires i < |ws|
    ensures HeldBy(ws[i]) <= Held(ws)
  {
    if i > 0 { HeldAt(ws[1..], i - 1); }
  }

  lemma {:induction false} HeldTwice(ws: seq<WorkerPc>, i: nat, k: nat)
    requires i < k < |ws|
    ensures HeldBy(ws[i]) + HeldBy(ws[k]) <= Held(ws)
  {
    hide HeldBy;
    if i > 0 {
      HeldTwice(ws[1..], i - 1, k - 1);
    } else {
      HeldAt(ws[1..], k - 1);
    }
  }

  // ----- what is known of a request, by where it is -----

  /** Queued or about to be: its callback has not run and nobody has cancelled it. */
  ghost predicate Untouched(q: Requests, r: Req) {
    && r in q.work && q.work[r] == Callback && q.runs[r] == 0
    && r !in q.cancels && r !in q.selfLinked
  }

  /** In a worker's hands: marked by linking it to itself. */
  ghost predicate InHand(q: Requests, pc: WorkerPc) {
    match pc
    case Holding(r) => r in q.selfLinked && r !in q.cancels && r in q.work && q.work[r] == Callback && q.runs[r] == 0
    case Running(r) => r in q.selfLinked && r !in q.cancels && r in q.work && q.work[r] == Callback && q.runs[r] == 0
    case Ran(r) => r in q.selfLinked && r !in q.cancels && q.runs[r] == 1
    case Publishing(r) => r in q.selfLinked && r !in q.cancels && q.runs[r] == 1
    case _ => true
  }

  /** Finished or cancelled, waiting for its done callback. */
  ghost predicate Settled(q: Requests, l: LoopPc, r: Req) {
    && r in q.work && r !in q.selfLinked
    && (|| (q.work[r] == Null && q.runs[r] == 1 && r !in q.cancels)
        || (q.work[r] == CancelMark && q.runs[r] == 0 && (r in q.cancels || l == CancelUnlock3(r))))
  }

  /** Taken out of its queue by a cancel that has won. */
  ghost predicate Won(q: Requests, r: Req) {
    && r in q.work && r !in q.selfLinked && q.runs[r] == 0 && q.work[r] != Null
  }

  ghost predicate LoopFact(q: Requests, l: LoopPc) {
    match l
    case Posting(it) => it.Job? ==> Untouched(q, it.req)
    case Inserting(it) => it.Job? ==> Untouched(q, it.req)
    case CancelLock(r) => r in q.submitted && r !in q.dones
    case CancelLock2(r) => r in q.submitted && r !in q.dones
    case CancelTest(r) => r in q.submitted && r !in q.dones
    case CancelUnlock2(r, ok) => ok ==> Won(q, r)
    case CancelUnlock(r, ok) => ok ==> Won(q, r)
    case CancelSet(r) => Won(q, r)
    case CancelRelock(r) => Won(q, r) && q.work[r] == CancelMark
    case CancelInsert(r) => Won(q, r) && q.work[r] == CancelMark
    case _ => true
  }

  ghost predicate DoneFact(q: Requests, r: Req) {
    r in q.flags && (q.flags[r] <==> r in q.cancels) && q.runs[r] == if q.flags[r] then 0 else 1
  }

  ghost predicate WorkerFacts(q: Requests, ws: seq<WorkerPc>) {
    forall i :: 0 <= i < |ws| ==> InHand(q, ws[i])
  }

  ghost predicate QueueFacts(q: Requests, wq: seq<Item>) {
    forall r :: Job(r) in wq ==> Untouched(q, r)
  }

  ghost predicate SettledFacts(q: Requests, l: LoopPc, loopq: seq<Req>, local: seq<Req>) {
    forall r :: r in loopq || r in local ==> Settled(q, l, r)
  }

  /** History is settled for done requests and empty for those not submitted. */
  ghost predicate HistoryFacts(q: Requests) {
    && (forall r :: r in q.dones ==> DoneFact(q, r))
    && (forall r :: r !in q.submitted ==> q.runs[r] == 0 && r !in q.cancels && r !in q.selfLinked)
    && (forall r :: r in q.submitted ==> r in q.work)
  }

  ghost predicate Facts(s: State) {
    && QueueFacts(s.rq, s.wq)
    && WorkerFacts(s.rq, s.workers)
    && SettledFacts(s.rq, s.loop, s.loopq, s.local)
    && LoopFact(s.rq, s.loop)
    && (s.loop.CancelUnlock3? ==> s.loop.creq in s.loopq && s.loop.creq in s.rq.work
                                  && s.rq.work[s.loop.creq] == CancelMark)
    && HistoryFacts(s.rq)
  }

  /** A request a worker holds is nowhere else. */
  lemma OnlyInHand(s: State, i: nat, r: Req)
    requires Conserved(s) && i < |s.workers| && r in HeldBy(s.workers[i])
    ensures r in s.rq.submitted && Job(r) !in s.wq && r !in s.loopq && r !in s.local && r !in s.rq.dones
    ensures r !in LoopHolds(s.loop)
    ensures forall k :: 0 <= k < |s.workers| && k != i ==> r !in HeldBy(s.workers[k])
  {
    HeldAt(s.workers, i);
    JobsMember(s.wq, r);
    assert (Places(s) + s.rq.dones)[r] <= 1;
    forall k | 0 <= k < |s.workers| && k != i
      ensures r !in HeldBy(s.workers[k])
    {
      if k < i { HeldTwice(s.workers, k, i); } else { HeldTwice(s.workers, i, k); }
    }
  }

  lemma OnlyInQueue(s: State, r: Req)
    requires Conserved(s) && Job(r) in s.wq
    ensures r in s.rq.submitted && JobsIn(s.wq)[r] == 1
    ensures r !in s.loopq && r !in s.local && r !in s.rq.dones && r !in LoopHolds(s.loop)
    ensures forall k :: 0 <= k < |s.workers| ==> r !in HeldBy(s.workers[k])
  {
    JobsMember(s.wq, r);
    assert (Places(s) + s.rq.dones)[r] <= 1;
    forall k | 0 <= k < |s.workers|
      ensures r !in HeldBy(s.workers[k])
    {
      HeldAt(s.workers, k);
    }
  }

  lemma OnlyWithLoop(s: State, r: Req)
    requires Conserved(s) && r in LoopHolds(s.loop)
    ensures r in s.rq.submitted && Job(r) !in s.wq && r !in s.loopq && r !in s.local && r !in s.rq.dones
    ensures forall k :: 0 <= k < |s.workers| ==> r !in HeldBy(s.workers[k])
  {
    JobsMember(s.wq, r);
    assert (Places(s) + s.rq.dones)[r] <= 1;
    forall k | 0 <= k < |s.workers|
      ensures r !in HeldBy(s.workers[k])
    {
      HeldAt(s.workers, k);
    }
  }

  lemma OnlySettled(s: State, r: Req)
    requires Conserved(s) && (r in s.loopq || r in s.local)
    ensures r in s.rq.submitted && Job(r) !in s.wq && r !in s.rq.dones && r !in LoopHolds(s.loop)
    ensures multiset(s.loopq)[r] + multiset(s.local)[r] == 1
    ensures forall k :: 0 <= k < |s.workers| ==> r !in HeldBy(s.workers[k])
  {
    JobsMember(s.wq, r);
    assert (Places(s) + s.rq.dones)[r] <= 1;
    assert r in multiset(s.loopq) || r in multiset(s.local);
    forall k | 0 <= k < |s.workers|
      ensures r !in HeldBy(s.workers[k])
    {
      HeldAt(s.workers, k);
    }
  }

  lemma NowhereYet(s: State, r: Req)
    requires Conserved(s) && r !in s.rq.submitted
    ensures Job(r) !in s.wq && r !in s.loopq && r !in s.local && r !in s.rq.dones && r !in LoopHolds(s.loop)
    ensures forall k :: 0 <= k < |s.workers| ==> r !in HeldBy(s.workers[k])
  {
    JobsMember(s.wq, r);
    assert (Places(s) + s.rq.dones)[r] == 0;
    assert r !in multiset(s.loopq) && r !in multiset(s.local);
    forall k | 0 <= k < |s.workers|
      ensures r !in HeldBy(s.workers[k])
    {
      HeldAt(s.workers, k);
    }
  }

  // ----- every step keeps the conservation law and the facts -----

  ghost predicate Sound(s: State) {
    Conserved(s) && Facts(s)
  }

  /** A worker changes its place, taking what it holds along. */
  lemma WorkerMoves(s: State, s': State, i: nat, pc: WorkerPc)
    requires Sound(s) && i < |s.workers| && HeldBy(pc) == HeldBy(s.workers[i]) && InHand(s.rq, pc)
    requires s' == s.(workers := s.workers[i := pc], mutex := s'.mutex, loopMutex := s'.loopMutex, idle := s'.idle)
    ensures Sound(s')
  {
    hide HeldBy, InHand, Held;
    HeldUpdate(s.workers, i, pc);
    HeldAt(s.workers, i);
  }

  lemma SoundWorkerMoves(s: State, s': State, i: nat)
    requires Sound(s)
    requires WLockStep(s, s', i) || WCheckStep(s, s', i) || WWakeStep(s, s', i)
    ensures Sound(s')
  {
    FactOfWorker(s, i);
    hide Sound;
    WorkerMoves(s, s', i, s'.workers[i]);
  }

  lemma SoundWorkerUnlocks(s: State, s': State, i: nat)
    requires Sound(s)
    requires WUnlockStep(s, s', i) || WLockLoopStep(s, s', i) || WUnlockLoopStep(s, s', i)
    ensures Sound(s')
  {
    hide Sound;
    FactOfWorker(s, i);
    WorkerMoves(s, s', i, s'.workers[i]);
  }

  lemma FactOfWorker(s: State, i: nat)
    requires Sound(s) && i < |s.workers|
    ensures InHand(s.rq, s.workers[i])
  {
    hide InHand;
  }

  lemma SoundSignal(s: State, s': State, wakes: bool, j: nat)
    requires Sound(s) && SignalOk(s.workers, wakes, j)
    requires s' == s.(workers := Signal(s.workers, wakes, j))
    ensures Sound(s')
  {
    if wakes { WorkerMoves(s, s', j, Parked(true)); }
  }

  lemma SoundSeeExit(s: State, s': State, i: nat, wakes: bool, j: nat)
    requires Sound(s) && WSeeExitStep(s, s', i, wakes, j)
    ensures Sound(s')
  {
    hide Sound;
    var m := s.(workers := Signal(s.workers, wakes, j));
    SoundSignal(s, m, wakes, j);
    WorkerMoves(m, s', i, Leaving);
  }

  lemma ConservedTake(s: State, s': State, i: nat, r: Req)
    requires Conserved(s) && WTakeStep(s, s', i, r)
    ensures Conserved(s') && Job(r) !in s'.wq
  {
    OnlyInQueue(s, r);
    HeldUpdate(s.workers, i, Holding(r));
    assert JobsIn(s.wq) == multiset{r} + JobsIn(s'.wq);
    JobsMember(s'.wq, r);
  }

  lemma SoundTake(s: State, s': State, i: nat, r: Req)
    requires Sound(s) && WTakeStep(s, s', i, r)
    ensures Sound(s')
  {
    OnlyInQueue(s, r);
    ConservedTake(s, s', i, r);
    hide Conserved;
    assert Untouched(s.rq, r);
    TakeFacts(s, s', i, r);
  }

  lemma TakeFacts(s: State, s': State, i: nat, r: Req)
    requires Facts(s) && WTakeStep(s, s', i, r) && Untouched(s.rq, r)
    requires Job(r) !in s'.wq && r !in s.loopq && r !in s.local && r !in s.rq.dones && r in s.rq.submitted
    requires r !in LoopHolds(s.loop)
    requires forall k :: 0 <= k < |s.workers| ==> r !in HeldBy(s.workers[k])
    ensures Facts(s')
  {}

  lemma SoundRun(s: State, s': State, i: nat, r: Req)
    requires Sound(s) && WRunStep(s, s', i, r)
    ensures Sound(s')
  {
    OnlyInHand(s, i, r);
    WorkerMove(s.workers, i, Ran(r));
    assert InHand(s.rq, s.workers[i]);
    hide Conserved, Held;
    RunFacts(s, s', i, r);
  }

  /** A worker changes its place without changing what it holds. */
  lemma WorkerMove(ws: seq<WorkerPc>, i: nat, pc: WorkerPc)
    requires i < |ws| && HeldBy(pc) == HeldBy(ws[i])
    ensures Held(ws[i := pc]) == Held(ws)
  {
    HeldUpdate(ws, i, pc);
  }

  /** The two records differ at most in what they say about r. */
  ghost predicate SameBut(q: Requests, q': Requests, r: Req) {
    && q'.submitted == q.submitted && q'.dones == q.dones && q'.flags == q.flags
    && (forall x :: x != r ==>
          && (x in q'.work <==> x in q.work) && (x in q.work ==> q'.work[x] == q.work[x])
          && q'.runs[x] == q.runs[x]
          && (x in q'.cancels <==> x in q.cancels) && (x in q'.selfLinked <==> x in q.selfLinked))
  }

  lemma WorkerFactsFrame(q: Requests, q': Requests, ws: seq<WorkerPc>, i: nat, pc: WorkerPc, r: Req)
    requires WorkerFacts(q, ws) && SameBut(q, q', r) && i < |ws| && InHand(q', pc)
    requires forall k :: 0 <= k < |ws| && k != i ==> r !in HeldBy(ws[k])
    ensures WorkerFacts(q', ws[i := pc])
  {
    var ws' := ws[i := pc];
    forall k | 0 <= k < |ws'|
      ensures InHand(q', ws'[k])
    {
      if k != i { InHandFrame(q, q', ws[k], r); }
    }
  }

  lemma InHandFrame(q: Requests, q': Requests, pc: WorkerPc, r: Req)
    requires InHand(q, pc) && SameBut(q, q', r) && r !in HeldBy(pc)
    ensures InHand(q', pc)
  {}

  lemma LoopFactFrame(q: Requests, q': Requests, l: LoopPc, r: Req)
    requires LoopFact(q, l) && SameBut(q, q', r) && r !in LoopHolds(l)
    ensures LoopFact(q', l)
  {}

  lemma RunFacts(s: State, s': State, i: nat, r: Req)
    requires Facts(s) && WRunStep(s, s', i, r) && InHand(s.rq, Running(r))
    requires r in s.rq.submitted && Job(r) !in s.wq && r !in s.loopq && r !in s.local && r !in s.rq.dones
    requires r !in LoopHolds(s.loop)
    requires forall k :: 0 <= k < |s.workers| && k != i ==> r !in HeldBy(s.workers[k])
    ensures Facts(s')
  {
    WorkerFactsFrame(s.rq, s'.rq, s.workers, i, Ran(r), r);
    LoopFactFrame(s.rq, s'.rq, s.loop, r);
    hide WorkerFacts, LoopFact, HeldBy, LoopHolds;
  }

  lemma PublisherLetsGo(ws: seq<WorkerPc>, i: nat, r: Req)
    requires i < |ws| && ws[i] == Publishing(r)
    ensures Held(ws) == Held(ws[i := Published]) + multiset{r}
  {
    HeldUpdate(ws, i, Published);
    hide Held;
    LetGo(Held(ws), Held(ws[i := Published]), multiset{r});
  }

  lemma PublishHands(s: State, s': State, i: nat, r: Req)
    requires WPublishStep(s, s', i, r)
    ensures Held(s.workers) == Held(s'.workers) + multiset{r}
    ensures multiset(s'.loopq) == multiset(s.loopq) + multiset{r}
  {
    PublisherLetsGo(s.workers, i, r);
  }

  lemma LetGo(a: multiset<Req>, b: multiset<Req>, m: multiset<Req>)
    requires m <= a && b == a - m + multiset{}
    ensures a == b + m
  {}

  lemma ConservedPublish(s: State, s': State, i: nat, r: Req)
    requires Conserved(s) && WPublishStep(s, s', i, r)
    ensures Conserved(s')
  {
    PublishHands(s, s', i, r);
    hide JobsIn, Held, LoopHolds;
    Shifted(JobsIn(s.wq), multiset(s.loopq), multiset(s.local), Held(s'.workers), LoopHolds(s.loop), multiset{r});
  }

  lemma Shifted(a: multiset<Req>, b: multiset<Req>, c: multiset<Req>, h: multiset<Req>, l: multiset<Req>,
                m: multiset<Req>)
    ensures a + (b + m) + c + h + l == a + b + c + (h + m) + l
  {}

  lemma SoundPublish(s: State, s': State, i: nat, r: Req)
    requires Sound(s) && WPublishStep(s, s', i, r)
    ensures Sound(s')
  {
    OnlyInHand(s, i, r);
    ConservedPublish(s, s', i, r);
    assert InHand(s.rq, s.workers[i]);
    hide Conserved, Held;
    PublishFacts(s, s', i, r);
  }

  lemma PublishFacts(s: State, s': State, i: nat, r: Req)
    requires Facts(s) && WPublishStep(s, s', i, r) && InHand(s.rq, Publishing(r))
    requires r in s.rq.submitted && Job(r) !in s.wq && r !in s.loopq && r !in s.local && r !in s.rq.dones
    requires r !in LoopHolds(s.loop)
    requires forall k :: 0 <= k < |s.workers| && k != i ==> r !in HeldBy(s.workers[k])
    ensures Facts(s')
  {
    WorkerFactsFrame(s.rq, s'.rq, s.workers, i, Published, r);
    LoopFactFrame(s.rq, s'.rq, s.loop, r);
    CancelledNotHeld(s, r);
    hide WorkerFacts, LoopFact, HeldBy, LoopHolds;
  }

  lemma CancelledNotHeld(s: State, r: Req)
    requires r !in s.loopq && (s.loop.CancelUnlock3? ==> s.loop.creq in s.loopq)
    ensures s.loop.CancelUnlock3? ==> s.loop.creq != r
  {}

  // ----- the loop thread -----

  /** The loop thread moves on without touching anything but the mutexes. */
  lemma LoopMoves(s: State, s': State)
    requires Sound(s) && LoopHolds(s'.loop) == LoopHolds(s.loop) && LoopFact(s.rq, s'.loop)
    requires !s.loop.CancelUnlock3? && !s'.loop.CancelUnlock3?
    requires s' == s.(loop := s'.loop, mutex := s'.mutex, loopMutex := s'.loopMutex)
    ensures Sound(s')
  {
    hide LoopHolds, LoopFact, Held, JobsIn;
  }

  lemma FactOfLoop(s: State)
    requires Sound(s)
    ensures LoopFact(s.rq, s.loop)
  {}

  lemma SoundPostMoves(s: State, s': State)
    requires Sound(s) && (LCleanupStep(s, s') || LPostLockStep(s, s') || LPostUnlockStep(s, s'))
    ensures Sound(s')
  {
    FactOfLoop(s);
    hide Sound;
    LoopMoves(s, s');
  }

  lemma SoundDoneMoves(s: State, s': State)
    requires Sound(s) && (LDoneStep(s, s') || LDoneLockStep(s, s') || LDoneUnlockStep(s, s'))
    ensures Sound(s')
  {
    hide Sound;
    LoopMoves(s, s');
  }

  lemma SoundCancelLocks(s: State, s': State)
    requires Sound(s) && (LCancelLockStep(s, s') || LCancelLock2Step(s, s') || LCancelRelockStep(s, s'))
    ensures Sound(s')
  {
    FactOfLoop(s);
    hide Sound;
    LoopMoves(s, s');
  }

  lemma SoundCancelUnlocks(s: State, s': State)
    requires Sound(s) && (LCancelUnlock2Step(s, s') || LCancelUnlockStep(s, s'))
    ensures Sound(s')
  {
    FactOfLoop(s);
    hide Sound;
    LoopMoves(s, s');
  }

  lemma SoundCancel(s: State, s': State, r: Req)
    requires Sound(s) && LCancelStep(s, s', r)
    ensures Sound(s')
  {
    LoopMoves(s, s');
  }

  lemma SoundSubmit(s: State, s': State, r: Req)
    requires Sound(s) && LSubmitStep(s, s', r)
    ensures Sound(s')
  {
    NowhereYet(s, r);
    assert multiset(s'.rq.submitted) == multiset(s.rq.submitted) + multiset{r};
    assert Conserved(s');
    hide Conserved, Held;
    SubmitFacts(s, s', r);
  }

  lemma SubmitFacts(s: State, s': State, r: Req)
    requires Facts(s) && LSubmitStep(s, s', r)
    requires Job(r) !in s.wq && r !in s.loopq && r !in s.local && r !in s.rq.dones
    requires forall k :: 0 <= k < |s.workers| ==> r !in HeldBy(s.workers[k])
    ensures Facts(s')
  {}

  lemma SoundInsert(s: State, s': State)
    requires Sound(s) && LInsertStep(s, s')
    ensures Sound(s')
  {
    ConservedInsert(s, s');
    assert LoopFact(s.rq, s.loop);
    assert QueueFacts(s'.rq, s'.wq);
    hide Conserved, QueueFacts, WorkerFacts;
  }

  lemma ConservedInsert(s: State, s': State)
    requires Conserved(s) && LInsertStep(s, s')
    ensures Conserved(s')
  {
    JobsAppend(s.wq, s.loop.iitem);
    assert JobsIn([s.loop.iitem]) == LoopHolds(s.loop);
    hide JobsIn, Held;
  }

  lemma SoundLSignal(s: State, s': State, wakes: bool, j: nat)
    requires Sound(s) && LSignalStep(s, s', wakes, j)
    ensures Sound(s')
  {
    var m := s.(loop := s'.loop);
    LoopMoves(s, m);
    hide Sound;
    if wakes { SoundSignal(m, s', wakes, j); }
  }

  lemma SoundTest(s: State, s': State)
    requires Sound(s) && LCancelTestStep(s, s')
    ensures Sound(s')
  {
    var r := s.loop.creq;
    if CancelWins(s, r) {
      ConservedWin(s, s', r);
      WinFacts(s, s', r);
    } else {
      LoopMoves(s, s');
    }
  }

  /** A cancel that wins finds the request in one of the three queues. */
  lemma WinnerIsQueued(s: State, r: Req)
    requires Sound(s) && s.loop == CancelTest(r) && CancelWins(s, r)
    ensures JobsIn(s.wq)[r] + multiset(s.loopq)[r] + multiset(s.local)[r] == 1
  {
    assert (Places(s) + s.rq.dones)[r] == 1;
    if Held(s.workers)[r] > 0 {
      var i := HolderOf(s.workers, r);
      HolderIsLinked(s.rq, s.workers, i, r);
    }
  }

  lemma HolderIsLinked(q: Requests, ws: seq<WorkerPc>, i: nat, r: Req)
    requires WorkerFacts(q, ws) && i < |ws| && r in HeldBy(ws[i])
    ensures r in q.selfLinked && r !in q.cancels
  {
    assert InHand(q, ws[i]);
  }

  lemma {:induction false} HolderOf(ws: seq<WorkerPc>, r: Req) returns (i: nat)
    requires Held(ws)[r] > 0
    ensures i < |ws| && r in HeldBy(ws[i])
  {
    if r in HeldBy(ws[0]) {
      i := 0;
    } else {
      i := HolderOf(ws[1..], r);
      i := i + 1;
    }
  }

  lemma ConservedWin(s: State, s': State, r: Req)
    requires Sound(s) && LCancelTestStep(s, s') && s.loop == CancelTest(r) && CancelWins(s, r)
    ensures Conserved(s')
  {
    hide Facts, Held;
    WinnerIsQueued(s, r);
    JobsWithout(s.wq, r);
    MultisetWithout(s.loopq, r);
    MultisetWithout(s.local, r);
    hide JobsIn, Held, Facts;
    TakenOut(JobsIn(s.wq), multiset(s.loopq), multiset(s.local), r);
    assert LoopHolds(s.loop) == multiset{} && LoopHolds(s'.loop) == multiset{r};
    Regroup(JobsIn(s'.wq) + multiset(s'.loopq) + multiset(s'.local),
            JobsIn(s.wq) + multiset(s.loopq) + multiset(s.local), Held(s.workers), multiset{r});
  }

  lemma Regroup(a: multiset<Req>, b: multiset<Req>, h: multiset<Req>, m: multiset<Req>)
    requires a + m == b
    ensures a + h + m == b + h + multiset{}
  {}

  lemma TakenOut(a: multiset<Req>, b: multiset<Req>, c: multiset<Req>, r: Req)
    requires a[r] + b[r] + c[r] == 1
    ensures (a - multiset{r}) + (b - multiset{r}) + (c - multiset{r}) + multiset{r} == a + b + c
  {}

  lemma WinFacts(s: State, s': State, r: Req)
    requires Sound(s) && LCancelTestStep(s, s') && s.loop == CancelTest(r) && CancelWins(s, r)
    ensures Facts(s')
  {
    WinnerIsQueued(s, r);
    JobsMember(s.wq, r);
    forall x | Job(x) in s'.wq
      ensures Job(x) in s.wq
    {
      WithoutMember(s.wq, Job(r), Job(x));
    }
    forall x | x in s'.loopq || x in s'.local
      ensures x in s.loopq || x in s.local
    {
      if x in s'.loopq { WithoutMember(s.loopq, r, x); } else { WithoutMember(s.local, r, x); }
    }
    WinnerFresh(s, r);
    hide Conserved, JobsIn, Held;
  }

  lemma WinnerFresh(s: State, r: Req)
    requires Sound(s) && s.loop == CancelTest(r) && CancelWins(s, r)
    ensures Won(s.rq, r)
  {
    WinnerIsQueued(s, r);
    JobsMember(s.wq, r);
    if Job(r) in s.wq {
      assert Untouched(s.rq, r);
    } else {
      assert r in multiset(s.loopq) || r in multiset(s.local);
      assert Settled(s.rq, s.loop, r);
    }
  }

  lemma SoundCancelSet(s: State, s': State, r: Req)
    requires Sound(s) && LCancelSetStep(s, s', r)
    ensures Sound(s')
  {
    hide Held, Won;
    OnlyWithLoop(s, r);
    assert Conserved(s');
    hide Conserved, Held;
    assert Won(s.rq, r);
    CancelSetFacts(s, s', r);
  }

  lemma CancelSetFacts(s: State, s': State, r: Req)
    requires Facts(s) && LCancelSetStep(s, s', r) && Won(s.rq, r)
    requires r in s.rq.submitted && Job(r) !in s.wq && r !in s.loopq && r !in s.local && r !in s.rq.dones
    requires forall k :: 0 <= k < |s.workers| ==> r !in HeldBy(s.workers[k])
    ensures Facts(s')
  {}

  lemma SoundCancelInsert(s: State, s': State, r: Req)
    requires Sound(s) && LCancelInsertStep(s, s', r)
    ensures Sound(s')
  {
    hide Held;
    ConservedCancelInsert(s, s', r);
    hide Conserved;
    assert Won(s.rq, r) && s.rq.work[r] == CancelMark;
    assert Settled(s'.rq, s'.loop, r);
  }

  lemma ConservedCancelInsert(s: State, s': State, r: Req)
    requires Conserved(s) && LCancelInsertStep(s, s', r)
    ensures Conserved(s')
  {
    hide Held;
  }

  lemma SoundCancelReturn(s: State, s': State, r: Req)
    requires Sound(s) && LCancelReturnStep(s, s', r)
    ensures Sound(s')
  {
    assert Settled(s.rq, s.loop, r);
    OnlySettled(s, r);
    assert Conserved(s');
    hide Conserved, Held;
    CancelReturnFacts(s, s', r);
  }

  lemma CancelReturnFacts(s: State, s': State, r: Req)
    requires Facts(s) && LCancelReturnStep(s, s', r)
    requires r in s.rq.submitted && Job(r) !in s.wq && r !in s.rq.dones
    requires forall k :: 0 <= k < |s.workers| ==> r !in HeldBy(s.workers[k])
    ensures Facts(s')
  {
    forall k | 0 <= k < |s.workers|
      ensures InHand(s'.rq, s.workers[k])
    {
      InHandFrame(s.rq, s'.rq, s.workers[k], r);
    }
    hide InHand, HeldBy;
  }

  lemma SoundDoneMove(s: State, s': State)
    requires Sound(s) && LDoneMoveStep(s, s') && s.local == []
    ensures Sound(s')
  {
    assert Conserved(s');
    hide Conserved, Held;
  }

  lemma SoundDoneNext(s: State, s': State, r: Req)
    requires Sound(s) && LDoneNextStep(s, s', r)
    ensures Sound(s')
  {
    ConservedDoneNext(s, s', r);
    assert Settled(s.rq, s.loop, r);
    OnlySettled(s, r);
    hide Conserved, Held;
    DoneNextFacts(s, s', r);
  }

  lemma ConservedDoneNext(s: State, s': State, r: Req)
    requires Conserved(s) && LDoneNextStep(s, s', r)
    ensures Conserved(s')
  {
    assert s.local == [r] + s'.local;
    hide JobsIn, Held, LoopHolds;
  }

  lemma DoneNextFacts(s: State, s': State, r: Req)
    requires Facts(s) && LDoneNextStep(s, s', r) && Settled(s.rq, Free, r) && r in s.rq.submitted
    ensures Facts(s')
  {
    forall x | x in s'.rq.dones
      ensures DoneFact(s'.rq, x)
    {
      if x != r { assert DoneFact(s.rq, x); }
    }
    forall x | x in s'.loopq || x in s'.local
      ensures Settled(s'.rq, s'.loop, x)
    {
      assert x in s.loopq || x in s.local;
      assert Settled(s.rq, s.loop, x);
    }
    forall i | 0 <= i < |s.workers|
      ensures InHand(s'.rq, s.workers[i])
    {
      assert InHand(s.rq, s.workers[i]);
    }
  }

  // ----- the mutexes -----

  predicate WorkerHasGlobal(pc: WorkerPc) {
    pc.Check? || pc.Take? || pc.Leaving? || pc.Holding?
  }

  predicate WorkerHasLoop(pc: WorkerPc) {
    pc.Publishing? || pc.Published?
  }

  predicate LoopHasGlobal(l: LoopPc) {
    || l.Inserting? || l.Signalling? || l.Unlocking?
    || l.CancelLock2? || l.CancelTest? || l.CancelUnlock2? || l.CancelUnlock?
  }

  predicate LoopHasLoop(l: LoopPc) {
    || l.CancelTest? || l.CancelUnlock2? || l.CancelInsert? || l.CancelUnlock3?
    || l.DoneMove? || l.DoneUnlock?
  }

  /** Who holds a mutex is exactly who is inside its critical section. */
  ghost predicate Locks(s: State) {
    && (s.mutex.Worker? ==> s.mutex.id < |s.workers|)
    && (s.loopMutex.Worker? ==> s.loopMutex.id < |s.workers|)
    && (forall i :: 0 <= i < |s.workers| ==> (WorkerHasGlobal(s.workers[i]) <==> s.mutex == Worker(i)))
    && (forall i :: 0 <= i < |s.workers| ==> (WorkerHasLoop(s.workers[i]) <==> s.loopMutex == Worker(i)))
    && (LoopHasGlobal(s.loop) <==> s.mutex == LoopThread)
    && (LoopHasLoop(s.loop) <==> s.loopMutex == LoopThread)
    && (s.loop == DoneLock || s.loop == DoneMove ==> s.local == [])
  }

  /** A mutex changes hands only through being free. */
  predicate HandedOver(m: Owner, m': Owner, t: Owner) {
    m' == m || (m == Nobody && m' == t) || (m == t && m' == Nobody)
  }

  lemma LocksAfterWorker(s: State, s': State, i: nat, pc: WorkerPc)
    requires Locks(s) && i < |s.workers| && s'.workers == s.workers[i := pc] && s'.loop == s.loop
    requires s'.local == s.local
    requires HandedOver(s.mutex, s'.mutex, Worker(i)) && HandedOver(s.loopMutex, s'.loopMutex, Worker(i))
    requires WorkerHasGlobal(pc) <==> s'.mutex == Worker(i)
    requires WorkerHasLoop(pc) <==> s'.loopMutex == Worker(i)
    ensures Locks(s')
  {
    hide WorkerHasGlobal, WorkerHasLoop, LoopHasGlobal, LoopHasLoop;
  }

  lemma LocksWorker(s: State, s': State, i: nat)
    requires Locks(s)
    requires WLockStep(s, s', i) || WCheckStep(s, s', i) || WWakeStep(s, s', i) || WUnlockStep(s, s', i)
      || WLockLoopStep(s, s', i) || WUnlockLoopStep(s, s', i)
    ensures Locks(s')
  {
    OwnLocks(s, i);
    hide Locks;
    LocksAfterWorker(s, s', i, s'.workers[i]);
  }

  lemma LocksTransfer(s: State, s': State, i: nat, r: Req)
    requires Locks(s)
    requires WTakeStep(s, s', i, r) || WRunStep(s, s', i, r) || WPublishStep(s, s', i, r)
    ensures Locks(s')
  {
    OwnLocks(s, i);
    hide Locks;
    LocksAfterWorker(s, s', i, s'.workers[i]);
  }

  lemma OwnLocks(s: State, i: nat)
    requires Locks(s) && i < |s.workers|
    ensures WorkerHasGlobal(s.workers[i]) <==> s.mutex == Worker(i)
    ensures WorkerHasLoop(s.workers[i]) <==> s.loopMutex == Worker(i)
  {}

  lemma LocksSignal(s: State, s': State, wakes: bool, j: nat)
    requires Locks(s) && SignalOk(s.workers, wakes, j) && s' == s.(workers := Signal(s.workers, wakes, j))
    ensures Locks(s')
  {
    SignalLocks(s.workers, wakes, j);
    hide Signal, SignalOk, WorkerHasGlobal, WorkerHasLoop;
  }

  lemma LocksSeeExit(s: State, s': State, i: nat, wakes: bool, j: nat)
    requires Locks(s) && WSeeExitStep(s, s', i, wakes, j)
    ensures Locks(s')
  {
    var m := s.(workers := Signal(s.workers, wakes, j));
    OwnLocks(s, i);
    LocksSignal(s, m, wakes, j);
    hide Locks;
    LocksAfterWorker(m, s', i, Leaving);
  }

  lemma LocksAfterLoop(s: State, s': State)
    requires Locks(s) && s'.workers == s.workers
    requires HandedOver(s.mutex, s'.mutex, LoopThread) && HandedOver(s.loopMutex, s'.loopMutex, LoopThread)
    requires LoopHasGlobal(s'.loop) <==> s'.mutex == LoopThread
    requires LoopHasLoop(s'.loop) <==> s'.loopMutex == LoopThread
    requires s'.loop == DoneLock || s'.loop == DoneMove ==> s'.local == []
    ensures Locks(s')
  {
    hide WorkerHasGlobal, WorkerHasLoop, LoopHasGlobal, LoopHasLoop;
  }

  lemma LoopLocks(s: State)
    requires Locks(s)
    ensures LoopHasGlobal(s.loop) <==> s.mutex == LoopThread
    ensures LoopHasLoop(s.loop) <==> s.loopMutex == LoopThread
    ensures s.loop == DoneLock || s.loop == DoneMove ==> s.local == []
  {}

  lemma LocksPost(s: State, s': State, r: Req)
    requires Locks(s)
    requires LSubmitStep(s, s', r) || LCleanupStep(s, s') || LPostLockStep(s, s') || LInsertStep(s, s')
      || LPostUnlockStep(s, s')
    ensures Locks(s')
  {
    LoopLocks(s);
    hide Locks;
    LocksAfterLoop(s, s');
  }

  lemma LocksLSignal(s: State, s': State, wakes: bool, j: nat)
    requires Locks(s) && LSignalStep(s, s', wakes, j)
    ensures Locks(s')
  {
    LoopLocks(s);
    var m := s.(loop := s'.loop);
    LocksAfterLoop(s, m);
    hide Locks;
    if wakes { LocksSignal(m, s', wakes, j); }
  }

  lemma LocksCancel(s: State, s': State, r: Req)
    requires Locks(s)
    requires LCancelStep(s, s', r) || LCancelLockStep(s, s') || LCancelLock2Step(s, s') || LCancelTestStep(s, s')
      || LCancelUnlock2Step(s, s') || LCancelUnlockStep(s, s')
    ensures Locks(s')
  {
    LoopLocks(s);
    hide Locks, Without, CancelWins;
    LocksAfterLoop(s, s');
  }

  lemma LocksCancelEnd(s: State, s': State, r: Req)
    requires Locks(s)
    requires LCancelSetStep(s, s', r) || LCancelRelockStep(s, s') || LCancelInsertStep(s, s', r)
      || LCancelReturnStep(s, s', r)
    ensures Locks(s')
  {
    LoopLocks(s);
    hide Locks;
    LocksAfterLoop(s, s');
  }

  lemma LocksDone(s: State, s': State, r: Req)
    requires Locks(s)
    requires LDoneStep(s, s') || LDoneLockStep(s, s') || LDoneMoveStep(s, s') || LDoneUnlockStep(s, s')
      || LDoneNextStep(s, s', r)
    ensures Locks(s')
  {
    LoopLocks(s);
    hide Locks;
    LocksAfterLoop(s, s');
  }

  lemma SignalLocks(ws: seq<WorkerPc>, wakes: bool, j: nat)
    requires SignalOk(ws, wakes, j)
    ensures |Signal(ws, wakes, j)| == |ws|
    ensures forall i :: 0 <= i < |ws| ==> (WorkerHasGlobal(Signal(ws, wakes, j)[i]) <==> WorkerHasGlobal(ws[i]))
    ensures forall i :: 0 <= i < |ws| ==> (WorkerHasLoop(Signal(ws, wakes, j)[i]) <==> WorkerHasLoop(ws[i]))
  {}

  // ----- parking, signals and wake-ups -----

  function Parked1(pc: WorkerPc): nat {
    if pc.Parked? then 1 else 0
  }

  function Signalled1(pc: WorkerPc): nat {
    if pc == Parked(true) then 1 else 0
  }

  function ParkedCount(ws: seq<WorkerPc>): nat {
    if ws == [] then 0 else Parked1(ws[0]) + ParkedCount(ws[1..])
  }

  function SignalledCount(ws: seq<WorkerPc>): nat {
    if ws == [] then 0 else Signalled1(ws[0]) + SignalledCount(ws[1..])
  }

  lemma {:induction false} CountUpdate(ws: seq<WorkerPc>, i: nat, pc: WorkerPc)
    requires i < |ws|
    ensures ParkedCount(ws[i := pc]) == ParkedCount(ws) - Parked1(ws[i]) + Parked1(pc)
    ensures SignalledCount(ws[i := pc]) == SignalledCount(ws) - Signalled1(ws[i]) + Signalled1(pc)
    ensures ParkedCount(ws) >= Parked1(ws[i])
  {
    if i > 0 {
      CountUpdate(ws[1..], i - 1, pc);
      assert ws[i := pc][1..] == ws[1..][i - 1 := pc];
    } else {
      assert ws[0 := pc][1..] == ws[1..];
    }
  }

  /** Workers on their way to the queue: one may be inside the critical section. */
  function OnTheWay(s: State): nat {
    if s.mutex.Worker? && s.mutex.id < |s.workers|
       && (s.workers[s.mutex.id].Check? || s.workers[s.mutex.id].Take?) then 1 else 0
  }

  /** A signal that post owes. */
  function Owed(l: LoopPc): nat {
    if l.Signalling? then 1 else 0
  }

  ghost predicate SomeAsleep(ws: seq<WorkerPc>) {
    exists i :: 0 <= i < |ws| && ws[i] == Parked(false)
  }

  /** idle_threads counts the parked workers, and while one of them is asleep
      every queue entry has a worker coming for it. */
  ghost predicate Waiting(s: State) {
    && s.idle == ParkedCount(s.workers)
    && (SomeAsleep(s.workers) ==> |s.wq| <= SignalledCount(s.workers) + OnTheWay(s) + Owed(s.loop))
  }

  // ----- the end of the pool -----

  predicate Closing(l: LoopPc) {
    (l.Signalling? && l.sexit) || (l.Unlocking? && l.uexit) || l.Closed?
  }

  /** The exit message is last in the queue from the moment it is posted. */
  ghost predicate ExitLast(wq: seq<Item>) {
    wq != [] && wq[|wq| - 1] == Exit && Exit !in wq[..|wq| - 1]
  }

  ghost predicate Ending(s: State) {
    && (if Closing(s.loop) then ExitLast(s.wq) else Exit !in s.wq)
    && (forall i :: 0 <= i < |s.workers| && (s.workers[i].Leaving? || s.workers[i].Exited?) ==>
          Closing(s.loop) && s.wq == [Exit])
  }

  // ----- every step keeps the waiting discipline -----

  lemma {:induction false} NoneParked(ws: seq<WorkerPc>)
    requires ParkedCount(ws) == 0
    ensures !SomeAsleep(ws)
  {
    if SomeAsleep(ws) {
      var i :| 0 <= i < |ws| && ws[i] == Parked(false);
      CountUpdate(ws, i, Idle);
    }
  }

  lemma AsleepStill(ws: seq<WorkerPc>, i: nat, pc: WorkerPc)
    requires i < |ws| && pc != Parked(false) && SomeAsleep(ws[i := pc])
    ensures SomeAsleep(ws)
  {
    var k :| 0 <= k < |ws[i := pc]| && ws[i := pc][k] == Parked(false);
    assert ws[k] == Parked(false);
  }

  /** A worker moves without falling asleep: what it adds to the queue side must
      be covered by what it adds to the worker side. */
  lemma WaitingAfter(s: State, s': State, i: nat, pc: WorkerPc)
    requires Waiting(s) && i < |s.workers| && s'.workers == s.workers[i := pc] && pc != Parked(false)
    requires s'.loop == s.loop && s'.idle == s.idle - Parked1(s.workers[i]) + Parked1(pc)
    requires |s'.wq| - |s.wq| <= Signalled1(pc) - Signalled1(s.workers[i]) + OnTheWay(s') - OnTheWay(s)
    ensures Waiting(s')
  {
    CountUpdate(s.workers, i, pc);
    if SomeAsleep(s'.workers) { AsleepStill(s.workers, i, pc); }
    hide ParkedCount, SignalledCount, OnTheWay, SomeAsleep;
  }

  lemma WaitingWorker(s: State, s': State, i: nat, r: Req)
    requires Waiting(s) && Locks(s)
    requires WLockStep(s, s', i) || WWakeStep(s, s', i) || WUnlockStep(s, s', i) || WTakeStep(s, s', i, r)
    ensures Waiting(s')
  {
    OwnLocks(s, i);
    hide Locks;
    WaitingAfter(s, s', i, s'.workers[i]);
  }

  lemma WaitingLoopSide(s: State, s': State, i: nat, r: Req)
    requires Waiting(s) && Locks(s)
    requires WRunStep(s, s', i, r) || WLockLoopStep(s, s', i) || WPublishStep(s, s', i, r) || WUnlockLoopStep(s, s', i)
    ensures Waiting(s')
  {
    OwnLocks(s, i);
    hide Locks;
    WaitingAfter(s, s', i, s'.workers[i]);
  }

  lemma WaitingCheck(s: State, s': State, i: nat)
    requires Waiting(s) && Locks(s) && WCheckStep(s, s', i)
    ensures Waiting(s')
  {
    OwnLocks(s, i);
    if s.wq == [] {
      CountUpdate(s.workers, i, Parked(false));
    } else {
      WaitingAfter(s, s', i, Take);
    }
  }

  lemma WaitingSeeExit(s: State, s': State, i: nat, wakes: bool, j: nat)
    requires Waiting(s) && Locks(s) && WSeeExitStep(s, s', i, wakes, j)
    ensures Waiting(s')
  {
    OwnLocks(s, i);
    hide Locks;
    CountUpdate(Signal(s.workers, wakes, j), i, Leaving);
    if wakes {
      CountUpdate(s.workers, j, Parked(true));
      if SomeAsleep(s'.workers) {
        AsleepStill(s.workers[j := Parked(true)], i, Leaving);
        AsleepStill(s.workers, j, Parked(true));
      }
    } else if SomeAsleep(s'.workers) {
      AsleepStill(s.workers, i, Leaving);
    }
  }

  lemma WaitingLSignal(s: State, s': State, wakes: bool, j: nat)
    requires Waiting(s) && LSignalStep(s, s', wakes, j)
    ensures Waiting(s')
  {
    if s.idle <= 0 {
      NoneParked(s.workers);
    } else if wakes {
      CountUpdate(s.workers, j, Parked(true));
      if SomeAsleep(s'.workers) { AsleepStill(s.workers, j, Parked(true)); }
    }
  }

  /** The loop thread's other steps: the queue grows only when a signal is owed. */
  lemma WaitingLoop(s: State, s': State)
    requires Waiting(s) && s'.workers == s.workers && s'.idle == s.idle
    requires HandedOver(s.mutex, s'.mutex, LoopThread) && |s'.wq| - |s.wq| <= Owed(s'.loop) - Owed(s.loop)
    ensures Waiting(s')
  {
    hide ParkedCount, SignalledCount, SomeAsleep;
  }

  lemma {:induction false} WithoutLength<T>(q: seq<T>, x: T)
    ensures |Without(q, x)| <= |q|
  {
    if q != [] && q[0] != x { WithoutLength(q[1..], x); }
  }

  // ----- every step keeps the exit message last -----

  lemma EndingWorker(s: State, s': State, i: nat)
    requires Ending(s)
    requires WLockStep(s, s', i) || WCheckStep(s, s', i) || WWakeStep(s, s', i) || WUnlockStep(s, s', i)
      || WLockLoopStep(s, s', i) || WUnlockLoopStep(s, s', i)
    ensures Ending(s')
  {
    hide ExitLast, Closing;
  }

  lemma EndingTransfer(s: State, s': State, i: nat, r: Req)
    requires Ending(s) && (WTakeStep(s, s', i, r) || WRunStep(s, s', i, r) || WPublishStep(s, s', i, r))
    ensures Ending(s')
  {
    if WTakeStep(s, s', i, r) {
      forall x | x in s'.wq ensures x in s.wq {}
    }
    hide Closing;
  }

  lemma FirstButLast(q: seq<Item>)
    requires |q| > 1
    ensures q[0] in q[..|q| - 1]
  {
    assert q[..|q| - 1][0] == q[0];
  }

  /** When the exit message comes first there is nothing else. */
  lemma ExitHead(wq: seq<Item>)
    requires ExitLast(wq) && wq[0] == Exit
    ensures wq == [Exit]
  {
    if |wq| > 1 { FirstButLast(wq); }
  }

  lemma EndingSeeExit(s: State, s': State, i: nat, wakes: bool, j: nat)
    requires Ending(s) && WSeeExitStep(s, s', i, wakes, j)
    ensures Ending(s')
  {
    assert Exit in s.wq;
    ExitHead(s.wq);
    hide Closing;
  }

  lemma EndingLoop(s: State, s': State)
    requires Ending(s) && s'.workers == s.workers && s'.wq == s.wq && (Closing(s'.loop) <==> Closing(s.loop))
    ensures Ending(s')
  {}

  lemma EndingInsert(s: State, s': State)
    requires Ending(s) && LInsertStep(s, s')
    ensures Ending(s')
  {
    assert s'.wq[..|s'.wq| - 1] == s.wq;
  }

  lemma EndingLSignal(s: State, s': State, wakes: bool, j: nat)
    requires Ending(s) && LSignalStep(s, s', wakes, j)
    ensures Ending(s')
  {}

  lemma EndingTest(s: State, s': State)
    requires Ending(s) && LCancelTestStep(s, s')
    ensures Ending(s')
  {
    if Exit in s'.wq && CancelWins(s, s.loop.creq) { WithoutMember(s.wq, Job(s.loop.creq), Exit); }
  }

  // ----- a worker that is past its test finds the queue not empty -----

  ghost predicate Serving(s: State) {
    forall i :: 0 <= i < |s.workers| && s.workers[i].Take? ==> s.wq != []
  }

  lemma ServingKept(s: State, s': State, st: Step)
    requires Serving(s) && Locks(s) && Next(s, s', st)
    ensures Serving(s')
  {
    hide Locks, Serving, Next;
    if st.WSeeExit? || st.LSignal? {
      ServingSignals(s, s', st);
    } else if st.WTake? || st.LCancelTest? {
      ServingTaken(s, s', st);
    } else if ByWorker(st) {
      ServingWorkers(s, s', st);
    } else {
      ServingLoop(s, s', st);
    }
  }

  lemma ServingTaken(s: State, s': State, st: Step)
    requires Serving(s) && Locks(s) && Next(s, s', st) && (st.WTake? || st.LCancelTest?)
    ensures Serving(s')
  {
    hide Locks, Serving;
    match st
    case WTake(i, r) => ServingTake(s, s', i, r);
    case LCancelTest => ServingTest(s, s');
  }

  lemma ServingSignals(s: State, s': State, st: Step)
    requires Serving(s) && Next(s, s', st) && (st.WSeeExit? || st.LSignal?)
    ensures Serving(s')
  {}

  /** The other steps leave the queue or grow it, and let nobody past the test
      of an empty one. */
  lemma ServingWorkers(s: State, s': State, st: Step)
    requires Serving(s) && Next(s, s', st) && ByWorker(st) && !st.WSeeExit? && !st.WTake?
    ensures Serving(s')
  {
    assert s.wq != [] ==> s'.wq != [];
  }

  lemma ServingLoop(s: State, s': State, st: Step)
    requires Serving(s) && Next(s, s', st) && !ByWorker(st) && !st.LSignal? && !st.LCancelTest?
    ensures Serving(s')
  {
    assert s.wq != [] ==> s'.wq != [];
  }

  lemma ServingTest(s: State, s': State)
    requires Locks(s) && LCancelTestStep(s, s')
    ensures Serving(s')
  {
    LoopLocks(s);
    hide Without, CancelWins;
    forall k | 0 <= k < |s'.workers|
      ensures !s'.workers[k].Take?
    {
      OwnLocks(s, k);
    }
  }

  lemma ServingTake(s: State, s': State, i: nat, r: Req)
    requires Serving(s) && Locks(s) && WTakeStep(s, s', i, r)
    ensures Serving(s')
  {
    forall k | 0 <= k < |s'.workers|
      ensures !s'.workers[k].Take?
    {
      OwnLocks(s, i);
      OwnLocks(s, k);
    }
  }

  // ----- the invariant over all runs -----

  ghost predicate Inv(s: State) {
    Sound(s) && Locks(s) && Waiting(s) && Ending(s) && Serving(s)
  }

  lemma {:induction false} AllIdle(ws: seq<WorkerPc>)
    requires forall i :: 0 <= i < |ws| ==> ws[i] == Idle
    ensures Held(ws) == multiset{} && ParkedCount(ws) == 0
  {
    if ws != [] { AllIdle(ws[1..]); }
  }

  lemma InitInv(s: State)
    requires Init(s)
    ensures Inv(s)
  {
    AllIdle(s.workers);
    NoneParked(s.workers);
  }

  lemma SoundKept(s: State, s': State, st: Step)
    requires Sound(s) && Locks(s) && Next(s, s', st)
    ensures Sound(s')
  {
    hide Next, Sound, Locks;
    if ByWorker(st) {
      SoundKeptByWorker(s, s', st);
    } else {
      SoundKeptByLoop(s, s', st);
    }
  }

  lemma SoundKeptByWorker(s: State, s': State, st: Step)
    requires Sound(s) && Locks(s) && Next(s, s', st)
    requires ByWorker(st)
    ensures Sound(s')
  {
    hide Sound, Locks;
    match st
    case WLock(i) => SoundWorkerMoves(s, s', i);
    case WCheck(i) => SoundWorkerMoves(s, s', i);
    case WWake(i) => SoundWorkerMoves(s, s', i);
    case WSeeExit(i, wakes, j) => SoundSeeExit(s, s', i, wakes, j);
    case WTake(i, r) => SoundTake(s, s', i, r);
    case WUnlock(i) => SoundWorkerUnlocks(s, s', i);
    case WRun(i, r) => SoundRun(s, s', i, r);
    case WLockLoop(i) => SoundWorkerUnlocks(s, s', i);
    case WPublish(i, r) => SoundPublish(s, s', i, r);
    case WUnlockLoop(i) => SoundWorkerUnlocks(s, s', i);
    case _ =>
  }

  lemma SoundKeptByLoop(s: State, s': State, st: Step)
    requires Sound(s) && Locks(s) && Next(s, s', st)
    requires !ByWorker(st)
    ensures Sound(s')
  {
    hide Sound, Locks;
    match st
    case LSubmit(r) => SoundSubmit(s, s', r);
    case LCleanup => SoundPostMoves(s, s');
    case LPostLock => SoundPostMoves(s, s');
    case LInsert => SoundInsert(s, s');
    case LSignal(wakes, j) => SoundLSignal(s, s', wakes, j);
    case LPostUnlock => SoundPostMoves(s, s');
    case LCancel(r) => SoundCancel(s, s', r);
    case LCancelLock => SoundCancelLocks(s, s');
    case LCancelLock2 => SoundCancelLocks(s, s');
    case LCancelTest => SoundTest(s, s');
    case LCancelUnlock2 => SoundCancelUnlocks(s, s');
    case LCancelUnlock => SoundCancelUnlocks(s, s');
    case LCancelSet(r) => SoundCancelSet(s, s', r);
    case LCancelRelock => SoundCancelLocks(s, s');
    case LCancelInsert(r) => SoundCancelInsert(s, s', r);
    case LCancelReturn(r) => SoundCancelReturn(s, s', r);
    case LDone => SoundDoneMoves(s, s');
    case LDoneLock => SoundDoneMoves(s, s');
    case LDoneMove => LoopLocks(s); SoundDoneMove(s, s');
    case LDoneUnlock => SoundDoneMoves(s, s');
    case LDoneNext(r) => SoundDoneNext(s, s', r);
    case _ =>
  }

  lemma LocksKept(s: State, s': State, st: Step)
    requires Locks(s) && Next(s, s', st)
    ensures Locks(s')
  {
    hide Next, Locks;
    if ByWorker(st) {
      LocksKeptByWorker(s, s', st);
    } else {
      LocksKeptByLoop(s, s', st);
    }
  }

  lemma LocksKeptByWorker(s: State, s': State, st: Step)
    requires Locks(s) && Next(s, s', st)
    requires ByWorker(st)
    ensures Locks(s')
  {
    hide Locks;
    match st
    case WLock(i) => LocksWorker(s, s', i);
    case WCheck(i) => LocksWorker(s, s', i);
    case WWake(i) => LocksWorker(s, s', i);
    case WSeeExit(i, wakes, j) => LocksSeeExit(s, s', i, wakes, j);
    case WTake(i, r) => LocksTransfer(s, s', i, r);
    case WUnlock(i) => LocksWorker(s, s', i);
    case WRun(i, r) => LocksTransfer(s, s', i, r);
    case WLockLoop(i) => LocksWorker(s, s', i);
    case WPublish(i, r) => LocksTransfer(s, s', i, r);
    case WUnlockLoop(i) => LocksWorker(s, s', i);
    case _ =>
  }

  lemma LocksKeptByLoop(s: State, s': State, st: Step)
    requires Locks(s) && Next(s, s', st)
    requires !ByWorker(st)
    ensures Locks(s')
  {
    hide Locks;
    match st
    case LSubmit(r) => LocksPost(s, s', r);
    case LCleanup => LocksPost(s, s', 0);
    case LPostLock => LocksPost(s, s', 0);
    case LInsert => LocksPost(s, s', 0);
    case LSignal(wakes, j) => LocksLSignal(s, s', wakes, j);
    case LPostUnlock => LocksPost(s, s', 0);
    case LCancel(r) => LocksCancel(s, s', r);
    case LCancelLock => LocksCancel(s, s', 0);
    case LCancelLock2 => LocksCancel(s, s', 0);
    case LCancelTest => LocksCancel(s, s', 0);
    case LCancelUnlock2 => LocksCancel(s, s', 0);
    case LCancelUnlock => LocksCancel(s, s', 0);
    case LCancelSet(r) => LocksCancelEnd(s, s', r);
    case LCancelRelock => LocksCancelEnd(s, s', 0);
    case LCancelInsert(r) => LocksCancelEnd(s, s', r);
    case LCancelReturn(r) => LocksCancelEnd(s, s', r);
    case LDone => LocksDone(s, s', 0);
    case LDoneLock => LocksDone(s, s', 0);
    case LDoneMove => LocksDone(s, s', 0);
    case LDoneUnlock => LocksDone(s, s', 0);
    case LDoneNext(r) => LocksDone(s, s', r);
    case _ =>
  }

  lemma WaitingKept(s: State, s': State, st: Step)
    requires Waiting(s) && Locks(s) && Next(s, s', st)
    ensures Waiting(s')
  {
    match st
    case WLock(i) => WaitingWorker(s, s', i, 0);
    case WCheck(i) => WaitingCheck(s, s', i);
    case WWake(i) => WaitingWorker(s, s', i, 0);
    case WSeeExit(i, wakes, j) => WaitingSeeExit(s, s', i, wakes, j);
    case WTake(i, r) => WaitingWorker(s, s', i, r);
    case WUnlock(i) => WaitingWorker(s, s', i, 0);
    case WRun(i, r) => WaitingLoopSide(s, s', i, r);
    case WLockLoop(i) => WaitingLoopSide(s, s', i, 0);
    case WPublish(i, r) => WaitingLoopSide(s, s', i, r);
    case WUnlockLoop(i) => WaitingLoopSide(s, s', i, 0);
    case LSignal(wakes, j) => WaitingLSignal(s, s', wakes, j);
    case _ => WaitingOthers(s, s', st);
  }

  lemma WaitingOthers(s: State, s': State, st: Step)
    requires Waiting(s) && Locks(s) && Next(s, s', st)
    requires s'.workers == s.workers && s'.idle == s.idle && !st.LSignal?
    ensures Waiting(s')
  {
    hide CancelWins, Locks, Waiting, Without;
    LoopLocks(s);
    if st.LCancelTest? { WithoutLength(s.wq, Job(s.loop.creq)); }
    hide Waiting, Locks, Without, CancelWins;
    WaitingLoop(s, s');
  }

  lemma EndingKept(s: State, s': State, st: Step)
    requires Ending(s) && Next(s, s', st)
    ensures Ending(s')
  {
    match st
    case WLock(i) => EndingWorker(s, s', i);
    case WCheck(i) => EndingWorker(s, s', i);
    case WWake(i) => EndingWorker(s, s', i);
    case WSeeExit(i, wakes, j) => EndingSeeExit(s, s', i, wakes, j);
    case WTake(i, r) => EndingTransfer(s, s', i, r);
    case WUnlock(i) => EndingWorker(s, s', i);
    case WRun(i, r) => EndingTransfer(s, s', i, r);
    case WLockLoop(i) => EndingWorker(s, s', i);
    case WPublish(i, r) => EndingTransfer(s, s', i, r);
    case WUnlockLoop(i) => EndingWorker(s, s', i);
    case LInsert => EndingInsert(s, s');
    case LSignal(wakes, j) => EndingLSignal(s, s', wakes, j);
    case LCancelTest => EndingTest(s, s');
    case _ => EndingLoop(s, s');
  }

  /** The invariant is inductive. */
  lemma InvKept(s: State, s': State, st: Step)
    requires Inv(s) && Next(s, s', st)
    ensures Inv(s')
  {
    hide Sound, Locks, Waiting, Ending, Serving, Next;
    SoundKept(s, s', st);
    LocksKept(s, s', st);
    WaitingKept(s, s', st);
    EndingKept(s, s', st);
    ServingKept(s, s', st);
  }

  /** A run: a start and any interleaving of steps. */
  ghost predicate Run(states: seq<State>, steps: seq<Step>) {
    && |states| == |steps| + 1 && Init(states[0])
    && forall k :: 0 <= k < |steps| ==> Next(states[k], states[k + 1], steps[k])
  }

  lemma RunStep(states: seq<State>, steps: seq<Step>, k: nat)
    requires Run(states, steps) && k < |steps|
    ensures Next(states[k], states[k + 1], steps[k])
  {
    hide Next, Init;
  }

  lemma RunStart(states: seq<State>, steps: seq<Step>)
    requires Run(states, steps)
    ensures |states| == |steps| + 1 && Init(states[0])
  {}

  lemma {:induction false} RunInv(states: seq<State>, steps: seq<Step>, k: nat)
    requires Run(states, steps) && k < |states|
    ensures Inv(states[k])
  {
    hide *;
    RunStart(states, steps);
    if k == 0 {
      InitInv(states[0]);
    } else {
      RunInv(states, steps, k - 1);
      RunStep(states, steps, k - 1);
      InvKept(states[k - 1], states[k], steps[k - 1]);
    }
  }

  // ----- what every run guarantees -----

  /** Nothing is lost and nothing is duplicated: a submitted request whose done
      callback has not run is in exactly one place, once; afterwards it is in
      none, and the callback does not run again. */
  lemma OnePlace(states: seq<State>, steps: seq<Step>, k: nat, r: Req)
    requires Run(states, steps) && k < |states|
    ensures var s := states[k];
      JobsIn(s.wq)[r] + multiset(s.loopq)[r] + multiset(s.local)[r] + Held(s.workers)[r] + LoopHolds(s.loop)[r]
        + s.rq.dones[r] == if r in s.rq.submitted then 1 else 0
  {
    RunInv(states, steps, k);
    var s := states[k];
    assert (Places(s) + s.rq.dones)[r] == multiset(s.rq.submitted)[r];
  }

  /** The done callback gets UV_ECANCELED exactly when a cancel returned 0; then
      the work callback never ran, and otherwise it ran once before. */
  lemma Outcome(states: seq<State>, steps: seq<Step>, k: nat, r: Req)
    requires Run(states, steps) && k < |states| && r in states[k].rq.dones
    ensures var q := states[k].rq;
      && q.dones[r] == 1 && r in q.flags
      && (q.flags[r] <==> r in q.cancels)
      && q.runs[r] == if q.flags[r] then 0 else 1
  {
    RunInv(states, steps, k);
    OnePlace(states, steps, k, r);
    assert DoneFact(states[k].rq, r);
  }

  /** A worker about to run a request finds the user's callback there, not the
      null of a finished one and not the marker whose call aborts; the request
      has not run before and no cancel of it has succeeded. */
  lemma RunsTheCallback(states: seq<State>, steps: seq<Step>, k: nat, i: nat, r: Req)
    requires Run(states, steps) && k < |states| && At(states[k], i, Running(r))
    ensures var q := states[k].rq;
      && r in q.submitted && r in q.work && q.work[r] == Callback
      && q.runs[r] == 0 && r !in q.cancels && q.dones[r] == 0
  {
    RunInv(states, steps, k);
    OnlyInHand(states[k], i, r);
    assert InHand(states[k].rq, states[k].workers[i]);
  }

  /** What the test of a cancel means: it succeeds exactly when no worker has
      taken the request yet, or an earlier cancel of it has succeeded. */
  lemma CancelDecides(states: seq<State>, steps: seq<Step>, k: nat, r: Req)
    requires Run(states, steps) && k < |states| && states[k].loop == CancelTest(r)
    ensures CancelWins(states[k], r) <==> Job(r) in states[k].wq || r in states[k].rq.cancels
  {
    RunInv(states, steps, k);
    var s := states[k];
    OnePlace(states, steps, k, r);
    JobsMember(s.wq, r);
    assert r in s.rq.submitted && r !in s.rq.dones;
    if Job(r) in s.wq {
      assert Untouched(s.rq, r);
    } else if Held(s.workers)[r] > 0 {
      var i := HolderOf(s.workers, r);
      HolderIsLinked(s.rq, s.workers, i, r);
    } else {
      assert r in multiset(s.loopq) || r in multiset(s.local);
      assert Settled(s.rq, s.loop, r);
    }
  }

  /** No lost wake-up: while a worker sleeps without a signal, every queue entry
      has a signalled worker coming for it, or the worker that is about to take
      one, or the signal that is about to be sent; between critical sections,
      the first. */
  lemma NoLostWakeup(states: seq<State>, steps: seq<Step>, k: nat)
    requires Run(states, steps) && k < |states| && SomeAsleep(states[k].workers)
    ensures var s := states[k];
      && |s.wq| <= SignalledCount(s.workers) + OnTheWay(s) + Owed(s.loop)
      && (s.mutex == Nobody ==> |s.wq| <= SignalledCount(s.workers))
  {
    RunInv(states, steps, k);
    LoopLocks(states[k]);
  }

  /** Once the exit message is posted it stays queued, last; and a worker that
      has seen it leaves nothing that was posted before it behind. */
  lemma OrderlyExit(states: seq<State>, steps: seq<Step>, k: nat)
    requires Run(states, steps) && k < |states|
    ensures var s := states[k];
      && (if Closing(s.loop) then ExitLast(s.wq) else Exit !in s.wq)
      && (forall i :: 0 <= i < |s.workers| && (s.workers[i].Leaving? || s.workers[i].Exited?) ==> s.wq == [Exit])
  {
    RunInv(states, steps, k);
  }

  /** Who takes a step. */
  function Actor(st: Step): Owner {
    match st
    case WLock(i) => Worker(i)
    case WCheck(i) => Worker(i)
    case WWake(i) => Worker(i)
    case WSeeExit(i, _, _) => Worker(i)
    case WTake(i, _) => Worker(i)
    case WUnlock(i) => Worker(i)
    case WRun(i, _) => Worker(i)
    case WLockLoop(i) => Worker(i)
    case WPublish(i, _) => Worker(i)
    case WUnlockLoop(i) => Worker(i)
    case _ => LoopThread
  }

  ghost predicate Enabled(s: State, st: Step) {
    exists s' :: Next(s, s', st)
  }

  /** No worker asks for one mutex while it holds the other. */
  lemma OneMutexAtATime(states: seq<State>, steps: seq<Step>, k: nat, i: nat)
    requires Run(states, steps) && k < |states| && i < |states[k].workers|
    ensures var s := states[k];
      && !(s.mutex == Worker(i) && s.loopMutex == Worker(i))
      && (s.workers[i].Idle? || s.workers[i].Parked? || s.workers[i].Ran? ==>
            s.mutex != Worker(i) && s.loopMutex != Worker(i))
  {
    RunInv(states, steps, k);
    OwnLocks(states[k], i);
  }

  /** The holder of the loop mutex never waits. */
  lemma LoopMutexMoves(s: State) returns (st: Step)
    requires Inv(s) && s.loopMutex != Nobody
    ensures Enabled(s, st) && Actor(st) == s.loopMutex && !st.WWake?
  {
    hide Sound, Waiting, Ending;
    if s.loopMutex.Worker? {
      var i := s.loopMutex.id;
      OwnLocks(s, i);
      if s.workers[i] == Published {
        st := WUnlockLoop(i);
        var s' := s.(workers := s.workers[i := Idle], loopMutex := Nobody);
        assert Next(s, s', st);
      } else {
        var r := s.workers[i].preq;
        st := WPublish(i, r);
        var s' := s.(workers := s.workers[i := Published], loopq := s.loopq + [r],
                     rq := s.rq.(work := s.rq.work[r := Null], selfLinked := s.rq.selfLinked - {r}));
        assert Next(s, s', st);
      }
    } else {
      LoopLocks(s);
      hide Locks;
      st := LoopInsideMoves(s);
    }
  }

  /** Inside the loop mutex the loop thread can always go on. */
  lemma LoopInsideMoves(s: State) returns (st: Step)
    requires LoopHasLoop(s.loop)
    ensures Enabled(s, st) && Actor(st) == LoopThread
  {
    hide CancelWins, Without;
    ghost var s' := s;
    match s.loop {
      case CancelTest(r) =>
        st := LCancelTest;
        s' := if CancelWins(s, r)
              then s.(loop := CancelUnlock2(r, true), wq := Without(s.wq, Job(r)),
                      loopq := Without(s.loopq, r), local := Without(s.local, r))
              else s.(loop := CancelUnlock2(r, false));
      case CancelUnlock2(r, ok) =>
        st := LCancelUnlock2;
        s' := s.(loop := CancelUnlock(r, ok), loopMutex := Nobody);
      case CancelInsert(r) =>
        st := LCancelInsert(r);
        s' := s.(loop := CancelUnlock3(r), loopq := s.loopq + [r]);
      case CancelUnlock3(r) =>
        st := LCancelReturn(r);
        s' := s.(loop := Free, loopMutex := Nobody, rq := s.rq.(cancels := s.rq.cancels + {r}));
      case DoneMove =>
        st := LDoneMove;
        s' := s.(loop := DoneUnlock, local := s.loopq, loopq := []);
      case DoneUnlock =>
        st := LDoneUnlock;
        s' := s.(loop := Free, loopMutex := Nobody);
    }
    assert Next(s, s', st);
  }

  /** A worker inside the global mutex can always go on. */
  lemma WorkerInsideMoves(s: State, i: nat) returns (st: Step)
    requires i < |s.workers| && WorkerHasGlobal(s.workers[i]) && (s.workers[i].Take? ==> s.wq != [])
    ensures Enabled(s, st) && Actor(st) == Worker(i) && !st.WWake?
  {
    ghost var s' := s;
    match s.workers[i] {
      case Check =>
        st := WCheck(i);
        s' := if s.wq == []
              then s.(workers := s.workers[i := Parked(false)], mutex := Nobody, idle := s.idle + 1)
              else s.(workers := s.workers[i := Take]);
      case Take =>
        if s.wq[0].Job? {
          var r := s.wq[0].req;
          st := WTake(i, r);
          s' := s.(workers := s.workers[i := Holding(r)], wq := s.wq[1..],
                   rq := s.rq.(selfLinked := s.rq.selfLinked + {r}));
        } else {
          var wakes, j := SignalChoice(s.workers);
          st := WSeeExit(i, wakes, j);
          s' := s.(workers := Signal(s.workers, wakes, j)[i := Leaving]);
        }
      case Leaving =>
        st := WUnlock(i);
        s' := s.(mutex := Nobody, workers := s.workers[i := Exited]);
      case Holding(r) =>
        st := WUnlock(i);
        s' := s.(mutex := Nobody, workers := s.workers[i := Running(r)]);
    }
    assert Next(s, s', st);
  }

  lemma SignalChoice(ws: seq<WorkerPc>) returns (wakes: bool, j: nat)
    ensures SignalOk(ws, wakes, j)
  {
    wakes := exists k :: 0 <= k < |ws| && ws[k] == Parked(false);
    j := 0;
    if wakes { j :| j < |ws| && ws[j] == Parked(false); }
  }

  /** The loop thread inside the global mutex goes on, unless it waits for the
      loop mutex. */
  lemma LoopGlobalMoves(s: State) returns (st: Step)
    requires LoopHasGlobal(s.loop) && (s.loop.CancelLock2? ==> s.loopMutex == Nobody)
    ensures Enabled(s, st) && Actor(st) == LoopThread
  {
    if LoopHasLoop(s.loop) {
      st := LoopInsideMoves(s);
    } else {
      ghost var s' := s;
      match s.loop {
        case Inserting(it) =>
          st := LInsert;
          s' := s.(loop := Signalling(it == Exit), wq := s.wq + [it]);
        case Signalling(e) =>
          var wakes, j := SignalChoice(s.workers);
          wakes := wakes && s.idle > 0;
          st := LSignal(wakes, j);
          s' := s.(loop := Unlocking(e), workers := Signal(s.workers, wakes, j));
        case Unlocking(e) =>
          st := LPostUnlock;
          s' := s.(loop := if e then Closed else Free, mutex := Nobody);
        case CancelLock2(r) =>
          st := LCancelLock2;
          s' := s.(loop := CancelTest(r), loopMutex := LoopThread);
        case CancelUnlock(r, ok) =>
          st := LCancelUnlock;
          s' := s.(loop := if ok then CancelSet(r) else Free, mutex := Nobody);
      }
      assert Next(s, s', st);
    }
  }

  /** No deadlock: whenever a mutex is held, some holder of a mutex can go on. */
  lemma NoDeadlock(states: seq<State>, steps: seq<Step>, k: nat)
    requires Run(states, steps) && k < |states|
    requires states[k].mutex != Nobody || states[k].loopMutex != Nobody
    ensures exists st :: Enabled(states[k], st) && !st.WWake? && Actor(st) != Nobody
              && (Actor(st) == states[k].mutex || Actor(st) == states[k].loopMutex)
  {
    RunInv(states, steps, k);
    var st := SomeHolderMoves(states[k]);
  }

  lemma SomeHolderMoves(s: State) returns (st: Step)
    requires Inv(s) && (s.mutex != Nobody || s.loopMutex != Nobody)
    ensures Enabled(s, st) && !st.WWake? && Actor(st) != Nobody
    ensures Actor(st) == s.mutex || Actor(st) == s.loopMutex
  {
    hide Sound, Waiting, Ending, Enabled;
    if s.loopMutex != Nobody {
      st := LoopMutexMoves(s);
    } else if s.mutex.Worker? {
      OwnLocks(s, s.mutex.id);
      st := WorkerInsideMoves(s, s.mutex.id);
    } else {
      LoopLocks(s);
      hide Locks;
      st := LoopGlobalMoves(s);
    }
  }

  /** Waking without a signal, which the condition variable allows but never owes. */
  predicate Spurious(s: State, st: Step) {
    st.WWake? && st.i < |s.workers| && s.workers[st.i] == Parked(false)
  }

  /** Nothing that is queued waits for ever on nobody: while the queue is not
      empty and some worker has not exited, a worker or the loop thread inside
      one of its calls has a step to take, without relying on a spurious
      wake-up. */
  lemma QueueIsServed(states: seq<State>, steps: seq<Step>, k: nat, i: nat)
    requires Run(states, steps) && k < |states| && states[k].wq != []
    requires i < |states[k].workers| && states[k].workers[i] != Exited
    ensures exists st :: Enabled(states[k], st) && !Spurious(states[k], st)
              && (Actor(st).Worker? || Actor(st) == states[k].mutex || Actor(st) == states[k].loopMutex)
  {
    RunInv(states, steps, k);
    var s := states[k];
    if s.mutex != Nobody || s.loopMutex != Nobody {
      var st := SomeHolderMoves(s);
    } else {
      var st := IdlePoolMoves(s, i);
    }
  }

  /** With both mutexes free every worker that is not asleep can go on, and if
      one is asleep, another has been signalled. */
  lemma IdlePoolMoves(s: State, i: nat) returns (st: Step)
    requires Inv(s) && s.mutex == Nobody && s.loopMutex == Nobody && s.wq != []
    requires i < |s.workers| && s.workers[i] != Exited
    ensures Enabled(s, st) && !Spurious(s, st) && Actor(st).Worker?
  {
    OwnLocks(s, i);
    LoopLocks(s);
    var w := i;
    if s.workers[i] == Parked(false) {
      w := SignalledWorker(s.workers);
    }
    hide Inv;
    st := FreeWorkerMoves(s, w);
  }

  lemma {:induction false} SignalledWorker(ws: seq<WorkerPc>) returns (i: nat)
    requires SignalledCount(ws) > 0
    ensures i < |ws| && ws[i] == Parked(true)
  {
    if ws[0] == Parked(true) {
      i := 0;
    } else {
      i := SignalledWorker(ws[1..]);
      i := i + 1;
    }
  }

  lemma FreeWorkerMoves(s: State, i: nat) returns (st: Step)
    requires s.mutex == Nobody && s.loopMutex == Nobody && i < |s.workers|
    requires !WorkerHasGlobal(s.workers[i]) && !WorkerHasLoop(s.workers[i])
    requires s.workers[i] != Exited && s.workers[i] != Parked(false)
    ensures Enabled(s, st) && !Spurious(s, st) && Actor(st).Worker?
  {
    ghost var s' := s;
    match s.workers[i] {
      case Idle =>
        st := WLock(i);
        s' := s.(workers := s.workers[i := Check], mutex := Worker(i));
      case Parked(_) =>
        st := WWake(i);
        s' := s.(workers := s.workers[i := Check], mutex := Worker(i), idle := s.idle - 1);
      case Running(r) =>
        st := WRun(i, r);
        s' := s.(workers := s.workers[i := Ran(r)], rq := s.rq.(runs := s.rq.runs + multiset{r}));
      case Ran(r) =>
        st := WLockLoop(i);
        s' := s.(workers := s.workers[i := Publishing(r)], loopMutex := Worker(i));
    }
    assert Next(s, s', st);
  }

  // ----- the runs are there: both outcomes happen -----

  function Last(states: seq<State>): State
    requires states != []
  {
    states[|states| - 1]
  }

  lemma Extend(states: seq<State>, steps: seq<Step>, s: State, st: Step)
    returns (states': seq<State>, steps': seq<Step>)
    requires Run(states, steps) && Next(Last(states), s, st)
    ensures Run(states', steps') && Last(states') == s
  {
    hide Next, Init;
    states', steps' := states + [s], steps + [st];
    forall k | 0 <= k < |steps'|
      ensures Next(states'[k], states'[k + 1], steps'[k])
    {
      if k < |steps| { RunStep(states, steps, k); }
    }
  }

  /** What the two runs share: one worker, and one request posted. */
  function Posted(): State {
    State([Idle], Free, Nobody, Nobody, [Job(0)], [], [], 0,
          Requests(map[0 := Callback], {}, {0}, multiset{}, multiset{}, map[], {}))
  }

  lemma StartRun(s: State) returns (states: seq<State>, steps: seq<Step>)
    requires Init(s)
    ensures Run(states, steps) && Last(states) == s
  {
    states, steps := [s], [];
  }

  lemma PostedRun() returns (states: seq<State>, steps: seq<Step>)
    ensures Run(states, steps) && Last(states) == Posted()
  {
    var q := Requests(map[], {}, {}, multiset{}, multiset{}, map[], {});
    var s := State([Idle], Free, Nobody, Nobody, [], [], [], 0, q);
    hide Run;
    states, steps := StartRun(s);
    var q' := q.(work := map[0 := Callback], submitted := {0});
    states, steps := Extend(states, steps, s.(loop := Posting(Job(0)), rq := q'), LSubmit(0));
    states, steps := Extend(states, steps, s.(loop := Inserting(Job(0)), mutex := LoopThread, rq := q'), LPostLock);
    states, steps := InsertedRun(states, steps);
  }

  lemma InsertedRun(states0: seq<State>, steps0: seq<Step>) returns (states: seq<State>, steps: seq<Step>)
    requires Run(states0, steps0)
    requires Last(states0) == Posted().(loop := Inserting(Job(0)), mutex := LoopThread, wq := [])
    ensures Run(states, steps) && Last(states) == Posted()
  {
    hide Run, Last, Next;
    var s := Posted().(mutex := LoopThread);
    InsertedSteps(Posted().(loop := Inserting(Job(0)), mutex := LoopThread, wq := []), s);
    states, steps := Extend(states0, steps0, s.(loop := Signalling(false)), LInsert);
    states, steps := Extend(states, steps, s.(loop := Unlocking(false)), LSignal(false, 0));
    states, steps := Extend(states, steps, Posted(), LPostUnlock);
  }

  lemma InsertedSteps(s0: State, s: State)
    requires s0 == Posted().(loop := Inserting(Job(0)), mutex := LoopThread, wq := [])
    requires s == Posted().(mutex := LoopThread)
    ensures Next(s0, s.(loop := Signalling(false)), LInsert)
    ensures Next(s.(loop := Signalling(false)), s.(loop := Unlocking(false)), LSignal(false, 0))
    ensures Next(s.(loop := Unlocking(false)), Posted(), LPostUnlock)
  {}

  /** A run in which the request is worked on. */
  lemma CompletedRun() returns (states: seq<State>, steps: seq<Step>)
    ensures Run(states, steps) && Last(states).rq.dones[0] == 1
    ensures 0 in Last(states).rq.flags && !Last(states).rq.flags[0]
  {
    states, steps := PostedRun();
    hide Run;
    var s := Posted();
    var q := s.rq;
    states, steps := Extend(states, steps, s.(workers := [Check], mutex := Worker(0)), WLock(0));
    states, steps := Extend(states, steps, s.(workers := [Take], mutex := Worker(0)), WCheck(0));
    q := q.(selfLinked := {0});
    var taken := s.(workers := [Holding(0)], mutex := Worker(0), wq := [], rq := q);
    states, steps := Extend(states, steps, taken, WTake(0, 0));
    s := s.(wq := []);
    states, steps := Extend(states, steps, s.(workers := [Running(0)], rq := q), WUnlock(0));
    q := q.(runs := multiset{0});
    states, steps := Extend(states, steps, s.(workers := [Ran(0)], rq := q), WRun(0, 0));
    var published := s.(workers := [Publishing(0)], loopMutex := Worker(0), rq := q);
    states, steps := Extend(states, steps, published, WLockLoop(0));
    q := q.(selfLinked := {}, work := map[0 := Null]);
    s := s.(loopq := [0], rq := q);
    states, steps := Extend(states, steps, s.(workers := [Published], loopMutex := Worker(0)), WPublish(0, 0));
    states, steps := Extend(states, steps, s, WUnlockLoop(0));
    states, steps := DoneRun(states, steps, s);
  }

  /** A run in which the request is cancelled. */
  lemma CancelledRun() returns (states: seq<State>, steps: seq<Step>)
    ensures Run(states, steps) && Last(states).rq.dones[0] == 1
    ensures 0 in Last(states).rq.flags && Last(states).rq.flags[0]
  {
    states, steps := PostedRun();
    hide Run;
    var s := Posted();
    states, steps := Extend(states, steps, s.(loop := CancelLock(0)), LCancel(0));
    states, steps := Extend(states, steps, s.(loop := CancelLock2(0), mutex := LoopThread), LCancelLock);
    var testing := s.(loop := CancelTest(0), mutex := LoopThread, loopMutex := LoopThread);
    states, steps := Extend(states, steps, testing, LCancelLock2);
    s := s.(wq := []);
    states, steps := Extend(states, steps,
      s.(loop := CancelUnlock2(0, true), mutex := LoopThread, loopMutex := LoopThread), LCancelTest);
    states, steps := Extend(states, steps, s.(loop := CancelUnlock(0, true), mutex := LoopThread), LCancelUnlock2);
    states, steps := Extend(states, steps, s.(loop := CancelSet(0)), LCancelUnlock);
    states, steps := WonRun(states, steps, s);
  }

  /** The rest of a cancel that has won. */
  lemma WonRun(states0: seq<State>, steps0: seq<Step>, s0: State) returns (states: seq<State>, steps: seq<Step>)
    requires Run(states0, steps0) && Last(states0) == s0.(loop := CancelSet(0))
    requires s0 == Posted().(wq := [])
    ensures Run(states, steps) && Last(states).rq.dones[0] == 1
    ensures 0 in Last(states).rq.flags && Last(states).rq.flags[0]
  {
    hide Run, Last;
    var s := s0.(rq := s0.rq.(work := map[0 := CancelMark]));
    states, steps := Extend(states0, steps0, s.(loop := CancelRelock(0)), LCancelSet(0));
    states, steps := Extend(states, steps, s.(loop := CancelInsert(0), loopMutex := LoopThread), LCancelRelock);
    s := s.(loopq := [0]);
    states, steps := Extend(states, steps, s.(loop := CancelUnlock3(0), loopMutex := LoopThread), LCancelInsert(0));
    s := s.(rq := s.rq.(cancels := {0}));
    states, steps := Extend(states, steps, s, LCancelReturn(0));
    states, steps := DoneRun(states, steps, s);
  }

  lemma DoneRun(states0: seq<State>, steps0: seq<Step>, s0: State) returns (states: seq<State>, steps: seq<Step>)
    requires Run(states0, steps0) && Last(states0) == s0 && s0.loop == Free && s0.loopMutex == Nobody
    requires s0.loopq == [0] && s0.local == [] && 0 in s0.rq.work && s0.rq.dones == multiset{}
    ensures Run(states, steps) && Last(states).rq.dones[0] == 1
    ensures 0 in Last(states).rq.flags && Last(states).rq.flags[0] == (s0.rq.work[0] == CancelMark)
  {
    hide Run, Last;
    var s := s0;
    states, steps := Extend(states0, steps0, s.(loop := DoneLock), LDone);
    states, steps := Extend(states, steps, s.(loop := DoneMove, loopMutex := LoopThread), LDoneLock);
    s := s.(loopq := [], local := [0]);
    states, steps := Extend(states, steps, s.(loop := DoneUnlock, loopMutex := LoopThread), LDoneMove);
    states, steps := Extend(states, steps, s, LDoneUnlock);
    var q := s.rq.(dones := s.rq.dones + multiset{0}, flags := s.rq.flags[0 := s.rq.work[0] == CancelMark]);
    assert s.local[1..] == [];
    states, steps := Extend(states, steps, s.(local := [], rq := q), LDoneNext(0));
  }
}
