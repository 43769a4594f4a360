/**
  em_enqueue and em_dequeue as steps of any number of threads: two counting
  semaphores, one mutex, and the critical sections of Queue.Ring.
 */
module QueueProtocol {
  import opened Basics
  import opened Queue
  import opened Threads
  import opened Calls
  import Runs

  /** EM_ERR_TIMEOUT, EM_ERR_OTHER, and what em_enqueue returns for either. */
  const TIMED_OUT: int := -2
  const OTHER: int := -99
  const FAILED: int := -1

  /** What a call is for, and what it did in its critical section. */
  datatype Asked = ToEnqueue(v: Bytes) | ToDequeue
  datatype Deed = Put(v: Bytes) | Got(v: Bytes)

  /** Where a thread is inside call `c` of em_enqueue (E) or em_dequeue (D). */
  datatype PC =
    | Idle
    | EWait(c: nat, v: Bytes)        // waiting for sem_in
    | EPermit(c: nat, v: Bytes)      // has a permit, about to lock
    | ECrit(c: nat, v: Bytes)        // in the critical section
    | EFatal(c: nat, v: Bytes)       // found the queue full there
    | EGiveBack(c: nat, v: Bytes)    // about to return the permit after a lock error
    | EUnlock(c: nat, v: Bytes)      // the block is in
    | EPost(c: nat, v: Bytes)        // unlocked, about to post sem_out
    | EReturn(c: nat, v: Bytes, ret: int)
    | DWait(c: nat)
    | DPermit(c: nat)
    | DCrit(c: nat)
    | DFatal(c: nat)                 // found the queue empty in the critical section
    | DFatalUnlock(c: nat)
    | DGiveBack(c: nat)
    | DUnlock(c: nat, v: Bytes)      // the block is out, and copied to the caller
    | DPost(c: nat, v: Bytes)        // unlocked, about to post sem_in
    | DReturn(c: nat, ret: int, got: Option<Bytes>)

  /** `book` records the calls and, in critical-section order, their deeds; `granted` the calls that got a permit. */
  datatype State = State(
    q: Ring,
    semIn: nat,
    semOut: nat,
    mutex: Option<nat>,
    threads: map<nat, PC>,
    book: Book<Asked, Deed>,
    granted: set<nat>)

  predicate InCrit(pc: PC) {
    pc.ECrit? || pc.EFatal? || pc.EUnlock? || pc.DCrit? || pc.DFatal? || pc.DFatalUnlock? || pc.DUnlock?
  }

  /** A producer holds a permit of sem_in and has not inserted. */
  predicate Producing(pc: PC) { pc.EPermit? || pc.ECrit? || pc.EFatal? || pc.EGiveBack? }
  /** A producer has inserted and not yet posted sem_out. */
  predicate Produced(pc: PC) { pc.EUnlock? || pc.EPost? }
  /** A consumer holds a permit of sem_out and has not removed. */
  predicate Consuming(pc: PC) { pc.DPermit? || pc.DCrit? || pc.DFatal? || pc.DGiveBack? }
  /** A consumer has removed and not yet posted sem_in. */
  predicate Consumed(pc: PC) { pc.DUnlock? || pc.DPost? }
  predicate Fatal(pc: PC) { pc.EFatal? || pc.DFatal? || pc.DFatalUnlock? }

  function Goto(s: State, t: nat, pc: PC): State {
    s.(threads := s.threads[t := pc])
  }

  function Asking(s: State, asked: Asked): Book<Asked, Deed> {
    s.book.(calls := s.book.calls + [asked])
  }

  function Doing(s: State, c: nat, deed: Deed): Book<Asked, Deed> {
    s.book.(log := s.book.log + [(c, deed)])
  }

  ghost predicate Begin(s: State, t: nat, s': State) {
    var c := |s.book.calls|;
    || s' == Goto(s, t, DWait(c)).(book := Asking(s, ToDequeue))
    || exists v :: s' == Goto(s, t, EWait(c, v)).(book := Asking(s, ToEnqueue(v)))
  }

  ghost predicate Insert(s: State, t: nat, c: nat, v: Bytes, s': State) {
    && s.q.head < |s.q.slots|
    && s' == match s.q.Put(v)
             case None => Goto(s, t, EFatal(c, v))
             case Some(q') => Goto(s, t, EUnlock(c, v)).(q := q', book := Doing(s, c, Put(v)))
  }

  ghost predicate Remove(s: State, t: nat, c: nat, s': State) {
    && s.q.tail < |s.q.slots|
    && s' == match s.q.Take()
             case None => Goto(s, t, DFatal(c))
             case Some((q', v)) => Goto(s, t, DUnlock(c, v)).(q := q', book := Doing(s, c, Got(v)))
  }

  /** One step of thread `t`. A wait may time out, and locking may fail with an error. */
  ghost predicate Next(s: State, t: nat, s': State) {
    && t in s.threads
    && match s.threads[t]
       case Idle => Begin(s, t, s')
       case EWait(c, v) =>
         || s' == Goto(s, t, EReturn(c, v, FAILED))
         || (s.semIn > 0 && s' == Goto(s, t, EPermit(c, v)).(semIn := s.semIn - 1, granted := s.granted + {c}))
       case EPermit(c, v) =>
         s' == Goto(s, t, EGiveBack(c, v)) || (s.mutex == None && s' == Goto(s, t, ECrit(c, v)).(mutex := Some(t)))
       case ECrit(c, v) => Insert(s, t, c, v, s')
       case EFatal(c, v) => s' == Goto(s, t, EGiveBack(c, v)).(mutex := None)
       case EGiveBack(c, v) => s' == Goto(s, t, EReturn(c, v, FAILED)).(semIn := s.semIn + 1)
       case EUnlock(c, v) => s' == Goto(s, t, EPost(c, v)).(mutex := None)
       case EPost(c, v) => s' == Goto(s, t, EReturn(c, v, 0)).(semOut := s.semOut + 1)
       case EReturn(c, v, ret) => s' == Goto(s, t, Idle)
       case DWait(c) =>
         || s' == Goto(s, t, DReturn(c, TIMED_OUT, None))
         || (s.semOut > 0 && s' == Goto(s, t, DPermit(c)).(semOut := s.semOut - 1, granted := s.granted + {c}))
       case DPermit(c) =>
         s' == Goto(s, t, DGiveBack(c)) || (s.mutex == None && s' == Goto(s, t, DCrit(c)).(mutex := Some(t)))
       case DCrit(c) => Remove(s, t, c, s')
       case DFatal(c) => s' == Goto(s, t, DFatalUnlock(c)).(semOut := s.semOut + 1)
       case DFatalUnlock(c) => s' == Goto(s, t, DReturn(c, OTHER, None)).(mutex := None)
       case DGiveBack(c) => s' == Goto(s, t, DReturn(c, OTHER, None)).(semOut := s.semOut + 1)
       case DUnlock(c, v) => s' == Goto(s, t, DPost(c, v)).(mutex := None)
       case DPost(c, v) => s' == Goto(s, t, DReturn(c, 0, Some(v))).(semIn := s.semIn + 1)
       case DReturn(c, ret, got) => s' == Goto(s, t, Idle)
  }

  ghost predicate Init(s: State) {
    && |s.q.slots| > 0 && s.q.used == 0 && s.q.head == 0 && s.q.tail == 0
    && s.semIn == |s.q.slots| && s.semOut == 0 && s.mutex == None
    && s.book == Book([], []) && s.granted == {}
    && forall t | t in s.threads :: s.threads[t] == Idle
  }

  // ---------------------------------------------------------------- the invariant

  ghost predicate Exclusive(s: State) {
    && (forall t | t in s.threads :: InCrit(s.threads[t]) <==> s.mutex == Some(t))
    && (s.mutex.Some? ==> s.mutex.value in s.threads)
  }

  /** Every slot is free (in sem_in), spoken for, or used; every block is offered (in sem_out) or spoken for. */
  ghost predicate Balanced(s: State) {
    && s.semIn + CountAt(s.threads, Producing) + CountAt(s.threads, Consumed) + s.q.used == |s.q.slots|
    && s.semOut + CountAt(s.threads, Produced) + CountAt(s.threads, Consuming) == s.q.used
  }

  /** The blocks inserted so far, and those removed, in critical-section order. */
  function Puts(log: seq<(nat, Deed)>): seq<Bytes>
    decreases |log|
  {
    if log == [] then []
    else
      Puts(log[..|log| - 1]) + match log[|log| - 1].1 case Put(v) => [v] case Got(_) => []
  }

  function Gots(log: seq<(nat, Deed)>): seq<Bytes>
    decreases |log|
  {
    if log == [] then []
    else
      Gots(log[..|log| - 1]) + match log[|log| - 1].1 case Put(_) => [] case Got(v) => [v]
  }

  ghost predicate Fifo(s: State) {
    s.q.Wf() && Puts(s.book.log) == Gots(s.book.log) + s.q.Window()
  }

  /** An enqueue call inserts the block it was given, and a dequeue call removes one. */
  predicate Fits(asked: Asked, deed: Deed) {
    match asked
    case ToEnqueue(v) => deed == Put(v)
    case ToDequeue => deed.Got?
  }

  /** What a thread knows of its call. */
  function Known(pc: PC): Option<Account<Asked, Deed>> {
    match pc
    case Idle => None
    case EWait(c, v) => Some(Account(c, ToEnqueue(v), None))
    case EPermit(c, v) => Some(Account(c, ToEnqueue(v), None))
    case ECrit(c, v) => Some(Account(c, ToEnqueue(v), None))
    case EFatal(c, v) => Some(Account(c, ToEnqueue(v), None))
    case EGiveBack(c, v) => Some(Account(c, ToEnqueue(v), None))
    case EUnlock(c, v) => Some(Account(c, ToEnqueue(v), Some(Put(v))))
    case EPost(c, v) => Some(Account(c, ToEnqueue(v), Some(Put(v))))
    case EReturn(c, v, ret) => Some(Account(c, ToEnqueue(v), if ret == 0 then Some(Put(v)) else None))
    case DWait(c) => Some(Account(c, ToDequeue, None))
    case DPermit(c) => Some(Account(c, ToDequeue, None))
    case DCrit(c) => Some(Account(c, ToDequeue, None))
    case DFatal(c) => Some(Account(c, ToDequeue, None))
    case DFatalUnlock(c) => Some(Account(c, ToDequeue, None))
    case DGiveBack(c) => Some(Account(c, ToDequeue, None))
    case DUnlock(c, v) => Some(Account(c, ToDequeue, Some(Got(v))))
    case DPost(c, v) => Some(Account(c, ToDequeue, Some(Got(v))))
    case DReturn(c, ret, got) => Some(Account(c, ToDequeue, if got.Some? then Some(Got(got.value)) else None))
  }

  /** Error codes: no permit, or a permit and yet no deed. */
  ghost predicate CodeOk(s: State, pc: PC) {
    match pc
    case Idle => true
    case EWait(c, _) => c !in s.granted
    case EReturn(c, _, ret) => ret == 0 || ret == FAILED
    case DWait(c) => c !in s.granted
    case DReturn(c, ret, got) =>
      && (ret == 0 <==> got.Some?) && (ret == TIMED_OUT <==> c !in s.granted)
      && (ret == 0 || ret == TIMED_OUT || ret == OTHER)
    case _ => Known(pc).value.c in s.granted
  }

  ghost predicate Inv(s: State) {
    && Exclusive(s) && Balanced(s) && Fifo(s)
    && Kept(s.book, s.threads, Known, Fits)
    && (forall c | c in s.granted :: c < |s.book.calls|)
    && forall t | t in s.threads :: !Fatal(s.threads[t]) && CodeOk(s, s.threads[t])
  }

  lemma InitInv(s: State)
    requires Init(s)
    ensures Inv(s)
  {
    CountNone(s.threads, Producing);
    CountNone(s.threads, Produced);
    CountNone(s.threads, Consuming);
    CountNone(s.threads, Consumed);
  }

  /** In the critical section the permit is worth a slot, or a block. */
  lemma PermitCovers(s: State, t: nat)
    requires Balanced(s) && t in s.threads
    ensures Producing(s.threads[t]) ==> s.q.used < |s.q.slots|
    ensures Consuming(s.threads[t]) ==> s.q.used > 0
  {
    if Producing(s.threads[t]) {
      CountSome(s.threads, t, Producing);
    }
    if Consuming(s.threads[t]) {
      CountSome(s.threads, t, Consuming);
    }
  }

  lemma ExclusiveStep(s: State, t: nat, s': State)
    requires Exclusive(s) && Next(s, t, s')
    ensures Exclusive(s')
  {
  }

  lemma BalancedStep(s: State, t: nat, s': State)
    requires Balanced(s) && s.q.Wf() && Next(s, t, s') && !Fatal(s.threads[t])
    ensures Balanced(s') && t in s'.threads && !Fatal(s'.threads[t])
  {
    hide At;
    hide CountAt;
    PermitCovers(s, t);
    var pc := s'.threads[t];
    CountMove(s.threads, t, pc, Producing);
    CountMove(s.threads, t, pc, Produced);
    CountMove(s.threads, t, pc, Consuming);
    CountMove(s.threads, t, pc, Consumed);
    assert s'.threads == s.threads[t := pc];
  }

  lemma {:induction false} LogGrows(log: seq<(nat, Deed)>, d: (nat, Deed))
    ensures Puts(log + [d]) == Puts(log) + (match d.1 case Put(v) => [v] case Got(_) => [])
    ensures Gots(log + [d]) == Gots(log) + (match d.1 case Put(_) => [] case Got(v) => [v])
  {
    assert (log + [d])[..|log|] == log;
  }

  lemma InsertFifo(s: State, t: nat, c: nat, v: Bytes, s': State)
    requires Fifo(s) && Insert(s, t, c, v, s')
    ensures Fifo(s') && |s'.q.slots| == |s.q.slots|
  {
    hide Puts;
    hide Gots;
    hide Ring.Put;
    hide Ring.Window;
    PutAppends(s.q, v);
    LogGrows(s.book.log, (c, Put(v)));
  }

  lemma RemoveFifo(s: State, t: nat, c: nat, s': State)
    requires Fifo(s) && Remove(s, t, c, s')
    ensures Fifo(s') && |s'.q.slots| == |s.q.slots|
  {
    hide Puts;
    hide Gots;
    hide Ring.Take;
    hide Ring.Window;
    TakeRemovesOldest(s.q);
    if s.q.used > 0 {
      LogGrows(s.book.log, (c, Got(s.q.Take().value.1)));
    }
  }

  lemma FifoStep(s: State, t: nat, s': State)
    requires Fifo(s) && Next(s, t, s')
    ensures Fifo(s') && |s'.q.slots| == |s.q.slots|
  {
    hide Puts;
    hide Gots;
    hide Insert;
    hide Remove;
    if s.threads[t].ECrit? {
      InsertFifo(s, t, s.threads[t].c, s.threads[t].v, s');
    } else if s.threads[t].DCrit? {
      RemoveFifo(s, t, s.threads[t].c, s');
    }
  }

  /** What a step leaves to the other threads, and what it makes of its own call. */
  lemma BookStep(s: State, t: nat, s': State)
    requires Next(s, t, s')
    ensures t in s.threads && s'.threads == s.threads[t := s'.threads[t]]
    ensures GoesOn(s.book, s'.book, Known(s.threads[t]), Known(s'.threads[t]), Fits)
    ensures s'.granted == s.granted
            || (Known(s.threads[t]).Some? && s'.granted == s.granted + {Known(s.threads[t]).value.c})
  {
  }

  lemma CodeStep(s: State, t: nat, s': State)
    requires Next(s, t, s') && CodeOk(s, s.threads[t]) && forall c | c in s.granted :: c < |s.book.calls|
    ensures t in s'.threads && CodeOk(s', s'.threads[t])
  {
  }

  lemma BookKept(s: State, t: nat, s': State)
    requires Kept(s.book, s.threads, Known, Fits) && Next(s, t, s')
    ensures Kept(s'.book, s'.threads, Known, Fits)
  {
    hide Next;
    hide Kept;
    hide GoesOn;
    BookStep(s, t, s');
    KeptStep(s.book, s'.book, s.threads, s'.threads, t, Known, Fits);
  }

  /** A permit granted to one call does not change what another call's code says. */
  lemma OtherCode(s: State, t: nat, s': State, u: nat)
    requires Kept(s.book, s.threads, Known, Fits) && t in s.threads && u in s.threads && u != t
    requires CodeOk(s, s.threads[u])
    requires s'.granted == s.granted
             || (Known(s.threads[t]).Some? && s'.granted == s.granted + {Known(s.threads[t]).value.c})
    ensures CodeOk(s', s.threads[u])
  {
    assert Known(s.threads[t]).Some? && Known(s.threads[u]).Some? ==>
        Known(s.threads[t]).value.c != Known(s.threads[u]).value.c;
    hide Kept;
  }

  lemma CodesStep(s: State, t: nat, s': State)
    requires Kept(s.book, s.threads, Known, Fits) && Next(s, t, s')
    requires forall u | u in s.threads :: CodeOk(s, s.threads[u])
    requires forall c | c in s.granted :: c < |s.book.calls|
    ensures forall u | u in s'.threads :: CodeOk(s', s'.threads[u])
    ensures forall c | c in s'.granted :: c < |s'.book.calls|
  {
    hide Next;
    hide CodeOk;
    BookStep(s, t, s');
    CodeStep(s, t, s');
    if Known(s.threads[t]).Some? {
      assert True(s.book, Known(s.threads[t]).value);
    }
    forall u | u in s.threads && u != t
      ensures CodeOk(s', s.threads[u])
    {
      OtherCode(s, t, s', u);
    }
  }

  /** Every step of every thread keeps the invariant. */
  lemma InvStep(s: State, t: nat, s': State)
    requires Inv(s) && Next(s, t, s')
    ensures Inv(s') && |s'.q.slots| == |s.q.slots|
  {
    hide Next;
    hide Kept;
    hide GoesOn;
    hide Fifo;
    BookStep(s, t, s');
    ExclusiveStep(s, t, s');
    FifoStep(s, t, s');
    assert s.q.Wf() by { FifoWf(s); }
    BalancedStep(s, t, s');
    BookKept(s, t, s');
    CodesStep(s, t, s');
  }

  lemma FifoWf(s: State)
    requires Fifo(s)
    ensures s.q.Wf()
  {
  }

  // ---------------------------------------------------------------- whole runs

  ghost predicate Moves(s: State, s': State) {
    exists t :: Next(s, t, s')
  }

  ghost predicate IsRun(run: seq<State>) {
    Runs.Run(run, Init, Moves)
  }

  ghost predicate InvOf(s: State, max: nat) {
    Inv(s) && |s.q.slots| == max && max > 0
  }

  lemma RunInv(run: seq<State>, i: nat)
    requires IsRun(run) && i < |run|
    ensures InvOf(run[i], |run[0].q.slots|)
  {
    var max := |run[0].q.slots|;
    assert max > 0;
    hide Init;
    hide Next;
    hide Inv;
    var init, inv := (s: State) => Init(s) && |s.q.slots| == max, (s: State) => InvOf(s, max);
    forall s | init(s) ensures inv(s) {
      InitInv(s);
    }
    forall s, s' | inv(s) && Moves(s, s') ensures inv(s') {
      var t: nat :| Next(s, t, s');
      InvStep(s, t, s');
    }
    Runs.RunKeeps(run, init, Moves, inv, i);
  }

  /** Conservation of slots and blocks for any interleaving of any number of producers and consumers. */
  lemma SlotsConserved(run: seq<State>, i: nat)
    requires IsRun(run) && i < |run|
    ensures var s, max := run[i], |run[0].q.slots|;
            && s.semIn + CountAt(s.threads, Producing) + CountAt(s.threads, Consumed) + s.q.used == max
            && s.semOut + CountAt(s.threads, Produced) + CountAt(s.threads, Consuming) == s.q.used
  {
    RunInv(run, i);
  }

  /** Neither "Fatal" branch is ever taken, and two threads are never in the critical section. */
  lemma NeverFatal(run: seq<State>, i: nat, t: nat, u: nat)
    requires IsRun(run) && i < |run| && t in run[i].threads && u in run[i].threads
    ensures !Fatal(run[i].threads[t])
    ensures t != u ==> !(InCrit(run[i].threads[t]) && InCrit(run[i].threads[u]))
    ensures run[i].threads[t].ECrit? ==> run[i].q.used < |run[i].q.slots|
    ensures run[i].threads[t].DCrit? ==> run[i].q.used > 0
  {
    RunInv(run, i);
    PermitCovers(run[i], t);
  }

  /**
    Concurrent FIFO: the blocks removed so far are a prefix of the blocks
    inserted so far, and the rest is the circular window, in order.
   */
  lemma ConcurrentFifo(run: seq<State>, i: nat)
    requires IsRun(run) && i < |run|
    ensures var s, max := run[i], |run[0].q.slots|;
            var enq, deq := Puts(s.book.log), Gots(s.book.log);
            && deq <= enq && |enq| - |deq| == s.q.used <= max == |s.q.slots|
            && (var rest := enq[|deq|..];
                forall k | 0 <= k < s.q.used :: rest[k] == s.q.slots[(s.q.tail + k) % max])
            && s.q.head == (s.q.tail + s.q.used) % max
  {
    RunInv(run, i);
    HeadIsTailPlusUsed(run[i].q);
  }

  /**
    What em_enqueue returns: 0 if and only if the call inserted exactly the block
    it was given, else -1, and then it inserted nothing.
   */
  lemma EnqueueReturns(run: seq<State>, i: nat, t: nat)
    requires IsRun(run) && i < |run| && t in run[i].threads && run[i].threads[t].EReturn?
    ensures var b, pc := run[i].book, run[i].threads[t];
            && pc.c < |b.calls| && b.calls[pc.c] == ToEnqueue(pc.v)
            && (pc.ret == 0 <==> (pc.c, Put(pc.v)) in b.log)
            && (pc.ret != 0 ==> pc.ret == FAILED && !Made(b.log, pc.c))
  {
    RunInv(run, i);
    var b, pc := run[i].book, run[i].threads[t];
    AccountIs(b, run[i].threads, t, Known, Fits, Put(pc.v));
    assert CodeOk(run[i], pc);
  }

  /**
    What em_dequeue returns: 0 and the very block that the call removed;
    EM_ERR_TIMEOUT if and only if it got no permit; else EM_ERR_OTHER. In the
    latter two cases it removed nothing.
   */
  lemma DequeueReturns(run: seq<State>, i: nat, t: nat)
    requires IsRun(run) && i < |run| && t in run[i].threads && run[i].threads[t].DReturn?
    ensures var s, pc := run[i], run[i].threads[t];
            && pc.c < |s.book.calls| && s.book.calls[pc.c] == ToDequeue
            && (pc.ret == 0 <==> pc.got.Some?)
            && (pc.ret == 0 ==> (pc.c, Got(pc.got.value)) in s.book.log)
            && (pc.ret != 0 ==> !Made(s.book.log, pc.c))
            && (pc.ret == TIMED_OUT <==> pc.c !in s.granted)
            && (pc.ret == 0 || pc.ret == TIMED_OUT || pc.ret == OTHER)
  {
    RunInv(run, i);
    var s, pc := run[i], run[i].threads[t];
    AccountIs(s.book, s.threads, t, Known, Fits, if pc.got.Some? then Got(pc.got.value) else Got([]));
    assert CodeOk(s, pc);
  }

  /** Each deed in the log is the only one of its call, and what that call asked for. */
  lemma DeedsAsAsked(run: seq<State>, i: nat, j: nat, k: nat)
    requires IsRun(run) && i < |run| && j < k < |run[i].book.log|
    ensures var b := run[i].book;
            && b.log[j].0 != b.log[k].0 && b.log[k].0 < |b.calls|
            && match b.log[k].1
               case Put(v) => b.calls[b.log[k].0] == ToEnqueue(v)
               case Got(_) => b.calls[b.log[k].0] == ToDequeue
  {
    RunInv(run, i);
  }

  /** Once all calls have returned, the semaphores count free slots and queued blocks again: no permit is lost. */
  lemma NoPermitLost(run: seq<State>, i: nat)
    requires IsRun(run) && i < |run|
    requires forall t | t in run[i].threads :: run[i].threads[t] == Idle
    ensures run[i].semIn == |run[0].q.slots| - run[i].q.used && run[i].semOut == run[i].q.used
    ensures run[i].mutex == None
  {
    RunInv(run, i);
    CountNone(run[i].threads, Producing);
    CountNone(run[i].threads, Produced);
    CountNone(run[i].threads, Consuming);
    CountNone(run[i].threads, Consumed);
  }

  // ---------------------------------------------------------------- no deadlock

  /** The thread is inside a call and not waiting for a semaphore. */
  predicate Busy(pc: PC) {
    !pc.Idle? && !pc.EWait? && !pc.DWait?
  }

  lemma CanStep(s: State, t: nat) returns (s': State)
    requires s.q.Wf() && t in s.threads && Busy(s.threads[t])
    requires InCrit(s.threads[t]) || s.mutex == None || (!s.threads[t].EPermit? && !s.threads[t].DPermit?)
    ensures Next(s, t, s')
  {
    match s.threads[t]
    case EPermit(c, v) => s' := Goto(s, t, ECrit(c, v)).(mutex := Some(t));
    case ECrit(c, v) =>
      s' := match s.q.Put(v)
      case None => Goto(s, t, EFatal(c, v))
      case Some(q') => Goto(s, t, EUnlock(c, v)).(q := q', book := Doing(s, c, Put(v)));
    case EFatal(c, v) => s' := Goto(s, t, EGiveBack(c, v)).(mutex := None);
    case EGiveBack(c, v) => s' := Goto(s, t, EReturn(c, v, FAILED)).(semIn := s.semIn + 1);
    case EUnlock(c, v) => s' := Goto(s, t, EPost(c, v)).(mutex := None);
    case EPost(c, v) => s' := Goto(s, t, EReturn(c, v, 0)).(semOut := s.semOut + 1);
    case EReturn(_, _, _) => s' := Goto(s, t, Idle);
    case DPermit(c) => s' := Goto(s, t, DCrit(c)).(mutex := Some(t));
    case DCrit(c) =>
      s' := match s.q.Take()
      case None => Goto(s, t, DFatal(c))
      case Some((q', v)) => Goto(s, t, DUnlock(c, v)).(q := q', book := Doing(s, c, Got(v)));
    case DFatal(c) => s' := Goto(s, t, DFatalUnlock(c)).(semOut := s.semOut + 1);
    case DFatalUnlock(c) => s' := Goto(s, t, DReturn(c, OTHER, None)).(mutex := None);
    case DGiveBack(c) => s' := Goto(s, t, DReturn(c, OTHER, None)).(semOut := s.semOut + 1);
    case DUnlock(c, v) => s' := Goto(s, t, DPost(c, v)).(mutex := None);
    case DPost(c, v) => s' := Goto(s, t, DReturn(c, 0, Some(v))).(semIn := s.semIn + 1);
    case DReturn(_, _, _) => s' := Goto(s, t, Idle);
  }

  /** A producer that waits below capacity, or a consumer above zero, has a permit at hand or someone on the way. */
  lemma SomeoneBusy(s: State, u: nat) returns (t: nat)
    requires Balanced(s) && u in s.threads
    requires (s.threads[u].EWait? && s.q.used < |s.q.slots| && s.semIn == 0)
             || (s.threads[u].DWait? && s.q.used > 0 && s.semOut == 0)
    ensures t in s.threads && Busy(s.threads[t])
  {
    hide CountAt;
    if s.threads[u].EWait? {
      if CountAt(s.threads, Producing) > 0 {
        t := CountWitness(s.threads, Producing);
      } else {
        t := CountWitness(s.threads, Consumed);
      }
    } else {
      if CountAt(s.threads, Produced) > 0 {
        t := CountWitness(s.threads, Produced);
      } else {
        t := CountWitness(s.threads, Consuming);
      }
    }
  }

  /**
    No deadlock: while some call is past its semaphore, or waits for one although
    the queue is not full (a producer) or not empty (a consumer), some thread can
    take a step that is not a timeout.
   */
  lemma NoDeadlock(s: State, u: nat) returns (t: nat, s': State)
    requires Inv(s) && u in s.threads
    requires var pc := s.threads[u];
             Busy(pc) || (pc.EWait? && s.q.used < |s.q.slots|) || (pc.DWait? && s.q.used > 0)
    ensures t in s.threads && Next(s, t, s')
    ensures Busy(s.threads[t]) || s'.threads[t].EPermit? || s'.threads[t].DPermit?
  {
    if s.threads[u].EWait? && s.semIn > 0 {
      var c := s.threads[u].c;
      t, s' := u, Goto(s, u, EPermit(c, s.threads[u].v)).(semIn := s.semIn - 1, granted := s.granted + {c});
    } else if s.threads[u].DWait? && s.semOut > 0 {
      var c := s.threads[u].c;
      t, s' := u, Goto(s, u, DPermit(c)).(semOut := s.semOut - 1, granted := s.granted + {c});
    } else {
      var w := u;
      if !Busy(s.threads[u]) {
        w := SomeoneBusy(s, u);
      }
      t := if s.mutex.Some? then s.mutex.value else w;
      s' := CanStep(s, t);
    }
  }

  /** So a producer and a consumer never wait for each other. */
  lemma BothWaitSomeoneSteps(s: State, p: nat, c: nat) returns (t: nat, s': State)
    requires Inv(s) && |s.q.slots| > 0
    requires p in s.threads && s.threads[p].EWait? && c in s.threads && s.threads[c].DWait?
    ensures t in s.threads && Next(s, t, s')
    ensures Busy(s.threads[t]) || s'.threads[t].EPermit? || s'.threads[t].DPermit?
  {
    t, s' := NoDeadlock(s, if s.q.used > 0 then c else p);
  }
}
