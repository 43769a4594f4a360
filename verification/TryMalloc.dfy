/**
  The waiting protocol of em_trymalloc and em_free, as steps of any number of
  threads over one arena. The arena is the segment list of Segments: TryRefines
  shows that the calls on the records take these steps, always with the missing
  back link set, and as written until a stale allocation is released.

  A mutex has at most one owner. A condition variable is the set of threads in
  state Waiting: entering it gives up cond_mutex in the same step, and a thread
  may leave it at any time (a broadcast, a timeout or a spurious wake-up), after
  which it must take cond_mutex again.
 */
module TryMalloc {
  import opened Basics
  import opened Segments
  import opened Calls
  import Runs

  const NO_TIMEOUT: int := -1
  const NO_WAIT: int := 0

  /** What a call is for, and what it did to the arena. */
  datatype Asked = ToMalloc(n: nat, timeout: int) | ToFree(start: nat)
  datatype Deed = Took(start: nat, n: nat) | Gave(start: nat)

  /**
    Call `c` of em_trymalloc: how many units, the timeout argument, the number of
    failed attempts, how many broadcasts had completed at the last of them, and
    the time passed since the call began, as read after each wait.
   */
  datatype Req = Req(c: nat, n: nat, timeout: int, attempts: nat, seen: nat, times: seq<nat>) {
    /** The first `k` readings were below the timeout. */
    predicate Early(k: int) {
      forall i | 0 <= i < |times| && i < k :: times[i] < timeout
    }

    /** The last reading was not. */
    predicate Late() {
      times != [] && times[|times| - 1] >= timeout
    }
  }

  /** Where a thread is. The comment says which mutexes it holds there. */
  datatype PC =
    | Idle
    | WantMutex(r: Req)
    | Attempt(r: Req)                      // mutex
    | UnlockOk(r: Req, start: nat)         // mutex
    | UnlockFail(r: Req)                   // mutex
    | WantCond(r: Req)                     // mutex
    | DropMutex(r: Req)                    // mutex, cond_mutex
    | AboutToWait(r: Req)                  // cond_mutex
    | Waiting(r: Req)
    | Woken(r: Req)
    | DropCond(r: Req)                     // cond_mutex
    | Decide(r: Req)
    | Returned(r: Req, got: Option<nat>)
    | FreeWant(c: nat, start: nat)
    | FreeDo(c: nat, start: nat)           // mutex
    | FreeWantCond(c: nat, start: nat)     // mutex
    | FreeBroadcast(c: nat, start: nat)    // mutex, cond_mutex
    | FreeDropCond(c: nat, start: nat)     // mutex, cond_mutex
    | FreeDropMutex(c: nat, start: nat)    // mutex
    | FreeReturned(c: nat, start: nat)

  /**
    `handles` are the allocations that callers hold and may free, `freed` counts
    completed broadcasts, and `book` records the calls and, in order, their deeds.
   */
  datatype State = State(
    total: nat,
    cap: nat,
    segs: seq<Seg>,
    mutex: Option<nat>,
    cond: Option<nat>,
    threads: map<nat, PC>,
    handles: set<nat>,
    freed: nat,
    book: Book<Asked, Deed>)
  {
    function out(): map<nat, nat> { Out(book.log, |book.log|) }
  }

  predicate HoldsMutex(pc: PC) {
    pc.Attempt? || pc.UnlockOk? || pc.UnlockFail? || pc.WantCond? || pc.DropMutex?
    || pc.FreeDo? || pc.FreeWantCond? || pc.FreeBroadcast? || pc.FreeDropCond? || pc.FreeDropMutex?
  }

  predicate HoldsCond(pc: PC) {
    pc.DropMutex? || pc.AboutToWait? || pc.DropCond? || pc.FreeBroadcast? || pc.FreeDropCond?
  }

  function Goto(s: State, t: nat, pc: PC): State {
    s.(threads := s.threads[t := pc])
  }

  function WakeAll(threads: map<nat, PC>): map<nat, PC> {
    map t | t in threads :: if threads[t].Waiting? then Woken(threads[t].r) else threads[t]
  }

  // ---------------------------------------------------------------- the steps

  function Asking(s: State, asked: Asked): Book<Asked, Deed> {
    s.book.(calls := s.book.calls + [asked])
  }

  function Doing(s: State, c: nat, deed: Deed): Book<Asked, Deed> {
    s.book.(log := s.book.log + [(c, deed)])
  }

  /** Between calls: start a request, or start freeing an allocation the caller holds. */
  ghost predicate Begin(s: State, t: nat, s': State) {
    var c := |s.book.calls|;
    || (exists n: nat, timeout: int ::
          s' == Goto(s, t, WantMutex(Req(c, n, timeout, 0, 0, []))).(book := Asking(s, ToMalloc(n, timeout))))
    || (exists start ::
          && start in s.handles
          && s' == Goto(s, t, FreeWant(c, start)).(handles := s.handles - {start}, book := Asking(s, ToFree(start))))
  }

  /** _em_malloc under the mutex: it succeeds exactly when it can, from any segment that fits. */
  ghost predicate TryOnce(s: State, t: nat, r: Req, s': State) {
    if CanMalloc(s.segs, s.cap, r.n) then
      exists i: nat :: i < |s.segs| && s.segs[i].Fits(r.n) && s' == Obtained(s, t, r, i)
    else if r.timeout == NO_WAIT then
      s' == Goto(s, t, UnlockFail(r))
    else
      s' == Goto(s, t, WantCond(r.(attempts := r.attempts + 1, seen := s.freed)))
  }

  function Obtained(s: State, t: nat, r: Req, i: nat): State
    requires i < |s.segs| && s.segs[i].Fits(r.n)
  {
    var start := s.segs[i].start;
    Goto(s, t, UnlockOk(r, start)).(segs := Malloc(s.segs, i, r.n), book := Doing(s, r.c, Took(start, r.n)))
  }

  /** Some time has passed since the call began, and no less than at the last reading. */
  ghost predicate ReadClock(s: State, t: nat, r: Req, s': State) {
    exists passed: nat ::
      && (r.times != [] ==> r.times[|r.times| - 1] <= passed)
      && s' == Goto(s, t, Decide(r.(times := r.times + [passed]))).(cond := None)
  }

  /** The loop test: `passed_ms >= timeout_ms` leaves the loop, with the result of the last attempt. */
  function AfterWait(r: Req): PC {
    if r.Late() then Returned(r, None) else WantMutex(r)
  }

  ghost predicate DoFree(s: State, t: nat, c: nat, start: nat, s': State) {
    && Tiled(s.segs, s.total) && start < s.total
    && s' == Goto(s, t, FreeWantCond(c, start)).(
               segs := Free(s.segs, Locate(s.segs, s.total, start)), book := Doing(s, c, Gave(start)))
  }

  /** What the caller does with the answer: an allocation it got is now held. */
  function EndCall(s: State, t: nat, got: Option<nat>): State {
    if got.Some? then Goto(s, t, Idle).(handles := s.handles + {got.value}) else Goto(s, t, Idle)
  }

  /** One step of thread `t`. */
  ghost predicate Next(s: State, t: nat, s': State) {
    && t in s.threads
    && match s.threads[t]
       case Idle => Begin(s, t, s')
       case WantMutex(r) => s.mutex == None && s' == Goto(s, t, Attempt(r)).(mutex := Some(t))
       case Attempt(r) => TryOnce(s, t, r, s')
       case UnlockOk(r, start) => s' == Goto(s, t, Returned(r, Some(start))).(mutex := None)
       case UnlockFail(r) => s' == Goto(s, t, Returned(r, None)).(mutex := None)
       case WantCond(r) => s.cond == None && s' == Goto(s, t, DropMutex(r)).(cond := Some(t))
       case DropMutex(r) => s' == Goto(s, t, AboutToWait(r)).(mutex := None)
       case AboutToWait(r) => s' == Goto(s, t, Waiting(r)).(cond := None)
       case Waiting(r) => s' == Goto(s, t, Woken(r))
       case Woken(r) => s.cond == None && s' == Goto(s, t, DropCond(r)).(cond := Some(t))
       case DropCond(r) => ReadClock(s, t, r, s')
       case Decide(r) => s' == Goto(s, t, AfterWait(r))
       case Returned(r, got) => s' == EndCall(s, t, got)
       case FreeWant(c, start) => s.mutex == None && s' == Goto(s, t, FreeDo(c, start)).(mutex := Some(t))
       case FreeDo(c, start) => DoFree(s, t, c, start, s')
       case FreeWantCond(c, start) => s.cond == None && s' == Goto(s, t, FreeBroadcast(c, start)).(cond := Some(t))
       case FreeBroadcast(c, start) =>
         s' == s.(threads := WakeAll(s.threads)[t := FreeDropCond(c, start)], freed := s.freed + 1)
       case FreeDropCond(c, start) => s' == Goto(s, t, FreeDropMutex(c, start)).(cond := None)
       case FreeDropMutex(c, start) => s' == Goto(s, t, FreeReturned(c, start)).(mutex := None)
       case FreeReturned(_, _) => s' == Goto(s, t, Idle)
  }

  ghost predicate Init(s: State) {
    && s.total > 0 && s.segs == Fresh(s.total)
    && s.mutex == None && s.cond == None && s.handles == {} && s.freed == 0
    && s.book == Book([], [])
    && forall t | t in s.threads :: s.threads[t] == Idle
  }

  // ---------------------------------------------------------------- the invariant

  ghost predicate Mutexes(s: State) {
    && (forall t | t in s.threads :: HoldsMutex(s.threads[t]) <==> s.mutex == Some(t))
    && (forall t | t in s.threads :: HoldsCond(s.threads[t]) <==> s.cond == Some(t))
    && (s.mutex.Some? ==> s.mutex.value in s.threads)
    && (s.cond.Some? ==> s.cond.value in s.threads)
  }

  /** A free has changed the arena and not broadcast yet. */
  ghost predicate Pending(s: State) {
    && s.mutex.Some? && s.mutex.value in s.threads
    && var pc := s.threads[s.mutex.value]; pc.FreeWantCond? || pc.FreeBroadcast?
  }

  /** A thread between its failed attempt and its wake-up. */
  predicate Committed(pc: PC) {
    pc.WantCond? || pc.DropMutex? || pc.AboutToWait? || pc.Waiting?
  }

  /** Nothing was freed since its attempt that it does not still get told of, and retrying now would fail. */
  ghost predicate NotMissed(s: State, pc: PC) {
    Committed(pc) ==> pc.r.seen == s.freed && (Pending(s) || !CanMalloc(s.segs, s.cap, pc.r.n))
  }

  /**
    Attempts and readings of the clock. A call goes on trying while each reading
    was below its timeout, and gives up at the first that is not; a call that may
    not wait makes one attempt and no reading.
   */
  predicate TimesOk(pc: PC) {
    match pc
    case WantMutex(r) => r.Early(|r.times|) && r.attempts == |r.times| && (r.timeout == NO_WAIT ==> r.times == [])
    case Attempt(r) => r.Early(|r.times|) && r.attempts == |r.times| && (r.timeout == NO_WAIT ==> r.times == [])
    case UnlockOk(r, _) => r.Early(|r.times|) && r.attempts == |r.times|
    case UnlockFail(r) => r.timeout == NO_WAIT && r.times == [] && r.attempts == 0
    case WantCond(r) => r.Early(|r.times|) && r.attempts == |r.times| + 1 && r.timeout != NO_WAIT
    case DropMutex(r) => r.Early(|r.times|) && r.attempts == |r.times| + 1 && r.timeout != NO_WAIT
    case AboutToWait(r) => r.Early(|r.times|) && r.attempts == |r.times| + 1 && r.timeout != NO_WAIT
    case Waiting(r) => r.Early(|r.times|) && r.attempts == |r.times| + 1 && r.timeout != NO_WAIT
    case Woken(r) => r.Early(|r.times|) && r.attempts == |r.times| + 1 && r.timeout != NO_WAIT
    case DropCond(r) => r.Early(|r.times|) && r.attempts == |r.times| + 1 && r.timeout != NO_WAIT
    case Decide(r) => r.times != [] && r.Early(|r.times| - 1) && r.attempts == |r.times| && r.timeout != NO_WAIT
    case Returned(r, got) =>
      if got.Some? then r.Early(|r.times|) && r.attempts == |r.times| else GaveUp(r)
    case _ => true
  }

  predicate GaveUp(r: Req) {
    && r.attempts == |r.times| && r.Early(|r.times| - 1)
    && if r.timeout == NO_WAIT then r.times == [] else r.Late()
  }

  /** The allocation a thread is handing out or about to free. */
  function Token(pc: PC): Option<nat> {
    match pc
    case UnlockOk(_, start) => Some(start)
    case Returned(_, got) => got
    case FreeWant(_, start) => Some(start)
    case FreeDo(_, start) => Some(start)
    case _ => None
  }

  function Tokens(threads: map<nat, PC>): map<nat, Option<nat>> {
    map t | t in threads :: Token(threads[t])
  }

  /** Handles and tokens name live allocations, none twice, and all of them. */
  ghost predicate Apart(live: set<nat>, handles: set<nat>, tokens: map<nat, Option<nat>>) {
    && handles <= live
    && (forall t | t in tokens && tokens[t].Some? :: tokens[t].value in live && tokens[t].value !in handles)
    && (forall t, u | t in tokens && u in tokens && t != u && tokens[t].Some? :: tokens[t] != tokens[u])
    && (forall a | a in live && a !in handles :: exists t :: t in tokens && tokens[t] == Some(a))
  }

  ghost predicate Owned(s: State)
    requires Tiled(s.segs, s.total)
  {
    Apart(Starts(s.segs, s.total), s.handles, Tokens(s.threads))
  }

  /** A request takes as many units as it asked for, and a free gives up the allocation it names. */
  predicate Fits(asked: Asked, deed: Deed) {
    match asked
    case ToMalloc(n, _) => deed.Took? && deed.n == n
    case ToFree(start) => deed == Gave(start)
  }

  /** What a thread knows of its call. */
  function Known(pc: PC): Option<Account<Asked, Deed>> {
    match pc
    case Idle => None
    case UnlockOk(r, start) => Some(Account(r.c, ToMalloc(r.n, r.timeout), Some(Took(start, r.n))))
    case Returned(r, got) =>
      Some(Account(r.c, ToMalloc(r.n, r.timeout), if got.Some? then Some(Took(got.value, r.n)) else None))
    case FreeWant(c, start) => Some(Account(c, ToFree(start), None))
    case FreeDo(c, start) => Some(Account(c, ToFree(start), None))
    case FreeWantCond(c, start) => Some(Account(c, ToFree(start), Some(Gave(start))))
    case FreeBroadcast(c, start) => Some(Account(c, ToFree(start), Some(Gave(start))))
    case FreeDropCond(c, start) => Some(Account(c, ToFree(start), Some(Gave(start))))
    case FreeDropMutex(c, start) => Some(Account(c, ToFree(start), Some(Gave(start))))
    case FreeReturned(c, start) => Some(Account(c, ToFree(start), Some(Gave(start))))
    case _ => Some(Account(pc.r.c, ToMalloc(pc.r.n, pc.r.timeout), None))
  }

  /** The allocations that the first `k` deeds obtained and did not give up since, with their lengths. */
  function Out(log: seq<(nat, Deed)>, k: nat): map<nat, nat>
    requires k <= |log|
  {
    if k == 0 then map[] else After(Out(log, k - 1), log[k - 1].1)
  }

  function After(out: map<nat, nat>, deed: Deed): map<nat, nat> {
    match deed
    case Took(start, n) => out[start := n]
    case Gave(start) => out - {start}
  }

  /** They are the allocations of the arena. */
  ghost predicate Ledger(segs: seq<Seg>, out: map<nat, nat>) {
    forall a: nat, n: nat :: HasAllocation(segs, a, n) <==> a in out && out[a] == n
  }

  /** What a thread is handing out has the length it asked for. */
  ghost predicate Sized(s: State, pc: PC) {
    match pc
    case UnlockOk(r, start) => HasAllocation(s.segs, start, r.n)
    case Returned(r, got) => got.Some? ==> HasAllocation(s.segs, got.value, r.n)
    case _ => true
  }

  ghost predicate Recorded(s: State) {
    && Kept(s.book, s.threads, Known, Fits)
    && Ledger(s.segs, s.out())
    && (forall t | t in s.threads :: Sized(s, s.threads[t]))
  }

  ghost predicate Inv(s: State) {
    && Wf(s.segs, s.total)
    && Mutexes(s)
    && (forall t | t in s.threads :: NotMissed(s, s.threads[t]))
    && (forall t | t in s.threads :: TimesOk(s.threads[t]))
    && Owned(s)
    && Recorded(s)
  }

  lemma InitInv(s: State)
    requires Init(s)
    ensures Inv(s)
  {
  }

  // ---------------------------------------------------------------- preservation

  /** What a step leaves alone: the other threads, except that a broadcast wakes the waiting ones. */
  lemma Others(s: State, t: nat, s': State)
    requires Next(s, t, s')
    ensures s'.total == s.total && s'.cap == s.cap
    ensures s'.threads.Keys == s.threads.Keys && t in s.threads
    ensures forall u | u in s.threads && u != t ::
        s'.threads[u] ==
        if s.threads[t].FreeBroadcast? && s.threads[u].Waiting? then Woken(s.threads[u].r) else s.threads[u]
    ensures s.threads[t].FreeBroadcast? ==> s'.freed == s.freed + 1
    ensures !s.threads[t].FreeBroadcast? ==> s'.freed == s.freed
  {
    match s.threads[t]
    case Idle =>
    case Attempt(r) =>
    case _ =>
  }

  /** A thread takes a mutex only when it is free, and gives up only its own. */
  lemma Locks(s: State, t: nat, s': State)
    requires Next(s, t, s')
    ensures t in s.threads && t in s'.threads
    ensures var before, after := s.threads[t], s'.threads[t];
            && (HoldsMutex(after) && !HoldsMutex(before) ==> s.mutex == None)
            && s'.mutex == (if HoldsMutex(after) == HoldsMutex(before) then s.mutex
                            else if HoldsMutex(after) then Some(t) else None)
            && (HoldsCond(after) && !HoldsCond(before) ==> s.cond == None)
            && s'.cond == (if HoldsCond(after) == HoldsCond(before) then s.cond
                           else if HoldsCond(after) then Some(t) else None)
  {
    match s.threads[t]
    case Idle =>
    case Attempt(r) =>
    case _ =>
  }

  /** As far as mutexes and allocations go, a step concerns its own thread only. */
  lemma Untouched(s: State, t: nat, s': State, u: nat)
    requires Next(s, t, s') && u in s.threads && u != t
    ensures u in s'.threads
    ensures HoldsMutex(s'.threads[u]) == HoldsMutex(s.threads[u])
    ensures HoldsCond(s'.threads[u]) == HoldsCond(s.threads[u])
    ensures Token(s'.threads[u]) == Token(s.threads[u])
  {
    Others(s, t, s');
    hide Next;
  }

  lemma SameThreads(s: State, t: nat, s': State)
    requires Next(s, t, s')
    ensures s'.threads.Keys == s.threads.Keys && t in s.threads && s'.total == s.total
  {
    Others(s, t, s');
  }

  lemma MutexesStep(s: State, t: nat, s': State)
    requires Mutexes(s) && Next(s, t, s')
    ensures Mutexes(s')
  {
    hide Next;
    hide HoldsMutex;
    hide HoldsCond;
    Locks(s, t, s');
    SameThreads(s, t, s');
    assert HoldsMutex(s.threads[t]) <==> s.mutex == Some(t);
    assert HoldsCond(s.threads[t]) <==> s.cond == Some(t);
    forall u | u in s'.threads && u != t
      ensures HoldsMutex(s'.threads[u]) <==> s'.mutex == Some(u)
      ensures HoldsCond(s'.threads[u]) <==> s'.cond == Some(u)
    {
      Untouched(s, t, s', u);
    }
  }

  lemma BeginTimes(s: State, t: nat, s': State)
    requires t in s.threads && Begin(s, t, s')
    ensures t in s'.threads && TimesOk(s'.threads[t])
    ensures s.threads[t].Idle? ==> GoesOn(s.book, s'.book, Known(s.threads[t]), Known(s'.threads[t]), Fits)
  {
  }

  lemma TryTimes(s: State, t: nat, r: Req, s': State)
    requires t in s.threads && s.threads[t] == Attempt(r) && TryOnce(s, t, r, s')
    ensures t in s'.threads && (TimesOk(Attempt(r)) ==> TimesOk(s'.threads[t]))
    ensures GoesOn(s.book, s'.book, Known(s.threads[t]), Known(s'.threads[t]), Fits)
  {
    hide Malloc;
    hide CanMalloc;
  }

  lemma ClockTimes(s: State, t: nat, r: Req, s': State)
    requires t in s.threads && s.threads[t] == DropCond(r) && TimesOk(DropCond(r)) && ReadClock(s, t, r, s')
    ensures t in s'.threads && TimesOk(s'.threads[t])
  {
  }

  lemma OwnTimes(s: State, t: nat, s': State)
    requires Next(s, t, s') && TimesOk(s.threads[t])
    ensures t in s.threads && t in s'.threads && TimesOk(s'.threads[t])
  {
    hide WakeAll;
    hide Begin;
    hide TryOnce;
    hide ReadClock;
    hide DoFree;
    SameThreads(s, t, s');
    if s.threads[t].Idle? {
      BeginTimes(s, t, s');
    } else if s.threads[t].Attempt? {
      TryTimes(s, t, s.threads[t].r, s');
    } else if s.threads[t].DropCond? {
      ClockTimes(s, t, s.threads[t].r, s');
    } else if s.threads[t].FreeDo? {
      FreeTimes(s, t, s');
    }
  }

  lemma FreeTimes(s: State, t: nat, s': State)
    requires t in s.threads && s.threads[t].FreeDo? && DoFree(s, t, s.threads[t].c, s.threads[t].start, s')
    ensures t in s'.threads && TimesOk(s'.threads[t])
    ensures GoesOn(s.book, s'.book, Known(s.threads[t]), Known(s'.threads[t]), Fits)
  {
  }

  lemma TimesStep(s: State, t: nat, s': State)
    requires (forall u | u in s.threads :: TimesOk(s.threads[u])) && Next(s, t, s')
    ensures forall u | u in s'.threads :: TimesOk(s'.threads[u])
  {
    Others(s, t, s');
    OwnTimes(s, t, s');
    hide Next;
    forall u | u in s'.threads && u != t
      ensures TimesOk(s'.threads[u])
    {
      assert TimesOk(s.threads[u]);
    }
  }

  /** The retry of a committed thread still fails after a step, unless the step is a free. */
  lemma ArenaStep(s: State, t: nat, s': State, n: nat)
    requires Next(s, t, s') && !s.threads[t].FreeDo? && !CanMalloc(s.segs, s.cap, n)
    ensures !CanMalloc(s'.segs, s'.cap, n)
  {
    hide CanMalloc;
    match s.threads[t]
    case Idle =>
    case Attempt(r) =>
      if CanMalloc(s.segs, s.cap, r.n) {
        var i: nat :| i < |s.segs| && s.segs[i].Fits(r.n)
                      && s' == Obtained(s, t, r, i);
        MallocKeepsFailure(s.segs, s.cap, i, r.n, n);
      }
    case _ =>
  }

  /** The heart of the protocol: a committed thread is never left behind. */
  lemma NotMissedStep(s: State, t: nat, s': State, u: nat)
    requires Mutexes(s) && Next(s, t, s') && u in s'.threads
    requires NotMissed(s, s.threads[u])
    ensures NotMissed(s', s'.threads[u])
  {
    hide Malloc;
    hide Free;
    hide WakeAll;
    hide CanMalloc;
    hide Token;
    Others(s, t, s');
    if Committed(s'.threads[u]) {
      if u != t {
        // a broadcast would have needed cond_mutex, which u holds until it is waiting
        assert Committed(s.threads[u]);
        if !s.threads[t].FreeDo? && !CanMalloc(s.segs, s.cap, s.threads[u].r.n) {
          ArenaStep(s, t, s', s.threads[u].r.n);
        }
      }
    }
  }

  /** What a step does to the allocations: nothing, obtain one, free one, hand one to the caller or take one back. */
  datatype Deal = Keep | Obtain(a: nat) | Release(a: nat) | HandOut(a: nat) | TakeBack(a: nat)

  function DealOf(before: PC, after: PC): Deal {
    if before.Idle? && after.FreeWant? then TakeBack(after.start)
    else if before.Attempt? && after.UnlockOk? then Obtain(after.start)
    else if before.Returned? && before.got.Some? then HandOut(before.got.value)
    else if before.FreeDo? then Release(before.start)
    else Keep
  }

  /** The live allocations change by the one a thread just obtained or gives up. */
  lemma StartsStep(s: State, t: nat, s': State)
    requires Wf(s.segs, s.total) && Next(s, t, s') && t in s'.threads && s'.total == s.total
    requires s.threads[t].FreeDo? ==> s.threads[t].start in Starts(s.segs, s.total)
    ensures t in s.threads
    ensures Wf(s'.segs, s'.total)
    ensures var live, live' := Starts(s.segs, s.total), Starts(s'.segs, s.total);
            match DealOf(s.threads[t], s'.threads[t])
            case Obtain(a) => a !in live && live' == live + {a}
            case Release(a) => live' == live - {a}
            case _ => live' == live
  {
    hide Tiled;
    hide Coalesced;
    hide WakeAll;
    hide Malloc;
    hide Free;
    hide Starts;
    match s.threads[t]
    case Idle =>
    case Attempt(r) =>
      if CanMalloc(s.segs, s.cap, r.n) {
        var i: nat :| i < |s.segs| && s.segs[i].Fits(r.n)
                      && s' == Obtained(s, t, r, i);
        MallocStarts(s.segs, s.total, i, r.n);
      }
    case FreeDo(_, start) =>
      FreeStart(s.segs, s.total, start);
    case _ =>
  }

  lemma FreeStart(segs: seq<Seg>, total: nat, start: nat)
    requires Wf(segs, total) && start in Starts(segs, total)
    ensures start < total
    ensures var after := Free(segs, Locate(segs, total, start));
            Wf(after, total) && Starts(after, total) == Starts(segs, total) - {start}
  {
    FreeStarts(segs, total, Locate(segs, total, start));
  }

  lemma HandsStep(s: State, t: nat, s': State)
    requires Next(s, t, s')
    ensures t in s.threads && t in s'.threads
    ensures var held, held' := Token(s.threads[t]), Token(s'.threads[t]);
            match DealOf(s.threads[t], s'.threads[t])
            case Keep => s'.handles == s.handles && held' == held
            case Obtain(a) => s'.handles == s.handles && held == None && held' == Some(a)
            case Release(a) => s'.handles == s.handles && held == Some(a) && held' == None
            case HandOut(a) => s'.handles == s.handles + {a} && held == Some(a) && held' == None
            case TakeBack(a) => a in s.handles && s'.handles == s.handles - {a} && held == None && held' == Some(a)
  {
    match s.threads[t]
    case Idle =>
    case Attempt(r) =>
    case _ =>
  }

  lemma DealKeepsApart(live: set<nat>, handles: set<nat>, tokens: map<nat, Option<nat>>, t: nat, d: Deal,
                       live': set<nat>, handles': set<nat>, held': Option<nat>)
    requires Apart(live, handles, tokens) && t in tokens
    requires match d
             case Keep => live' == live && handles' == handles && held' == tokens[t]
             case Obtain(a) =>
               a !in live && live' == live + {a} && handles' == handles && tokens[t] == None && held' == Some(a)
             case Release(a) => live' == live - {a} && handles' == handles && tokens[t] == Some(a) && held' == None
             case HandOut(a) => live' == live && handles' == handles + {a} && tokens[t] == Some(a) && held' == None
             case TakeBack(a) =>
               live' == live && a in handles && handles' == handles - {a} && tokens[t] == None && held' == Some(a)
    ensures Apart(live', handles', tokens[t := held'])
  {
    var tokens' := tokens[t := held'];
    forall a | a in live' && a !in handles'
      ensures exists u :: u in tokens' && tokens'[u] == Some(a)
    {
      if held' == Some(a) {
        assert tokens'[t] == Some(a);
      } else {
        assert a in live && a !in handles;
        var u :| u in tokens && tokens[u] == Some(a);
        assert u != t && tokens'[u] == Some(a);
      }
    }
  }

  lemma TokensStep(s: State, t: nat, s': State)
    requires Next(s, t, s')
    ensures t in s.threads && t in s'.threads && s'.total == s.total
    ensures Tokens(s'.threads) == Tokens(s.threads)[t := Token(s'.threads[t])]
    ensures Tokens(s.threads)[t] == Token(s.threads[t])
  {
    hide Next;
    hide Token;
    SameThreads(s, t, s');
    forall u | u in s'.threads && u != t
      ensures Token(s'.threads[u]) == Token(s.threads[u])
    {
      Untouched(s, t, s', u);
    }
  }

  lemma OwnedStep(s: State, t: nat, s': State)
    requires Wf(s.segs, s.total) && Owned(s) && Next(s, t, s')
    ensures Wf(s'.segs, s'.total) && Owned(s')
  {
    hide Next;
    TokensStep(s, t, s');
    HandsStep(s, t, s');
    assert s.threads[t].FreeDo? ==> Token(s.threads[t]) == Some(s.threads[t].start);
    hide Starts;
    StartsStep(s, t, s');
    hide Token;
    hide Tokens;
    hide Apart;
    hide Wf;
    DealKeepsApart(Starts(s.segs, s.total), s.handles, Tokens(s.threads), t, DealOf(s.threads[t], s'.threads[t]),
                   Starts(s'.segs, s.total), s'.handles, Token(s'.threads[t]));
  }

  lemma BookStep(s: State, t: nat, s': State)
    requires Next(s, t, s')
    ensures t in s.threads && t in s'.threads
    ensures GoesOn(s.book, s'.book, Known(s.threads[t]), Known(s'.threads[t]), Fits)
  {
    hide WakeAll;
    hide Begin;
    hide TryOnce;
    hide DoFree;
    SameThreads(s, t, s');
    if s.threads[t].Idle? {
      BeginTimes(s, t, s');
    } else if s.threads[t].Attempt? {
      TryTimes(s, t, s.threads[t].r, s');
    } else if s.threads[t].FreeDo? {
      FreeTimes(s, t, s');
    }
  }

  lemma OthersKnow(s: State, t: nat, s': State, u: nat)
    requires Next(s, t, s') && u in s.threads && u != t
    ensures u in s'.threads && Known(s'.threads[u]) == Known(s.threads[u])
    ensures Sized(s', s.threads[u]) ==> Sized(s', s'.threads[u])
  {
    Others(s, t, s');
    hide Next;
  }

  lemma BookKept(s: State, t: nat, s': State)
    requires Kept(s.book, s.threads, Known, Fits) && Next(s, t, s')
    ensures Kept(s'.book, s'.threads, Known, Fits)
  {
    hide Kept;
    hide GoesOn;
    hide Known;
    BookStep(s, t, s');
    SameThreads(s, t, s');
    forall u | u in s.threads && u != t
      ensures Known(s'.threads[u]) == Known(s.threads[u])
    {
      OthersKnow(s, t, s', u);
    }
    hide Next;
    KeptStep(s.book, s'.book, s.threads, s'.threads, t, Known, Fits);
  }

  lemma {:induction false} OutStays(log: seq<(nat, Deed)>, d: (nat, Deed), k: nat)
    requires k <= |log|
    ensures Out(log + [d], k) == Out(log, k)
  {
    if k > 0 {
      OutStays(log, d, k - 1);
    }
  }

  /** What a step makes of the allocations and of the log. */
  lemma ArenaChange(s: State, t: nat, s': State)
    requires Wf(s.segs, s.total) && Next(s, t, s')
    ensures if s.threads[t].Attempt? && CanMalloc(s.segs, s.cap, s.threads[t].r.n) then
              var r := s.threads[t].r;
              exists i: nat :: i < |s.segs| && s.segs[i].Fits(r.n) && s' == Obtained(s, t, r, i)
            else if s.threads[t].FreeDo? then DoFree(s, t, s.threads[t].c, s.threads[t].start, s')
            else s'.segs == s.segs && s'.book.log == s.book.log
  {
    hide WakeAll;
    hide Malloc;
    hide Free;
    hide CanMalloc;
    hide Wf;
  }

  lemma LedgerMalloc(segs: seq<Seg>, total: nat, i: nat, n: nat, out: map<nat, nat>)
    requires Wf(segs, total) && i < |segs| && segs[i].Fits(n) && Ledger(segs, out)
    ensures Ledger(Malloc(segs, i, n), out[segs[i].start := n])
  {
    forall a: nat, m: nat
      ensures HasAllocation(Malloc(segs, i, n), a, m) <==>
              a in out[segs[i].start := n] && out[segs[i].start := n][a] == m
    {
      MallocAllocations(segs, i, n, a, m);
      if a == segs[i].start && HasAllocation(segs, a, m) {
        var k :| 0 <= k < |segs| && segs[k] == Seg(a, m, true);
        AllocationsDisjoint(segs, total, k, i, a);
      }
    }
  }

  lemma LedgerFree(segs: seq<Seg>, total: nat, start: nat, out: map<nat, nat>)
    requires Wf(segs, total) && start in Starts(segs, total) && Ledger(segs, out)
    ensures start < total && Ledger(Free(segs, Locate(segs, total, start)), out - {start})
  {
    var i := Locate(segs, total, start);
    assert segs[i].used && segs[i].start == start;
    hide Starts;
    forall a: nat, m: nat
      ensures HasAllocation(Free(segs, i), a, m) <==> a in out - {start} && (out - {start})[a] == m
    {
      FreeAllocations(segs, total, i, a, m);
    }
  }

  lemma LedgerStep(s: State, t: nat, s': State)
    requires Wf(s.segs, s.total) && Next(s, t, s') && Ledger(s.segs, s.out())
    requires s.threads[t].FreeDo? ==> s.threads[t].start in Starts(s.segs, s.total)
    ensures Ledger(s'.segs, s'.out())
  {
    hide Ledger;
    hide Wf;
    hide Malloc;
    hide Free;
    hide Starts;
    ArenaChange(s, t, s');
    hide Next;
    if s.threads[t].Attempt? && CanMalloc(s.segs, s.cap, s.threads[t].r.n) {
      var r := s.threads[t].r;
      var i: nat :| i < |s.segs| && s.segs[i].Fits(r.n) && s' == Obtained(s, t, r, i);
      LedgerMalloc(s.segs, s.total, i, r.n, s.out());
      OutStays(s.book.log, (r.c, Took(s.segs[i].start, r.n)), |s.book.log|);
    } else if s.threads[t].FreeDo? {
      LedgerFree(s.segs, s.total, s.threads[t].start, s.out());
      OutStays(s.book.log, (s.threads[t].c, Gave(s.threads[t].start)), |s.book.log|);
    }
  }

  /** An allocation stays what it is unless it is freed. */
  lemma AllocationStays(s: State, t: nat, s': State, a: nat, n: nat)
    requires Wf(s.segs, s.total) && Next(s, t, s') && HasAllocation(s.segs, a, n)
    requires s.threads[t].FreeDo? ==> s.threads[t].start in Starts(s.segs, s.total) && s.threads[t].start != a
    ensures HasAllocation(s'.segs, a, n)
  {
    ArenaChange(s, t, s');
    hide Next;
    if s.threads[t].Attempt? && CanMalloc(s.segs, s.cap, s.threads[t].r.n) {
      var r := s.threads[t].r;
      var i: nat :| i < |s.segs| && s.segs[i].Fits(r.n) && s' == Obtained(s, t, r, i);
      MallocAllocations(s.segs, i, r.n, a, n);
    } else if s.threads[t].FreeDo? {
      var i := Locate(s.segs, s.total, s.threads[t].start);
      assert s.segs[i].used && s.segs[i].start == s.threads[t].start;
      FreeAllocations(s.segs, s.total, i, a, n);
    }
  }

  lemma OwnSized(s: State, t: nat, s': State)
    requires Wf(s.segs, s.total) && Next(s, t, s') && Sized(s, s.threads[t])
    ensures t in s'.threads && Sized(s', s'.threads[t])
  {
    hide HasAllocation;
    hide WakeAll;
    hide Wf;
    hide Malloc;
    hide Free;
    hide CanMalloc;
    ArenaChange(s, t, s');
    if s.threads[t].Attempt? && s'.threads[t].UnlockOk? {
      var r := s.threads[t].r;
      var i: nat :| i < |s.segs| && s.segs[i].Fits(r.n) && s' == Obtained(s, t, r, i);
      MallocAllocations(s.segs, i, r.n, s.segs[i].start, r.n);
    }
  }

  lemma SizedStep(s: State, t: nat, s': State, u: nat)
    requires Wf(s.segs, s.total) && Owned(s) && Next(s, t, s') && u in s.threads && Sized(s, s.threads[u])
    ensures u in s'.threads && Sized(s', s'.threads[u])
  {
    if u == t {
      OwnSized(s, t, s');
    } else {
      OthersKnow(s, t, s', u);
      if s.threads[t].FreeDo? {
        FreesOwn(s, t, u);
      }
      match s.threads[u]
      case UnlockOk(r, start) => AllocationStays(s, t, s', start, r.n);
      case Returned(r, got) =>
        if got.Some? {
          AllocationStays(s, t, s', got.value, r.n);
        }
      case _ =>
    }
  }

  /** A thread frees a live allocation, and not one that another has in hand. */
  lemma FreesOwn(s: State, t: nat, u: nat)
    requires Tiled(s.segs, s.total) && Owned(s) && t in s.threads && u in s.threads && u != t && s.threads[t].FreeDo?
    ensures s.threads[t].start in Starts(s.segs, s.total) && Token(s.threads[u]) != Some(s.threads[t].start)
  {
    hide Starts;
    assert Tokens(s.threads)[t] == Some(s.threads[t].start);
    assert Tokens(s.threads)[u] == Token(s.threads[u]);
  }

  lemma FreesLive(s: State, t: nat)
    requires Tiled(s.segs, s.total) && Owned(s) && t in s.threads && s.threads[t].FreeDo?
    ensures s.threads[t].start in Starts(s.segs, s.total)
  {
    hide Starts;
    assert Tokens(s.threads)[t] == Some(s.threads[t].start);
  }

  lemma RecordedStep(s: State, t: nat, s': State)
    requires Wf(s.segs, s.total) && Owned(s) && Recorded(s) && Next(s, t, s')
    ensures Recorded(s')
  {
    hide Kept;
    hide Ledger;
    hide Sized;
    hide Owned;
    hide Wf;
    BookKept(s, t, s');
    SameThreads(s, t, s');
    if s.threads[t].FreeDo? {
      FreesLive(s, t);
    }
    LedgerStep(s, t, s');
    forall u | u in s'.threads
      ensures Sized(s', s'.threads[u])
    {
      SizedStep(s, t, s', u);
    }
  }

  /** Every step of every thread keeps the invariant. */
  lemma InvStep(s: State, t: nat, s': State)
    requires Inv(s) && Next(s, t, s')
    ensures Inv(s')
  {
    MutexesStep(s, t, s');
    TimesStep(s, t, s');
    OwnedStep(s, t, s');
    RecordedStep(s, t, s');
    forall u | u in s'.threads
      ensures NotMissed(s', s'.threads[u])
    {
      assert u in s.threads by { Others(s, t, s'); }
      NotMissedStep(s, t, s', u);
    }
  }

  // ---------------------------------------------------------------- whole runs

  ghost predicate Moves(s: State, s': State) {
    exists t :: Next(s, t, s')
  }

  ghost predicate IsRun(run: seq<State>) {
    Runs.Run(run, Init, Moves)
  }

  lemma RunInv(run: seq<State>, i: nat)
    requires IsRun(run) && i < |run|
    ensures Inv(run[i])
  {
    hide Init;
    hide Next;
    hide Inv;
    forall s | Init(s) ensures Inv(s) {
      InitInv(s);
    }
    forall s, s' | Inv(s) && Moves(s, s') ensures Inv(s') {
      var t: nat :| Next(s, t, s');
      InvStep(s, t, s');
    }
    Runs.RunKeeps(run, Init, Moves, Inv, i);
  }

  /**
    No missed free: in every state of every run, a waiting thread has seen no
    broadcast complete since its failed attempt, and unless some free is about
    to broadcast, its request could not be met if it tried again.
   */
  lemma NoMissedFree(run: seq<State>, i: nat, u: nat)
    requires IsRun(run) && i < |run| && u in run[i].threads && run[i].threads[u].Waiting?
    ensures var s := run[i];
            && s.threads[u].r.seen == s.freed
            && (!Pending(s) ==> !CanMalloc(s.segs, s.cap, s.threads[u].r.n))
            && (s.mutex == None ==> !CanMalloc(s.segs, s.cap, s.threads[u].r.n))
  {
    RunInv(run, i);
    assert NotMissed(run[i], run[i].threads[u]);
  }

  /** Two callers never hold, obtain or free the same allocation, and what they hold is live. */
  lemma NoSharedAllocation(run: seq<State>, i: nat, u: nat, v: nat)
    requires IsRun(run) && i < |run| && u in run[i].threads && v in run[i].threads && u != v
    ensures Wf(run[i].segs, run[i].total)
    ensures Token(run[i].threads[u]).Some? ==>
        var a := Token(run[i].threads[u]).value;
        a in Starts(run[i].segs, run[i].total) && a !in run[i].handles && Token(run[i].threads[v]) != Some(a)
    ensures run[i].handles <= Starts(run[i].segs, run[i].total)
  {
    RunInv(run, i);
    assert Tokens(run[i].threads)[u] == Token(run[i].threads[u]);
    assert Tokens(run[i].threads)[v] == Token(run[i].threads[v]);
  }

  /** Only a positive timeout leads to a second attempt. */
  lemma SecondAttemptNeedsTimeout(run: seq<State>, i: nat, u: nat)
    requires IsRun(run) && i < |run| && u in run[i].threads
    requires run[i].threads[u].Waiting? && run[i].threads[u].r.attempts > 1
    ensures run[i].threads[u].r.timeout > 0
  {
    RunInv(run, i);
    var r := run[i].threads[u].r;
    assert TimesOk(run[i].threads[u]);
    assert r.times[0] < r.timeout;
  }

  /**
    What em_trymalloc returns: the very allocation that the call obtained, of
    exactly the units it asked for; or failure, and then it obtained none. It
    fails after one attempt if it may not wait, and else exactly at the first
    reading of the clock that is not below its timeout.
   */
  lemma TryReturns(run: seq<State>, i: nat, u: nat, a: nat)
    requires IsRun(run) && i < |run| && u in run[i].threads && run[i].threads[u].Returned?
    ensures var s, r, got := run[i], run[i].threads[u].r, run[i].threads[u].got;
            && r.c < |s.book.calls| && s.book.calls[r.c] == ToMalloc(r.n, r.timeout)
            && (got == Some(a) <==> (r.c, Took(a, r.n)) in s.book.log)
            && (got == Some(a) ==> HasAllocation(s.segs, a, r.n))
            && (got == None <==> !Made(s.book.log, r.c))
            && (forall k | 0 <= k < |r.times| - 1 :: r.times[k] < r.timeout)
            && r.attempts == |r.times|
            && if r.times == [] then got.Some? || r.timeout == NO_WAIT
               else got.Some? <==> r.times[|r.times| - 1] < r.timeout
  {
    RunInv(run, i);
    var s, pc := run[i], run[i].threads[u];
    AccountIs(s.book, s.threads, u, Known, Fits, Took(a, pc.r.n));
    assert TimesOk(pc) && Sized(s, pc);
  }

  /**
    A call that was woken tries again if and only if the time passed at that
    moment is below its timeout, and otherwise returns failure.
   */
  lemma AfterWaking(run: seq<State>, i: nat, u: nat)
    requires IsRun(run) && i + 1 < |run| && u in run[i].threads && run[i].threads[u].Decide?
    requires u in run[i + 1].threads && run[i + 1].threads[u] != run[i].threads[u]
    ensures var r, pc := run[i].threads[u].r, run[i + 1].threads[u];
            && r.times != []
            && (pc == WantMutex(r) <==> r.times[|r.times| - 1] < r.timeout)
            && (pc == Returned(r, None) <==> r.times[|r.times| - 1] >= r.timeout)
  {
    hide Inv;
    hide Next;
    RunInv(run, i);
    RunInv(run, i + 1);
    InvTimes(run[i], run[i + 1], u);
    assert Moves(run[i], run[i + 1]);
    var t: nat :| Next(run[i], t, run[i + 1]);
    Others(run[i], t, run[i + 1]);
    FromDecide(run[i], u, run[i + 1]);
  }

  lemma InvTimes(s: State, s': State, u: nat)
    requires Inv(s) && Inv(s') && u in s.threads && u in s'.threads
    ensures TimesOk(s.threads[u]) && TimesOk(s'.threads[u])
  {
  }

  lemma FromDecide(s: State, u: nat, s': State)
    requires u in s.threads && s.threads[u].Decide?
    ensures Next(s, u, s') ==> u in s'.threads
                               && (|| s'.threads[u] == WantMutex(s.threads[u].r)
                                   || s'.threads[u] == Returned(s.threads[u].r, None))
  {
  }

  /** A free that returns has given up the allocation it was given. */
  lemma FreeReturns(run: seq<State>, i: nat, u: nat)
    requires IsRun(run) && i < |run| && u in run[i].threads && run[i].threads[u].FreeReturned?
    ensures var s, pc := run[i], run[i].threads[u];
            && pc.c < |s.book.calls| && s.book.calls[pc.c] == ToFree(pc.start)
            && (pc.c, Gave(pc.start)) in s.book.log
  {
    RunInv(run, i);
    AccountIs(run[i].book, run[i].threads, u, Known, Fits, Gave(run[i].threads[u].start));
  }

  /**
    The allocations of the arena are those obtained and not given up since, with
    the lengths asked for, and each is with some caller or thread; no call obtains
    or gives up twice.
   */
  lemma ArenaAsAsked(run: seq<State>, i: nat, a: nat, n: nat, j: nat, k: nat)
    requires IsRun(run) && i < |run|
    ensures var s, out := run[i], run[i].out();
            && (HasAllocation(s.segs, a, n) <==> a in out && out[a] == n)
            && (HasAllocation(s.segs, a, n) && a !in s.handles ==>
                  exists u :: u in s.threads && Token(s.threads[u]) == Some(a))
    ensures j < k < |run[i].book.log| ==> run[i].book.log[j].0 != run[i].book.log[k].0
  {
    RunInv(run, i);
    var s := run[i];
    if HasAllocation(s.segs, a, n) && a !in s.handles {
      StartHasAllocation(s.segs, s.total, a);
      var u :| u in Tokens(s.threads) && Tokens(s.threads)[u] == Some(a);
      assert Token(s.threads[u]) == Some(a);
    }
  }

  // ---------------------------------------------------------------- no deadlock

  /** The thread is inside a call and not in the wait set. */
  predicate Busy(pc: PC) {
    !pc.Idle? && !pc.Waiting?
  }

  lemma CanStep(s: State, t: nat) returns (s': State)
    requires t in s.threads && Busy(s.threads[t])
    requires s.threads[t].FreeDo? ==> Tiled(s.segs, s.total) && s.threads[t].start < s.total
    requires s.threads[t].WantMutex? || s.threads[t].FreeWant? ==> s.mutex == None
    requires s.threads[t].WantCond? || s.threads[t].Woken? || s.threads[t].FreeWantCond? ==> s.cond == None
    ensures Next(s, t, s')
  {
    match s.threads[t]
    case WantMutex(r) => s' := Goto(s, t, Attempt(r)).(mutex := Some(t));
    case Attempt(r) =>
      if CanMalloc(s.segs, s.cap, r.n) {
        var i: nat :| i < |s.segs| && s.segs[i].Fits(r.n);
        s' := Obtained(s, t, r, i);
      } else if r.timeout == NO_WAIT {
        s' := Goto(s, t, UnlockFail(r));
      } else {
        s' := Goto(s, t, WantCond(r.(attempts := r.attempts + 1, seen := s.freed)));
      }
    case UnlockOk(r, start) => s' := Goto(s, t, Returned(r, Some(start))).(mutex := None);
    case UnlockFail(r) => s' := Goto(s, t, Returned(r, None)).(mutex := None);
    case WantCond(r) => s' := Goto(s, t, DropMutex(r)).(cond := Some(t));
    case DropMutex(r) => s' := Goto(s, t, AboutToWait(r)).(mutex := None);
    case AboutToWait(r) => s' := Goto(s, t, Waiting(r)).(cond := None);
    case Woken(r) => s' := Goto(s, t, DropCond(r)).(cond := Some(t));
    case DropCond(r) =>
      var passed := if r.times == [] then 0 else r.times[|r.times| - 1];
      s' := Goto(s, t, Decide(r.(times := r.times + [passed]))).(cond := None);
    case Decide(r) => s' := Goto(s, t, AfterWait(r));
    case Returned(_, got) => s' := EndCall(s, t, got);
    case FreeWant(c, start) => s' := Goto(s, t, FreeDo(c, start)).(mutex := Some(t));
    case FreeDo(c, start) =>
      s' := Goto(s, t, FreeWantCond(c, start)).(
        segs := Free(s.segs, Locate(s.segs, s.total, start)), book := Doing(s, c, Gave(start)));
    case FreeWantCond(c, start) => s' := Goto(s, t, FreeBroadcast(c, start)).(cond := Some(t));
    case FreeBroadcast(c, start) =>
      s' := s.(threads := WakeAll(s.threads)[t := FreeDropCond(c, start)], freed := s.freed + 1);
    case FreeDropCond(c, start) => s' := Goto(s, t, FreeDropMutex(c, start)).(cond := None);
    case FreeDropMutex(c, start) => s' := Goto(s, t, FreeReturned(c, start)).(mutex := None);
    case FreeReturned(_, _) => s' := Goto(s, t, Idle);
  }

  /** The two mutexes never deadlock: while any call is in progress, some thread inside a call can step. */
  lemma NoDeadlock(s: State, u: nat) returns (t: nat, s': State)
    requires Inv(s) && u in s.threads && Busy(s.threads[u])
    ensures t in s.threads && Busy(s.threads[t]) && Next(s, t, s')
  {
    hide Inv;
    hide Next;
    hide Tiled;
    InvMutexes(s);
    t := u;
    if s.cond.Some? {
      t := s.cond.value;
    } else if s.mutex.Some? {
      t := s.mutex.value;
    }
    if s.threads[t].FreeDo? {
      FreeDoInside(s, t);
    }
    s' := CanStep(s, t);
  }

  lemma InvMutexes(s: State)
    requires Inv(s)
    ensures Mutexes(s)
  {
  }

  lemma FreeDoInside(s: State, t: nat)
    requires Inv(s) && t in s.threads && s.threads[t].FreeDo?
    ensures Tiled(s.segs, s.total) && s.threads[t].start < s.total
  {
    hide Kept;
    FreesLive(s, t);
  }
}
