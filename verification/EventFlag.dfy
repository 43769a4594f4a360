/**
  The event flag of em_eventflag.c as steps of any number of threads: a word of
  32 flags, one mutex and one condition variable, whose wait set is the threads
  in state Waiting.
 */
module EventFlag {
  import opened Basics
  import opened Calls
  import Runs

  /** One of the 32 bits of a flag word, and a word as the set of its raised bits. */
  type Bit = n: nat | n < 32
  type Word = set<Bit>

  /** What a call is for, and what it did to the flags. */
  datatype Asked = ToWait(f: Word, reset: bool) | ToSet(f: Word) | ToClear
  datatype Event = SetBits(f: Word) | ResetBits(f: Word) | ClearAll

  /** What happened to the flags so far, with the number of the call that did it. */
  type Log = seq<(nat, Event)>

  /**
    Call `c` of em_eventflag_wait, by thread `t`: the awaited flags, whether to
    reset them, and how many events had happened when it began.
   */
  datatype Req = Req(t: nat, c: nat, f: Word, reset: bool, from: nat)

  /** A test that succeeded: for which call, and after how many events. */
  datatype Pass = Pass(r: Req, at: nat)

  /** EM_SUCCESS, EM_ERR_TIMEOUT and EM_ERROR. */
  datatype Ret = Success | TimedOut | Error

  /** Where a thread is: in wait (W), set (S) or clear (C). */
  datatype PC =
    | Idle
    | WLock(r: Req)
    | WTest(r: Req)                        // holds the mutex
    | Waiting(r: Req)
    | WBack(r: Req, ret: Ret)              // awake, needs the mutex again
    | WUnlock(r: Req, ret: Ret, at: nat)   // holds the mutex; `at` events had happened at the test
    | WReset(r: Req, at: nat)
    | WResetDo(r: Req, at: nat)            // holds the mutex
    | WResetUnlock(r: Req, at: nat)        // holds the mutex
    | WReturn(r: Req, ret: Ret, at: nat)
    | SLock(c: nat, f: Word)
    | SOr(c: nat, f: Word)                 // holds the mutex
    | SBroadcast(c: nat, f: Word)          // holds the mutex
    | SUnlock(c: nat, f: Word)             // holds the mutex
    | SReturn(c: nat, f: Word)
    | CLock(c: nat)
    | CDo(c: nat)                          // holds the mutex
    | CUnlock(c: nat)                      // holds the mutex
    | CReturn(c: nat)

  /**
    `book` records the calls and, in order, what they did to the flags, `passes`
    the successful tests, and `woke` how the last wait of a call ended by itself.
   */
  datatype State = State(
    flags: Word,
    mutex: Option<nat>,
    threads: map<nat, PC>,
    book: Book<Asked, Event>,
    passes: seq<(nat, Pass)>,
    woke: map<nat, Ret>)
  {
    function log(): Log { book.log }
    function raised(): Word { Replay(book.log) }
  }

  predicate Holds(pc: PC) {
    pc.WTest? || pc.WUnlock? || pc.WResetDo? || pc.WResetUnlock? || pc.SOr? || pc.SBroadcast? || pc.SUnlock?
    || pc.CDo? || pc.CUnlock?
  }

  function Goto(s: State, t: nat, pc: PC): State {
    s.(threads := s.threads[t := pc])
  }

  function Asking(s: State, asked: Asked): Book<Asked, Event> {
    s.book.(calls := s.book.calls + [asked])
  }

  function Doing(s: State, c: nat, e: Event): Book<Asked, Event> {
    s.book.(log := s.book.log + [(c, e)])
  }

  ghost predicate Begin(s: State, t: nat, s': State) {
    var c := |s.book.calls|;
    || (exists f, reset ::
          s' == Goto(s, t, WLock(Req(t, c, f, reset, |s.log()|))).(book := Asking(s, ToWait(f, reset))))
    || (exists f :: s' == Goto(s, t, SLock(c, f)).(book := Asking(s, ToSet(f))))
    || s' == Goto(s, t, CLock(c)).(book := Asking(s, ToClear))
  }

  /** The loop test: on a hit the wait is over, else the thread joins the wait set and gives up the mutex. */
  ghost predicate Test(s: State, t: nat, r: Req, s': State) {
    if s.flags * r.f != {} then
      s' == Goto(s, t, WUnlock(r, Success, |s.log()|)).(passes := s.passes + [(r.c, Pass(r, |s.log()|))])
    else s' == Goto(s, t, Waiting(r)).(mutex := None)
  }

  /** After a wake-up: a plain one leads back to the test, a timeout or an error out of the loop. */
  ghost predicate Back(s: State, t: nat, r: Req, ret: Ret, s': State) {
    && s.mutex == None
    && s' == Goto(s, t, if ret == Success then WTest(r) else WUnlock(r, ret, |s.log()|)).(mutex := Some(t))
  }

  function WakeAll(threads: map<nat, PC>): map<nat, PC> {
    map t | t in threads :: if threads[t].Waiting? then WBack(threads[t].r, Success) else threads[t]
  }

  /** One step of thread `t`. */
  ghost predicate Next(s: State, t: nat, s': State) {
    && t in s.threads
    && match s.threads[t]
       case Idle => Begin(s, t, s')
       case WLock(r) => s.mutex == None && s' == Goto(s, t, WTest(r)).(mutex := Some(t))
       case WTest(r) => Test(s, t, r, s')
       case Waiting(r) => exists ret :: s' == Goto(s, t, WBack(r, ret)).(woke := s.woke[r.c := ret])
       case WBack(r, ret) => Back(s, t, r, ret, s')
       case WUnlock(r, ret, at) =>
         s' == Goto(s, t, if ret == Success && r.reset then WReset(r, at) else WReturn(r, ret, at)).(mutex := None)
       case WReset(r, at) => s.mutex == None && s' == Goto(s, t, WResetDo(r, at)).(mutex := Some(t))
       case WResetDo(r, at) =>
         s' == Goto(s, t, WResetUnlock(r, at)).(flags := s.flags - r.f, book := Doing(s, r.c, ResetBits(r.f)))
       case WResetUnlock(r, at) => s' == Goto(s, t, WReturn(r, Success, at)).(mutex := None)
       case WReturn(r, ret, at) => s' == Goto(s, t, Idle)
       case SLock(c, f) => s.mutex == None && s' == Goto(s, t, SOr(c, f)).(mutex := Some(t))
       case SOr(c, f) => s' == Goto(s, t, SBroadcast(c, f)).(flags := s.flags + f, book := Doing(s, c, SetBits(f)))
       case SBroadcast(c, f) => s' == s.(threads := WakeAll(s.threads)[t := SUnlock(c, f)])
       case SUnlock(c, f) => s' == Goto(s, t, SReturn(c, f)).(mutex := None)
       case SReturn(c, f) => s' == Goto(s, t, Idle)
       case CLock(c) => s.mutex == None && s' == Goto(s, t, CDo(c)).(mutex := Some(t))
       case CDo(c) => s' == Goto(s, t, CUnlock(c)).(flags := {}, book := Doing(s, c, ClearAll))
       case CUnlock(c) => s' == Goto(s, t, CReturn(c)).(mutex := None)
       case CReturn(c) => s' == Goto(s, t, Idle)
  }

  ghost predicate Init(s: State) {
    && s.flags == {} && s.mutex == None && s.book == Book([], []) && s.passes == [] && s.woke == map[]
    && forall t | t in s.threads :: s.threads[t] == Idle
  }

  // ---------------------------------------------------------------- what the flags mean

  function After(flags: Word, e: Event): Word {
    match e
    case SetBits(f) => flags + f
    case ResetBits(f) => flags - f
    case ClearAll => {}
  }

  /** The flags that a history of events leaves up. */
  function Replay(log: Log): Word
    decreases |log|
  {
    if log == [] then {}
    else After(Replay(log[..|log| - 1]), log[|log| - 1].1)
  }

  predicate Removes(e: Event, b: Bit) {
    e.ClearAll? || (e.ResetBits? && b in e.f)
  }

  /** Event `i` put bit `b` up, and no later event took it down. */
  ghost predicate Stands(log: Log, i: int, b: Bit) {
    && 0 <= i < |log| && log[i].1.SetBits? && b in log[i].1.f
    && forall j | i < j < |log| :: !Removes(log[j].1, b)
  }

  /** A bit is up exactly when a set put it there that no clear or reset has since taken down. */
  lemma {:induction false} UpIffStands(log: Log, b: Bit)
    ensures b in Replay(log) <==> exists i :: Stands(log, i, b)
    decreases |log|
  {
    if log != [] {
      var before, e := log[..|log| - 1], log[|log| - 1].1;
      UpIffStands(before, b);
      if b in Replay(log) {
        if e.SetBits? && b in e.f {
          assert Stands(log, |log| - 1, b);
        } else {
          var i :| Stands(before, i, b);
          assert Stands(log, i, b);
        }
      }
      if i :| Stands(log, i, b) {
        if i < |log| - 1 {
          assert Stands(before, i, b);
          assert !Removes(log[|log| - 1].1, b);
        }
      }
    }
  }

  // ---------------------------------------------------------------- the invariant

  ghost predicate Exclusive(s: State) {
    && (forall t | t in s.threads :: Holds(s.threads[t]) <==> s.mutex == Some(t))
    && (s.mutex.Some? ==> s.mutex.value in s.threads)
  }

  /** A set has raised its flags and is about to wake the wait set. */
  ghost predicate Pending(s: State) {
    s.mutex.Some? && s.mutex.value in s.threads && s.threads[s.mutex.value].SBroadcast?
  }

  /** A waiting thread has none of its flags up, unless it is about to be woken. */
  ghost predicate NotMissed(s: State, pc: PC) {
    pc.Waiting? ==> Pending(s) || s.flags * pc.r.f == {}
  }

  /** The call and the test it passed, if it is going to succeed. */
  function Passed(pc: PC): Option<(Req, nat)> {
    match pc
    case WUnlock(r, ret, at) => if ret == Success then Some((r, at)) else None
    case WReset(r, at) => Some((r, at))
    case WResetDo(r, at) => Some((r, at))
    case WResetUnlock(r, at) => Some((r, at))
    case WReturn(r, ret, at) => if ret == Success then Some((r, at)) else None
    case _ => None
  }

  function Call(pc: PC): Option<Req> {
    match pc
    case WLock(r) => Some(r)
    case WTest(r) => Some(r)
    case Waiting(r) => Some(r)
    case WBack(r, _) => Some(r)
    case WUnlock(r, _, _) => Some(r)
    case WReset(r, _) => Some(r)
    case WResetDo(r, _) => Some(r)
    case WResetUnlock(r, _) => Some(r)
    case WReturn(r, _, _) => Some(r)
    case _ => None
  }

  /** What a wait may do to the flags, what a set does, and what a clear does. */
  predicate Fits(asked: Asked, e: Event) {
    match asked
    case ToWait(f, reset) => reset && e == ResetBits(f)
    case ToSet(f) => e == SetBits(f)
    case ToClear => e == ClearAll
  }

  /** What a thread knows of the deed of its call. */
  function Known(pc: PC): Option<Account<Asked, Event>> {
    match pc
    case Idle => None
    case SLock(c, f) => Some(Account(c, ToSet(f), None))
    case SOr(c, f) => Some(Account(c, ToSet(f), None))
    case SBroadcast(c, f) => Some(Account(c, ToSet(f), Some(SetBits(f))))
    case SUnlock(c, f) => Some(Account(c, ToSet(f), Some(SetBits(f))))
    case SReturn(c, f) => Some(Account(c, ToSet(f), Some(SetBits(f))))
    case CLock(c) => Some(Account(c, ToClear, None))
    case CDo(c) => Some(Account(c, ToClear, None))
    case CUnlock(c) => Some(Account(c, ToClear, Some(ClearAll)))
    case CReturn(c) => Some(Account(c, ToClear, Some(ClearAll)))
    case WResetUnlock(r, _) => Some(Account(r.c, ToWait(r.f, r.reset), Some(ResetBits(r.f))))
    case WReturn(r, ret, _) =>
      Some(Account(r.c, ToWait(r.f, r.reset), if ret == Success && r.reset then Some(ResetBits(r.f)) else None))
    case _ => Some(Account(Call(pc).value.c, ToWait(Call(pc).value.f, Call(pc).value.reset), None))
  }

  /** A test is for a wait, and of the flags that it awaits. */
  predicate FitsPass(asked: Asked, p: Pass) {
    asked == ToWait(p.r.f, p.r.reset)
  }

  /** What a thread knows of the successful test of its call. */
  function KnownPass(pc: PC): Option<Account<Asked, Pass>> {
    match pc
    case Idle => None
    case SLock(c, f) => Some(Account(c, ToSet(f), None))
    case SOr(c, f) => Some(Account(c, ToSet(f), None))
    case SBroadcast(c, f) => Some(Account(c, ToSet(f), None))
    case SUnlock(c, f) => Some(Account(c, ToSet(f), None))
    case SReturn(c, f) => Some(Account(c, ToSet(f), None))
    case CLock(c) => Some(Account(c, ToClear, None))
    case CDo(c) => Some(Account(c, ToClear, None))
    case CUnlock(c) => Some(Account(c, ToClear, None))
    case CReturn(c) => Some(Account(c, ToClear, None))
    case _ =>
      var r := Call(pc).value;
      Some(Account(r.c, ToWait(r.f, r.reset),
                   if Passed(pc).Some? then Some(Pass(Passed(pc).value.0, Passed(pc).value.1)) else None))
  }

  function PassBook(s: State): Book<Asked, Pass> {
    Book(s.book.calls, s.passes)
  }

  /** The outcome of a wait that has given up, or is about to. */
  function Outcome(pc: PC): Ret {
    match pc
    case WBack(_, ret) => ret
    case WUnlock(_, ret, _) => ret
    case WReturn(_, ret, _) => ret
    case _ => Success
  }

  /** A call belongs to its thread, and gives up only as its last wait ended. */
  ghost predicate OwnCall(s: State, t: nat, pc: PC) {
    && (Call(pc).Some? ==> Call(pc).value.t == t)
    && (Outcome(pc) != Success ==> Call(pc).Some? && Call(pc).value.c in s.woke
                                   && s.woke[Call(pc).value.c] == Outcome(pc))
    && ((pc.WReset? || pc.WResetDo? || pc.WResetUnlock?) ==> pc.r.reset)
  }

  ghost predicate Recorded(s: State) {
    && Kept(s.book, s.threads, Known, Fits)
    && Kept(PassBook(s), s.threads, KnownPass, FitsPass)
    && forall t | t in s.threads :: OwnCall(s, t, s.threads[t])
  }

  /** A call began in the past; one that is going to succeed saw one of its flags up since. */
  ghost predicate Seen(s: State, pc: PC) {
    && (Call(pc).Some? ==> Call(pc).value.from <= |s.log()|)
    && (Passed(pc).Some? ==>
          var (r, at) := Passed(pc).value;
          r.from <= at <= |s.log()| && Replay(s.log()[..at]) * r.f != {})
  }

  ghost predicate Inv(s: State) {
    && Exclusive(s)
    && s.flags == s.raised()
    && (forall t | t in s.threads :: NotMissed(s, s.threads[t]))
    && (forall t | t in s.threads :: Seen(s, s.threads[t]))
    && Recorded(s)
  }

  /** The other threads stay where they are, except that a broadcast wakes the waiting ones. */
  lemma Others(s: State, t: nat, s': State, u: nat)
    requires Next(s, t, s') && u in s.threads && u != t
    ensures u in s'.threads && s'.threads.Keys == s.threads.Keys
    ensures s'.threads[u] ==
            if s.threads[t].SBroadcast? && s.threads[u].Waiting? then WBack(s.threads[u].r, Success) else s.threads[u]
  {
  }

  lemma Locks(s: State, t: nat, s': State)
    requires Next(s, t, s')
    ensures t in s.threads && t in s'.threads && s'.threads.Keys == s.threads.Keys
    ensures var before, after := Holds(s.threads[t]), Holds(s'.threads[t]);
            && (after && !before ==> s.mutex == None)
            && s'.mutex == if after == before then s.mutex else if after then Some(t) else None
  {
  }

  lemma ExclusiveStep(s: State, t: nat, s': State)
    requires Exclusive(s) && Next(s, t, s')
    ensures Exclusive(s')
  {
    Locks(s, t, s');
    forall u | u in s'.threads && u != t
      ensures u in s.threads && Holds(s'.threads[u]) == Holds(s.threads[u])
    {
      Others(s, t, s', u);
    }
    hide Next;
    hide Holds;
    assert Holds(s.threads[t]) <==> s.mutex == Some(t);
  }

  /** The log only grows, and the flags follow it. */
  lemma LogStep(s: State, t: nat, s': State)
    requires s.flags == s.raised() && Next(s, t, s')
    ensures s.log() <= s'.log() && s'.flags == s'.raised()
    ensures s'.log() == s.log() || s.threads[t].WResetDo? || s.threads[t].SOr? || s.threads[t].CDo?
  {
    if |s'.log()| > |s.log()| {
      assert s'.log()[..|s'.log()| - 1] == s.log();
    }
  }

  lemma SeenStep(s: State, t: nat, s': State, u: nat)
    requires s.flags == s.raised() && Next(s, t, s') && u in s.threads && Seen(s, s.threads[u])
    ensures u in s'.threads && Seen(s', s'.threads[u])
  {
    hide Replay;
    hide WakeAll;
    LogStep(s, t, s');
    assert forall at: nat | at <= |s.log()| :: s'.log()[..at] == s.log()[..at];
    if u != t {
      Others(s, t, s', u);
      hide Next;
    } else if s.threads[t].WTest? {
      assert s.log()[..|s.log()|] == s.log();
    }
  }

  lemma NotMissedStep(s: State, t: nat, s': State, u: nat)
    requires Exclusive(s) && Next(s, t, s') && u in s.threads && NotMissed(s, s.threads[u])
    ensures u in s'.threads && NotMissed(s', s'.threads[u])
  {
    if u != t {
      Others(s, t, s', u);
    }
    hide WakeAll;
  }

  /** What a step makes of the call of its thread. */
  lemma LogRecord(s: State, t: nat, s': State)
    requires Next(s, t, s') && OwnCall(s, t, s.threads[t])
    ensures t in s.threads && t in s'.threads
    ensures GoesOn(s.book, s'.book, Known(s.threads[t]), Known(s'.threads[t]), Fits)
  {
    hide WakeAll;
    hide Replay;
  }

  lemma BeginRecord(s: State, t: nat, s': State)
    requires t in s.threads && s.threads[t].Idle? && Begin(s, t, s')
    ensures GoesOn(PassBook(s), PassBook(s'), KnownPass(s.threads[t]), KnownPass(s'.threads[t]), FitsPass)
  {
  }

  lemma TestRecord(s: State, t: nat, r: Req, s': State)
    requires t in s.threads && s.threads[t] == WTest(r) && Test(s, t, r, s')
    ensures GoesOn(PassBook(s), PassBook(s'), KnownPass(s.threads[t]), KnownPass(s'.threads[t]), FitsPass)
  {
  }

  lemma MovesOn(s: State, t: nat, s': State)
    requires Next(s, t, s')
    ensures t in s.threads && t in s'.threads
  {
    hide WakeAll;
  }

  lemma PassRecord(s: State, t: nat, s': State)
    requires Next(s, t, s')
    ensures t in s.threads && t in s'.threads
    ensures GoesOn(PassBook(s), PassBook(s'), KnownPass(s.threads[t]), KnownPass(s'.threads[t]), FitsPass)
  {
    hide WakeAll;
    hide Replay;
    hide Begin;
    hide Test;
    MovesOn(s, t, s');
    if s.threads[t].Idle? {
      BeginRecord(s, t, s');
    } else if s.threads[t].WTest? {
      TestRecord(s, t, s.threads[t].r, s');
    }
  }

  /** Only the wait of a thread's own call may leave an outcome. */
  ghost predicate Wakes(s: State, t: nat, s': State)
    requires t in s.threads
  {
    s'.woke == s.woke || (s.threads[t].Waiting? && s'.woke.Keys == s.woke.Keys + {s.threads[t].r.c}
                          && forall c | c in s.woke && c != s.threads[t].r.c :: s'.woke[c] == s.woke[c])
  }

  lemma OwnRecord(s: State, t: nat, s': State)
    requires Next(s, t, s') && OwnCall(s, t, s.threads[t])
    ensures t in s.threads && t in s'.threads && OwnCall(s', t, s'.threads[t]) && Wakes(s, t, s')
  {
    hide WakeAll;
    hide Replay;
  }

  /** What a thread knows does not change when another steps. */
  lemma OthersKnow(s: State, t: nat, s': State, u: nat)
    requires Next(s, t, s') && u in s.threads && u != t
    ensures u in s'.threads && s'.threads.Keys == s.threads.Keys
    ensures Known(s'.threads[u]) == Known(s.threads[u]) && KnownPass(s'.threads[u]) == KnownPass(s.threads[u])
    ensures OwnCall(s, u, s.threads[u]) ==> OwnCall(s, u, s'.threads[u])
  {
    Others(s, t, s', u);
    hide Next;
  }

  lemma OtherOwn(s: State, t: nat, s': State, u: nat, pc: PC)
    requires t in s.threads && u in s.threads && u != t && Kept(s.book, s.threads, Known, Fits)
    requires OwnCall(s, u, pc) && Known(pc) == Known(s.threads[u]) && Wakes(s, t, s')
    ensures OwnCall(s', u, pc)
  {
    assert Known(s.threads[t]).Some? && Known(s.threads[u]).Some? ==>
        Known(s.threads[t]).value.c != Known(s.threads[u]).value.c;
    hide Kept;
  }

  lemma RecordedStep(s: State, t: nat, s': State)
    requires Recorded(s) && Next(s, t, s')
    ensures Recorded(s')
  {
    hide Kept;
    hide GoesOn;
    hide OwnCall;
    hide Known;
    hide KnownPass;
    SomeThread(s, t, s');
    LogRecord(s, t, s');
    PassRecord(s, t, s');
    OwnRecord(s, t, s');
    forall u | u in s.threads && u != t
      ensures Known(s'.threads[u]) == Known(s.threads[u]) && KnownPass(s'.threads[u]) == KnownPass(s.threads[u])
      ensures OwnCall(s', u, s'.threads[u])
    {
      OthersKnow(s, t, s', u);
      OtherOwn(s, t, s', u, s'.threads[u]);
    }
    hide Next;
    KeptStep(s.book, s'.book, s.threads, s'.threads, t, Known, Fits);
    KeptStep(PassBook(s), PassBook(s'), s.threads, s'.threads, t, KnownPass, FitsPass);
  }

  lemma SomeThread(s: State, t: nat, s': State)
    requires Next(s, t, s')
    ensures t in s.threads && t in s'.threads && s'.threads.Keys == s.threads.Keys
  {
    Locks(s, t, s');
  }

  lemma InvStep(s: State, t: nat, s': State)
    requires Inv(s) && Next(s, t, s')
    ensures Inv(s')
  {
    hide Next;
    hide Recorded;
    hide NotMissed;
    hide Seen;
    hide Replay;
    RecordedStep(s, t, s');
    ExclusiveStep(s, t, s');
    LogStep(s, t, s');
    Locks(s, t, s');
    forall u | u in s'.threads
      ensures NotMissed(s', s'.threads[u]) && Seen(s', s'.threads[u])
    {
      NotMissedStep(s, t, s', u);
      SeenStep(s, t, s', u);
    }
  }

  // ---------------------------------------------------------------- whole runs

  ghost predicate Moves(s: State, s': State) {
    exists t :: Next(s, t, s')
  }

  ghost predicate IsRun(run: seq<State>) {
    Runs.Run(run, Init, Moves)
  }

  lemma RunInv(run: seq<State>, i: nat)
    requires IsRun(run) && i < |run|
    ensures Inv(run[i])
  {
    assert forall s | Init(s) :: Inv(s);
    hide Init;
    hide Next;
    hide Inv;
    forall s, s' | Inv(s) && Moves(s, s') ensures Inv(s') {
      var t: nat :| Next(s, t, s');
      InvStep(s, t, s');
    }
    Runs.RunKeeps(run, Init, Moves, Inv, i);
  }

  /** No missed set: whenever the mutex is free, no thread in the wait set has an awaited flag up. */
  lemma NoMissedSet(run: seq<State>, i: nat, u: nat)
    requires IsRun(run) && i < |run| && u in run[i].threads && run[i].threads[u].Waiting?
    ensures run[i].mutex == None ==> run[i].flags * run[i].threads[u].r.f == {}
    ensures !Pending(run[i]) ==> run[i].flags * run[i].threads[u].r.f == {}
  {
    RunInv(run, i);
    assert NotMissed(run[i], run[i].threads[u]);
  }

  /** During a wait that returns success, an awaited flag was up that a set had raised and nothing taken down. */
  lemma SuccessSawASet(run: seq<State>, i: nat, u: nat)
    requires IsRun(run) && i < |run| && u in run[i].threads
    requires run[i].threads[u].WReturn? && run[i].threads[u].ret == Success
    ensures var s, pc := run[i], run[i].threads[u];
            pc.r.from <= pc.at <= |s.log()| && exists b: Bit, e :: b in pc.r.f && Stands(s.log()[..pc.at], e, b)
  {
    RunInv(run, i);
    var s, pc := run[i], run[i].threads[u];
    assert Seen(s, pc);
    var b: Bit :| b in Replay(s.log()[..pc.at]) * pc.r.f;
    UpIffStands(s.log()[..pc.at], b);
  }

  /**
    What em_eventflag_wait returns: success if and only if a test of this call
    found an awaited flag up, whether or not it resets; else what its last wait
    ended with. It resets exactly if it succeeds and was asked to.
   */
  lemma WaitReturns(run: seq<State>, i: nat, u: nat)
    requires IsRun(run) && i < |run| && u in run[i].threads && run[i].threads[u].WReturn?
    ensures var s, pc := run[i], run[i].threads[u];
            && pc.r.c < |s.book.calls| && s.book.calls[pc.r.c] == ToWait(pc.r.f, pc.r.reset)
            && (pc.ret == Success <==> Made(s.passes, pc.r.c))
            && (pc.ret == Success ==> (pc.r.c, Pass(pc.r, pc.at)) in s.passes)
            && (pc.ret != Success ==> pc.r.c in s.woke && s.woke[pc.r.c] == pc.ret)
            && (Made(s.log(), pc.r.c) <==> pc.ret == Success && pc.r.reset)
            && (Made(s.log(), pc.r.c) ==> (pc.r.c, ResetBits(pc.r.f)) in s.log())
  {
    RunInv(run, i);
    var s, pc := run[i], run[i].threads[u];
    AccountIs(s.book, s.threads, u, Known, Fits, ResetBits(pc.r.f));
    AccountIs(PassBook(s), s.threads, u, KnownPass, FitsPass, Pass(pc.r, pc.at));
    assert OwnCall(s, u, pc);
  }

  /** A test that succeeded came after its call began, and found an awaited flag up. */
  lemma PassSawFlag(run: seq<State>, i: nat, u: nat)
    requires IsRun(run) && i < |run| && u in run[i].threads && Passed(run[i].threads[u]).Some?
    ensures var s, (r, at) := run[i], Passed(run[i].threads[u]).value;
            r.from <= at <= |s.log()| && Replay(s.log()[..at]) * r.f != {}
  {
    RunInv(run, i);
    assert Seen(run[i], run[i].threads[u]);
  }

  /** A set that returns has raised exactly the flags it was given, and a clear that returns has cleared. */
  lemma SetAndClearReturn(run: seq<State>, i: nat, u: nat)
    requires IsRun(run) && i < |run| && u in run[i].threads
    ensures var s, pc := run[i], run[i].threads[u];
            && (pc.SReturn? ==> pc.c < |s.book.calls| && s.book.calls[pc.c] == ToSet(pc.f)
                                && (pc.c, SetBits(pc.f)) in s.log())
            && (pc.CReturn? ==> pc.c < |s.book.calls| && s.book.calls[pc.c] == ToClear && (pc.c, ClearAll) in s.log())
  {
    RunInv(run, i);
    var s, pc := run[i], run[i].threads[u];
    if pc.SReturn? || pc.CReturn? {
      AccountIs(s.book, s.threads, u, Known, Fits, if pc.SReturn? then SetBits(pc.f) else ClearAll);
    }
  }

  /** The flags are what the events make of them; each event is the only one of its call, and what that asked for. */
  lemma FlagsAsAsked(run: seq<State>, i: nat, j: nat, k: nat)
    requires IsRun(run) && i < |run|
    ensures run[i].flags == Replay(run[i].log())
    ensures j < k < |run[i].log()| ==> run[i].log()[j].0 != run[i].log()[k].0
    ensures k < |run[i].log()| ==>
        var b, c := run[i].book, run[i].log()[k].0;
        c < |b.calls|
        && match b.log[k].1
           case SetBits(f) => b.calls[c] == ToSet(f)
           case ResetBits(f) => b.calls[c] == ToWait(f, true)
           case ClearAll => b.calls[c] == ToClear
  {
    RunInv(run, i);
  }

  // ---------------------------------------------------------------- no deadlock

  /** The thread is inside a call and not in the wait set. */
  predicate Busy(pc: PC) {
    !pc.Idle? && !pc.Waiting?
  }

  lemma CanStep(s: State, t: nat) returns (s': State)
    requires t in s.threads && Busy(s.threads[t]) && (Holds(s.threads[t]) || s.mutex == None)
    ensures Next(s, t, s')
  {
    match s.threads[t]
    case WLock(r) => s' := Goto(s, t, WTest(r)).(mutex := Some(t));
    case WTest(r) =>
      if s.flags * r.f != {} {
        s' := Goto(s, t, WUnlock(r, Success, |s.log()|)).(passes := s.passes + [(r.c, Pass(r, |s.log()|))]);
      } else {
        s' := Goto(s, t, Waiting(r)).(mutex := None);
      }
    case WBack(r, ret) =>
      s' := Goto(s, t, if ret == Success then WTest(r) else WUnlock(r, ret, |s.log()|)).(mutex := Some(t));
    case WUnlock(r, ret, at) =>
      s' := Goto(s, t, if ret == Success && r.reset then WReset(r, at) else WReturn(r, ret, at)).(mutex := None);
    case WReset(r, at) => s' := Goto(s, t, WResetDo(r, at)).(mutex := Some(t));
    case WResetDo(r, at) =>
      s' := Goto(s, t, WResetUnlock(r, at)).(flags := s.flags - r.f, book := Doing(s, r.c, ResetBits(r.f)));
    case WResetUnlock(r, at) => s' := Goto(s, t, WReturn(r, Success, at)).(mutex := None);
    case WReturn(r, ret, at) => s' := Goto(s, t, Idle);
    case SLock(c, f) => s' := Goto(s, t, SOr(c, f)).(mutex := Some(t));
    case SOr(c, f) => s' := Goto(s, t, SBroadcast(c, f)).(flags := s.flags + f, book := Doing(s, c, SetBits(f)));
    case SBroadcast(c, f) => s' := s.(threads := WakeAll(s.threads)[t := SUnlock(c, f)]);
    case SUnlock(c, f) => s' := Goto(s, t, SReturn(c, f)).(mutex := None);
    case SReturn(_, _) => s' := Goto(s, t, Idle);
    case CLock(c) => s' := Goto(s, t, CDo(c)).(mutex := Some(t));
    case CDo(c) => s' := Goto(s, t, CUnlock(c)).(flags := {}, book := Doing(s, c, ClearAll));
    case CUnlock(c) => s' := Goto(s, t, CReturn(c)).(mutex := None);
    case CReturn(_) => s' := Goto(s, t, Idle);
  }

  /** While any call is in progress outside the wait set, some such call can step. */
  lemma NoDeadlock(s: State, u: nat) returns (t: nat, s': State)
    requires Inv(s) && u in s.threads && Busy(s.threads[u])
    ensures t in s.threads && Busy(s.threads[t]) && Next(s, t, s')
  {
    hide Next;
    t := if s.mutex.Some? then s.mutex.value else u;
    s' := CanStep(s, t);
  }

  // ---------------------------------------------------------------- what is not promised

  function Three(flags: Word, mutex: Option<nat>, p0: PC, p1: PC, p2: PC, calls: seq<Asked>, log: Log,
                 passes: seq<(nat, Pass)>): State {
    State(flags, mutex, map[0 := p0, 1 := p1, 2 := p2], Book(calls, log), passes, map[])
  }

  /**
    Thread 2 raises flag 0; then threads 0 and 1, which both reset it, test it before
    either does.
   */
  function BothPassAt(k: nat): State {
    var up := {0 as Bit};
    var r, q := Req(0, 1, up, true, 1), Req(1, 2, up, true, 1);
    var calls := [ToSet(up), ToWait(up, true), ToWait(up, true)];
    var log: Log := [(0, SetBits(up))];
    var passes := [(1, Pass(r, 1)), (2, Pass(q, 1))];
    match k
    case 0 => Three({}, None, Idle, Idle, Idle, calls[..0], log[..0], passes[..0])
    case 1 => Three({}, None, Idle, Idle, SLock(0, up), calls[..1], log[..0], passes[..0])
    case 2 => Three({}, Some(2), Idle, Idle, SOr(0, up), calls[..1], log[..0], passes[..0])
    case 3 => Three(up, Some(2), Idle, Idle, SBroadcast(0, up), calls[..1], log[..1], passes[..0])
    case 4 => Three(up, Some(2), Idle, Idle, SUnlock(0, up), calls[..1], log[..1], passes[..0])
    case 5 => Three(up, None, Idle, Idle, SReturn(0, up), calls[..1], log[..1], passes[..0])
    case 6 => Three(up, None, Idle, Idle, Idle, calls[..1], log[..1], passes[..0])
    case 7 => Three(up, None, WLock(r), Idle, Idle, calls[..2], log[..1], passes[..0])
    case 8 => Three(up, Some(0), WTest(r), Idle, Idle, calls[..2], log[..1], passes[..0])
    case 9 => Three(up, Some(0), WUnlock(r, Success, 1), Idle, Idle, calls[..2], log[..1], passes[..1])
    case 10 => Three(up, None, WReset(r, 1), Idle, Idle, calls[..2], log[..1], passes[..1])
    case 11 => Three(up, None, WReset(r, 1), WLock(q), Idle, calls[..3], log[..1], passes[..1])
    case 12 => Three(up, Some(1), WReset(r, 1), WTest(q), Idle, calls[..3], log[..1], passes[..1])
    case 13 => Three(up, Some(1), WReset(r, 1), WUnlock(q, Success, 1), Idle, calls[..3], log[..1], passes[..2])
    case _ => Three(up, None, WReset(r, 1), WReset(q, 1), Idle, calls[..3], log[..1], passes[..2])
  }

  function BothPassMover(k: nat): nat {
    if k < 6 then 2 else if k < 10 then 0 else 1
  }

  lemma BothPassSets(k: nat)
    requires k < 6
    ensures Next(BothPassAt(k), BothPassMover(k), BothPassAt(k + 1))
  {
    hide Test;
    hide Back;
    match k
    case 0 => assert BothPassAt(1).threads == BothPassAt(0).threads[2 := BothPassAt(1).threads[2]];
    case 1 => assert BothPassAt(2).threads == BothPassAt(1).threads[2 := BothPassAt(2).threads[2]];
    case 2 => assert BothPassAt(3).threads == BothPassAt(2).threads[2 := BothPassAt(3).threads[2]];
    case 3 => assert BothPassAt(4).threads == BothPassAt(3).threads[2 := BothPassAt(4).threads[2]];
    case 4 => assert BothPassAt(5).threads == BothPassAt(4).threads[2 := BothPassAt(5).threads[2]];
    case _ => assert BothPassAt(6).threads == BothPassAt(5).threads[2 := BothPassAt(6).threads[2]];
  }

  lemma BothPassFirst(k: nat)
    requires 6 <= k < 10
    ensures Next(BothPassAt(k), BothPassMover(k), BothPassAt(k + 1))
  {
    hide WakeAll;
    hide Back;
    assert 0 in BothPassAt(7).flags * {0 as Bit};
    match k
    case 6 => assert BothPassAt(7).threads == BothPassAt(6).threads[0 := BothPassAt(7).threads[0]];
    case 7 => assert BothPassAt(8).threads == BothPassAt(7).threads[0 := BothPassAt(8).threads[0]];
    case 8 => assert BothPassAt(9).threads == BothPassAt(8).threads[0 := BothPassAt(9).threads[0]];
    case _ => assert BothPassAt(10).threads == BothPassAt(9).threads[0 := BothPassAt(10).threads[0]];
  }

  lemma BothPassSecond(k: nat)
    requires 10 <= k < 14
    ensures Next(BothPassAt(k), BothPassMover(k), BothPassAt(k + 1))
  {
    hide WakeAll;
    hide Back;
    assert 0 in BothPassAt(11).flags * {0 as Bit};
    match k
    case 10 => assert BothPassAt(11).threads == BothPassAt(10).threads[1 := BothPassAt(11).threads[1]];
    case 11 => assert BothPassAt(12).threads == BothPassAt(11).threads[1 := BothPassAt(12).threads[1]];
    case 12 => assert BothPassAt(13).threads == BothPassAt(12).threads[1 := BothPassAt(13).threads[1]];
    case _ => assert BothPassAt(14).threads == BothPassAt(13).threads[1 := BothPassAt(14).threads[1]];
  }

  lemma BothPassStep(k: nat)
    requires k < 14
    ensures Next(BothPassAt(k), BothPassMover(k), BothPassAt(k + 1))
  {
    hide Next;
    hide BothPassAt;
    if k < 6 {
      BothPassSets(k);
    } else if k < 10 {
      BothPassFirst(k);
    } else {
      BothPassSecond(k);
    }
  }

  /** Testing and resetting are two critical sections, so one set can satisfy two resetting waits. */
  lemma OneSetTwoSuccesses(run: seq<State>)
    requires |run| == 15 && forall k | 0 <= k < 15 :: run[k] == BothPassAt(k)
    ensures IsRun(run)
    ensures var s := run[14];
            && |s.log()| == 1 && |s.passes| == 2
            && 0 in s.threads && 1 in s.threads && s.threads[0].WReset? && s.threads[1].WReset?
  {
    assert Init(run[0]);
    forall i, j | 0 <= i && j == i + 1 && j < |run|
      ensures Moves(run[i], run[j])
    {
      BothPassStep(i);
      assert Next(run[i], BothPassMover(i), run[j]);
    }
  }
}
