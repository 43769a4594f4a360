/**
  When em_trymalloc tries again: exactly under a positive timeout. A caller that
  passes EM_NO_TIMEOUT, to wait as long as it takes, gets one wait.
 */
module TryTimeouts {
  import opened Basics
  import opened Calls
  import opened Segments
  import opened TryMalloc

  /** Thread `u` failed a second time in one call with this timeout, and waits again. */
  ghost predicate WaitsAgain(run: seq<State>, i: nat, u: nat, timeout: int) {
    && IsRun(run) && i < |run| && u in run[i].threads && run[i].threads[u].Waiting?
    && run[i].threads[u].r.timeout == timeout && run[i].threads[u].r.attempts > 1
  }

  /** A call of thread `u` with this timeout returns failure after one wait. */
  ghost predicate FailsAfterOneWait(run: seq<State>, i: nat, u: nat, timeout: int) {
    && IsRun(run) && i < |run| && u in run[i].threads && run[i].threads[u].Returned?
    && run[i].threads[u].r.timeout == timeout && run[i].threads[u].got == None && |run[i].threads[u].r.times| == 1
  }

  // ---------------------------------------------------------------- runs of one thread

  /** Thread 0 alone, asking for two units of an arena of one. */
  function Lone(timeout: int, pc: PC): State {
    State(1, 1, Fresh(1), if HoldsMutex(pc) then Some(0) else None, if HoldsCond(pc) then Some(0) else None,
          map[0 := pc], {}, 0, Book(if pc.Idle? then [] else [ToMalloc(2, timeout)], []))
  }

  /** It fails and waits, and reads the clock when it is woken; below the timeout it fails and waits again. */
  function LonePC(timeout: int, passed: nat, k: nat): PC {
    var r0, r1 := Req(0, 2, timeout, 0, 0, []), Req(0, 2, timeout, 1, 0, []);
    var d1, r2 := Req(0, 2, timeout, 1, 0, [passed]), Req(0, 2, timeout, 2, 0, [passed]);
    match k
    case 0 => Idle
    case 1 => WantMutex(r0)
    case 2 => Attempt(r0)
    case 3 => WantCond(r1)
    case 4 => DropMutex(r1)
    case 5 => AboutToWait(r1)
    case 6 => Waiting(r1)
    case 7 => Woken(r1)
    case 8 => DropCond(r1)
    case 9 => Decide(d1)
    case 10 => if passed < timeout then WantMutex(d1) else Returned(d1, None)
    case 11 => Attempt(d1)
    case 12 => WantCond(r2)
    case 13 => DropMutex(r2)
    case 14 => AboutToWait(r2)
    case _ => Waiting(r2)
  }

  lemma LoneWaits(timeout: int, passed: nat, k: nat)
    requires timeout != NO_WAIT && k < 7
    ensures Next(Lone(timeout, LonePC(timeout, passed, k)), 0, Lone(timeout, LonePC(timeout, passed, k + 1)))
  {
    hide WakeAll;
    var s, pc' := Lone(timeout, LonePC(timeout, passed, k)), LonePC(timeout, passed, k + 1);
    assert Lone(timeout, pc').threads == s.threads[0 := pc'];
    assert !CanMalloc(Fresh(1), 1, 2);
  }

  lemma LoneDecides(timeout: int, passed: nat, k: nat)
    requires timeout != NO_WAIT && 7 <= k < 10
    ensures Next(Lone(timeout, LonePC(timeout, passed, k)), 0, Lone(timeout, LonePC(timeout, passed, k + 1)))
  {
    hide WakeAll;
    hide CanMalloc;
    var s, pc' := Lone(timeout, LonePC(timeout, passed, k)), LonePC(timeout, passed, k + 1);
    assert Req(0, 2, timeout, 1, 0, []).times + [passed] == [passed];
    assert Lone(timeout, pc').threads == s.threads[0 := pc'];
  }

  lemma LoneWaitsAgain(timeout: int, passed: nat, k: nat)
    requires passed < timeout && 10 <= k < 15
    ensures Next(Lone(timeout, LonePC(timeout, passed, k)), 0, Lone(timeout, LonePC(timeout, passed, k + 1)))
  {
    hide WakeAll;
    var s, pc' := Lone(timeout, LonePC(timeout, passed, k)), LonePC(timeout, passed, k + 1);
    assert Lone(timeout, pc').threads == s.threads[0 := pc'];
    assert !CanMalloc(Fresh(1), 1, 2);
  }

  lemma LoneRun(timeout: int, passed: nat, run: seq<State>)
    requires timeout != NO_WAIT && 0 < |run| <= if passed < timeout then 16 else 11
    requires forall k | 0 <= k < |run| :: run[k] == Lone(timeout, LonePC(timeout, passed, k))
    ensures IsRun(run)
  {
    assert Init(run[0]);
    forall i, j | 0 <= i && j == i + 1 && j < |run|
      ensures Moves(run[i], run[j])
    {
      if i < 7 {
        LoneWaits(timeout, passed, i);
      } else if i < 10 {
        LoneDecides(timeout, passed, i);
      } else {
        LoneWaitsAgain(timeout, passed, i);
      }
      assert Next(run[i], 0, run[j]);
    }
  }

  /** Some run waits a second time under a timeout if and only if the timeout is positive. */
  lemma SecondAttemptIffTimeout(timeout: int)
    ensures (exists run, i, u :: WaitsAgain(run, i, u, timeout)) <==> timeout > 0
  {
    if run, i, u :| WaitsAgain(run, i, u, timeout) {
      SecondAttemptNeedsTimeout(run, i, u);
    }
    if timeout > 0 {
      var run := seq(16, k requires 0 <= k < 16 => Lone(timeout, LonePC(timeout, 0, k)));
      LoneRun(timeout, 0, run);
      assert WaitsAgain(run, 15, 0, timeout);
    }
  }

  lemma FailureMayWait(run: seq<State>, i: nat, u: nat, timeout: int)
    requires FailsAfterOneWait(run, i, u, timeout)
    ensures timeout != NO_WAIT
  {
    hide Inv;
    RunInv(run, i);
    InvTimes(run[i], run[i], u);
  }

  /** And some run returns failure after one wait under a timeout if and only if the call may wait at all. */
  lemma FailureIffMayWait(timeout: int)
    ensures (exists run, i, u :: FailsAfterOneWait(run, i, u, timeout)) <==> timeout != NO_WAIT
  {
    hide IsRun;
    if run: seq<State>, i: nat, u: nat :| FailsAfterOneWait(run, i, u, timeout) {
      FailureMayWait(run, i, u, timeout);
    }
    if timeout != NO_WAIT {
      var passed := if timeout > 0 then timeout else 0;
      var run := seq(11, k requires 0 <= k < 11 => Lone(timeout, LonePC(timeout, passed, k)));
      LoneRun(timeout, passed, run);
      assert FailsAfterOneWait(run, 10, 0, timeout);
    }
  }

  // ---------------------------------------------------------------- a run that should have tried again

  /** Threads 0 and 1 over an arena of one unit; each mutex is with the one that holds it. */
  function Duo(segs: seq<Seg>, p: PC, q: PC, handles: set<nat>, freed: nat, calls: seq<Asked>,
               log: seq<(nat, Deed)>): State {
    State(1, 1, segs,
          if HoldsMutex(p) then Some(0) else if HoldsMutex(q) then Some(1) else None,
          if HoldsCond(p) then Some(0) else if HoldsCond(q) then Some(1) else None,
          map[0 := p, 1 := q], handles, freed, Book(calls, log))
  }

  /**
    Thread 1 takes the unit. Thread 0 asks for it with EM_NO_TIMEOUT, fails and
    waits. Thread 1 releases the unit and wakes thread 0, which then leaves.
   */
  function GivesUpAt(k: nat): State {
    var open, full := Fresh(1), [Seg(0, 1, true)];
    var r, r0 := Req(0, 1, NO_WAIT, 0, 0, []), Req(1, 1, NO_TIMEOUT, 0, 0, []);
    var r1, r2 := Req(1, 1, NO_TIMEOUT, 1, 0, []), Req(1, 1, NO_TIMEOUT, 1, 0, [0]);
    var calls := [ToMalloc(1, NO_WAIT), ToMalloc(1, NO_TIMEOUT), ToFree(0)];
    var log: seq<(nat, Deed)> := [(0, Took(0, 1)), (2, Gave(0))];
    match k
    case 0 => Duo(open, Idle, Idle, {}, 0, calls[..0], log[..0])
    case 1 => Duo(open, Idle, WantMutex(r), {}, 0, calls[..1], log[..0])
    case 2 => Duo(open, Idle, Attempt(r), {}, 0, calls[..1], log[..0])
    case 3 => Duo(full, Idle, UnlockOk(r, 0), {}, 0, calls[..1], log[..1])
    case 4 => Duo(full, Idle, Returned(r, Some(0)), {}, 0, calls[..1], log[..1])
    case 5 => Duo(full, Idle, Idle, {0}, 0, calls[..1], log[..1])
    case 6 => Duo(full, WantMutex(r0), Idle, {0}, 0, calls[..2], log[..1])
    case 7 => Duo(full, Attempt(r0), Idle, {0}, 0, calls[..2], log[..1])
    case 8 => Duo(full, WantCond(r1), Idle, {0}, 0, calls[..2], log[..1])
    case 9 => Duo(full, DropMutex(r1), Idle, {0}, 0, calls[..2], log[..1])
    case 10 => Duo(full, AboutToWait(r1), Idle, {0}, 0, calls[..2], log[..1])
    case 11 => Duo(full, Waiting(r1), Idle, {0}, 0, calls[..2], log[..1])
    case 12 => Duo(full, Waiting(r1), FreeWant(2, 0), {}, 0, calls[..3], log[..1])
    case 13 => Duo(full, Waiting(r1), FreeDo(2, 0), {}, 0, calls[..3], log[..1])
    case 14 => Duo(open, Waiting(r1), FreeWantCond(2, 0), {}, 0, calls[..3], log[..2])
    case 15 => Duo(open, Waiting(r1), FreeBroadcast(2, 0), {}, 0, calls[..3], log[..2])
    case 16 => Duo(open, Woken(r1), FreeDropCond(2, 0), {}, 1, calls[..3], log[..2])
    case 17 => Duo(open, Woken(r1), FreeDropMutex(2, 0), {}, 1, calls[..3], log[..2])
    case 18 => Duo(open, Woken(r1), FreeReturned(2, 0), {}, 1, calls[..3], log[..2])
    case 19 => Duo(open, Woken(r1), Idle, {}, 1, calls[..3], log[..2])
    case 20 => Duo(open, DropCond(r1), Idle, {}, 1, calls[..3], log[..2])
    case 21 => Duo(open, Decide(r2), Idle, {}, 1, calls[..3], log[..2])
    case _ => Duo(open, Returned(r2, None), Idle, {}, 1, calls[..3], log[..2])
  }

  lemma FreeBegins(s: State, t: nat, start: nat)
    requires t in s.threads && s.threads[t].Idle? && start in s.handles
    ensures Begin(s, t, Goto(s, t, FreeWant(|s.book.calls|, start)).(
                          handles := s.handles - {start}, book := Asking(s, ToFree(start))))
  {
  }

  lemma UnitTaken()
    ensures CanMalloc(Fresh(1), 1, 1) && Fresh(1)[0].Fits(1) && Malloc(Fresh(1), 0, 1) == [Seg(0, 1, true)]
  {
    assert Fresh(1)[0].Fits(1);
  }

  lemma UnitFreed()
    ensures var full := [Seg(0, 1, true)]; Tiled(full, 1) && Free(full, Locate(full, 1, 0)) == Fresh(1)
  {
  }

  function GivesUpMover(k: nat): nat {
    if k < 5 then 1 else if k < 11 then 0 else if k < 19 then 1 else 0
  }

  lemma GivesUpStarts(k: nat)
    requires k < 2
    ensures Next(GivesUpAt(k), GivesUpMover(k), GivesUpAt(k + 1))
  {
    hide WakeAll;
    hide TryOnce;
    hide ReadClock;
    hide DoFree;
    hide CanMalloc;
    hide Malloc;
    hide Free;
    match k
    case 0 => assert GivesUpAt(1).threads == GivesUpAt(0).threads[1 := GivesUpAt(1).threads[1]];
    case _ => assert GivesUpAt(2).threads == GivesUpAt(1).threads[1 := GivesUpAt(2).threads[1]];
  }

  lemma GivesUpTakes()
    ensures Next(GivesUpAt(2), 1, GivesUpAt(3))
  {
    hide WakeAll;
    hide Begin;
    hide ReadClock;
    hide DoFree;
    hide CanMalloc;
    hide Malloc;
    UnitTaken();
    assert GivesUpAt(3).threads == GivesUpAt(2).threads[1 := GivesUpAt(3).threads[1]];
  }

  lemma GivesUpHolds(k: nat)
    requires 3 <= k < 5
    ensures Next(GivesUpAt(k), GivesUpMover(k), GivesUpAt(k + 1))
  {
    hide WakeAll;
    hide Begin;
    hide TryOnce;
    hide ReadClock;
    hide DoFree;
    hide CanMalloc;
    hide Malloc;
    hide Free;
    match k
    case 3 => assert GivesUpAt(4).threads == GivesUpAt(3).threads[1 := GivesUpAt(4).threads[1]];
    case _ => assert GivesUpAt(5).threads == GivesUpAt(4).threads[1 := GivesUpAt(5).threads[1]];
  }

  lemma GivesUpAsks(k: nat)
    requires 5 <= k < 7
    ensures Next(GivesUpAt(k), GivesUpMover(k), GivesUpAt(k + 1))
  {
    hide WakeAll;
    hide TryOnce;
    hide ReadClock;
    hide DoFree;
    hide CanMalloc;
    hide Malloc;
    hide Free;
    match k
    case 5 => assert GivesUpAt(6).threads == GivesUpAt(5).threads[0 := GivesUpAt(6).threads[0]];
    case _ => assert GivesUpAt(7).threads == GivesUpAt(6).threads[0 := GivesUpAt(7).threads[0]];
  }

  lemma GivesUpFails()
    ensures Next(GivesUpAt(7), 0, GivesUpAt(8))
  {
    hide WakeAll;
    hide Begin;
    hide ReadClock;
    hide DoFree;
    assert !CanMalloc([Seg(0, 1, true)], 1, 1);
    assert GivesUpAt(8).threads == GivesUpAt(7).threads[0 := GivesUpAt(8).threads[0]];
  }

  lemma GivesUpWaits(k: nat)
    requires 8 <= k < 11
    ensures Next(GivesUpAt(k), GivesUpMover(k), GivesUpAt(k + 1))
  {
    hide WakeAll;
    hide Begin;
    hide TryOnce;
    hide ReadClock;
    hide DoFree;
    hide CanMalloc;
    hide Malloc;
    hide Free;
    match k
    case 8 => assert GivesUpAt(9).threads == GivesUpAt(8).threads[0 := GivesUpAt(9).threads[0]];
    case 9 => assert GivesUpAt(10).threads == GivesUpAt(9).threads[0 := GivesUpAt(10).threads[0]];
    case _ => assert GivesUpAt(11).threads == GivesUpAt(10).threads[0 := GivesUpAt(11).threads[0]];
  }

  lemma GivesUpStartsFree()
    ensures Next(GivesUpAt(11), 1, GivesUpAt(12))
  {
    hide WakeAll;
    hide Begin;
    hide TryOnce;
    hide ReadClock;
    hide DoFree;
    hide CanMalloc;
    hide Malloc;
    hide Free;
    FreeBegins(GivesUpAt(11), 1, 0);
    assert GivesUpAt(12).book == Asking(GivesUpAt(11), ToFree(0));
    assert GivesUpAt(12).handles == GivesUpAt(11).handles - {0};
    assert GivesUpAt(12).threads == GivesUpAt(11).threads[1 := GivesUpAt(12).threads[1]];
  }

  lemma GivesUpLocksFree()
    ensures Next(GivesUpAt(12), 1, GivesUpAt(13))
  {
    hide WakeAll;
    hide Begin;
    hide TryOnce;
    hide ReadClock;
    hide DoFree;
    hide CanMalloc;
    hide Malloc;
    hide Free;
    assert GivesUpAt(13).threads == GivesUpAt(12).threads[1 := GivesUpAt(13).threads[1]];
  }

  lemma GivesUpFrees()
    ensures Next(GivesUpAt(13), 1, GivesUpAt(14))
  {
    hide WakeAll;
    hide Begin;
    hide TryOnce;
    hide ReadClock;
    hide Tiled;
    hide Free;
    UnitFreed();
    assert GivesUpAt(14).threads == GivesUpAt(13).threads[1 := GivesUpAt(14).threads[1]];
  }

  lemma GivesUpLocks()
    ensures Next(GivesUpAt(14), 1, GivesUpAt(15))
  {
    hide WakeAll;
    hide Begin;
    hide TryOnce;
    hide ReadClock;
    hide DoFree;
    hide CanMalloc;
    hide Malloc;
    hide Free;
    assert GivesUpAt(15).threads == GivesUpAt(14).threads[1 := GivesUpAt(15).threads[1]];
  }

  lemma GivesUpWakes()
    ensures Next(GivesUpAt(15), 1, GivesUpAt(16))
  {
    assert GivesUpAt(16).threads == WakeAll(GivesUpAt(15).threads)[1 := FreeDropCond(2, 0)];
  }

  lemma GivesUpUnlocks(k: nat)
    requires 16 <= k < 18
    ensures Next(GivesUpAt(k), GivesUpMover(k), GivesUpAt(k + 1))
  {
    hide WakeAll;
    hide Begin;
    hide TryOnce;
    hide ReadClock;
    hide DoFree;
    hide CanMalloc;
    hide Malloc;
    hide Free;
    match k
    case 16 => assert GivesUpAt(17).threads == GivesUpAt(16).threads[1 := GivesUpAt(17).threads[1]];
    case _ => assert GivesUpAt(18).threads == GivesUpAt(17).threads[1 := GivesUpAt(18).threads[1]];
  }

  lemma GivesUpEndsFree()
    ensures Next(GivesUpAt(18), 1, GivesUpAt(19))
  {
    hide WakeAll;
    hide Begin;
    hide TryOnce;
    hide ReadClock;
    hide DoFree;
    hide CanMalloc;
    hide Malloc;
    hide Free;
    assert GivesUpAt(19).threads == GivesUpAt(18).threads[1 := GivesUpAt(19).threads[1]];
  }

  lemma GivesUpRelocks()
    ensures Next(GivesUpAt(19), 0, GivesUpAt(20))
  {
    hide WakeAll;
    hide Begin;
    hide TryOnce;
    hide ReadClock;
    hide DoFree;
    hide CanMalloc;
    hide Malloc;
    hide Free;
    assert GivesUpAt(20).threads == GivesUpAt(19).threads[0 := GivesUpAt(20).threads[0]];
  }

  lemma GivesUpReads()
    ensures Next(GivesUpAt(20), 0, GivesUpAt(21))
  {
    hide WakeAll;
    hide Begin;
    hide TryOnce;
    hide DoFree;
    hide CanMalloc;
    hide Malloc;
    hide Free;
    assert GivesUpAt(20).threads[0].r.times + [0] == [0];
    assert GivesUpAt(21).threads == GivesUpAt(20).threads[0 := GivesUpAt(21).threads[0]];
  }

  lemma GivesUpLeaves()
    ensures Next(GivesUpAt(21), 0, GivesUpAt(22))
  {
    hide WakeAll;
    hide Begin;
    hide TryOnce;
    hide ReadClock;
    hide DoFree;
    hide CanMalloc;
    hide Malloc;
    hide Free;
    assert GivesUpAt(22).threads == GivesUpAt(21).threads[0 := GivesUpAt(22).threads[0]];
  }

  lemma GivesUpMoves(k: nat)
    requires k < 22
    ensures Next(GivesUpAt(k), GivesUpMover(k), GivesUpAt(k + 1))
  {
    hide Next;
    hide GivesUpAt;
    if k < 2 {
      GivesUpStarts(k);
    } else if k < 3 {
      GivesUpTakes();
    } else if k < 5 {
      GivesUpHolds(k);
    } else if k < 7 {
      GivesUpAsks(k);
    } else if k < 8 {
      GivesUpFails();
    } else if k < 11 {
      GivesUpWaits(k);
    } else if k < 12 {
      GivesUpStartsFree();
    } else if k < 13 {
      GivesUpLocksFree();
    } else if k < 14 {
      GivesUpFrees();
    } else if k < 15 {
      GivesUpLocks();
    } else if k < 16 {
      GivesUpWakes();
    } else if k < 18 {
      GivesUpUnlocks(k);
    } else if k < 19 {
      GivesUpEndsFree();
    } else if k < 20 {
      GivesUpRelocks();
    } else if k < 21 {
      GivesUpReads();
    } else {
      GivesUpLeaves();
    }
  }

  /**
    EM_NO_TIMEOUT does not wait as long as it takes: a release has completed and
    woken the waiting call, a retry would succeed, and the call returns failure.
   */
  lemma NoTimeoutFailsWithRoom(run: seq<State>)
    requires |run| == 23 && forall k | 0 <= k < 23 :: run[k] == GivesUpAt(k)
    ensures IsRun(run)
    ensures var s, s' := run[21], run[22];
            && 0 in s.threads && s.threads[0].Decide? && s.threads[0].r.timeout == NO_TIMEOUT
            && s.freed == s.threads[0].r.seen + 1 && CanMalloc(s.segs, s.cap, s.threads[0].r.n)
            && s' == Goto(s, 0, Returned(s.threads[0].r, None))
  {
    assert Init(run[0]);
    assert Fresh(1)[0].Fits(1);
    GivesUpLeaves();
    forall i, j | 0 <= i && j == i + 1 && j < |run|
      ensures Moves(run[i], run[j])
    {
      GivesUpMoves(i);
      assert Next(run[i], GivesUpMover(i), run[j]);
    }
  }
}
