/**
  When one set satisfies two resetting waits. em_eventflag_wait tests and resets
  in two critical sections, so it can happen; here is exactly when.
 */
module EventOnce {
  import opened Basics
  import opened Calls
  import opened EventFlag
  import Runs

  /** Set event `e` satisfies resetting pass `p` on flag `b`: it put the flag up, and it was up at the test. */
  ghost predicate Satisfies(log: Log, e: int, p: Pass, b: Bit) {
    p.at <= |log| && p.r.reset && b in p.r.f && Stands(log[..p.at], e, b)
  }

  ghost predicate Shared(log: Log, p: Pass, q: Pass, b: Bit) {
    exists e :: Satisfies(log, e, p, b) && Satisfies(log, e, q, b)
  }

  /** No set satisfies two resetting waits on flag `b`. */
  ghost predicate Once(s: State, b: Bit) {
    forall i, j | 0 <= i < j < |s.passes| :: !Shared(s.log(), s.passes[i].1, s.passes[j].1, b)
  }

  /** A resetting wait between its successful test and its reset. */
  predicate Unreset(pc: PC) {
    (pc.WUnlock? && pc.ret == Success && pc.r.reset) || pc.WReset? || pc.WResetDo?
  }

  /** Nothing has taken flag `b` down since `at` events had happened. */
  ghost predicate Untaken(log: Log, at: nat, b: Bit) {
    forall k | at <= k < |log| :: !Removes(log[k].1, b)
  }

  /** Such a thread saw flag `b` up, awaits it, and nothing has taken it down since. */
  ghost predicate HoldsUp(s: State, u: nat, b: Bit) {
    && u in s.threads && Unreset(s.threads[u])
    && var pc := s.threads[u];
       b in pc.r.f && pc.at <= |s.log()| && b in Replay(s.log()[..pc.at]) && Untaken(s.log(), pc.at, b)
  }

  /** In this move a resetting wait finds flag `b` up that another thread has seen up and has yet to reset. */
  ghost predicate Overlaps(s: State, s': State, b: Bit) {
    && |s'.passes| == |s.passes| + 1
    && var p := s'.passes[|s.passes|].1;
       p.r.reset && b in p.r.f && b in s.flags && exists u :: u != p.r.t && HoldsUp(s, u, b)
  }

  // ---------------------------------------------------------------- passes and threads

  /** The reset that pass `p` calls for has been done. */
  ghost predicate ResetDone(log: Log, p: Pass) {
    exists k :: p.at <= k < |log| && log[k] == (p.r.c, ResetBits(p.r.f))
  }

  /** Thread `p.r.t` is between pass `p` and its reset. */
  ghost predicate ResetDue(threads: map<nat, PC>, p: Pass) {
    p.r.t in threads && Unreset(threads[p.r.t]) && threads[p.r.t].r == p.r && threads[p.r.t].at == p.at
  }

  ghost predicate PassKnown(s: State, p: Pass) {
    p.at <= |s.log()| && (p.r.reset ==> ResetDue(s.threads, p) || ResetDone(s.log(), p))
  }

  ghost predicate PassesKnown(s: State) {
    && (forall i | 0 <= i < |s.passes| :: PassKnown(s, s.passes[i].1))
    && (forall u | u in s.threads && Unreset(s.threads[u]) ::
          (s.threads[u].r.c, Pass(s.threads[u].r, s.threads[u].at)) in s.passes && s.threads[u].r.reset)
  }

  ghost predicate InvOnce(s: State) {
    Inv(s) && PassesKnown(s)
  }

  /** What a step does to the passes: the one thread that tests with success adds its own. */
  lemma PassStep(s: State, t: nat, s': State)
    requires Next(s, t, s')
    ensures t in s.threads
    ensures if s.threads[t].WTest? && s.flags * s.threads[t].r.f != {}
            then s'.log() == s.log() && s'.passes == s.passes + [(s.threads[t].r.c, Pass(s.threads[t].r, |s.log()|))]
            else s'.passes == s.passes
  {
  }

  lemma UnresetStep(s: State, t: nat, s': State, u: nat)
    requires Next(s, t, s') && u in s.threads
    ensures u in s'.threads
    ensures Unreset(s'.threads[u]) ==>
        || (Unreset(s.threads[u]) && s'.threads[u].r == s.threads[u].r && s'.threads[u].at == s.threads[u].at)
        || (u == t && s'.threads[u].r.reset
            && (s'.threads[u].r.c, Pass(s'.threads[u].r, s'.threads[u].at)) in s'.passes)
    ensures Unreset(s.threads[u]) ==>
        || (Unreset(s'.threads[u]) && s'.threads[u].r == s.threads[u].r && s'.threads[u].at == s.threads[u].at)
        || (u == t && s'.log() == s.log() + [(s.threads[u].r.c, ResetBits(s.threads[u].r.f))])
  {
    if u != t {
      Others(s, t, s', u);
    }
  }

  lemma PassKnownStep(s: State, t: nat, s': State, p: Pass)
    requires s.flags == Replay(s.log()) && Next(s, t, s') && PassKnown(s, p)
    ensures PassKnown(s', p)
  {
    LogStep(s, t, s');
    if p.r.reset {
      if ResetDone(s.log(), p) {
        var k :| p.at <= k < |s.log()| && s.log()[k] == (p.r.c, ResetBits(p.r.f));
        assert s'.log()[k] == (p.r.c, ResetBits(p.r.f));
      } else {
        UnresetStep(s, t, s', p.r.t);
        hide Next;
        if !ResetDue(s'.threads, p) {
          assert s'.log()[|s.log()|] == (p.r.c, ResetBits(p.r.f));
        }
      }
    }
  }

  lemma KnownStep(s: State, t: nat, s': State)
    requires s.flags == Replay(s.log()) && PassesKnown(s) && Next(s, t, s') && OwnCall(s, t, s.threads[t])
    ensures PassesKnown(s')
  {
    PassStep(s, t, s');
    Locks(s, t, s');
    forall i | 0 <= i < |s'.passes|
      ensures PassKnown(s', s'.passes[i].1)
    {
      if i < |s.passes| {
        PassKnownStep(s, t, s', s.passes[i].1);
      }
    }
    hide PassKnown;
    forall u | u in s'.threads && Unreset(s'.threads[u])
      ensures (s'.threads[u].r.c, Pass(s'.threads[u].r, s'.threads[u].at)) in s'.passes && s'.threads[u].r.reset
    {
      UnresetStep(s, t, s', u);
    }
  }

  lemma RunOnceInv(run: seq<State>, i: nat)
    requires IsRun(run) && i < |run|
    ensures InvOnce(run[i])
  {
    assert forall s | Init(s) :: InvOnce(s);
    hide Init;
    hide Next;
    forall s, s' | InvOnce(s) && Moves(s, s') ensures InvOnce(s') {
      var t: nat :| Next(s, t, s');
      InvStep(s, t, s');
      KnownStep(s, t, s');
    }
    hide InvOnce;
    Runs.RunKeeps(run, Init, Moves, InvOnce, i);
  }

  // ---------------------------------------------------------------- one step

  /** A flag that a set put up before `at`, and that nothing took down since, was up then and is up now. */
  lemma StandsThrough(log: Log, at: nat, e: int, b: Bit)
    requires at <= |log|
    ensures Stands(log[..at], e, b) && Stands(log, e, b) ==>
        b in Replay(log[..at]) && b in Replay(log) && Untaken(log, at, b)
    ensures Stands(log[..at], e, b) && Untaken(log, at, b) ==> Stands(log, e, b)
  {
    UpIffStands(log[..at], b);
    UpIffStands(log, b);
  }

  /** The new pass shares a set with an earlier one exactly if a thread holds the flag up. */
  lemma NewPassShares(s: State, t: nat, b: Bit)
    requires InvOnce(s) && t in s.threads && s.threads[t].WTest? && s.threads[t].r.reset
    requires b in s.threads[t].r.f
    ensures (exists i :: 0 <= i < |s.passes| && Shared(s.log(), s.passes[i].1, Pass(s.threads[t].r, |s.log()|), b))
            <==> b in s.flags && exists u :: u != t && HoldsUp(s, u, b)
  {
    var p := Pass(s.threads[t].r, |s.log()|);
    assert s.log()[..|s.log()|] == s.log();
    if i :| 0 <= i < |s.passes| && Shared(s.log(), s.passes[i].1, p, b) {
      SharedHoldsUp(s, s.passes[i].1, p, b);
    }
    if b in s.flags {
      if u :| u != t && HoldsUp(s, u, b) {
        var pc := s.threads[u];
        var i :| 0 <= i < |s.passes| && s.passes[i] == (pc.r.c, Pass(pc.r, pc.at));
        UpIffStands(s.log()[..pc.at], b);
        var e :| Stands(s.log()[..pc.at], e, b);
        StandsThrough(s.log(), pc.at, e, b);
        assert Satisfies(s.log(), e, s.passes[i].1, b) && Satisfies(s.log(), e, p, b);
      }
    }
  }

  lemma SharedHoldsUp(s: State, q: Pass, p: Pass, b: Bit)
    requires s.flags == Replay(s.log()) && PassKnown(s, q) && p.at == |s.log()|
    requires p.r.t in s.threads && !Unreset(s.threads[p.r.t]) && Shared(s.log(), q, p, b)
    ensures q.r.t != p.r.t && HoldsUp(s, q.r.t, b) && b in s.flags
  {
    assert s.log()[..|s.log()|] == s.log();
    var e :| Satisfies(s.log(), e, q, b) && Satisfies(s.log(), e, p, b);
    StandsThrough(s.log(), q.at, e, b);
    assert Removes(ResetBits(q.r.f), b);
  }

  /** Whether two passes share a set depends on the events before them only. */
  lemma SharedGrows(s: State, s': State, p: Pass, q: Pass, b: Bit)
    requires s.log() <= s'.log() && p.at <= |s.log()| && q.at <= |s.log()|
    ensures Shared(s'.log(), p, q, b) <==> Shared(s.log(), p, q, b)
  {
    assert s'.log()[..p.at] == s.log()[..p.at] && s'.log()[..q.at] == s.log()[..q.at];
    if e :| Satisfies(s.log(), e, p, b) && Satisfies(s.log(), e, q, b) {
      assert Satisfies(s'.log(), e, p, b) && Satisfies(s'.log(), e, q, b);
    }
    if e :| Satisfies(s'.log(), e, p, b) && Satisfies(s'.log(), e, q, b) {
      assert Satisfies(s.log(), e, p, b) && Satisfies(s.log(), e, q, b);
    }
  }

  /** The earlier passes share among themselves what they shared before. */
  lemma EarlierShare(s: State, t: nat, s': State, b: Bit)
    requires InvOnce(s) && Next(s, t, s')
    ensures |s.passes| <= |s'.passes|
    ensures Once(s, b) <==>
            forall i, j | 0 <= i < j < |s.passes| :: !Shared(s'.log(), s'.passes[i].1, s'.passes[j].1, b)
  {
    LogStep(s, t, s');
    PassStep(s, t, s');
    hide Next;
    hide Shared;
    forall i, j | 0 <= i < j < |s.passes|
      ensures s'.passes[i] == s.passes[i] && s'.passes[j] == s.passes[j]
      ensures Shared(s'.log(), s.passes[i].1, s.passes[j].1, b) <==>
              Shared(s.log(), s.passes[i].1, s.passes[j].1, b)
    {
      assert PassKnown(s, s.passes[i].1) && PassKnown(s, s.passes[j].1);
      SharedGrows(s, s', s.passes[i].1, s.passes[j].1, b);
    }
  }

  lemma OnceStep(s: State, t: nat, s': State, b: Bit)
    requires InvOnce(s) && Next(s, t, s')
    ensures Once(s', b) <==> Once(s, b) && !Overlaps(s, s', b)
  {
    EarlierShare(s, t, s', b);
    PassStep(s, t, s');
    hide Next;
    hide Shared;
    hide HoldsUp;
    if |s'.passes| > |s.passes| {
      var n, p := |s.passes|, s'.passes[|s.passes|].1;
      if p.r.reset && b in p.r.f {
        NewPassShares(s, t, b);
        assert forall i | 0 <= i < n :: s'.passes[i] == s.passes[i];
      } else {
        forall i | 0 <= i < n ensures !Shared(s'.log(), s'.passes[i].1, p, b) {
          NotShared(s'.log(), s'.passes[i].1, p, b);
        }
      }
    }
  }

  lemma NotShared(log: Log, p: Pass, q: Pass, b: Bit)
    requires !q.r.reset || b !in q.r.f
    ensures !Shared(log, p, q, b)
  {
  }

  // ---------------------------------------------------------------- whole runs

  /**
    Up to state `i` no set has satisfied two resetting waits on flag `b` if and
    only if no resetting wait ever found the flag up that another thread had seen
    up, had yet to reset, and that nothing had taken down in between.
   */
  lemma {:induction false} OnceIff(run: seq<State>, i: nat, b: Bit)
    requires IsRun(run) && i < |run|
    ensures Once(run[i], b) <==> forall k, l | 0 <= k && l == k + 1 && l <= i :: !Overlaps(run[k], run[l], b)
  {
    hide Once;
    hide Overlaps;
    hide Next;
    hide InvOnce;
    if i == 0 {
      InitOnce(run[0], b);
    } else {
      OnceIff(run, i - 1, b);
      RunOnceInv(run, i - 1);
      assert Moves(run[i - 1], run[i]);
      var t: nat :| Next(run[i - 1], t, run[i]);
      OnceStep(run[i - 1], t, run[i], b);
    }
  }

  lemma InitOnce(s: State, b: Bit)
    requires Init(s)
    ensures Once(s, b)
  {
  }

  /** The thread is in a resetting wait on flag `b`. */
  predicate Resetter(pc: PC, b: Bit) {
    Call(pc).Some? && Call(pc).value.reset && b in Call(pc).value.f
  }

  ghost predicate OneResetter(s: State, b: Bit) {
    forall t, u | t in s.threads && u in s.threads && Resetter(s.threads[t], b) && Resetter(s.threads[u], b) :: t == u
  }

  lemma OneResetterNoOverlap(s: State, t: nat, s': State, b: Bit)
    requires InvOnce(s) && Next(s, t, s') && OneResetter(s, b)
    ensures !Overlaps(s, s', b)
  {
    PassStep(s, t, s');
    hide Next;
    hide Untaken;
    forall u | u != t && HoldsUp(s, u, b)
      ensures !Resetter(s.threads[t], b)
    {
      assert Resetter(s.threads[u], b);
    }
  }

  /**
    If a flag never has two resetting waits at a time, its resetting successes
    are owed to different sets.
   */
  lemma OneResetterOnce(run: seq<State>, i: nat, b: Bit, m: nat, n: nat)
    requires IsRun(run) && i < |run| && forall k | 0 <= k <= i :: OneResetter(run[k], b)
    requires m < n < |run[i].passes|
    requires forall p | p == run[i].passes[m].1 || p == run[i].passes[n].1 ::
        p.r.reset && b in p.r.f && p.at <= |run[i].log()| && b in Replay(run[i].log()[..p.at])
    ensures var s := run[i];
            exists d, e ::
              && Satisfies(s.log(), d, s.passes[m].1, b) && !Satisfies(s.log(), d, s.passes[n].1, b)
              && Satisfies(s.log(), e, s.passes[n].1, b) && !Satisfies(s.log(), e, s.passes[m].1, b)
  {
    forall k, l | 0 <= k && l == k + 1 && l <= i
      ensures !Overlaps(run[k], run[l], b)
    {
      RunOnceInv(run, k);
      assert Moves(run[k], run[l]);
      var t: nat :| Next(run[k], t, run[l]);
      OneResetterNoOverlap(run[k], t, run[l], b);
    }
    OnceIff(run, i, b);
    var s := run[i];
    var p, q := s.passes[m].1, s.passes[n].1;
    UpIffStands(s.log()[..p.at], b);
    UpIffStands(s.log()[..q.at], b);
    var d :| Stands(s.log()[..p.at], d, b);
    var e :| Stands(s.log()[..q.at], e, b);
    assert Satisfies(s.log(), d, p, b) && Satisfies(s.log(), e, q, b);
    assert !Shared(s.log(), p, q, b);
  }

  /** Two tests may both come before either reset and share nothing: here the flag was cleared and raised in between. */
  lemma ClearedBetweenSharesNothing(log: Log, e: int)
    requires |log| == 3 && log[0].1 == SetBits({0 as Bit}) && log[1].1 == ClearAll && log[2].1 == SetBits({0 as Bit})
    ensures 0 in Replay(log[..1]) && 0 in Replay(log) && !(Stands(log[..1], e, 0) && Stands(log, e, 0))
  {
    assert Stands(log[..1], 0, 0) && Stands(log, 2, 0);
    UpIffStands(log[..1], 0);
    UpIffStands(log, 0);
    assert Removes(log[1].1, 0);
  }

  // ---------------------------------------------------------------- a run with both tests before either reset

  /**
    Thread 2 raises flag 0 and thread 0 sees it up; thread 2 clears it and raises
    it again and thread 1 sees it up. Both waits are to reset it and have not.
   */
  function ClearedAt(k: nat): State {
    var up := {0 as Bit};
    var r, q := Req(0, 1, up, true, 1), Req(1, 4, up, true, 3);
    var calls := [ToSet(up), ToWait(up, true), ToClear, ToSet(up), ToWait(up, true)];
    var log: Log := [(0, SetBits(up)), (2, ClearAll), (3, SetBits(up))];
    var passes := [(1, Pass(r, 1)), (4, Pass(q, 3))];
    match k
    case 0 => Three({}, None, Idle, Idle, Idle, calls[..0], log[..0], passes[..0])
    case 1 => Three({}, None, Idle, Idle, SLock(0, up), calls[..1], log[..0], passes[..0])
    case 2 => Three({}, Some(2), Idle, Idle, SOr(0, up), calls[..1], log[..0], passes[..0])
    case 3 => Three(up, Some(2), Idle, Idle, SBroadcast(0, up), calls[..1], log[..1], passes[..0])
    case 4 => Three(up, Some(2), Idle, Idle, SUnlock(0, up), calls[..1], log[..1], passes[..0])
    case 5 => Three(up, None, Idle, Idle, SReturn(0, up), calls[..1], log[..1], passes[..0])
    case 6 => Three(up, None, Idle, Idle, Idle, calls[..1], log[..1], passes[..0])
    case 7 => Three(up, None, WLock(r), Idle, Idle, calls[..2], log[..1], passes[..0])
    case 8 => Three(up, Some(0), WTest(r), Idle, Idle, calls[..2], log[..1], passes[..0])
    case 9 => Three(up, Some(0), WUnlock(r, Success, 1), Idle, Idle, calls[..2], log[..1], passes[..1])
    case 10 => Three(up, None, WReset(r, 1), Idle, Idle, calls[..2], log[..1], passes[..1])
    case 11 => Three(up, None, WReset(r, 1), Idle, CLock(2), calls[..3], log[..1], passes[..1])
    case 12 => Three(up, Some(2), WReset(r, 1), Idle, CDo(2), calls[..3], log[..1], passes[..1])
    case 13 => Three({}, Some(2), WReset(r, 1), Idle, CUnlock(2), calls[..3], log[..2], passes[..1])
    case 14 => Three({}, None, WReset(r, 1), Idle, CReturn(2), calls[..3], log[..2], passes[..1])
    case 15 => Three({}, None, WReset(r, 1), Idle, Idle, calls[..3], log[..2], passes[..1])
    case 16 => Three({}, None, WReset(r, 1), Idle, SLock(3, up), calls[..4], log[..2], passes[..1])
    case 17 => Three({}, Some(2), WReset(r, 1), Idle, SOr(3, up), calls[..4], log[..2], passes[..1])
    case 18 => Three(up, Some(2), WReset(r, 1), Idle, SBroadcast(3, up), calls[..4], log[..3], passes[..1])
    case 19 => Three(up, Some(2), WReset(r, 1), Idle, SUnlock(3, up), calls[..4], log[..3], passes[..1])
    case 20 => Three(up, None, WReset(r, 1), Idle, SReturn(3, up), calls[..4], log[..3], passes[..1])
    case 21 => Three(up, None, WReset(r, 1), Idle, Idle, calls[..4], log[..3], passes[..1])
    case 22 => Three(up, None, WReset(r, 1), WLock(q), Idle, calls[..5], log[..3], passes[..1])
    case 23 => Three(up, Some(1), WReset(r, 1), WTest(q), Idle, calls[..5], log[..3], passes[..1])
    case 24 => Three(up, Some(1), WReset(r, 1), WUnlock(q, Success, 3), Idle, calls[..5], log[..3], passes[..2])
    case _ => Three(up, None, WReset(r, 1), WReset(q, 3), Idle, calls[..5], log[..3], passes[..2])
  }

  function ClearedMover(k: nat): nat {
    if k < 6 then 2 else if k < 10 then 0 else if k < 21 then 2 else 1
  }

  lemma ClearedRaises(k: nat)
    requires k < 3
    ensures Next(ClearedAt(k), ClearedMover(k), ClearedAt(k + 1))
  {
    hide Test;
    hide Back;
    match k
    case 0 => assert ClearedAt(1).threads == ClearedAt(0).threads[2 := ClearedAt(1).threads[2]];
    case 1 => assert ClearedAt(2).threads == ClearedAt(1).threads[2 := ClearedAt(2).threads[2]];
    case _ => assert ClearedAt(3).threads == ClearedAt(2).threads[2 := ClearedAt(3).threads[2]];
  }

  lemma ClearedRaisesDone(k: nat)
    requires 3 <= k < 6
    ensures Next(ClearedAt(k), ClearedMover(k), ClearedAt(k + 1))
  {
    hide Test;
    hide Back;
    match k
    case 3 => assert ClearedAt(4).threads == ClearedAt(3).threads[2 := ClearedAt(4).threads[2]];
    case 4 => assert ClearedAt(5).threads == ClearedAt(4).threads[2 := ClearedAt(5).threads[2]];
    case _ => assert ClearedAt(6).threads == ClearedAt(5).threads[2 := ClearedAt(6).threads[2]];
  }

  lemma ClearedFirstWaits(k: nat)
    requires 6 <= k < 8
    ensures Next(ClearedAt(k), ClearedMover(k), ClearedAt(k + 1))
  {
    hide WakeAll;
    hide Back;
    assert 0 in ClearedAt(7).flags * {0 as Bit};
    match k
    case 6 => assert ClearedAt(7).threads == ClearedAt(6).threads[0 := ClearedAt(7).threads[0]];
    case _ => assert ClearedAt(8).threads == ClearedAt(7).threads[0 := ClearedAt(8).threads[0]];
  }

  lemma ClearedFirstWaitsDone(k: nat)
    requires 8 <= k < 10
    ensures Next(ClearedAt(k), ClearedMover(k), ClearedAt(k + 1))
  {
    hide WakeAll;
    hide Back;
    assert 0 in ClearedAt(9).flags * {0 as Bit};
    match k
    case 8 => assert ClearedAt(9).threads == ClearedAt(8).threads[0 := ClearedAt(9).threads[0]];
    case _ => assert ClearedAt(10).threads == ClearedAt(9).threads[0 := ClearedAt(10).threads[0]];
  }

  lemma ClearedClears(k: nat)
    requires 10 <= k < 13
    ensures Next(ClearedAt(k), ClearedMover(k), ClearedAt(k + 1))
  {
    hide Test;
    hide Back;
    hide WakeAll;
    match k
    case 10 => assert ClearedAt(11).threads == ClearedAt(10).threads[2 := ClearedAt(11).threads[2]];
    case 11 => assert ClearedAt(12).threads == ClearedAt(11).threads[2 := ClearedAt(12).threads[2]];
    case _ => assert ClearedAt(13).threads == ClearedAt(12).threads[2 := ClearedAt(13).threads[2]];
  }

  lemma ClearedClearsDone(k: nat)
    requires 13 <= k < 15
    ensures Next(ClearedAt(k), ClearedMover(k), ClearedAt(k + 1))
  {
    hide Test;
    hide Back;
    hide WakeAll;
    match k
    case 13 => assert ClearedAt(14).threads == ClearedAt(13).threads[2 := ClearedAt(14).threads[2]];
    case _ => assert ClearedAt(15).threads == ClearedAt(14).threads[2 := ClearedAt(15).threads[2]];
  }

  lemma ClearedRaisesAgain(k: nat)
    requires 15 <= k < 18
    ensures Next(ClearedAt(k), ClearedMover(k), ClearedAt(k + 1))
  {
    hide Test;
    hide Back;
    match k
    case 15 => assert ClearedAt(16).threads == ClearedAt(15).threads[2 := ClearedAt(16).threads[2]];
    case 16 => assert ClearedAt(17).threads == ClearedAt(16).threads[2 := ClearedAt(17).threads[2]];
    case _ => assert ClearedAt(18).threads == ClearedAt(17).threads[2 := ClearedAt(18).threads[2]];
  }

  lemma ClearedRaisesAgainDone(k: nat)
    requires 18 <= k < 21
    ensures Next(ClearedAt(k), ClearedMover(k), ClearedAt(k + 1))
  {
    hide Test;
    hide Back;
    match k
    case 18 => assert ClearedAt(19).threads == ClearedAt(18).threads[2 := ClearedAt(19).threads[2]];
    case 19 => assert ClearedAt(20).threads == ClearedAt(19).threads[2 := ClearedAt(20).threads[2]];
    case _ => assert ClearedAt(21).threads == ClearedAt(20).threads[2 := ClearedAt(21).threads[2]];
  }

  lemma ClearedSecondWaits(k: nat)
    requires 21 <= k < 23
    ensures Next(ClearedAt(k), ClearedMover(k), ClearedAt(k + 1))
  {
    hide WakeAll;
    hide Back;
    assert 0 in ClearedAt(22).flags * {0 as Bit};
    match k
    case 21 => assert ClearedAt(22).threads == ClearedAt(21).threads[1 := ClearedAt(22).threads[1]];
    case _ => assert ClearedAt(23).threads == ClearedAt(22).threads[1 := ClearedAt(23).threads[1]];
  }

  lemma ClearedSecondWaitsDone(k: nat)
    requires 23 <= k < 25
    ensures Next(ClearedAt(k), ClearedMover(k), ClearedAt(k + 1))
  {
    hide WakeAll;
    hide Back;
    assert 0 in ClearedAt(24).flags * {0 as Bit};
    match k
    case 23 => assert ClearedAt(24).threads == ClearedAt(23).threads[1 := ClearedAt(24).threads[1]];
    case _ => assert ClearedAt(25).threads == ClearedAt(24).threads[1 := ClearedAt(25).threads[1]];
  }

  lemma ClearedMoves(k: nat)
    requires k < 25
    ensures Next(ClearedAt(k), ClearedMover(k), ClearedAt(k + 1))
  {
    hide Next;
    hide ClearedAt;
    if k < 3 {
      ClearedRaises(k);
    } else if k < 6 {
      ClearedRaisesDone(k);
    } else if k < 8 {
      ClearedFirstWaits(k);
    } else if k < 10 {
      ClearedFirstWaitsDone(k);
    } else if k < 13 {
      ClearedClears(k);
    } else if k < 15 {
      ClearedClearsDone(k);
    } else if k < 18 {
      ClearedRaisesAgain(k);
    } else if k < 21 {
      ClearedRaisesAgainDone(k);
    } else if k < 23 {
      ClearedSecondWaits(k);
    } else {
      ClearedSecondWaitsDone(k);
    }
  }

  /** Two resetting waits have both seen the flag up and neither has reset it, and yet no set satisfies both. */
  lemma BothTestedSharingNothing(run: seq<State>)
    requires |run| == 26 && forall k | 0 <= k < 26 :: run[k] == ClearedAt(k)
    ensures IsRun(run)
    ensures var s := run[25];
            && 0 in s.threads && 1 in s.threads && Unreset(s.threads[0]) && Unreset(s.threads[1])
            && |s.passes| == 2 && Once(s, 0)
            && Satisfies(s.log(), 0, s.passes[0].1, 0) && Satisfies(s.log(), 2, s.passes[1].1, 0)
  {
    assert Init(run[0]);
    forall i, j | 0 <= i && j == i + 1 && j < |run|
      ensures Moves(run[i], run[j])
    {
      ClearedMoves(i);
      assert Next(run[i], ClearedMover(i), run[j]);
    }
    ClearedEnds();
  }

  lemma ClearedEnds()
    ensures var s := ClearedAt(25);
            && |s.passes| == 2 && Once(s, 0)
            && Satisfies(s.log(), 0, s.passes[0].1, 0) && Satisfies(s.log(), 2, s.passes[1].1, 0)
  {
    var s := ClearedAt(25);
    assert s.log()[..3] == s.log() && |s.passes| == 2;
    assert Satisfies(s.log(), 0, s.passes[0].1, 0) && Satisfies(s.log(), 2, s.passes[1].1, 0);
    forall e
      ensures !(Satisfies(s.log(), e, s.passes[0].1, 0) && Satisfies(s.log(), e, s.passes[1].1, 0))
    {
      ClearedBetweenSharesNothing(s.log(), e);
    }
  }
}
