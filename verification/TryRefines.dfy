/**
  The steps that TryMalloc takes on segments are the calls on the records. A
  request takes such a step from every well-formed manager, as written or with
  the missing statement; a release does exactly if the allocation is not stale,
  which after that statement it never is.
 */
module TryRefines {
  import opened Segments
  import opened HeapRecords
  import opened HeapOwners
  import opened HeapVerdicts
  import opened HeapRuns
  import opened HeapAges
  import T = TryMalloc
  import Runs

  /** The protocol's arena is the manager's. */
  ghost predicate Same(s: T.State, h: Heap) {
    Good(h) && s.total == h.total && s.cap == h.cap && s.segs == SegsOf(h)
  }

  /** What em_trymalloc makes of the verdict of _em_malloc; 0 units are refused as well. */
  ghost function AfterTry(s: T.State, t: nat, r: T.Req, result: MallocResult): T.State
    requires result.ret == SUCCESS ==> InTable(result.heap.recs, result.rec) && result.heap.recs[result.rec].index >= 0
    requires Good(result.heap)
  {
    if r.n > 0 && result.ret == SUCCESS then
      var start := result.heap.recs[result.rec].index;
      T.Goto(s, t, T.UnlockOk(r, start)).(
        segs := SegsOf(result.heap), book := T.Doing(s, r.c, T.Took(start, r.n)))
    else if r.timeout == T.NO_WAIT then T.Goto(s, t, T.UnlockFail(r))
    else T.Goto(s, t, T.WantCond(r.(attempts := r.attempts + 1, seen := s.freed)))
  }

  /** _em_malloc under the mutex is the step TryOnce, and the arenas stay the same. */
  lemma RequestIsTryOnce(s: T.State, t: nat, r: T.Req, h: Heap, relink: bool)
    requires Same(s, h) && r.n > 0
    ensures MallocSafe(h, r.n)
    ensures var result := Request(h, r.n, relink);
            && Good(result.heap)
            && (result.ret == SUCCESS ==>
                  InTable(result.heap.recs, result.rec) && result.heap.recs[result.rec].index >= 0)
            && T.TryOnce(s, t, r, AfterTry(s, t, r, result))
            && Same(AfterTry(s, t, r, result), result.heap)
            && (relink && Clean(h) ==> Clean(result.heap))
  {
    hide Inv;
    hide Partition;
    hide Wf;
    hide Malloc;
    hide StaleStart;
    hide StaleFit;
    hide Clean;
    MallocReturns(h, r.n);
    MallocAsWritten(h, r.n);
    MallocRelinked(h, r.n);
    StepGood(h, Alloc(r.n), relink);
    var result := Request(h, r.n, relink);
    if result.ret == SUCCESS {
      var i: nat :| AllocatedAt(SegsOf(h), r.n, SegsOf(result.heap), result.heap, result.rec, StaleFit(h, r.n), i);
    }
  }

  ghost function AfterFree(s: T.State, t: nat, c: nat, start: nat, h: Heap): T.State
    requires Good(h)
  {
    T.Goto(s, t, T.FreeWantCond(c, start)).(segs := SegsOf(h), book := T.Doing(s, c, T.Gave(start)))
  }

  /** em_free under the mutex is the step DoFree exactly if the allocation is not stale. */
  lemma ReleaseIsDoFree(s: T.State, t: nat, c: nat, start: nat, h: Heap)
    requires Same(s, h) && LiveStart(h, start)
    ensures FreeSafe(h, start)
    ensures var h' := ExecFree(h, start);
            && (Good(h') <==> !StaleStart(h, start))
            && (Good(h') ==>
                  var s' := AfterFree(s, t, c, start, h');
                  T.DoFree(s, t, c, start, s') && Same(s', h') && (Clean(h) ==> Clean(h')))
  {
    hide Inv;
    FreeReturns(h, start);
  }

  // ---------------------------------------------------------------- the protocol over the records

  /**
    The threads of the protocol over the records of a manager; `s.segs` follows
    the records, and `born` remembers when each allocation was made.
   */
  datatype Machine = Machine(s: T.State, h: Heap, born: Births, now: nat)

  /** _em_malloc on the records: 0 units are refused without a look at them. */
  ghost predicate TryOnRecords(m: Machine, t: nat, r: T.Req, m': Machine, relink: bool)
    requires Good(m.h)
  {
    if r.n == 0 then
      && m'.h == m.h && m'.born == m.born && m'.now == m.now
      && m'.s == if r.timeout == T.NO_WAIT then T.Goto(m.s, t, T.UnlockFail(r))
                 else T.Goto(m.s, t, T.WantCond(r.(attempts := r.attempts + 1, seen := m.s.freed)))
    else
      && MallocSafe(m.h, r.n)
      && var result := Request(m.h, r.n, relink);
         && m'.h == result.heap && Good(result.heap)
         && m'.born == Bear(m.h, Alloc(r.n), m.born, m.now) && m'.now == m.now + 1
         && (result.ret == SUCCESS ==>
               InTable(result.heap.recs, result.rec) && result.heap.recs[result.rec].index >= 0)
         && m'.s == AfterTry(m.s, t, r, result)
  }

  /** em_free on the records; as written, only of allocations that do not stand right above one made later. */
  ghost predicate FreeOnRecords(m: Machine, t: nat, c: nat, start: nat, m': Machine, relink: bool)
    requires Good(m.h)
  {
    && (relink || !YoungerBelow(SegsOf(m.h), m.born, start)) && FreeSafe(m.h, start)
    && m'.h == ExecFree(m.h, start) && m'.born == m.born && m'.now == m.now + 1
    && Good(m'.h)
    && m'.s == AfterFree(m.s, t, c, start, m'.h)
  }

  ghost predicate NextBoth(m: Machine, t: nat, m': Machine, relink: bool) {
    && t in m.s.threads && Good(m.h)
    && match m.s.threads[t]
       case Attempt(r) => TryOnRecords(m, t, r, m', relink)
       case FreeDo(c, start) => FreeOnRecords(m, t, c, start, m', relink)
       case _ => T.Next(m.s, t, m'.s) && m'.s.segs == m.s.segs && m' == m.(s := m'.s)
  }

  ghost predicate Start(m: Machine) {
    T.Init(m.s) && Created(m.h) && m.s.total == m.h.total && m.s.cap == m.h.cap && m.born == map[] && m.now == 0
  }

  ghost predicate Coupled(m: Machine, relink: bool) {
    Same(m.s, m.h) && T.Inv(m.s) && if relink then Clean(m.h) else Aged(m.h, m.born, m.now)
  }

  /** A caller frees live allocations only. */
  lemma TokenIsLive(m: Machine, t: nat, relink: bool)
    requires Coupled(m, relink) && t in m.s.threads && m.s.threads[t].FreeDo?
    ensures LiveStart(m.h, m.s.threads[t].start)
  {
    hide Inv;
    hide Good;
    hide Wf;
    hide T.Mutexes;
    hide T.NotMissed;
    hide T.TimesOk;
    hide T.Recorded;
    assert T.Tokens(m.s.threads)[t] == T.Token(m.s.threads[t]);
  }

  lemma AsWrittenRequest(h: Heap, n: nat)
    requires MallocSafe(h, n)
    ensures Request(h, n, false) == ExecMalloc(h, n)
  {
  }

  lemma AttemptRefines(m: Machine, t: nat, m': Machine, relink: bool)
    requires Coupled(m, relink) && NextBoth(m, t, m', relink) && m.s.threads[t].Attempt?
    ensures T.Next(m.s, t, m'.s) && Coupled(m', relink)
  {
    hide Inv;
    hide Good;
    hide T.Inv;
    hide Clean;
    hide T.TryOnce;
    hide T.DoFree;
    hide StaleStart;
    hide ExecMalloc;
    hide MallocSafe;
    hide Request;
    hide Aged;
    hide Bear;
    var r := m.s.threads[t].r;
    if r.n > 0 {
      RequestIsTryOnce(m.s, t, r, m.h, relink);
      if !relink {
        AgedRequest(m.h, r.n, m.born, m.now);
        assert Request(m.h, r.n, false) == ExecMalloc(m.h, r.n) by { AsWrittenRequest(m.h, r.n); }
      }
    } else {
      NothingIsRefused(m.s, t, r, m'.s);
    }
    T.InvStep(m.s, t, m'.s);
  }

  lemma FreeRefines(m: Machine, t: nat, m': Machine, relink: bool)
    requires Coupled(m, relink) && NextBoth(m, t, m', relink) && m.s.threads[t].FreeDo?
    ensures T.Next(m.s, t, m'.s) && Coupled(m', relink)
  {
    hide Inv;
    hide Good;
    hide T.Inv;
    hide Clean;
    hide T.TryOnce;
    hide T.DoFree;
    hide StaleStart;
    hide ExecFree;
    hide FreeSafe;
    hide Aged;
    hide YoungerBelow;
    TokenIsLive(m, t, relink);
    if !relink {
      AgedRelease(m.h, m.s.threads[t].start, m.born, m.now);
    }
    ReleaseIsDoFree(m.s, t, m.s.threads[t].c, m.s.threads[t].start, m.h);
    T.InvStep(m.s, t, m'.s);
  }

  /** Each step over the records is the same step over the segments. */
  lemma StepRefines(m: Machine, t: nat, m': Machine, relink: bool)
    requires Coupled(m, relink) && NextBoth(m, t, m', relink)
    ensures T.Next(m.s, t, m'.s) && Coupled(m', relink)
  {
    hide Inv;
    hide Good;
    hide T.Inv;
    hide Clean;
    hide T.TryOnce;
    hide T.DoFree;
    hide StaleStart;
    hide Aged;
    hide T.Next;
    hide TryOnRecords;
    hide FreeOnRecords;
    if m.s.threads[t].Attempt? {
      AttemptRefines(m, t, m', relink);
    } else if m.s.threads[t].FreeDo? {
      FreeRefines(m, t, m', relink);
    } else {
      T.InvStep(m.s, t, m'.s);
      SizesStay(m.s, t, m'.s);
    }
  }

  lemma SizesStay(s: T.State, t: nat, s': T.State)
    requires T.Next(s, t, s')
    ensures s'.total == s.total && s'.cap == s.cap
  {
    T.Others(s, t, s');
  }

  lemma NothingIsRefused(s: T.State, t: nat, r: T.Req, s': T.State)
    requires r.n == 0
    requires s' == if r.timeout == T.NO_WAIT then T.Goto(s, t, T.UnlockFail(r))
                   else T.Goto(s, t, T.WantCond(r.(attempts := r.attempts + 1, seen := s.freed)))
    ensures T.TryOnce(s, t, r, s')
  {
  }

  /**
    A release that some thread is about to do keeps the list well-formed, and is a
    step, always with the missing statement, and as written if and only if the
    allocation does not stand right above one made later.
   */
  lemma ReleaseStepIff(m: Machine, t: nat, relink: bool)
    requires Coupled(m, relink) && t in m.s.threads && m.s.threads[t].FreeDo?
    ensures FreeSafe(m.h, m.s.threads[t].start)
    ensures var allowed := relink || !YoungerBelow(SegsOf(m.h), m.born, m.s.threads[t].start);
            && (Good(ExecFree(m.h, m.s.threads[t].start)) <==> allowed)
            && (allowed <==> exists m' :: NextBoth(m, t, m', relink))
  {
    hide Inv;
    hide T.Inv;
    hide T.DoFree;
    hide T.Next;
    hide YoungerBelow;
    hide ExecFree;
    hide FreeSafe;
    var start := m.s.threads[t].start;
    TokenIsLive(m, t, relink);
    ReleaseIsDoFree(m.s, t, m.s.threads[t].c, start, m.h);
    if relink || !YoungerBelow(SegsOf(m.h), m.born, start) {
      var h' := ExecFree(m.h, start);
      var s' := AfterFree(m.s, t, m.s.threads[t].c, start, h');
      assert NextBoth(m, t, Machine(s', h', m.born, m.now + 1), relink);
    }
  }

  ghost predicate MovesBoth(m: Machine, m': Machine, relink: bool) {
    exists t :: NextBoth(m, t, m', relink)
  }

  ghost predicate IsRecordRun(run: seq<Machine>, relink: bool) {
    Runs.Run(run, Start, (m, m') => MovesBoth(m, m', relink))
  }

  lemma InitRefines(m: Machine, relink: bool)
    requires Start(m)
    ensures Coupled(m, relink)
  {
    CreatedClean(m.h);
    T.InitInv(m.s);
  }

  lemma RunInv(run: seq<Machine>, relink: bool, i: nat)
    requires IsRecordRun(run, relink) && i < |run|
    ensures Coupled(run[i], relink)
  {
    hide Start;
    hide NextBoth;
    hide Coupled;
    var moves, inv := (m: Machine, m': Machine) => MovesBoth(m, m', relink), (m: Machine) => Coupled(m, relink);
    forall m | Start(m) ensures inv(m) {
      InitRefines(m, relink);
    }
    forall m, m' | inv(m) && moves(m, m') ensures inv(m') {
      var t: nat :| NextBoth(m, t, m', relink);
      StepRefines(m, t, m', relink);
    }
    Runs.RunKeeps(run, Start, moves, inv, i);
  }

  /**
    Every run over the records, relinked, or as written and releasing no allocation
    right above one made later, is a run over the segments, so that whatever TryMalloc says of its runs holds of
    the records; and the list is well-formed in every state.
   */
  lemma RunsRefine(run: seq<Machine>, relink: bool, states: seq<T.State>)
    requires IsRecordRun(run, relink) && |states| == |run| && forall i | 0 <= i < |run| :: states[i] == run[i].s
    ensures T.IsRun(states)
    ensures forall i | 0 <= i < |run| :: Same(states[i], run[i].h)
  {
    hide Good;
    hide NextBoth;
    hide T.Next;
    hide T.Init;
    assert T.Init(states[0]) by { InitOf(run[0]); }
    forall i, j | 0 <= i && j == i + 1 && j < |states|
      ensures T.Moves(states[i], states[j])
    {
      RunInv(run, relink, i);
      assert MovesBoth(run[i], run[j], relink);
      var t: nat :| NextBoth(run[i], t, run[j], relink);
      StepRefines(run[i], t, run[j], relink);
    }
    forall i | 0 <= i < |run|
      ensures Same(states[i], run[i].h)
    {
      RunInv(run, relink, i);
    }
  }

  lemma InitOf(m: Machine)
    requires Start(m)
    ensures T.Init(m.s)
  {
  }
}
