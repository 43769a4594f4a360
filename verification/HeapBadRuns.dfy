/** Runs of the code as written from a new manager that go wrong, call by call. */
module HeapBadRuns {
  import opened Basics
  import opened Mempool
  import opened HeapRecords
  import opened HeapOwners
  import opened HeapVerdicts
  import opened HeapRuns
  import S = Segments

  // ---------------------------------------------------------------- reading a run off its states

  /** An allocated segment of a well-formed manager, found by walking its records. */
  lemma LiveByWalk(h: Heap, c: seq<int>, i: nat)
    requires Good(h) && Walk(h.cap, c) && NextLinked(h.recs, c)
    requires 0 < i < |c| - 1 && h.recs[c[i]].used && h.recs[c[i]].index >= 0
    ensures LiveStart(h, h.recs[c[i]].index)
    ensures StaleStart(h, h.recs[c[i]].index) <==> h.recs[c[i]].back != c[i - 1]
  {
    WalkUnique(h, c, TheWalk(h));
    assert SegsOf(h)[i - 1] == SegOf(h.recs[c[i]]);
    S.StartsAreUsedSegments(SegsOf(h), h.total, h.recs[c[i]].index);
    StaleOnWalk(h, c, i - 1);
  }

  lemma RequestStep(h: Heap, n: nat)
    requires Good(h) && n > 0 && MallocSafe(h, n)
    ensures Legal(h, Alloc(n))
    ensures Step(h, Alloc(n), false) == ExecMalloc(h, n).heap && Good(ExecMalloc(h, n).heap)
  {
    MallocAsWritten(h, n);
  }

  lemma ReleaseStep(h: Heap, index: nat)
    requires Good(h) && LiveStart(h, index) && !StaleStart(h, index)
    ensures Legal(h, Dealloc(index)) && FreeSafe(h, index)
    ensures Step(h, Dealloc(index), false) == ExecFree(h, index) && Good(ExecFree(h, index))
  {
    FreeReturns(h, index);
  }

  /** A request that finds the only free segment long enough. */
  lemma TakeOnly(h: Heap, n: nat)
    requires h.Shape() && h.mpUsed.HasRoom() && h.mpFree.used == 1 && h.recs[h.FreeRec(0)].length >= n
    requires Followable(h.recs, h.FreeRec(0)) && 0 <= h.recs[h.FreeRec(0)].index < h.total
    ensures MallocSafe(h, n)
    ensures ExecMalloc(h, n) == MallocResult(Take(h, h.FreeRec(0), n), SUCCESS, h.mpUsed.NextId())
  {
    assert Scan(h, n, 1) == 0;
  }

  /** Puts one legal call before a legal run. */
  lemma RunFrom(h: Heap, op: Op, rest: seq<Op>)
    requires Good(h) && Legal(h, op) && LegalRun(Step(h, op, false), rest, false)
    ensures LegalRun(h, [op] + rest, false)
    ensures After(h, [op] + rest, false) == After(Step(h, op, false), rest, false)
  {
    hide Good;
    hide Legal;
    hide Step;
    assert ([op] + rest)[1..] == rest;
  }

  // ---------------------------------------------------------------- a unit is lost

  const EMPTY: MemInfo := MemInfo(0, 0, false, NULL, NULL)

  function Used(index: int, length: int, next: int, back: int): MemInfo {
    MemInfo(index, length, true, next, back)
  }

  function Unused(index: int, length: int, next: int, back: int): MemInfo {
    MemInfo(index, length, false, next, back)
  }

  /** A new manager of two units and two records per pool. */
  function NewHeap(): Heap {
    Heap(2, 2,
         [EMPTY, EMPTY, MemInfo(0, 2, false, 5, 4), EMPTY,
          MemInfo(-1, 0, true, 2, NULL), MemInfo(-2, 0, true, NULL, 2)],
         PoolView([0, 1], [0, 1], 0),
         PoolView([0, 1], [0, 1], 1),
         [NULL, NULL],
         0)
  }

  /** After a request for one unit, */
  function OneTaken(): Heap {
    Heap(2, 2,
         [MemInfo(0, 1, true, 2, 4), EMPTY, MemInfo(1, 1, false, 5, 0), EMPTY,
          MemInfo(-1, 0, true, 0, NULL), MemInfo(-2, 0, true, NULL, 2)],
         PoolView([0, 1], [0, 1], 1),
         PoolView([0, 1], [0, 1], 1),
         [0, NULL],
         1)
  }

  /** another one (an exact fit at the end of the arena), */
  function BothTaken(): Heap {
    Heap(2, 2,
         [MemInfo(0, 1, true, 1, 4), MemInfo(1, 1, true, 5, 0), MemInfo(1, 1, false, 5, 0), EMPTY,
          MemInfo(-1, 0, true, 0, NULL), MemInfo(-2, 0, true, NULL, 2)],
         PoolView([0, 1], [0, 1], 2),
         PoolView([0, 1], [0, 1], 0),
         [0, 1],
         2)
  }

  /** and the release of the first unit. */
  function HalfFull(): Heap {
    Heap(2, 2,
         [MemInfo(0, 1, true, 1, 4), MemInfo(1, 1, true, 5, 2), MemInfo(0, 1, false, 1, 4), EMPTY,
          MemInfo(-1, 0, true, 2, NULL), MemInfo(-2, 0, true, NULL, 2)],
         PoolView([1, 0], [1, 0], 1),
         PoolView([0, 1], [0, 1], 1),
         [0, 1],
         1)
  }

  /** The first unit is taken again: record 1 still points back to released record 2. */
  function Stranded(): Heap {
    Heap(2, 2,
         [MemInfo(0, 1, true, 1, 4), MemInfo(1, 1, true, 5, 2), MemInfo(0, 1, false, 1, 4), EMPTY,
          MemInfo(-1, 0, true, 0, NULL), MemInfo(-2, 0, true, NULL, 2)],
         PoolView([1, 0], [1, 0], 2),
         PoolView([0, 1], [0, 1], 0),
         [0, 1],
         2)
  }

  lemma TakesOne()
    ensures Created(NewHeap()) && MallocSafe(NewHeap(), 1)
    ensures ExecMalloc(NewHeap(), 1) == MallocResult(OneTaken(), SUCCESS, 0)
  {
    hide MallocSafe;
    hide ExecMalloc;
    hide Scan;
    var h := NewHeap();
    assert h.Shape();
    TakeOnly(h, 1);
    assert ExecMalloc(h, 1).heap.recs == OneTaken().recs;
  }

  lemma TakesBoth()
    ensures MallocSafe(OneTaken(), 1) && !StaleFit(OneTaken(), 1)
    ensures ExecMalloc(OneTaken(), 1) == MallocResult(BothTaken(), SUCCESS, 1)
  {
    hide MallocSafe;
    hide ExecMalloc;
    hide Scan;
    var h := OneTaken();
    assert h.Shape();
    TakeOnly(h, 1);
    assert ExecMalloc(h, 1).heap.recs == BothTaken().recs;
    assert ExecMalloc(h, 1).heap.mpFree == BothTaken().mpFree;
  }

  lemma FreesFirst()
    ensures FreeSafe(BothTaken(), 0) && ExecFree(BothTaken(), 0) == HalfFull()
  {
    assert BothTaken().Shape();
    FreeWf(BothTaken().mpUsed, 0);
    assert ExecFree(BothTaken(), 0).recs == HalfFull().recs;
  }

  lemma TakesFirstUnit()
    ensures MallocSafe(HalfFull(), 1) && StaleFit(HalfFull(), 1)
    ensures ExecMalloc(HalfFull(), 1) == MallocResult(Stranded(), SUCCESS, 0)
  {
    hide MallocSafe;
    hide ExecMalloc;
    hide Scan;
    var h := HalfFull();
    assert h.Shape();
    TakeOnly(h, 1);
    assert ExecMalloc(h, 1).heap.recs == Stranded().recs;
    assert ExecMalloc(h, 1).heap.mpFree == Stranded().mpFree;
  }

  lemma LosesSecondUnit()
    ensures FreeSafe(Stranded(), 1)
    ensures var h2 := ExecFree(Stranded(), 1);
            && h2.usedSize == 1 && h2.mpUsed.used == 1 && h2.mpUsed.HasRoom()
            && MallocSafe(h2, 1) && ExecMalloc(h2, 1).ret == NO_SPACE
  {
    assert Stranded().Shape();
    FreeWf(Stranded().mpUsed, 1);
  }

  lemma WalkBothTaken()
    ensures var h, c := BothTaken(), [4, 0, 1, 5];
            Walk(h.cap, c) && NextLinked(h.recs, c) && h.recs[c[1]] == MemInfo(0, 1, true, 1, c[0])
  {
  }

  lemma WalkHalfFull()
    ensures var h, c := HalfFull(), [4, 2, 1, 5];
            Walk(h.cap, c) && NextLinked(h.recs, c) && h.recs[c[2]] == MemInfo(1, 1, true, 5, c[1])
  {
  }

  /** Two requests and a legal release, all of them sound, lead from a new manager to the state above. */
  lemma HalfFullReached()
    ensures Created(NewHeap())
    ensures var ops := [Alloc(1)] + ([Alloc(1)] + ([Dealloc(0)] + []));
            LegalRun(NewHeap(), ops, false) && After(NewHeap(), ops, false) == HalfFull()
    ensures Good(HalfFull()) && LiveStart(HalfFull(), 1)
  {
    hide *;
    TakesOne();
    CreatedClean(NewHeap());
    RequestStep(NewHeap(), 1);
    TakesBoth();
    RequestStep(OneTaken(), 1);
    WalkBothTaken();
    LiveByWalk(BothTaken(), [4, 0, 1, 5], 1);
    FreesFirst();
    ReleaseStep(BothTaken(), 0);
    WalkHalfFull();
    LiveByWalk(HalfFull(), [4, 2, 1, 5], 2);
    RunNowhere(HalfFull());
    RunFrom(BothTaken(), Dealloc(0), []);
    RunFrom(OneTaken(), Alloc(1), [Dealloc(0)] + []);
    RunFrom(NewHeap(), Alloc(1), [Alloc(1)] + ([Dealloc(0)] + []));
  }

  lemma RunNowhere(h: Heap)
    requires Good(h)
    ensures LegalRun(h, [], false) && After(h, [], false) == h
  {
  }

  /**
    As written: after taking the first unit again (an exact fit before a used
    segment), freeing the second one loses it. One unit of two is owned and a
    record is left, yet a request for one unit fails.
   */
  lemma StaleFitLosesUnits()
    ensures var h := HalfFull();
            && Good(h) && LiveStart(h, 1) && MallocSafe(h, 1)
            && StaleFit(h, 1) && ExecMalloc(h, 1).ret == SUCCESS
            && var h1 := ExecMalloc(h, 1).heap;
               && FreeSafe(h1, 1)
               && var h2 := ExecFree(h1, 1);
                  && h2.usedSize == 1 && h2.mpUsed.used == 1 && h2.mpUsed.HasRoom()
                  && MallocSafe(h2, 1) && ExecMalloc(h2, 1).ret == NO_SPACE
  {
    hide *;
    HalfFullReached();
    TakesFirstUnit();
    LosesSecondUnit();
  }

  // ---------------------------------------------------------------- two callers own a unit

  /**
    Three units taken one by one; the middle one is released and taken again,
    which leaves the third stale; the first is released, which reuses the record
    the stale link names; the third is released into that record; and a request
    for two units gets units 0 and 1, of which unit 1 is allocated.
   */
  function OverlapAt(k: nat): Heap {
    match k
    case 0 =>
      Heap(3, 3,
           [EMPTY, EMPTY, EMPTY, Unused(0, 3, 7, 6),
            EMPTY, EMPTY, Used(-1, 0, 3, NULL), Used(-2, 0, NULL, 3)],
           PoolView([0, 1, 2], [0, 1, 2], 0), PoolView([0, 1, 2], [0, 1, 2], 1), [NULL, NULL, NULL], 0)
    case 1 =>
      Heap(3, 3,
           [Used(0, 1, 3, 6), EMPTY, EMPTY, Unused(1, 2, 7, 0),
            EMPTY, EMPTY, Used(-1, 0, 0, NULL), Used(-2, 0, NULL, 3)],
           PoolView([0, 1, 2], [0, 1, 2], 1), PoolView([0, 1, 2], [0, 1, 2], 1), [0, NULL, NULL], 1)
    case 2 =>
      Heap(3, 3,
           [Used(0, 1, 1, 6), Used(1, 1, 3, 0), EMPTY, Unused(2, 1, 7, 1),
            EMPTY, EMPTY, Used(-1, 0, 0, NULL), Used(-2, 0, NULL, 3)],
           PoolView([0, 1, 2], [0, 1, 2], 2), PoolView([0, 1, 2], [0, 1, 2], 1), [0, 1, NULL], 2)
    case 3 =>
      Heap(3, 3,
           [Used(0, 1, 1, 6), Used(1, 1, 2, 0), Used(2, 1, 7, 1), Unused(2, 1, 7, 1),
            EMPTY, EMPTY, Used(-1, 0, 0, NULL), Used(-2, 0, NULL, 3)],
           PoolView([0, 1, 2], [0, 1, 2], 3), PoolView([0, 1, 2], [0, 1, 2], 0), [0, 1, 2], 3)
    case 4 =>
      Heap(3, 3,
           [Used(0, 1, 3, 6), Used(1, 1, 2, 0), Used(2, 1, 7, 3), Unused(1, 1, 2, 0),
            EMPTY, EMPTY, Used(-1, 0, 0, NULL), Used(-2, 0, NULL, 3)],
           PoolView([0, 2, 1], [0, 2, 1], 2), PoolView([0, 1, 2], [0, 1, 2], 1), [0, 1, 2], 2)
    case 5 =>
      Heap(3, 3,
           [Used(0, 1, 1, 6), Used(1, 1, 2, 0), Used(2, 1, 7, 3), Unused(1, 1, 2, 0),
            EMPTY, EMPTY, Used(-1, 0, 0, NULL), Used(-2, 0, NULL, 3)],
           PoolView([0, 2, 1], [0, 2, 1], 3), PoolView([0, 1, 2], [0, 1, 2], 0), [0, 1, 2], 3)
    case 6 =>
      Heap(3, 3,
           [Used(0, 1, 1, 6), Used(1, 1, 2, 3), Used(2, 1, 7, 3), Unused(0, 1, 1, 6),
            EMPTY, EMPTY, Used(-1, 0, 3, NULL), Used(-2, 0, NULL, 3)],
           PoolView([1, 2, 0], [2, 0, 1], 2), PoolView([0, 1, 2], [0, 1, 2], 1), [0, 1, 2], 2)
    case 7 =>
      Heap(3, 3,
           [Used(0, 1, 1, 6), Used(1, 1, 2, 3), Used(2, 1, 7, 3), Unused(0, 2, 7, 6),
            EMPTY, EMPTY, Used(-1, 0, 3, NULL), Used(-2, 0, NULL, 3)],
           PoolView([1, 2, 0], [2, 0, 1], 1), PoolView([0, 1, 2], [0, 1, 2], 1), [0, 1, 2], 1)
    case _ =>
      Heap(3, 3,
           [Used(0, 1, 1, 6), Used(1, 1, 2, 3), Used(0, 2, 7, 6), Unused(0, 2, 7, 6),
            EMPTY, EMPTY, Used(-1, 0, 2, NULL), Used(-2, 0, NULL, 3)],
           PoolView([1, 2, 0], [2, 0, 1], 2), PoolView([0, 1, 2], [0, 1, 2], 0), [2, 1, 2], 3)
  }

  lemma OverlapTakesAt0()
    ensures var h := OverlapAt(0);
            MallocSafe(h, 1) && ExecMalloc(h, 1).ret == SUCCESS && ExecMalloc(h, 1).heap == OverlapAt(1)
  {
    hide MallocSafe;
    hide ExecMalloc;
    hide Scan;
    var h := OverlapAt(0);
    assert h.Shape();
    TakeOnly(h, 1);
    assert ExecMalloc(h, 1).heap.recs == OverlapAt(1).recs;
  }

  lemma OverlapTakesAt1()
    ensures var h := OverlapAt(1);
            MallocSafe(h, 1) && ExecMalloc(h, 1).ret == SUCCESS && ExecMalloc(h, 1).heap == OverlapAt(2)
  {
    hide MallocSafe;
    hide ExecMalloc;
    hide Scan;
    var h := OverlapAt(1);
    assert h.Shape();
    TakeOnly(h, 1);
    assert ExecMalloc(h, 1).heap.recs == OverlapAt(2).recs;
  }

  lemma OverlapTakesAt2()
    ensures var h := OverlapAt(2);
            MallocSafe(h, 1) && ExecMalloc(h, 1).ret == SUCCESS && ExecMalloc(h, 1).heap == OverlapAt(3)
  {
    hide MallocSafe;
    hide ExecMalloc;
    hide Scan;
    var h := OverlapAt(2);
    assert h.Shape();
    TakeOnly(h, 1);
    assert ExecMalloc(h, 1).heap.recs == OverlapAt(3).recs;
    assert ExecMalloc(h, 1).heap.mpFree == OverlapAt(3).mpFree;
  }

  lemma OverlapTakesAt4()
    ensures var h := OverlapAt(4);
            MallocSafe(h, 1) && ExecMalloc(h, 1).ret == SUCCESS && ExecMalloc(h, 1).heap == OverlapAt(5)
  {
    hide MallocSafe;
    hide ExecMalloc;
    hide Scan;
    var h := OverlapAt(4);
    assert h.Shape();
    TakeOnly(h, 1);
    assert ExecMalloc(h, 1).heap.recs == OverlapAt(5).recs;
    assert ExecMalloc(h, 1).heap.mpFree == OverlapAt(5).mpFree;
  }

  lemma OverlapMayFreeSecond()
    ensures FreeSafe(OverlapAt(3), 1) && OverlapAt(3).minfo[1] == 1
  {
    assert OverlapAt(3).Shape();
  }

  lemma OverlapFreesSecond()
    ensures FreeSafe(OverlapAt(3), 1) && ExecFree(OverlapAt(3), 1) == OverlapAt(4)
  {
    OverlapMayFreeSecond();
    hide FreeSafe;
    hide Releasable;
    assert ExecFree(OverlapAt(3), 1).recs == OverlapAt(4).recs;
  }

  lemma OverlapMayFreeFirst()
    ensures FreeSafe(OverlapAt(5), 0) && OverlapAt(5).minfo[0] == 0
  {
    assert OverlapAt(5).Shape();
  }

  lemma OverlapFreesFirst()
    ensures FreeSafe(OverlapAt(5), 0) && ExecFree(OverlapAt(5), 0) == OverlapAt(6)
  {
    OverlapMayFreeFirst();
    hide FreeSafe;
    hide Releasable;
    assert ExecFree(OverlapAt(5), 0).recs == OverlapAt(6).recs;
  }

  lemma OverlapMayFreeThird()
    ensures FreeSafe(OverlapAt(6), 2) && OverlapAt(6).minfo[2] == 2
  {
    assert OverlapAt(6).Shape();
  }

  lemma OverlapFreesThird()
    ensures FreeSafe(OverlapAt(6), 2) && ExecFree(OverlapAt(6), 2) == OverlapAt(7)
  {
    OverlapMayFreeThird();
    hide FreeSafe;
    hide Releasable;
    assert ExecFree(OverlapAt(6), 2).recs == OverlapAt(7).recs;
  }

  lemma OverlapTakesTwo()
    ensures MallocSafe(OverlapAt(7), 2) && ExecMalloc(OverlapAt(7), 2) == MallocResult(OverlapAt(8), SUCCESS, 2)
  {
    hide MallocSafe;
    hide ExecMalloc;
    hide Scan;
    var h := OverlapAt(7);
    assert h.Shape();
    TakeOnly(h, 2);
    assert ExecMalloc(h, 2).heap.recs == OverlapAt(8).recs;
    assert ExecMalloc(h, 2).heap.mpFree == OverlapAt(8).mpFree;
  }

  lemma OverlapShared()
    ensures HasUnit(OverlapAt(8), 1, 1) && HasUnit(OverlapAt(8), 2, 1)
  {
  }

  lemma OverlapStarts()
    ensures Created(OverlapAt(0))
  {
  }

  lemma OverlapWalkAt3()
    ensures var h, c := OverlapAt(3), [6, 0, 1, 2, 7];
            Walk(h.cap, c) && NextLinked(h.recs, c) && h.recs[c[2]] == MemInfo(1, 1, true, 2, c[1])
  {
  }

  lemma OverlapWalkAt5()
    ensures var h, c := OverlapAt(5), [6, 0, 1, 2, 7];
            Walk(h.cap, c) && NextLinked(h.recs, c) && h.recs[c[1]] == MemInfo(0, 1, true, 1, c[0])
  {
  }

  lemma OverlapWalkAt6()
    ensures var h, c := OverlapAt(6), [6, 3, 1, 2, 7];
            Walk(h.cap, c) && NextLinked(h.recs, c) && h.recs[c[3]] == MemInfo(2, 1, true, 7, c[1])
  {
  }

  function OverlapOps(k: nat): (ops: seq<Op>)
    requires k <= 6
    decreases 6 - k
  {
    match k
    case 3 => [Dealloc(1)] + OverlapOps(4)
    case 5 => [Dealloc(0)] + OverlapOps(6)
    case 6 => []
    case _ => [Alloc(1)] + OverlapOps(k + 1)
  }

  /** Every call before the third release is legal and leaves the list well-formed. */
  lemma {:induction false} OverlapReached(k: nat)
    requires k <= 6 && Good(OverlapAt(k))
    ensures LegalRun(OverlapAt(k), OverlapOps(k), false)
    ensures After(OverlapAt(k), OverlapOps(k), false) == OverlapAt(6) && Good(OverlapAt(6))
    decreases 6 - k
  {
    hide Good;
    hide OverlapAt;
    hide LegalRun;
    hide After;
    hide Legal;
    hide Step;
    hide MallocSafe;
    hide ExecMalloc;
    hide FreeSafe;
    hide ExecFree;
    hide LiveStart;
    hide StaleStart;
    hide Walk;
    hide NextLinked;
    if k == 6 {
      RunNowhere(OverlapAt(6));
    } else if k == 3 {
      OverlapWalkAt3();
      LiveByWalk(OverlapAt(3), [6, 0, 1, 2, 7], 2);
      ReleaseStep(OverlapAt(3), 1);
      OverlapFreesSecond();
      OverlapReached(4);
      RunFrom(OverlapAt(3), Dealloc(1), OverlapOps(4));
    } else if k == 5 {
      OverlapWalkAt5();
      LiveByWalk(OverlapAt(5), [6, 0, 1, 2, 7], 1);
      ReleaseStep(OverlapAt(5), 0);
      OverlapFreesFirst();
      OverlapReached(6);
      RunFrom(OverlapAt(5), Dealloc(0), OverlapOps(6));
    } else {
      OverlapTakesAt0();
      OverlapTakesAt1();
      OverlapTakesAt2();
      OverlapTakesAt4();
      RequestStep(OverlapAt(k), 1);
      OverlapReached(k + 1);
      RunFrom(OverlapAt(k), Alloc(1), OverlapOps(k + 1));
    }
  }

  /**
    As written: after those six calls the caller releases its live, but stale,
    third allocation, and the next request returns units of which one belongs to
    a live allocation.
   */
  lemma StaleReadOverlaps()
    ensures Created(OverlapAt(0)) && LegalRun(OverlapAt(0), OverlapOps(0), false)
    ensures var h := After(OverlapAt(0), OverlapOps(0), false);
            && LiveStart(h, 2) && StaleStart(h, 2) && FreeSafe(h, 2)
            && var h' := ExecFree(h, 2);
               && MallocSafe(h', 2) && ExecMalloc(h', 2).ret == SUCCESS
               && var r := ExecMalloc(h', 2);
                  r.rec != 1 && HasUnit(r.heap, 1, 1) && HasUnit(r.heap, r.rec, 1)
  {
    hide *;
    OverlapStarts();
    CreatedClean(OverlapAt(0));
    OverlapReached(0);
    OverlapWalkAt6();
    LiveByWalk(OverlapAt(6), [6, 3, 1, 2, 7], 3);
    OverlapFreesThird();
    OverlapTakesTwo();
    OverlapShared();
  }

  // ---------------------------------------------------------------- the counter drifts

  /** A new manager with two units and one record per pool. */
  function OneRecordHeap(): Heap {
    Heap(1, 2,
         [EMPTY, Unused(0, 2, 3, 2), Used(-1, 0, 1, NULL), Used(-2, 0, NULL, 1)],
         PoolView([0], [0], 0), PoolView([0], [0], 1), [NULL, NULL], 0)
  }

  function OneRecordTaken(): Heap {
    Heap(1, 2,
         [Used(0, 1, 1, 2), Unused(1, 1, 3, 0), Used(-1, 0, 0, NULL), Used(-2, 0, NULL, 1)],
         PoolView([0], [0], 1), PoolView([0], [0], 1), [0, NULL], 1)
  }

  lemma OneRecordTakes()
    ensures Created(OneRecordHeap()) && MallocSafe(OneRecordHeap(), 1) && MallocSafe(OneRecordTaken(), 1)
    ensures ExecMalloc(OneRecordHeap(), 1) == MallocResult(OneRecordTaken(), SUCCESS, 0)
    ensures ExecMalloc(OneRecordTaken(), 1) == MallocResult(OneRecordTaken().(usedSize := 2), NO_RECORD, NULL)
  {
    var h, h1 := OneRecordHeap(), OneRecordTaken();
    assert h.Shape() && h1.Shape();
    assert Scan(h, 1, 0) == -1 && Scan(h, 1, 1) == 0;
    assert Scan(h1, 1, 0) == -1 && Scan(h1, 1, 1) == 0;
    assert ExecMalloc(h, 1).heap.recs == h1.recs;
  }

  /** Two requests for one unit each: the second finds room but no record, and mem_used_bsize counts it all the same. */
  lemma SizeDrifts()
    ensures var h, ops := OneRecordHeap(), [Alloc(1)] + ([Alloc(1)] + []);
            && Created(h) && LegalRun(h, ops, false)
            && Drift(h, ops, false) == 1
            && After(h, ops, false).usedSize == 2 && UsedUnits(After(h, ops, false)) == 1
  {
    hide *;
    var h, h1, h2 := OneRecordHeap(), OneRecordTaken(), OneRecordTaken().(usedSize := 2);
    OneRecordTakes();
    CreatedClean(h);
    RequestStep(h, 1);
    RequestStep(h1, 1);
    RunNowhere(h2);
    RunFrom(h1, Alloc(1), []);
    RunFrom(h, Alloc(1), [Alloc(1)] + []);
    NewUnits(h);
    TakenUnits(h2);
    UsedSizeOverRuns(h, [Alloc(1)] + ([Alloc(1)] + []), false);
  }

  lemma SegsByWalk(h: Heap, c: seq<int>)
    requires Good(h) && Walk(h.cap, c) && NextLinked(h.recs, c)
    ensures SegsOf(h) == Segs(h.recs, c)
  {
    WalkUnique(h, c, TheWalk(h));
  }

  lemma NewSegs()
    ensures var h, c := OneRecordHeap(), [2, 1, 3];
            Walk(h.cap, c) && NextLinked(h.recs, c) && Segs(h.recs, c) == [S.Seg(0, 2, false)]
  {
  }

  lemma TakenSegs()
    ensures var h, c := OneRecordTaken(), [2, 0, 1, 3];
            Walk(h.cap, c) && NextLinked(h.recs, c) && Segs(h.recs, c) == [S.Seg(0, 1, true), S.Seg(1, 1, false)]
  {
  }

  lemma NewUnits(h: Heap)
    requires h == OneRecordHeap() && Good(h)
    ensures h.usedSize == 0 && UsedUnits(h) == 0
  {
    hide Good;
    hide Walk;
    hide NextLinked;
    NewSegs();
    SegsByWalk(h, [2, 1, 3]);
    S.SumOne(S.Seg(0, 2, false), S.UsedLen);
  }

  lemma TakenUnits(h: Heap)
    requires h == OneRecordTaken().(usedSize := 2) && Good(h)
    ensures h.usedSize == 2 && UsedUnits(h) == 1
  {
    hide Good;
    hide Walk;
    hide NextLinked;
    TakenSegs();
    SegsByWalk(h, [2, 0, 1, 3]);
    S.SumTwo(S.Seg(0, 1, true), S.Seg(1, 1, false), S.UsedLen);
  }
}
