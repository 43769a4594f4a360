/**
  When the code as written reads a stale link, in a caller's terms: exactly when
  it releases an allocation while the one right below it was made later. A
  caller that knows its live allocations and their order can check this.
 */
module HeapAges {
  import opened HeapRecords
  import opened HeapVerdicts
  import opened HeapRuns
  import opened Segments

  /** When each allocation, named by its first unit, was made. */
  type Births = map<nat, nat>

  ghost predicate Younger(segs: seq<Seg>, born: Births, i: nat, j: nat)
    requires i < |segs| && j < |segs|
  {
    && segs[i].used && segs[j].used && segs[i].start in born && segs[j].start in born
    && born[segs[i].start] > born[segs[j].start]
  }

  /** The allocation that starts at `u` stands right above one that was made later. */
  ghost predicate YoungerBelow(segs: seq<Seg>, born: Births, u: int) {
    exists i, j :: 0 <= i && j == i + 1 && j < |segs| && segs[j].start == u && Younger(segs, born, i, j)
  }

  /** All live allocations were made before `now`. */
  ghost predicate Recorded(segs: seq<Seg>, born: Births, now: nat) {
    forall i | 0 <= i < |segs| && segs[i].used :: segs[i].start in born && born[segs[i].start] < now
  }

  // ---------------------------------------------------------------- on segments

  /** Segments away from a change keep their neighbours and their ages. */
  ghost predicate SameAges(segs: seq<Seg>, born: Births, born': Births) {
    forall i | 0 <= i < |segs| && segs[i].used ::
      segs[i].start in born && segs[i].start in born' && born'[segs[i].start] == born[segs[i].start]
  }

  lemma MallocAges(segs: seq<Seg>, total: nat, i: nat, n: nat, born: Births, now: nat)
    requires Wf(segs, total) && i < |segs| && segs[i].Fits(n) && n > 0 && Recorded(segs, born, now)
    ensures var born' := born[segs[i].start := now];
            SameAges(segs, born, born') && Recorded(Malloc(segs, i, n), born', now + 1)
  {
    var born' := born[segs[i].start := now];
    forall k | 0 <= k < |segs| && segs[k].used
      ensures segs[k].start != segs[i].start
    {
      AllocationsDisjoint(segs, total, k, i, segs[k].start);
    }
    SpliceParts(segs, i, i + 1, Taken(segs[i], n));
  }

  /** A change of one place of the list by another segment, or of several by one that is free. */
  ghost predicate Moved(segs: seq<Seg>, after: seq<Seg>, lo: nat, hi: nat, len: nat) {
    && lo <= hi <= |segs| && |after| == |segs| - (hi - lo) + len
    && (forall k | 0 <= k < lo :: after[k] == segs[k])
    && (forall k | lo + len <= k < |after| :: after[k] == segs[k - len + (hi - lo)])
  }

  lemma YoungerMoved(segs: seq<Seg>, after: seq<Seg>, lo: nat, hi: nat, len: nat, born: Births, born': Births, u: int)
    returns (a: int)
    requires Moved(segs, after, lo, hi, len) && SameAges(segs, born, born') && YoungerBelow(after, born', u)
    ensures 0 <= a < |after| - 1 && after[a + 1].start == u && Younger(after, born', a, a + 1)
    ensures a + 1 < lo || lo + len <= a ==> YoungerBelow(segs, born, u)
  {
    var i, j :| 0 <= i && j == i + 1 && j < |after| && after[j].start == u && Younger(after, born', i, j);
    a := i;
    if j < lo {
      assert Younger(segs, born, i, j);
    } else if lo + len <= i {
      assert Younger(segs, born, i - len + (hi - lo), j - len + (hi - lo));
    }
  }

  lemma YoungerStays(segs: seq<Seg>, after: seq<Seg>, lo: nat, hi: nat, len: nat, born: Births, born': Births, u: int)
    returns (a: int)
    requires Moved(segs, after, lo, hi, len) && SameAges(segs, born, born') && YoungerBelow(segs, born, u)
    ensures 0 <= a < |segs| - 1 && segs[a + 1].start == u && Younger(segs, born, a, a + 1)
    ensures a + 1 < lo || hi <= a ==> YoungerBelow(after, born', u)
  {
    var i, j :| 0 <= i && j == i + 1 && j < |segs| && segs[j].start == u && Younger(segs, born, i, j);
    a := i;
    if j < lo {
      assert Younger(after, born', i, j);
    } else if hi <= i {
      assert Younger(after, born', i + len - (hi - lo), j + len - (hi - lo));
    }
  }

  lemma MallocMoved(segs: seq<Seg>, total: nat, i: nat, n: nat)
    requires Wf(segs, total) && i < |segs| && segs[i].Fits(n)
    ensures var after, len := Malloc(segs, i, n), if segs[i].len == n then 1 else 2;
            && Moved(segs, after, i, i + 1, len)
            && after[i] == Seg(segs[i].start, n, true) && (len == 2 ==> !after[i + 1].used)
            && (i < |segs| - 1 ==> segs[i + 1].used && segs[i].End() == segs[i + 1].start)
  {
    SpliceParts(segs, i, i + 1, Taken(segs[i], n));
    assert i < |segs| - 1 ==> segs[i].used || segs[i + 1].used;
  }

  /** A new allocation is younger than the one right above it, if there is one. */
  lemma MallocYounger(segs: seq<Seg>, total: nat, i: nat, n: nat, born: Births, now: nat, u: int)
    requires Wf(segs, total) && i < |segs| && segs[i].Fits(n) && n > 0 && Recorded(segs, born, now)
    ensures YoungerBelow(Malloc(segs, i, n), born[segs[i].start := now], u) <==>
            || YoungerBelow(segs, born, u)
            || (segs[i].len == n && i < |segs| - 1 && u == segs[i].start + n)
  {
    var after, born', len := Malloc(segs, i, n), born[segs[i].start := now], if segs[i].len == n then 1 else 2;
    MallocAges(segs, total, i, n, born, now);
    MallocMoved(segs, total, i, n);
    hide Malloc;
    hide Wf;
    hide YoungerBelow;
    hide Moved;
    if YoungerBelow(after, born', u) {
      var a := YoungerMoved(segs, after, i, i + 1, len, born, born', u);
      FirstAfter(segs, after, i, len);
    }
    if YoungerBelow(segs, born, u) {
      var a := YoungerStays(segs, after, i, i + 1, len, born, born', u);
    }
    if len == 1 && i < |segs| - 1 {
      FirstAfter(segs, after, i, 1);
      NewIsYounger(after, born', i, now);
    }
  }

  lemma FirstAfter(segs: seq<Seg>, after: seq<Seg>, i: nat, len: nat)
    requires Moved(segs, after, i, i + 1, len) && i < |segs|
    ensures i + len < |after| <==> i < |segs| - 1
    ensures i < |segs| - 1 ==> after[i + len] == segs[i + 1]
    ensures |after| == |segs| - 1 + len
  {
  }

  lemma NewIsYounger(after: seq<Seg>, born: Births, i: nat, now: nat)
    requires i < |after| - 1 && after[i].used && after[i + 1].used && Recorded(after, born, now + 1)
    requires after[i].start in born && born[after[i].start] == now && after[i + 1].start in born
    requires born[after[i + 1].start] != now
    ensures YoungerBelow(after, born, after[i + 1].start)
  {
    assert born[after[i + 1].start] < now + 1;
    assert Younger(after, born, i, i + 1);
  }

  lemma FreeMoved(segs: seq<Seg>, total: nat, i: nat)
    requires Wf(segs, total) && i < |segs| && segs[i].used
    ensures var after, lo, hi := Free(segs, i), JoinLo(segs, i), JoinHi(segs, i);
            && Moved(segs, after, lo, hi, 1) && !after[lo].used
            && (forall k | lo <= k < hi && k != i :: !segs[k].used)
            && (forall k | 0 <= k < |segs| && k != i :: segs[k].start != segs[i].start)
            && (forall k | 0 <= k < |segs| && k != i + 1 :: segs[k].start != segs[i].End())
            && (i + 1 < |segs| ==> segs[i].End() == segs[i + 1].start)
  {
    var lo, hi := JoinLo(segs, i), JoinHi(segs, i);
    SpliceParts(segs, lo, hi, [Seg(segs[lo].start, JoinLen(segs, i), false)]);
    forall k | 0 <= k < |segs| && k != i
      ensures segs[k].start != segs[i].start
    {
      AllocationsDisjoint(segs, total, k, i, segs[k].start);
    }
    forall k | 0 <= k < |segs| && k != i + 1
      ensures segs[k].start != segs[i].End()
    {
      EndsOnce(segs, total, i, k);
    }
  }

  lemma FreeYoungerOnly(segs: seq<Seg>, total: nat, i: nat, born: Births, now: nat, u: int)
    requires Wf(segs, total) && i < |segs| && segs[i].used && Recorded(segs, born, now)
    requires YoungerBelow(Free(segs, i), born, u)
    ensures YoungerBelow(segs, born, u) && u != segs[i].start && u != segs[i].End()
  {
    hide Free;
    hide Wf;
    hide YoungerBelow;
    var after, lo, hi := Free(segs, i), JoinLo(segs, i), JoinHi(segs, i);
    FreeMoved(segs, total, i);
    var a := YoungerMoved(segs, after, lo, hi, 1, born, born, u);
    assert a + 1 < lo ==> after[a + 1] == segs[a + 1];
    assert lo < a ==> after[a + 1] == segs[a + hi - lo];
  }

  lemma FreeYoungerStays(segs: seq<Seg>, total: nat, i: nat, born: Births, now: nat, u: int)
    requires Wf(segs, total) && i < |segs| && segs[i].used && Recorded(segs, born, now)
    requires YoungerBelow(segs, born, u) && u != segs[i].start && u != segs[i].End()
    ensures YoungerBelow(Free(segs, i), born, u)
  {
    hide Free;
    hide Wf;
    hide YoungerBelow;
    FreeMoved(segs, total, i);
    var a := YoungerStays(segs, Free(segs, i), JoinLo(segs, i), JoinHi(segs, i), 1, born, born, u);
  }

  /** The released allocation and the one right above it have no younger one below any more. */
  lemma FreeYounger(segs: seq<Seg>, total: nat, i: nat, born: Births, now: nat, u: int)
    requires Wf(segs, total) && i < |segs| && segs[i].used && Recorded(segs, born, now)
    ensures YoungerBelow(Free(segs, i), born, u) <==>
            YoungerBelow(segs, born, u) && u != segs[i].start && u != segs[i].End()
  {
    hide *;
    if YoungerBelow(Free(segs, i), born, u) {
      FreeYoungerOnly(segs, total, i, born, now, u);
    } else if YoungerBelow(segs, born, u) && u != segs[i].start && u != segs[i].End() {
      FreeYoungerStays(segs, total, i, born, now, u);
    }
  }

  /** Only the next segment starts where segment `i` ends. */
  lemma EndsOnce(segs: seq<Seg>, total: nat, i: nat, k: nat)
    requires Wf(segs, total) && i < |segs| && k < |segs| && k != i + 1
    ensures segs[k].start != segs[i].End()
  {
    if i + 1 < |segs| {
      assert segs[i].End() == segs[i + 1].start;
      AllocationsDisjoint(segs, total, k, i + 1, segs[k].start);
    } else {
      Inside(segs, total, k);
    }
  }

  // ---------------------------------------------------------------- on runs

  /** The stale links are known from the ages. */
  ghost predicate Aged(h: Heap, born: Births, now: nat) {
    && Good(h) && Recorded(SegsOf(h), born, now)
    && forall u :: StaleStart(h, u) <==> YoungerBelow(SegsOf(h), born, u)
  }

  /** A request that succeeds at `now` gives birth to an allocation. */
  ghost function Bear(h: Heap, op: Op, born: Births, now: nat): Births
    requires Good(h)
  {
    if op.Alloc? && op.n > 0 && CanMalloc(SegsOf(h), h.cap, op.n) then
      MallocStart(h, op.n);
      born[StartOf(h, op.n) := now]
    else born
  }

  /** The first unit of what a request returns. */
  ghost function StartOf(h: Heap, n: nat): nat
    requires Good(h) && n > 0 && CanMalloc(SegsOf(h), h.cap, n)
  {
    MallocStart(h, n);
    ExecMalloc(h, n).heap.recs[ExecMalloc(h, n).rec].index
  }

  lemma MallocStart(h: Heap, n: nat)
    requires Good(h) && n > 0 && CanMalloc(SegsOf(h), h.cap, n)
    ensures MallocSafe(h, n) && ExecMalloc(h, n).ret == SUCCESS
    ensures var r := ExecMalloc(h, n); InTable(r.heap.recs, r.rec) && r.heap.recs[r.rec].index >= 0
  {
    MallocReturns(h, n);
    MallocNames(h, n);
  }

  lemma AgedAlloc(h: Heap, n: nat, born: Births, now: nat)
    requires Aged(h, born, now) && n > 0
    ensures Aged(Step(h, Alloc(n), false), Bear(h, Alloc(n), born, now), now + 1)
  {
    hide Inv;
    hide ExecMalloc;
    hide MallocSafe;
    hide StaleFit;
    hide StaleStart;
    hide YoungerBelow;
    hide Wf;
    hide Malloc;
    MallocShape(h);
    MallocReturns(h, n);
    MallocAsWritten(h, n);
    var r, segs := ExecMalloc(h, n), SegsOf(h);
    if r.ret == SUCCESS {
      var i: nat :| AllocatedAt(segs, n, SegsOf(r.heap), r.heap, r.rec, StaleFit(h, n), i);
      MallocAges(segs, h.total, i, n, born, now);
      forall u
        ensures StaleStart(r.heap, u) <==> YoungerBelow(SegsOf(r.heap), born[segs[i].start := now], u)
      {
        MallocYounger(segs, h.total, i, n, born, now, u);
      }
    }
  }

  lemma AgedDealloc(h: Heap, index: nat, born: Births, now: nat)
    requires Aged(h, born, now) && LiveStart(h, index) && !StaleStart(h, index)
    ensures Aged(Step(h, Dealloc(index), false), born, now + 1)
  {
    hide Inv;
    hide ExecFree;
    hide FreeSafe;
    FreeReturns(h, index);
    var segs, i := SegsOf(h), Locate(SegsOf(h), h.total, index);
    var h' := ExecFree(h, index);
    SpliceParts(segs, JoinLo(segs, i), JoinHi(segs, i), [Seg(segs[JoinLo(segs, i)].start, JoinLen(segs, i), false)]);
    forall u
      ensures StaleStart(h', u) <==> YoungerBelow(SegsOf(h'), born, u)
    {
      FreeYounger(segs, h.total, i, born, now, u);
    }
  }

  lemma AgedStep(h: Heap, op: Op, born: Births, now: nat)
    requires Aged(h, born, now) && Legal(h, op) && !ReadsStale(h, op)
    ensures Aged(Step(h, op, false), Bear(h, op, born, now), now + 1)
  {
    match op
    case Alloc(n) =>
      if n > 0 {
        AgedAlloc(h, n, born, now);
      }
    case Dealloc(index) => AgedDealloc(h, index, born, now);
  }

  lemma AgedRequest(h: Heap, n: nat, born: Births, now: nat)
    requires Aged(h, born, now) && n > 0
    ensures MallocSafe(h, n) && Aged(ExecMalloc(h, n).heap, Bear(h, Alloc(n), born, now), now + 1)
  {
    AgedAlloc(h, n, born, now);
    MallocKeepsGood(h, n);
  }

  lemma AgedRelease(h: Heap, index: nat, born: Births, now: nat)
    requires Aged(h, born, now) && LiveStart(h, index) && !YoungerBelow(SegsOf(h), born, index)
    ensures FreeSafe(h, index) && Aged(ExecFree(h, index), born, now + 1)
  {
    AgedDealloc(h, index, born, now);
    FreeKeepsGoodIff(h, index);
  }

  /** At some point of the run a release is made of an allocation right above one made later. */
  ghost predicate MeetsYounger(h: Heap, ops: seq<Op>, born: Births, now: nat)
    decreases |ops|
  {
    && Good(h) && ops != [] && Legal(h, ops[0])
    && ((ops[0].Dealloc? && YoungerBelow(SegsOf(h), born, ops[0].index))
        || MeetsYounger(Step(h, ops[0], false), ops[1..], Bear(h, ops[0], born, now), now + 1))
  }

  lemma {:induction false} StaleIffYounger(h: Heap, ops: seq<Op>, born: Births, now: nat)
    requires Aged(h, born, now)
    ensures MeetsStale(h, ops, false) <==> MeetsYounger(h, ops, born, now)
    decreases |ops|
  {
    if ops != [] && Legal(h, ops[0]) && !ReadsStale(h, ops[0]) {
      AgedStep(h, ops[0], born, now);
      hide Aged;
      hide Good;
      StaleIffYounger(Step(h, ops[0], false), ops[1..], Bear(h, ops[0], born, now), now + 1);
    }
  }

  /**
    The code as written, started on a new manager, keeps every unit with exactly
    one record if and only if no allocation is released while the one right
    below it was made later.
   */
  lemma AsWrittenPartedIff(h: Heap, ops: seq<Op>)
    requires Created(h)
    ensures Good(h) && (Parted(h, ops, false) <==> !MeetsYounger(h, ops, map[], 0))
    ensures Sound(h, ops, false) <==> !MeetsYounger(h, ops, map[], 0)
  {
    CreatedClean(h);
    hide Inv;
    assert Aged(h, map[], 0);
    StaleIffYounger(h, ops, map[], 0);
    RunsPartedIff(h, ops, false);
    RunsSoundIff(h, ops, false);
  }
}
