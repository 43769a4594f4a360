/**
  What the record functions mean for a caller: the verdicts of _em_malloc and
  em_free, which back links the code as written leaves stale, and when a stale
  one does harm.
 */
module HeapVerdicts {
  import opened Basics
  import opened Mempool
  import opened HeapRecords
  import opened HeapMalloc
  import opened HeapFree
  import opened HeapOwners
  import S = Segments

  /** The records form a well-formed list, up to back links between two allocations. */
  ghost predicate Good(h: Heap) {
    exists c :: Inv(h, c)
  }

  ghost function TheWalk(h: Heap): (c: seq<int>)
    requires Good(h)
    ensures Inv(h, c)
  {
    var c :| Inv(h, c); c
  }

  /** The segments of a well-formed manager. */
  ghost function SegsOf(h: Heap): (s: seq<S.Seg>)
    requires Good(h)
    ensures S.Wf(s, h.total)
  {
    Segs(h.recs, TheWalk(h))
  }

  lemma SegsOfWalk(h: Heap, c: seq<int>)
    requires Inv(h, c)
    ensures Good(h) && TheWalk(h) == c && SegsOf(h) == Segs(h.recs, c)
  {
    WalkUnique(h, c, TheWalk(h));
  }

  /** The allocation that starts at unit `u` has a stale back link. */
  ghost predicate StaleStart(h: Heap, u: int)
    requires Good(h)
  {
    StaleAt(h.recs, TheWalk(h), u)
  }

  /** All back links are right. */
  ghost predicate Clean(h: Heap) {
    Good(h) && forall u :: !StaleStart(h, u)
  }

  lemma CleanByWalk(h: Heap, c: seq<int>)
    requires Good(h) && Walk(h.cap, c) && NextLinked(h.recs, c)
    requires forall i, j | 0 <= i && j == i + 1 && j < |c| - 1 :: h.recs[c[j]].back == c[i]
    ensures TheWalk(h) == c && Clean(h)
  {
    WalkUnique(h, c, TheWalk(h));
  }

  // ---------------------------------------------------------------- em_memmng_create

  /** The state em_memmng_create leaves; records never handed out hold whatever the memory held. */
  ghost predicate Created(h: Heap) {
    && h.Shape()
    && h.mpUsed == FreshPool(h.cap) && h.mpFree == FreshPool(h.cap).Alloc()
    && h.recs[2 * h.cap] == MemInfo(-1, 0, true, h.cap, NULL)
    && h.recs[2 * h.cap + 1] == MemInfo(-2, 0, true, NULL, h.cap)
    && h.recs[h.cap] == MemInfo(0, h.total, false, 2 * h.cap + 1, 2 * h.cap)
    && h.usedSize == 0
  }

  lemma CreatedClean(h: Heap)
    requires Created(h)
    ensures Good(h) && Clean(h) && SegsOf(h) == S.Fresh(h.total)
  {
    var c := [2 * h.cap, h.cap, 2 * h.cap + 1];
    CreatedTallied(h, c);
    hide Tallied;
    hide S.Wf;
    AllocRefinesSet(FreshPool(h.cap));
    assert Inhabited(h, c);
    hide Inhabited;
    assert Inv(h, c);
    SegsOfWalk(h, c);
    CleanByWalk(h, c);
  }

  lemma CreatedTallied(h: Heap, c: seq<int>)
    requires Created(h) && c == [2 * h.cap, h.cap, 2 * h.cap + 1]
    ensures Segs(h.recs, c) == S.Fresh(h.total) && Tallied(h, Segs(h.recs, c))
  {
    assert Segs(h.recs, c) == S.Fresh(h.total);
    S.SumOne(S.Fresh(h.total)[0], S.UsedOne);
    S.SumOne(S.Fresh(h.total)[0], S.FreeOne);
  }

  // ---------------------------------------------------------------- the verdict of _em_malloc

  /** The scan finds a record exactly when some segment fits. */
  lemma ScanComplete(h: Heap, c: seq<int>, n: nat)
    requires Inv(h, c)
    ensures var segs := Segs(h.recs, c);
            Scan(h, n, h.mpFree.used) >= 0 <==> exists i: nat :: i < |segs| && segs[i].Fits(n)
  {
    var segs := Segs(h.recs, c);
    var p := Scan(h, n, h.mpFree.used);
    if p >= 0 {
      var k := FreeRecOnWalk(h, c, p);
      assert segs[k - 1] == SegOf(h.recs[c[k]]);
    }
    if i: nat :| i < |segs| && segs[i].Fits(n) {
      assert segs[i] == SegOf(h.recs[c[i + 1]]);
      var q := WalkOnFreeRec(h, c, i + 1);
      assert p >= q;
    }
  }

  /** The place of the record a successful request takes from. */
  lemma ScanFinds(h: Heap, c: seq<int>, n: nat) returns (k: nat)
    requires Inv(h, c) && n > 0
    ensures MallocSafe(h, n)
    ensures Scan(h, n, h.mpFree.used) >= 0 ==>
        && At(h.recs, c, k) && c[k] == h.FreeRec(Scan(h, n, h.mpFree.used))
        && (h.mpUsed.HasRoom() ==> Takeable(h, c[k], n))
  {
    var p := Scan(h, n, h.mpFree.used);
    if p < 0 {
      k := 0;
    } else {
      k := FreeRecOnWalk(h, c, p);
    }
  }

  /** mp_used has a record left exactly when fewer than `cap` segments are used; the counter is not in the invariant. */
  lemma TalliesAndSize(h: Heap, c: seq<int>, size: int)
    requires Inv(h, c)
    ensures h.mpUsed.HasRoom() <==> S.Sum(Segs(h.recs, c), S.UsedOne) < h.cap
    ensures Inv(h.(usedSize := size), c)
  {
    hide S.Wf;
  }

  /**
    What _em_malloc returns: -2 exactly when no `n` consecutive unowned units
    exist anywhere, -1 exactly when they do but mp_used is exhausted, else 0. A
    failure leaves the records alone; -1 still adds `n` to mem_used_bsize.
   */
  lemma MallocReturns(h: Heap, n: nat)
    requires Good(h) && n > 0
    ensures MallocSafe(h, n)
    ensures var r, segs := ExecMalloc(h, n), SegsOf(h);
            var fits := exists s: nat :: S.UnownedRun(segs, h.total, s, n);
            && r.ret == (if !fits then NO_SPACE else if !h.mpUsed.HasRoom() then NO_RECORD else SUCCESS)
            && (r.ret == SUCCESS <==> S.CanMalloc(segs, h.cap, n))
            && (r.ret == NO_SPACE ==> r.heap == h)
            && (r.ret == NO_RECORD ==> r.heap == h.(usedSize := h.usedSize + n))
            && (r.ret != SUCCESS ==> Good(r.heap) && SegsOf(r.heap) == segs)
  {
    hide Inv;
    var c := TheWalk(h);
    var k := ScanFinds(h, c, n);
    ScanComplete(h, c, n);
    S.FitsIffUnownedRun(SegsOf(h), h.total, n);
    TalliesAndSize(h, c, h.usedSize + n);
    SegsOfWalk(h.(usedSize := h.usedSize + n), c);
  }

  /**
    What makes the code as written leave a back link stale: the request fits a
    free segment exactly, and that segment is not the last one of the arena.
   */
  predicate StaleFit(h: Heap, n: nat)
    requires h.Shape()
  {
    && h.mpUsed.HasRoom()
    && var p := Scan(h, n, h.mpFree.used);
       p >= 0 && h.recs[h.FreeRec(p)].length == n && h.recs[h.FreeRec(p)].next != 2 * h.cap + 1
  }

  /**
    What a success means: `n` units of one free segment change hands, and record
    `m` is found by the first of them. `below` tells whether the next unit
    belongs to the arena and is allocated too.
   */
  ghost predicate Allocated(segs: seq<S.Seg>, n: nat, segs': seq<S.Seg>, h': Heap, m: int, below: bool) {
    exists i: nat :: AllocatedAt(segs, n, segs', h', m, below, i)
  }

  ghost predicate AllocatedAt(segs: seq<S.Seg>, n: nat, segs': seq<S.Seg>, h': Heap, m: int, below: bool, i: nat) {
    && i < |segs| && segs[i].Fits(n) && segs' == S.Malloc(segs, i, n)
    && InTable(h'.recs, m) && h'.recs[m].index == segs[i].start
    && segs[i].start < |h'.minfo| && h'.minfo[segs[i].start] == m
    && (below <==> segs[i].len == n && i < |segs| - 1)
  }

  /** The new record and the index table name the allocation by its first unit. */
  lemma TakeNames(h: Heap, c: seq<int>, k: nat, n: nat)
    requires Walk(h.cap, c) && Inhabited(h, c) && At(h.recs, c, k) && Takeable(h, c[k], n)
    ensures var h', m := Take(h, c[k], n), h.mpUsed.NextId();
            && InTable(h'.recs, m) && h'.recs[m].index == h.recs[c[k]].index && |h'.minfo| == h.total
            && h'.minfo[h.recs[c[k]].index] == m
  {
    NewRecordIsOutside(h, c);
    if h.recs[c[k]].length == n {
      ExactTable(h.recs, c, k, h.mpUsed.NextId(), n);
    } else {
      SplitTable(h.recs, c, k, h.mpUsed.NextId(), n);
    }
  }

  /** Success of the code as written, on the walk. */
  lemma AsWrittenOnWalk(h: Heap, c: seq<int>, k: nat, n: nat)
    requires Inv(h, c) && At(h.recs, c, k) && Takeable(h, c[k], n)
    ensures var h', segs, below := Take(h, c[k], n), Segs(h.recs, c), h.recs[c[k]].length == n && k < |c| - 2;
            && Good(h') && TheWalk(h') == MallocWalk(h, c, k, n)
            && AllocatedAt(segs, n, SegsOf(h'), h', h.mpUsed.NextId(), below, k - 1)
  {
    hide BackLinked;
    hide Tallied;
    hide Kinds;
    hide Indexed;
    hide Take;
    hide PoolView.Wf;
    var h', c' := Take(h, c[k], n), MallocWalk(h, c, k, n);
    TakeKeeps(h, c, k, n);
    TakeNames(h, c, k, n);
    assert Segs(h.recs, c)[k - 1] == SegOf(h.recs[c[k]]);
    hide Inv;
    SegsOfWalk(h', c');
  }

  lemma TakenIndex(h: Heap, c: seq<int>, k: nat, n: nat)
    requires Inv(h, c) && At(h.recs, c, k) && Takeable(h, c[k], n)
    ensures var h', m := Take(h, c[k], n), h.mpUsed.NextId();
            InTable(h'.recs, m) && h'.recs[m].index == h.recs[c[k]].index
  {
    TakeNames(h, c, k, n);
  }

  lemma StaleFitOnWalk(h: Heap, c: seq<int>, k: nat, n: nat)
    requires Inv(h, c) && At(h.recs, c, k)
    requires Scan(h, n, h.mpFree.used) >= 0 && c[k] == h.FreeRec(Scan(h, n, h.mpFree.used))
    ensures StaleFit(h, n) <==> h.mpUsed.HasRoom() && h.recs[c[k]].length == n && k < |c| - 2
  {
    assert c[|c| - 1] == 2 * h.cap + 1;
  }

  /** A success, stale or not, returns a record of the table that starts inside the arena. */
  lemma MallocNames(h: Heap, n: nat)
    requires Good(h) && n > 0
    ensures MallocSafe(h, n)
    ensures var r := ExecMalloc(h, n);
            r.ret == SUCCESS ==> InTable(r.heap.recs, r.rec) && 0 <= r.heap.recs[r.rec].index < h.total
  {
    var c := TheWalk(h);
    var k := ScanFinds(h, c, n);
    if ExecMalloc(h, n).ret == SUCCESS {
      TakeNames(h, c, k, n);
    }
  }

  /**
    The code as written keeps the list well-formed, and a success hands out
    unowned units. One more back link is stale exactly after such a fit: that of
    the allocation right above the new one.
   */
  lemma MallocAsWritten(h: Heap, n: nat)
    requires Good(h) && n > 0
    ensures MallocSafe(h, n)
    ensures var r := ExecMalloc(h, n);
            && Good(r.heap)
            && (r.ret == SUCCESS ==> Allocated(SegsOf(h), n, SegsOf(r.heap), r.heap, r.rec, StaleFit(h, n)))
            && (StaleFit(h, n) ==> r.ret == SUCCESS)
            && (forall u :: StaleStart(r.heap, u) <==>
                  StaleStart(h, u) || (StaleFit(h, n) && u == r.heap.recs[r.rec].index + n))
  {
    hide Inv;
    hide Take;
    hide PoolView.Wf;
    hide StaleBut;
    var c := TheWalk(h);
    var k := ScanFinds(h, c, n);
    var r := ExecMalloc(h, n);
    if r.ret == SUCCESS {
      StaleFitOnWalk(h, c, k, n);
      AsWrittenOnWalk(h, c, k, n);
      TakenIndex(h, c, k, n);
      forall u
        ensures StaleStart(r.heap, u) <==>
                StaleStart(h, u) || (StaleFit(h, n) && u == r.heap.recs[r.rec].index + n)
      {
        TakeStale(h, c, k, n, u);
      }
    } else {
      if r.ret == NO_RECORD {
        TalliesAndSize(h, c, h.usedSize + n);
      }
      SegsOfWalk(r.heap, c);
    }
  }

  /** As long as all back links are right, they stay so exactly outside that family. */
  lemma MallocCleanIff(h: Heap, n: nat)
    requires Clean(h) && n > 0
    ensures MallocSafe(h, n) && (Clean(ExecMalloc(h, n).heap) <==> !StaleFit(h, n))
  {
    hide Good;
    MallocAsWritten(h, n);
    var r := ExecMalloc(h, n);
    if StaleFit(h, n) {
      assert StaleStart(r.heap, r.heap.recs[r.rec].index + n);
    }
  }

  /** _em_malloc followed, on success, by the missing statement. */
  function RelinkedMalloc(h: Heap, n: nat): MallocResult
    requires MallocSafe(h, n)
  {
    var r := ExecMalloc(h, n);
    if r.ret == SUCCESS then r.(heap := Relink(r.heap, r.rec)) else r
  }

  lemma RelinkNames(h: Heap, m: int)
    requires InTable(h.recs, m) && InTable(h.recs, h.recs[m].next)
    ensures Relink(h, m).minfo == h.minfo && |Relink(h, m).recs| == |h.recs|
    ensures Relink(h, m).recs[m].index == h.recs[m].index
  {
  }

  lemma RelinkedOnWalk(h: Heap, c: seq<int>, k: nat, n: nat)
    requires Inv(h, c) && At(h.recs, c, k) && Takeable(h, c[k], n)
    ensures var h', m, below := Take(h, c[k], n), h.mpUsed.NextId(), h.recs[c[k]].length == n && k < |c| - 2;
            && InTable(h'.recs, m) && InTable(h'.recs, h'.recs[m].next)
            && Good(Relink(h', m)) && TheWalk(Relink(h', m)) == MallocWalk(h, c, k, n)
            && AllocatedAt(Segs(h.recs, c), n, SegsOf(Relink(h', m)), Relink(h', m), m, below, k - 1)
  {
    hide BackLinked;
    hide Tallied;
    hide Kinds;
    hide Indexed;
    hide StaleAt;
    hide Relink;
    hide Take;
    hide PoolView.Wf;
    TakeRelinked(h, c, k, n, 0);
    TakeNames(h, c, k, n);
    RelinkNames(Take(h, c[k], n), h.mpUsed.NextId());
    assert Segs(h.recs, c)[k - 1] == SegOf(h.recs[c[k]]);
    hide Inv;
    SegsOfWalk(Relink(Take(h, c[k], n), h.mpUsed.NextId()), MallocWalk(h, c, k, n));
  }

  /** With the missing statement a request does the same, and leaves no back link stale. */
  lemma MallocRelinked(h: Heap, n: nat)
    requires Good(h) && n > 0
    ensures MallocSafe(h, n)
    ensures var r := RelinkedMalloc(h, n);
            && r.ret == ExecMalloc(h, n).ret && r.heap.usedSize == ExecMalloc(h, n).heap.usedSize
            && Good(r.heap)
            && (r.ret == SUCCESS ==> Allocated(SegsOf(h), n, SegsOf(r.heap), r.heap, r.rec, StaleFit(h, n)))
            && (forall u :: StaleStart(r.heap, u) <==> StaleStart(h, u))
  {
    hide Inv;
    hide Take;
    hide PoolView.Wf;
    hide StaleBut;
    var c := TheWalk(h);
    var k := ScanFinds(h, c, n);
    var r := RelinkedMalloc(h, n);
    if r.ret == SUCCESS {
      StaleFitOnWalk(h, c, k, n);
      RelinkedOnWalk(h, c, k, n);
      forall u
        ensures StaleStart(r.heap, u) <==> StaleStart(h, u)
      {
        TakeRelinked(h, c, k, n, u);
      }
    } else {
      if r.ret == NO_RECORD {
        TalliesAndSize(h, c, h.usedSize + n);
      }
      SegsOfWalk(r.heap, c);
    }
  }

  // ---------------------------------------------------------------- the verdict of em_free

  /** `index` is the first unit of a live allocation, as em_free requires of its caller. */
  ghost predicate LiveStart(h: Heap, index: int)
    requires Good(h)
  {
    index >= 0 && index in S.Starts(SegsOf(h), h.total)
  }

  /** An allocation is stale when its record does not point back to the one before it. */
  lemma StaleOnWalk(h: Heap, c: seq<int>, i: nat)
    requires Inv(h, c) && i < |c| - 2
    ensures StaleAt(h.recs, c, Segs(h.recs, c)[i].start) <==> h.recs[c[i + 1]].back != c[i]
  {
    var u := Segs(h.recs, c)[i].start;
    assert Segs(h.recs, c)[i] == SegOf(h.recs[c[i + 1]]);
    if StaleAt(h.recs, c, u) {
      var a, b :| 0 <= a && b == a + 1 && b < |c| - 1 && h.recs[c[b]].index == u && h.recs[c[b]].back != c[a];
      if b != i + 1 {
        StartsDiffer(h.recs, c, h.total, b, i + 1);
      }
    }
  }

  lemma RecordOnWalk(h: Heap, c: seq<int>, i: nat)
    requires Inv(h, c) && i < |c| - 2 && Segs(h.recs, c)[i].used
    ensures var s, d := Segs(h.recs, c)[i], h.recs[c[i + 1]];
            && s == SegOf(d) && d.used && d.index == s.start && d.length == s.len
            && s.start < h.total && h.minfo[s.start] == c[i + 1]
  {
    assert Segs(h.recs, c)[i] == SegOf(h.recs[c[i + 1]]);
    assert h.minfo[h.recs[c[i + 1]].index] == c[i + 1];
  }

  lemma FreeOnWalk(h: Heap, c: seq<int>, i: nat)
    requires Inv(h, c) && i < |c| - 2 && Segs(h.recs, c)[i].used && h.recs[c[i + 1]].back == c[i]
    ensures var index, segs := Segs(h.recs, c)[i].start, Segs(h.recs, c);
            && FreeSafe(h, index)
            && var h' := ExecFree(h, index);
               && Good(h') && SegsOf(h') == S.Free(segs, i)
               && forall u :: StaleStart(h', u) <==> StaleAt(h.recs, c, u) && u != segs[i].End()
  {
    RecordOnWalk(h, c, i);
    hide StaleAt;
    hide Release;
    ReleaseKeeps(h, c, i + 1);
    var h', c' := Release(h, c[i + 1]), ReleaseWalk(h, c, i + 1);
    hide Inv;
    SegsOfWalk(h', c');
    forall u
      ensures StaleStart(h', u) <==> StaleAt(h.recs, c, u) && u != Segs(h.recs, c)[i].End()
    {
      ReleaseStale(h, c, i + 1, u);
    }
  }

  /**
    em_free finds the right record and follows links to records only. The list
    stays well-formed, and every unit with exactly one record, if and only if
    the released allocation is not stale; then exactly its units are given up,
    and the allocation right above it is stale no longer.
   */
  lemma FreeReturns(h: Heap, index: nat)
    requires Good(h) && LiveStart(h, index)
    ensures FreeSafe(h, index)
    ensures var h', segs, i := ExecFree(h, index), SegsOf(h), S.Locate(SegsOf(h), h.total, index);
            && h'.cap == h.cap && h'.total == h.total
            && segs[i].used && segs[i].start == index
            && h'.usedSize == h.usedSize - segs[i].len
            && (Good(h') <==> !StaleStart(h, index))
            && (Partition(h') <==> !StaleStart(h, index))
            && (!StaleStart(h, index) ==>
                  && SegsOf(h') == S.Free(segs, i)
                  && forall u :: StaleStart(h', u) <==> StaleStart(h, u) && u != segs[i].End())
  {
    assert S.Owner(SegsOf(h), h.total, index).Some?;
    var c, i := TheWalk(h), S.Locate(SegsOf(h), h.total, index);
    hide Release;
    hide StaleAt;
    hide Partition;
    RecordOnWalk(h, c, i);
    StaleOnWalk(h, c, i);
    ReleaseLength(h, c, i + 1);
    ReleaseShape(h, c[i + 1]);
    ReleaseGivesUpIff(h, c, i + 1);
    hide Inv;
    if StaleStart(h, index) {
      if Good(ExecFree(h, index)) {
        InvPartition(ExecFree(h, index), TheWalk(ExecFree(h, index)));
      }
    } else {
      FreeOnWalk(h, c, i);
    }
  }

  /** Exactly the units of the allocation are given up if and only if it is not stale. */
  lemma FreeGivesUpIff(h: Heap, index: nat)
    requires Good(h) && LiveStart(h, index)
    ensures FreeSafe(h, index)
    ensures var s := SegsOf(h)[S.Locate(SegsOf(h), h.total, index)];
            (forall u :: Offered(ExecFree(h, index), u) <==> Offered(h, u) || s.start <= u < s.End())
            <==> !StaleStart(h, index)
  {
    assert S.Owner(SegsOf(h), h.total, index).Some?;
    var c, i := TheWalk(h), S.Locate(SegsOf(h), h.total, index);
    hide Release;
    hide StaleAt;
    hide Partition;
    hide Offered;
    RecordOnWalk(h, c, i);
    StaleOnWalk(h, c, i);
    ReleaseGivesUpIff(h, c, i + 1);
    hide Inv;
    var d := c[i + 1];
    forall u
      ensures HasUnit(h, d, u) <==> SegsOf(h)[i].start <= u < SegsOf(h)[i].End()
    {
      SegmentHas(h, c, i, u);
    }
  }

  /** The stale link names a free segment elsewhere, which the release would let grow over its neighbour. */
  ghost predicate NamesFree(h: Heap, index: int)
    requires Good(h) && LiveStart(h, index)
  {
    FreeReturns(h, index);
    var d := h.recs[h.minfo[index]];
    StaleStart(h, index) && d.back != d.next && h.Live(d.back)
  }

  /** A release keeps the units disjoint if and only if it reads no such link. */
  lemma FreeDisjointIff(h: Heap, index: nat)
    requires Good(h) && LiveStart(h, index)
    ensures FreeSafe(h, index)
    ensures Disjoint(ExecFree(h, index)) <==> !NamesFree(h, index)
  {
    assert S.Owner(SegsOf(h), h.total, index).Some?;
    var c, i := TheWalk(h), S.Locate(SegsOf(h), h.total, index);
    hide Release;
    hide StaleAt;
    hide Disjoint;
    FreeReturns(h, index);
    RecordOnWalk(h, c, i);
    StaleOnWalk(h, c, i);
    ReleaseDisjointIff(h, c, i + 1);
  }

  lemma GoodPartition(h: Heap)
    requires Good(h)
    ensures Partition(h)
  {
    InvPartition(h, TheWalk(h));
  }

  // ---------------------------------------------------------------- short forms

  lemma MallocKeepsGood(h: Heap, n: nat)
    requires Good(h) && n > 0
    ensures MallocSafe(h, n) && Good(ExecMalloc(h, n).heap)
  {
    MallocAsWritten(h, n);
  }

  lemma FreeKeepsGoodIff(h: Heap, index: int)
    requires Good(h) && LiveStart(h, index)
    ensures FreeSafe(h, index) && (Good(ExecFree(h, index)) <==> !StaleStart(h, index))
  {
    FreeReturns(h, index);
  }

  lemma MallocShape(h: Heap)
    requires Good(h)
    ensures h.Shape()
  {
  }
}
