/**
  Whole runs of _em_malloc and em_free, for the code as written and for the code
  with the missing back link set.
 */
module HeapRuns {
  import opened HeapRecords
  import opened HeapOwners
  import opened HeapVerdicts
  import S = Segments

  /** A request for `n` units (0 is refused outright), or the release of the allocation that starts at `index`. */
  datatype Op = Alloc(n: nat) | Dealloc(index: nat)

  /** Callers release live allocations only. */
  ghost predicate Legal(h: Heap, op: Op)
    requires Good(h)
  {
    op.Dealloc? ==> LiveStart(h, op.index)
  }

  ghost function Step(h: Heap, op: Op, relink: bool): Heap
    requires Good(h) && Legal(h, op)
  {
    match op
    case Alloc(n) =>
      if n == 0 then h
      else
        MallocRelinked(h, n);
        if relink then RelinkedMalloc(h, n).heap else ExecMalloc(h, n).heap
    case Dealloc(index) =>
      FreeReturns(h, index);
      ExecFree(h, index)
  }

  /** The operation releases an allocation whose back link is stale. */
  ghost predicate ReadsStale(h: Heap, op: Op)
    requires Good(h)
  {
    op.Dealloc? && StaleStart(h, op.index)
  }

  /** A call keeps the list well-formed, and every unit with exactly one record, unless it reads a stale link. */
  lemma StepGood(h: Heap, op: Op, relink: bool)
    requires Good(h) && Legal(h, op)
    ensures Good(Step(h, op, relink)) <==> !ReadsStale(h, op)
    ensures Partition(Step(h, op, relink)) <==> !ReadsStale(h, op)
    ensures Step(h, op, relink).cap == h.cap && Step(h, op, relink).total == h.total
    ensures relink && Clean(h) ==> Clean(Step(h, op, relink))
  {
    hide Inv;
    hide Partition;
    match op
    case Alloc(n) =>
      if n > 0 {
        MallocRelinked(h, n);
        MallocAsWritten(h, n);
      }
      GoodPartition(Step(h, op, relink));
    case Dealloc(index) =>
      FreeReturns(h, index);
  }

  // ---------------------------------------------------------------- soundness of every state

  /** Up to the first illegal release, every state of the run is well-formed. */
  ghost predicate Sound(h: Heap, ops: seq<Op>, relink: bool)
    decreases |ops|
  {
    Good(h) && (ops != [] && Legal(h, ops[0]) ==> Sound(Step(h, ops[0], relink), ops[1..], relink))
  }

  /**
    In every such state each unit is with exactly one record, so that live
    allocations are disjoint and no unit is lost. (Legality is asked only as long
    as the list is well-formed.)
   */
  ghost predicate Parted(h: Heap, ops: seq<Op>, relink: bool)
    decreases |ops|
  {
    && Partition(h)
    && (ops != [] && Good(h) && Legal(h, ops[0]) ==> Parted(Step(h, ops[0], relink), ops[1..], relink))
  }

  /** At some point of the run a release reads a stale link. */
  ghost predicate MeetsStale(h: Heap, ops: seq<Op>, relink: bool)
    decreases |ops|
  {
    && Good(h) && ops != [] && Legal(h, ops[0])
    && (ReadsStale(h, ops[0]) || MeetsStale(Step(h, ops[0], relink), ops[1..], relink))
  }

  /** A run is sound exactly if no release of it reads a stale link. */
  lemma {:induction false} RunsSoundIff(h: Heap, ops: seq<Op>, relink: bool)
    requires Good(h)
    ensures Sound(h, ops, relink) <==> !MeetsStale(h, ops, relink)
    decreases |ops|
  {
    hide Inv;
    hide Partition;
    if ops != [] && Legal(h, ops[0]) {
      StepGood(h, ops[0], relink);
      if !ReadsStale(h, ops[0]) {
        RunsSoundIff(Step(h, ops[0], relink), ops[1..], relink);
      }
    }
  }

  /** In exactly those runs every unit stays with exactly one record. */
  lemma {:induction false} RunsPartedIff(h: Heap, ops: seq<Op>, relink: bool)
    requires Good(h)
    ensures Parted(h, ops, relink) <==> !MeetsStale(h, ops, relink)
    decreases |ops|
  {
    hide Inv;
    hide Partition;
    GoodPartition(h);
    if ops != [] && Legal(h, ops[0]) {
      StepGood(h, ops[0], relink);
      if !ReadsStale(h, ops[0]) {
        RunsPartedIff(Step(h, ops[0], relink), ops[1..], relink);
      }
    }
  }

  /** In every state reached while the list is well-formed, and in the one after, no unit is with two records. */
  ghost predicate Apart(h: Heap, ops: seq<Op>, relink: bool)
    decreases |ops|
  {
    && Disjoint(h)
    && (ops != [] && Good(h) && Legal(h, ops[0]) ==> Apart(Step(h, ops[0], relink), ops[1..], relink))
  }

  /** The first stale link that the run reads, if any, names a free segment elsewhere. */
  ghost predicate MeetsFree(h: Heap, ops: seq<Op>, relink: bool)
    decreases |ops|
  {
    && Good(h) && ops != [] && Legal(h, ops[0])
    && ((ops[0].Dealloc? && NamesFree(h, ops[0].index)) || MeetsFree(Step(h, ops[0], relink), ops[1..], relink))
  }

  lemma StepDisjoint(h: Heap, op: Op, relink: bool)
    requires Good(h) && Legal(h, op)
    ensures Disjoint(Step(h, op, relink)) <==> !(op.Dealloc? && NamesFree(h, op.index))
  {
    hide Inv;
    hide NamesFree;
    StepGood(h, op, relink);
    match op
    case Alloc(n) => GoodPartition(Step(h, op, relink));
    case Dealloc(index) =>
      FreeReturns(h, index);
      FreeDisjointIff(h, index);
  }

  /** Live allocations stay disjoint, up to the first stale read included, exactly if it names no free segment. */
  lemma {:induction false} RunsApartIff(h: Heap, ops: seq<Op>, relink: bool)
    requires Good(h)
    ensures Apart(h, ops, relink) <==> !MeetsFree(h, ops, relink)
    decreases |ops|
  {
    hide Inv;
    hide NamesFree;
    hide HasUnit;
    GoodPartition(h);
    if ops != [] && Legal(h, ops[0]) {
      StepGood(h, ops[0], relink);
      StepDisjoint(h, ops[0], relink);
      hide Disjoint;
      hide Partition;
      if !ReadsStale(h, ops[0]) {
        RunsApartIff(Step(h, ops[0], relink), ops[1..], relink);
      }
    }
  }

  /** With the missing statement every run of a new manager is sound. */
  lemma {:induction false} RelinkedRunsSound(h: Heap, ops: seq<Op>)
    requires Clean(h)
    ensures Sound(h, ops, true) && Parted(h, ops, true)
    decreases |ops|
  {
    hide Inv;
    hide Partition;
    GoodPartition(h);
    if ops != [] && Legal(h, ops[0]) {
      StepGood(h, ops[0], true);
      RelinkedRunsSound(Step(h, ops[0], true), ops[1..]);
    }
  }

  /** Up to the first illegal release, all back links are right in every state of the run. */
  ghost predicate CleanThroughout(h: Heap, ops: seq<Op>, relink: bool)
    decreases |ops|
  {
    Clean(h) && (ops != [] && Legal(h, ops[0]) ==> CleanThroughout(Step(h, ops[0], relink), ops[1..], relink))
  }

  /** With the missing statement next and back links stay inverse to each other in every run. */
  lemma {:induction false} RelinkedRunsClean(h: Heap, ops: seq<Op>)
    requires Clean(h)
    ensures CleanThroughout(h, ops, true)
    decreases |ops|
  {
    hide Inv;
    hide Partition;
    if ops != [] && Legal(h, ops[0]) {
      StepGood(h, ops[0], true);
      RelinkedRunsClean(Step(h, ops[0], true), ops[1..]);
    }
  }

  /** What all back links being right means on the records. */
  lemma CleanLinks(h: Heap, i: nat)
    requires Clean(h) && 0 < i < |TheWalk(h)| - 1
    ensures var c := TheWalk(h);
            && 0 <= c[i - 1] < |h.recs| && 0 <= c[i] < |h.recs|
            && h.recs[c[i - 1]].next == c[i] && h.recs[c[i]].back == c[i - 1]
  {
    hide StaleAt;
    StaleOnWalk(h, TheWalk(h), i - 1);
    assert !StaleStart(h, SegsOf(h)[i - 1].start);
  }

  // ---------------------------------------------------------------- conservation

  /** The units held by live allocations. */
  ghost function UsedUnits(h: Heap): nat
    requires Good(h)
  {
    S.Sum(SegsOf(h), S.UsedLen)
  }

  /** A sound run all of whose releases are legal. */
  ghost predicate LegalRun(h: Heap, ops: seq<Op>, relink: bool)
    decreases |ops|
  {
    Good(h) && (ops != [] ==> Legal(h, ops[0]) && LegalRun(Step(h, ops[0], relink), ops[1..], relink))
  }

  ghost function After(h: Heap, ops: seq<Op>, relink: bool): (h': Heap)
    requires LegalRun(h, ops, relink)
    ensures Good(h')
    decreases |ops|
  {
    if ops == [] then h else After(Step(h, ops[0], relink), ops[1..], relink)
  }

  /** The request finds room in the arena but no record in mp_used. */
  ghost predicate Recordless(h: Heap, op: Op)
    requires Good(h)
  {
    && op.Alloc? && op.n > 0 && !h.mpUsed.HasRoom()
    && exists s: nat :: S.UnownedRun(SegsOf(h), h.total, s, op.n)
  }

  /** What those requests added to mem_used_bsize for nothing. */
  ghost function Drift(h: Heap, ops: seq<Op>, relink: bool): nat
    requires LegalRun(h, ops, relink)
    decreases |ops|
  {
    if ops == [] then 0
    else (if Recordless(h, ops[0]) then ops[0].n else 0) + Drift(Step(h, ops[0], relink), ops[1..], relink)
  }

  lemma StepConserves(h: Heap, op: Op, relink: bool)
    requires Good(h) && Legal(h, op) && Good(Step(h, op, relink))
    ensures var h' := Step(h, op, relink);
            h'.usedSize - UsedUnits(h') == h.usedSize - UsedUnits(h) + if Recordless(h, op) then op.n else 0
  {
    hide Inv;
    match op
    case Alloc(n) =>
      if n > 0 {
        MallocConserves(h, n, relink);
      }
    case Dealloc(index) =>
      FreeReturns(h, index);
      S.FreeCounts(SegsOf(h), S.Locate(SegsOf(h), h.total, index));
  }

  lemma MallocConserves(h: Heap, n: nat, relink: bool)
    requires Good(h) && n > 0
    ensures Good(Step(h, Alloc(n), relink))
    ensures var h' := Step(h, Alloc(n), relink);
            h'.usedSize - UsedUnits(h') == h.usedSize - UsedUnits(h) + if Recordless(h, Alloc(n)) then n else 0
  {
    hide Inv;
    MallocReturns(h, n);
    MallocRelinked(h, n);
    MallocAsWritten(h, n);
    var h', m := Step(h, Alloc(n), relink), ExecMalloc(h, n).rec;
    if ExecMalloc(h, n).ret == SUCCESS {
      var i: nat :| AllocatedAt(SegsOf(h), n, SegsOf(h'), h', m, StaleFit(h, n), i);
      S.MallocCounts(SegsOf(h), i, n);
    }
  }

  /**
    In runs that release no stale allocation, mem_used_bsize is the number of
    owned units plus the lengths of all requests that failed for want of a record.
   */
  lemma {:induction false} UsedSizeOverRuns(h: Heap, ops: seq<Op>, relink: bool)
    requires LegalRun(h, ops, relink)
    ensures var h' := After(h, ops, relink);
            h'.usedSize - UsedUnits(h') == h.usedSize - UsedUnits(h) + Drift(h, ops, relink)
    decreases |ops|
  {
    hide Inv;
    if ops != [] {
      StepConserves(h, ops[0], relink);
      UsedSizeOverRuns(Step(h, ops[0], relink), ops[1..], relink);
    }
  }

  /** Some request of the run finds room in the arena but no record. */
  ghost predicate MeetsRecordless(h: Heap, ops: seq<Op>, relink: bool)
    requires LegalRun(h, ops, relink)
    decreases |ops|
  {
    ops != [] && (Recordless(h, ops[0]) || MeetsRecordless(Step(h, ops[0], relink), ops[1..], relink))
  }

  /** From a new manager, mem_used_bsize ends exact if and only if no request failed for want of a record. */
  lemma {:induction false} UsedSizeExactIff(h: Heap, ops: seq<Op>, relink: bool)
    requires LegalRun(h, ops, relink) && h.usedSize == UsedUnits(h)
    ensures var h' := After(h, ops, relink);
            h'.usedSize == UsedUnits(h') <==> !MeetsRecordless(h, ops, relink)
  {
    hide LegalRun;
    hide After;
    hide Drift;
    hide MeetsRecordless;
    UsedSizeOverRuns(h, ops, relink);
    DriftZeroIff(h, ops, relink);
  }

  lemma {:induction false} DriftZeroIff(h: Heap, ops: seq<Op>, relink: bool)
    requires LegalRun(h, ops, relink)
    ensures Drift(h, ops, relink) == 0 <==> !MeetsRecordless(h, ops, relink)
    decreases |ops|
  {
    hide Good;
    if ops != [] {
      DriftZeroIff(Step(h, ops[0], relink), ops[1..], relink);
    }
  }

  // ---------------------------------------------------------------- draining

  function Deallocs(order: seq<nat>): (ops: seq<Op>)
    ensures |ops| == |order|
  {
    if order == [] then [] else [Dealloc(order[0])] + Deallocs(order[1..])
  }

  lemma DeallocStep(h: Heap, index: nat, relink: bool)
    requires Clean(h) && index in S.Starts(SegsOf(h), h.total)
    ensures Legal(h, Dealloc(index))
    ensures var h' := Step(h, Dealloc(index), relink);
            Clean(h') && h'.total == h.total && S.Starts(SegsOf(h'), h.total) == S.Starts(SegsOf(h), h.total) - {index}
  {
    hide Inv;
    FreeReturns(h, index);
    S.FreeStarts(SegsOf(h), h.total, S.Locate(SegsOf(h), h.total, index));
  }

  /** Releasing every live allocation, in whatever order, is legal and leaves one free segment. */
  lemma {:induction false} DrainInAnyOrder(h: Heap, order: seq<nat>, relink: bool)
    requires Clean(h)
    requires forall k | 0 <= k < |order| :: order[k] in S.Starts(SegsOf(h), h.total)
    requires forall k, l | 0 <= k < l < |order| :: order[k] != order[l]
    requires forall s | s in S.Starts(SegsOf(h), h.total) :: s in order
    ensures LegalRun(h, Deallocs(order), relink)
    ensures After(h, Deallocs(order), relink).total == h.total
    ensures SegsOf(After(h, Deallocs(order), relink)) == S.Fresh(h.total)
    decreases |order|
  {
    hide Inv;
    hide S.Tiled;
    hide S.Coalesced;
    hide Step;
    if order == [] {
      S.FreeAllGivesFresh(SegsOf(h), h.total, order);
    } else {
      DeallocStep(h, order[0], relink);
      DrainInAnyOrder(Step(h, Dealloc(order[0]), relink), order[1..], relink);
      assert Deallocs(order)[1..] == Deallocs(order[1..]);
    }
  }

  /** An allocation just made is a live one, and freeing it undoes it. */
  lemma TakenThenFreed(segs: seq<S.Seg>, total: nat, i: nat, n: nat)
    requires S.Wf(segs, total) && i < |segs| && segs[i].Fits(n) && n > 0
    ensures var mid, start := S.Malloc(segs, i, n), segs[i].start;
            && S.Wf(mid, total) && start in S.Starts(mid, total)
            && start < total && S.Locate(mid, total, start) == i
            && i < |mid| && mid[i] == S.Seg(start, n, true)
            && S.Free(mid, i) == segs
  {
    S.MallocStarts(segs, total, i, n);
    S.SpliceParts(segs, i, i + 1, S.Taken(segs[i], n));
    S.LocateUnique(S.Malloc(segs, i, n), total, segs[i].start, i);
    S.MallocThenFree(segs, total, i, n);
  }

  /** A free segment is not stale. */
  lemma FreeNotStale(h: Heap, i: nat)
    requires Good(h) && i < |SegsOf(h)| && !SegsOf(h)[i].used
    ensures !StaleStart(h, SegsOf(h)[i].start)
  {
    var c := TheWalk(h);
    StaleOnWalk(h, c, i);
    assert SegsOf(h)[i] == SegOf(h.recs[c[i + 1]]);
    assert BackOk(h.cap, h.recs, c[i], c[i + 1]);
  }

  function Request(h: Heap, n: nat, relink: bool): MallocResult
    requires MallocSafe(h, n)
  {
    if relink then RelinkedMalloc(h, n) else ExecMalloc(h, n)
  }

  /** Freeing what a request just returned restores the segments, whatever stale links there are. */
  lemma MallocThenFree(h: Heap, n: nat, relink: bool)
    requires Good(h) && n > 0 && S.CanMalloc(SegsOf(h), h.cap, n)
    ensures MallocSafe(h, n)
    ensures var r := Request(h, n, relink);
            && Good(r.heap) && InTable(r.heap.recs, r.rec)
            && var start := r.heap.recs[r.rec].index;
               && LiveStart(r.heap, start) && FreeSafe(r.heap, start)
               && var h' := ExecFree(r.heap, start);
                  Good(h') && SegsOf(h') == SegsOf(h)
  {
    hide Inv;
    hide S.Tiled;
    hide S.Coalesced;
    hide FreeSafe;
    hide ExecFree;
    hide Partition;
    MallocReturns(h, n);
    MallocRelinked(h, n);
    MallocAsWritten(h, n);
    var r, segs := Request(h, n, relink), SegsOf(h);
    assert r.heap.total == h.total by { StepGood(h, Alloc(n), relink); }
    var i: nat :| AllocatedAt(segs, n, SegsOf(r.heap), r.heap, r.rec, StaleFit(h, n), i);
    TakenThenFreed(segs, h.total, i, n);
    FreeNotStale(h, i);
    FreeReturns(r.heap, segs[i].start);
  }
}
