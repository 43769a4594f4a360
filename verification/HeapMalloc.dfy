/** What _em_malloc does to a well-formed record list: exact fit, split, and the missing statement. */
module HeapMalloc {
  import opened Mempool
  import opened HeapRecords
  import S = Segments

  lemma ExactTable(recs: seq<MemInfo>, c: seq<int>, k: nat, m: int, n: int)
    requires At(recs, c, k) && InTable(recs, m) && m !in c
    requires forall i, j | 0 <= i < j < |c| :: c[i] != c[j]
    ensures var recs' := TakeExact(recs, c[k], m, n);
            && |recs'| == |recs|
            && recs'[m] == MemInfo(recs[c[k]].index, n, true, c[k + 1], c[k - 1])
            && (forall i | 0 <= i < |c| ::
                  recs'[c[i]] == if i == k - 1 then recs[c[i]].(next := m) else recs[c[i]])
            && (forall r | 0 <= r < |recs| && r != m :: recs'[r].used == recs[r].used)
  {
    assert forall i | 0 <= i < |c| :: c[i] in c;
  }

  lemma SplitTable(recs: seq<MemInfo>, c: seq<int>, k: nat, m: int, n: int)
    requires At(recs, c, k) && InTable(recs, m) && m !in c
    requires forall i, j | 0 <= i < j < |c| :: c[i] != c[j]
    ensures var recs' := TakeSplit(recs, c[k], m, n);
            && |recs'| == |recs|
            && recs'[m] == MemInfo(recs[c[k]].index, n, true, c[k], c[k - 1])
            && (forall i | 0 <= i < |c| ::
                  recs'[c[i]] ==
                  if i == k - 1 then recs[c[i]].(next := m)
                  else if i == k then
                    recs[c[i]].(index := recs[c[i]].index + n, length := recs[c[i]].length - n, back := m)
                  else recs[c[i]])
            && (forall r | 0 <= r < |recs| && r != m :: recs'[r].used == recs[r].used)
  {
    assert forall i | 0 <= i < |c| :: c[i] in c;
  }

  /** What the links must be like around the free segment at place `k` and the new record. */
  ghost predicate TakeAt(cap: nat, recs: seq<MemInfo>, c: seq<int>, k: nat, m: int) {
    && Linked(cap, recs, c) && At(recs, c, k) && cap <= c[k] && !recs[c[k]].used && recs[c[k + 1]].used
    && 0 <= m < cap && InTable(recs, m) && m !in c
  }

  lemma ExactKeeps(cap: nat, recs: seq<MemInfo>, c: seq<int>, k: nat, m: int, n: int)
    requires TakeAt(cap, recs, c, k, m)
    ensures var recs' := TakeExact(recs, c[k], m, n);
            && KeepsBack(cap, recs, recs', c, k, k + 1)
            && recs'[m].back == c[k - 1] && recs'[m].used && recs'[m].next == c[k + 1]
            && recs'[c[k + 1]] == recs[c[k + 1]] && (k < |c| - 2 ==> recs[c[k + 1]].back == c[k])
  {
    ExactTable(recs, c, k, m, n);
    if k < |c| - 2 {
      assert BackOk(cap, recs, c[k], c[k + 1]);
    }
  }

  /**
    An exact fit leaves the next links right, and makes the back link of the
    following segment stale: it still names the released record.
   */
  lemma ExactLinks(cap: nat, recs: seq<MemInfo>, c: seq<int>, k: nat, m: int, n: int)
    requires TakeAt(cap, recs, c, k, m)
    ensures var recs', c' := TakeExact(recs, c[k], m, n), Rewalk(c, k, k + 1, [m]);
            && Linked(cap, recs', c')
            && (k < |c| - 2 ==> recs'[c[k + 1]].back == c[k] != m)
  {
    var recs' := TakeExact(recs, c[k], m, n);
    ExactTable(recs, c, k, m, n);
    ExactKeeps(cap, recs, c, k, m, n);
    assert c[k] in c && cap <= c[k] < 2 * cap;
    hide TakeExact;
    RewalkIsWalk(cap, c, k, k + 1, [m]);
    RewalkNext(recs, recs', c, k, k + 1, [m]);
    RewalkBack(cap, recs, recs', c, k, k + 1, [m]);
  }

  lemma ExactStale(cap: nat, recs: seq<MemInfo>, c: seq<int>, k: nat, m: int, n: int, u: int)
    requires TakeAt(cap, recs, c, k, m)
    ensures StaleAt(TakeExact(recs, c[k], m, n), Rewalk(c, k, k + 1, [m]), u) <==>
            StaleAt(recs, c, u) || (k < |c| - 2 && u == recs[c[k + 1]].index)
  {
    ExactKeeps(cap, recs, c, k, m, n);
    assert c[k] in c;
    RewalkStale(cap, recs, TakeExact(recs, c[k], m, n), c, k, k + 1, [m], u);
    FreeNextRight(cap, recs, c, k, u);
  }

  lemma RelinkedKeeps(cap: nat, recs: seq<MemInfo>, c: seq<int>, k: nat, m: int, n: int)
    requires TakeAt(cap, recs, c, k, m)
    ensures var r1 := TakeExact(recs, c[k], m, n);
            && InTable(r1, m) && r1[m].next == c[k + 1] && InTable(r1, c[k + 1])
            && var r2 := Relinked(r1, m);
               && KeepsBack(cap, recs, r2, c, k, k + 1)
               && (forall i | 0 <= i < |c| && i != k - 1 :: r2[c[i]].next == recs[c[i]].next)
               && r2[c[k - 1]].next == m && r2[m].next == c[k + 1] && r2[m].back == c[k - 1]
               && r2[c[k + 1]].back == m
  {
    ExactTable(recs, c, k, m, n);
    assert c[k + 1] in c;
  }

  /** With the missing statement the exact fit leaves all links as good as they were. */
  lemma ExactRelinked(cap: nat, recs: seq<MemInfo>, c: seq<int>, k: nat, m: int, n: int, u: int)
    requires TakeAt(cap, recs, c, k, m)
    ensures var r1, c' := TakeExact(recs, c[k], m, n), Rewalk(c, k, k + 1, [m]);
            && r1[m].next == c[k + 1] && InTable(r1, c[k + 1])
            && Linked(cap, Relinked(r1, m), c')
            && (StaleAt(Relinked(r1, m), c', u) <==> StaleAt(recs, c, u))
  {
    hide TakeExact;
    hide Relinked;
    hide Rewalk;
    RelinkedKeeps(cap, recs, c, k, m, n);
    var r2 := Relinked(TakeExact(recs, c[k], m, n), m);
    RewalkIsWalk(cap, c, k, k + 1, [m]);
    RewalkNext(recs, r2, c, k, k + 1, [m]);
    RewalkBack(cap, recs, r2, c, k, k + 1, [m]);
    RewalkStale(cap, recs, r2, c, k, k + 1, [m], u);
    FreeNextRight(cap, recs, c, k, u);
  }

  /** The segment after a free one is not stale. */
  lemma FreeNextRight(cap: nat, recs: seq<MemInfo>, c: seq<int>, k: nat, u: int)
    requires BackLinked(cap, recs, c) && 0 < k < |c| - 1 && !recs[c[k]].used
    ensures StaleBut(recs, c, k + 1, u) <==> StaleAt(recs, c, u)
    ensures StaleBut(recs, c, k, u) <==> StaleAt(recs, c, u)
  {
    assert BackOk(cap, recs, c[k - 1], c[k]);
    assert k < |c| - 2 ==> BackOk(cap, recs, c[k], c[k + 1]);
  }

  /** The split leaves all links as good as they were. */
  lemma SplitLinks(cap: nat, recs: seq<MemInfo>, c: seq<int>, k: nat, m: int, n: int, u: int)
    requires TakeAt(cap, recs, c, k, m)
    ensures var recs', c' := TakeSplit(recs, c[k], m, n), Rewalk(c, k, k, [m]);
            && Linked(cap, recs', c')
            && (StaleAt(recs', c', u) <==> StaleAt(recs, c, u))
  {
    var recs' := TakeSplit(recs, c[k], m, n);
    SplitTable(recs, c, k, m, n);
    hide TakeSplit;
    RewalkIsWalk(cap, c, k, k, [m]);
    RewalkNext(recs, recs', c, k, k, [m]);
    RewalkBack(cap, recs, recs', c, k, k, [m]);
    RewalkStale(cap, recs, recs', c, k, k, [m], u);
    FreeNextRight(cap, recs, c, k, u);
  }

  lemma ExactSegs(recs: seq<MemInfo>, c: seq<int>, k: nat, m: int, n: nat)
    requires At(recs, c, k) && InTable(recs, m) && m !in c
    requires forall i, j | 0 <= i < j < |c| :: c[i] != c[j]
    requires recs[c[k]].length == n && !recs[c[k]].used
    ensures var recs', c' := TakeExact(recs, c[k], m, n), Rewalk(c, k, k + 1, [m]);
            && Covers(recs', c') && |c'| == |c|
            && Segs(recs', c') == S.Malloc(Segs(recs, c), k - 1, n)
  {
    var recs', c' := TakeExact(recs, c[k], m, n), Rewalk(c, k, k + 1, [m]);
    ExactTable(recs, c, k, m, n);
    RewalkAt(c, k, k + 1, [m]);
    var segs := Segs(recs, c);
    assert segs[k - 1] == SegOf(recs[c[k]]);
    SegsSpliced(recs, recs', c, c', k - 1, k, S.Taken(segs[k - 1], n));
  }

  lemma SplitSegs(recs: seq<MemInfo>, c: seq<int>, k: nat, m: int, n: nat)
    requires At(recs, c, k) && InTable(recs, m) && m !in c
    requires forall i, j | 0 <= i < j < |c| :: c[i] != c[j]
    requires recs[c[k]].index >= 0 && recs[c[k]].length > n && !recs[c[k]].used
    ensures var recs', c' := TakeSplit(recs, c[k], m, n), Rewalk(c, k, k, [m]);
            && Covers(recs', c') && |c'| == |c| + 1
            && Segs(recs', c') == S.Malloc(Segs(recs, c), k - 1, n)
  {
    hide TakeSplit;
    hide Rewalk;
    var recs', c' := TakeSplit(recs, c[k], m, n), Rewalk(c, k, k, [m]);
    SplitTable(recs, c, k, m, n);
    RewalkAt(c, k, k, [m]);
    var segs := Segs(recs, c);
    assert segs[k - 1] == SegOf(recs[c[k]]);
    assert c'[k] == m && c'[k + 1] == c[k];
    SegsSpliced(recs, recs', c, c', k - 1, k, S.Taken(segs[k - 1], n));
  }

  /** Every record in the used prefix of mp_free is a free segment of the walk. */
  lemma FreeRecOnWalk(h: Heap, c: seq<int>, p: nat) returns (k: nat)
    requires Inv(h, c) && p < h.mpFree.used
    ensures 0 < k < |c| - 1 && c[k] == h.FreeRec(p) && h.cap <= c[k] && !h.recs[c[k]].used
    ensures At(h.recs, c, k) && 0 <= h.recs[c[k]].index < h.total
  {
    var f := h.FreeRec(p);
    assert h.mpFree.pos[h.mpFree.order[p]] == p;
    assert h.Live(f);
    k :| 0 <= k < |c| && c[k] == f;
    AtSegment(h.cap, h.recs, c, k);
    S.Inside(Segs(h.recs, c), h.total, k - 1);
  }

  /** The free segments of the walk are in the used prefix of mp_free. */
  lemma WalkOnFreeRec(h: Heap, c: seq<int>, k: nat) returns (p: nat)
    requires Inv(h, c) && 0 < k < |c| - 1 && !h.recs[c[k]].used
    ensures p < h.mpFree.used && c[k] == h.FreeRec(p)
  {
    assert c[k] in c;
    assert h.Live(c[k]);
    p := h.mpFree.pos[c[k] - h.cap];
  }

  function MallocWalk(h: Heap, c: seq<int>, k: nat, n: int): seq<int>
    requires h.mpUsed.HasRoom() && k < |c| && InTable(h.recs, c[k])
  {
    Rewalk(c, k, if h.recs[c[k]].length == n then k + 1 else k, [h.mpUsed.NextId()])
  }

  /** What a request needs of free record `f`. */
  ghost predicate Takeable(h: Heap, f: int, n: nat) {
    && h.Shape() && h.mpUsed.HasRoom()
    && h.cap <= f < 2 * h.cap && Followable(h.recs, f)
    && !h.recs[f].used && 0 < n <= h.recs[f].length && 0 <= h.recs[f].index < h.total
  }

  lemma TakeLive(h: Heap, f: int, n: nat, r: int)
    requires Takeable(h, f, n) && 0 <= r < 2 * h.cap
    ensures var h' := Take(h, f, n);
            && h'.Shape()
            && (h'.Live(r) <==> (h.Live(r) && !(h.recs[f].length == n && r == f)) || r == h.mpUsed.NextId())
  {
    AllocRefinesSet(h.mpUsed);
    FreeRefinesSet(h.mpFree, f - h.cap);
    assert r in h.mpUsed.Alloc().LiveIds() <==> r in h.mpUsed.LiveIds() || r == h.mpUsed.NextId();
  }

  lemma TakeInhabited(h: Heap, c: seq<int>, k: nat, n: nat)
    requires Walk(h.cap, c) && Inhabited(h, c) && 0 < k < |c| - 1 && Takeable(h, c[k], n)
    ensures Inhabited(Take(h, c[k], n), MallocWalk(h, c, k, n))
  {
    var h', m, f := Take(h, c[k], n), h.mpUsed.NextId(), c[k];
    NewRecordIsOutside(h, c);
    var hi := if h.recs[f].length == n then k + 1 else k;
    assert c[k..hi] == if h.recs[f].length == n then [f] else [];
    forall r | 0 <= r < 2 * h.cap
      ensures h'.Live(r) <==> (h.Live(r) && r !in c[k..hi]) || r in [m]
    {
      TakeLive(h, f, n, r);
    }
    RewalkInhabited(h, h', c, k, hi, [m]);
  }

  /** No two segments start at the same unit. */
  lemma StartsDiffer(recs: seq<MemInfo>, c: seq<int>, total: nat, i: nat, k: nat)
    requires |c| > 2 && Covers(recs, c) && S.Wf(Segs(recs, c), total)
    requires 0 < i < |c| - 1 && 0 < k < |c| - 1 && i != k && recs[c[i]].index >= 0 && recs[c[k]].index >= 0
    ensures recs[c[i]].index != recs[c[k]].index
  {
    var segs := Segs(recs, c);
    assert segs[i - 1] == SegOf(recs[c[i]]) && segs[k - 1] == SegOf(recs[c[k]]);
    S.AllocationsDisjoint(segs, total, i - 1, k - 1, segs[i - 1].start);
  }

  lemma NextIdInRange(h: Heap)
    requires h.Shape() && h.mpUsed.HasRoom()
    ensures h.mpUsed.NextId() < h.cap
  {
  }

  lemma ExactIndexed(h: Heap, c: seq<int>, k: nat, n: nat)
    requires Walk(h.cap, c) && Kinds(h.cap, h.recs, c) && Indexed(h.recs, h.minfo, c)
    requires S.Wf(Segs(h.recs, c), h.total)
    requires At(h.recs, c, k) && Takeable(h, c[k], n) && h.recs[c[k]].length == n && h.mpUsed.NextId() !in c
    ensures Indexed(Take(h, c[k], n).recs, Take(h, c[k], n).minfo, MallocWalk(h, c, k, n))
    ensures Kinds(h.cap, Take(h, c[k], n).recs, MallocWalk(h, c, k, n))
  {
    hide TakeExact;
    hide Rewalk;
    hide PoolView.Wf;
    hide S.Wf;
    var h', m := Take(h, c[k], n), h.mpUsed.NextId();
    NextIdInRange(h);
    forall i | 0 < i < |c| - 1 && i != k
      ensures h.recs[c[i]].index != h.recs[c[k]].index
    {
      StartsDiffer(h.recs, c, h.total, i, k);
    }
    ExactTable(h.recs, c, k, m, n);
    RewalkIndexed(h.recs, h'.recs, h.minfo, h'.minfo, c, k, k + 1, [m]);
    assert c[0] == 2 * h.cap && c[|c| - 1] == 2 * h.cap + 1;
    RewalkKinds(h.cap, h.recs, h'.recs, c, k, k + 1, [m]);
  }

  lemma SplitIndexed(h: Heap, c: seq<int>, k: nat, n: nat)
    requires Walk(h.cap, c) && Kinds(h.cap, h.recs, c) && Indexed(h.recs, h.minfo, c)
    requires S.Wf(Segs(h.recs, c), h.total)
    requires At(h.recs, c, k) && Takeable(h, c[k], n) && h.recs[c[k]].length != n && h.mpUsed.NextId() !in c
    ensures Indexed(Take(h, c[k], n).recs, Take(h, c[k], n).minfo, MallocWalk(h, c, k, n))
    ensures Kinds(h.cap, Take(h, c[k], n).recs, MallocWalk(h, c, k, n))
  {
    hide TakeSplit;
    hide Rewalk;
    hide PoolView.Wf;
    hide S.Wf;
    var h', m := Take(h, c[k], n), h.mpUsed.NextId();
    NextIdInRange(h);
    forall i | 0 < i < |c| - 1 && i != k
      ensures h.recs[c[i]].index != h.recs[c[k]].index
    {
      StartsDiffer(h.recs, c, h.total, i, k);
    }
    SplitTable(h.recs, c, k, m, n);
    RewalkIndexed(h.recs, h'.recs, h.minfo, h'.minfo, c, k, k, [m]);
    assert c[0] == 2 * h.cap && c[|c| - 1] == 2 * h.cap + 1;
    RewalkKinds(h.cap, h.recs, h'.recs, c, k, k, [m]);
  }

  /** The tallies after segment `i` gave `n` units away. */
  lemma TakeTallied(h: Heap, segs: seq<S.Seg>, i: nat, f: int, n: nat)
    requires Tallied(h, segs) && i < |segs| && segs[i].Fits(n) && Takeable(h, f, n)
    requires h.recs[f].length == segs[i].len && h.Live(f)
    ensures Tallied(Take(h, f, n), S.Malloc(segs, i, n))
  {
    S.MallocWf(segs, h.total, i, n);
    S.MallocCounts(segs, i, n);
  }

  /** A free segment's back link is right, and so is that of the segment after it, which is used. */
  lemma TakeReady(h: Heap, c: seq<int>, k: nat, n: nat)
    requires Inv(h, c) && At(h.recs, c, k) && Takeable(h, c[k], n)
    ensures TakeAt(h.cap, h.recs, c, k, h.mpUsed.NextId())
    ensures h.recs[c[k]].length == n && k < |c| - 2 ==> h.recs[c[k + 1]].index == h.recs[c[k]].index + n
  {
    NewRecordIsOutside(h, c);
    var segs := Segs(h.recs, c);
    assert segs[k - 1] == SegOf(h.recs[c[k]]);
    if k < |c| - 2 {
      assert segs[k] == SegOf(h.recs[c[k + 1]]);
      assert segs[k - 1].used || segs[k].used;
      assert segs[k - 1].End() == segs[k].start;
    } else {
      assert c[k + 1] == 2 * h.cap + 1;
    }
  }

  /**
    Taking from the free segment at place `k` keeps the invariant and does to
    the segments what Segments.Malloc does.
   */
  lemma TakeKeeps(h: Heap, c: seq<int>, k: nat, n: nat)
    requires Inv(h, c) && At(h.recs, c, k) && Takeable(h, c[k], n)
    ensures var h', c' := Take(h, c[k], n), MallocWalk(h, c, k, n);
            && Inv(h', c')
            && Segs(h'.recs, c') == S.Malloc(Segs(h.recs, c), k - 1, n)
  {
    hide Kinds;
    hide Indexed;
    hide S.Wf;
    hide BackLinked;
    hide TakeAt;
    var m := h.mpUsed.NextId();
    TakeReady(h, c, k, n);
    NewRecordIsOutside(h, c);
    TakeLive(h, c[k], n, m);
    TakeInhabited(h, c, k, n);
    if h.recs[c[k]].length == n {
      ExactIndexed(h, c, k, n);
      ExactLinks(h.cap, h.recs, c, k, m, n);
      ExactSegs(h.recs, c, k, m, n);
    } else {
      SplitIndexed(h, c, k, n);
      SplitLinks(h.cap, h.recs, c, k, m, n, 0);
      SplitSegs(h.recs, c, k, m, n);
    }
    assert c[k] in c;
    TakeTallied(h, Segs(h.recs, c), k - 1, c[k], n);
  }

  /** Of the back links, an exact fit that is not at the end of the arena makes one more stale. */
  lemma TakeStale(h: Heap, c: seq<int>, k: nat, n: nat, u: int)
    requires Inv(h, c) && At(h.recs, c, k) && Takeable(h, c[k], n)
    ensures StaleAt(Take(h, c[k], n).recs, MallocWalk(h, c, k, n), u) <==>
            || StaleAt(h.recs, c, u)
            || (h.recs[c[k]].length == n && k < |c| - 2 && u == h.recs[c[k]].index + n)
  {
    hide Inv;
    hide TakeAt;
    hide StaleAt;
    var m := h.mpUsed.NextId();
    TakeReady(h, c, k, n);
    if h.recs[c[k]].length == n {
      ExactStale(h.cap, h.recs, c, k, m, n, u);
    } else {
      SplitLinks(h.cap, h.recs, c, k, m, n, u);
    }
  }

  // ---------------------------------------------------------------- the missing statement

  /** The tables differ in back links at most. */
  ghost predicate SameButBack(recs: seq<MemInfo>, recs': seq<MemInfo>) {
    |recs'| == |recs| && forall r | 0 <= r < |recs| :: recs'[r] == recs[r].(back := recs'[r].back)
  }

  lemma BackOnly(h: Heap, h': Heap, c: seq<int>)
    requires Core(h, c) && SameButBack(h.recs, h'.recs) && h' == h.(recs := h'.recs)
    ensures Core(h', c) && Segs(h'.recs, c) == Segs(h.recs, c)
  {
    assert NextLinked(h'.recs, c);
    assert Kinds(h'.cap, h'.recs, c);
    assert Segs(h'.recs, c) == Segs(h.recs, c);
  }

  lemma RelinkedLinks(h: Heap, c: seq<int>, k: nat, n: nat, u: int)
    requires 0 < k < |c| - 1 && Takeable(h, c[k], n) && TakeAt(h.cap, h.recs, c, k, h.mpUsed.NextId())
    ensures var m, h', c' := h.mpUsed.NextId(), Take(h, c[k], n), MallocWalk(h, c, k, n);
            && InTable(h'.recs, m) && InTable(h'.recs, h'.recs[m].next)
            && SameButBack(h'.recs, Relink(h', m).recs)
            && BackLinked(h.cap, Relink(h', m).recs, c')
            && (StaleAt(Relink(h', m).recs, c', u) <==> StaleAt(h.recs, c, u))
  {
    hide BackLinked;
    hide StaleAt;
    var m := h.mpUsed.NextId();
    if h.recs[c[k]].length == n {
      ExactRelinked(h.cap, h.recs, c, k, m, n, u);
    } else {
      SplitTable(h.recs, c, k, m, n);
      SplitLinks(h.cap, h.recs, c, k, m, n, u);
      assert Relink(Take(h, c[k], n), m).recs == Take(h, c[k], n).recs;
    }
  }

  /** Followed by the missing statement, taking makes no back link stale, whatever the fit. */
  lemma TakeRelinked(h: Heap, c: seq<int>, k: nat, n: nat, u: int)
    requires Inv(h, c) && At(h.recs, c, k) && Takeable(h, c[k], n)
    ensures var m := h.mpUsed.NextId();
            var h', c' := Take(h, c[k], n), MallocWalk(h, c, k, n);
            && InTable(h'.recs, m) && InTable(h'.recs, h'.recs[m].next)
            && Inv(Relink(h', m), c')
            && Segs(Relink(h', m).recs, c') == S.Malloc(Segs(h.recs, c), k - 1, n)
            && (StaleAt(Relink(h', m).recs, c', u) <==> StaleAt(h.recs, c, u))
  {
    hide Core;
    hide BackLinked;
    hide StaleAt;
    hide TakeAt;
    TakeReady(h, c, k, n);
    TakeKeeps(h, c, k, n);
    RelinkedLinks(h, c, k, n, u);
    BackOnly(Take(h, c[k], n), Relink(Take(h, c[k], n), h.mpUsed.NextId()), MallocWalk(h, c, k, n));
  }
}
