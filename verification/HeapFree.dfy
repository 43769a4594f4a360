/** What em_free does to a well-formed record list, in each of its four merge cases. */
module HeapFree {
  import opened Mempool
  import opened HeapRecords
  import opened HeapMalloc
  import S = Segments

  lemma IsolatedTable(recs: seq<MemInfo>, c: seq<int>, k: nat, w: int)
    requires At(recs, c, k) && InTable(recs, w) && w !in c
    requires forall i, j | 0 <= i < j < |c| :: c[i] != c[j]
    ensures var recs' := ReleaseIsolated(recs, c[k], w);
            && |recs'| == |recs|
            && recs'[w] == recs[c[k]].(used := false)
            && (forall i | 0 <= i < |c| ::
                  recs'[c[i]] ==
                  if i == k - 1 then recs[c[i]].(next := w)
                  else if i == k + 1 then recs[c[i]].(back := w)
                  else recs[c[i]])
            && (forall r | 0 <= r < |recs| && r != w :: recs'[r].used == recs[r].used)
  {
    assert forall i | 0 <= i < |c| :: c[i] in c;
  }

  lemma IntoNextTable(recs: seq<MemInfo>, c: seq<int>, k: nat)
    requires At(recs, c, k)
    requires forall i, j | 0 <= i < j < |c| :: c[i] != c[j]
    ensures var recs' := ReleaseIntoNext(recs, c[k]);
            && |recs'| == |recs|
            && (forall r | 0 <= r < |recs| && r != c[k - 1] && r != c[k + 1] :: recs'[r] == recs[r])
            && recs'[c[k - 1]] == recs[c[k - 1]].(next := c[k + 1])
            && recs'[c[k + 1]] == recs[c[k + 1]].(
                 index := recs[c[k]].index,
                 length := recs[c[k + 1]].length + recs[c[k]].length,
                 back := c[k - 1])
  {
  }

  lemma IntoBackTable(recs: seq<MemInfo>, c: seq<int>, k: nat)
    requires At(recs, c, k)
    requires forall i, j | 0 <= i < j < |c| :: c[i] != c[j]
    ensures var recs' := ReleaseIntoBack(recs, c[k]);
            && |recs'| == |recs|
            && (forall r | 0 <= r < |recs| && r != c[k - 1] && r != c[k + 1] :: recs'[r] == recs[r])
            && recs'[c[k - 1]] == recs[c[k - 1]].(
                 next := c[k + 1], length := recs[c[k - 1]].length + recs[c[k]].length)
            && recs'[c[k + 1]] == recs[c[k + 1]].(back := c[k - 1])
  {
  }

  lemma IntoBothTable(recs: seq<MemInfo>, c: seq<int>, k: nat)
    requires At(recs, c, k) && k + 2 < |c| && recs[c[k + 1]].next == c[k + 2]
    requires forall i, j | 0 <= i < j < |c| :: c[i] != c[j]
    ensures var recs' := ReleaseIntoBoth(recs, c[k]);
            && |recs'| == |recs|
            && (forall r | 0 <= r < |recs| && r != c[k - 1] && r != c[k + 2] :: recs'[r] == recs[r])
            && recs'[c[k - 1]] == recs[c[k - 1]].(
                 next := c[k + 2],
                 length := recs[c[k - 1]].length + recs[c[k]].length + recs[c[k + 1]].length)
            && recs'[c[k + 2]] == recs[c[k + 2]].(back := c[k - 1])
  {
  }

  /** Segment `k` is in use and stands between its neighbours. */
  ghost predicate UsedAt(cap: nat, recs: seq<MemInfo>, c: seq<int>, k: nat) {
    Walk(cap, c) && Kinds(cap, recs, c) && At(recs, c, k) && recs[c[k]].used
  }

  /** The neighbours that the release of segment `k` joins, read off the records. */
  lemma JoinRead(cap: nat, recs: seq<MemInfo>, c: seq<int>, k: nat)
    requires UsedAt(cap, recs, c, k)
    ensures !recs[c[k - 1]].used ==> k > 1
    ensures !recs[c[k + 1]].used ==> k < |c| - 2
    ensures var segs, b, x := Segs(recs, c), recs[c[k - 1]], recs[c[k + 1]];
            && S.JoinLo(segs, k - 1) == (if b.used then k - 1 else k - 2)
            && S.JoinHi(segs, k - 1) == (if x.used then k else k + 1)
            && S.JoinLen(segs, k - 1)
               == (if b.used then 0 else b.length) + recs[c[k]].length + (if x.used then 0 else x.length)
  {
    assert c[0] == 2 * cap && c[|c| - 1] == 2 * cap + 1;
    var segs := Segs(recs, c);
    assert segs[k - 1] == SegOf(recs[c[k]]);
    if k > 1 {
      assert segs[k - 2] == SegOf(recs[c[k - 1]]);
    }
    if k < |c| - 2 {
      assert segs[k] == SegOf(recs[c[k + 1]]);
    }
  }

  lemma IsolatedLinks(cap: nat, recs: seq<MemInfo>, c: seq<int>, k: nat, w: int, u: int)
    requires Linked(cap, recs, c) && At(recs, c, k) && InTable(recs, w) && 0 <= w < 2 * cap && w !in c
    ensures var recs', c' := ReleaseIsolated(recs, c[k], w), Rewalk(c, k, k + 1, [w]);
            && Linked(cap, recs', c')
            && (StaleAt(recs', c', u) <==> StaleBut(recs, c, k + 1, u))
  {
    hide StaleBut;
    hide StaleAt;
    hide Rewalk;
    hide ReleaseIsolated;
    var recs' := ReleaseIsolated(recs, c[k], w);
    IsolatedTable(recs, c, k, w);
    assert KeepsBack(cap, recs, recs', c, k, k + 1);
    assert Bridges(recs, recs', c, k, k + 1, [w]);
    RewalkLinked(cap, recs, recs', c, k, k + 1, [w], u);
  }

  lemma IsolatedKinds(cap: nat, recs: seq<MemInfo>, minfo: seq<int>, c: seq<int>, k: nat, w: int)
    requires Indexed(recs, minfo, c)
    requires UsedAt(cap, recs, c, k) && recs[c[k - 1]].used && recs[c[k + 1]].used
    requires cap <= w < 2 * cap && w !in c
    ensures Kinds(cap, ReleaseIsolated(recs, c[k], w), Rewalk(c, k, k + 1, [w]))
    ensures Indexed(ReleaseIsolated(recs, c[k], w), minfo, Rewalk(c, k, k + 1, [w]))
    ensures ReleaseIsolated(recs, c[k], w)[c[k]] == recs[c[k]]
  {
    hide ReleaseIsolated;
    hide Rewalk;
    assert c[0] == 2 * cap && c[|c| - 1] == 2 * cap + 1;
    IsolatedTable(recs, c, k, w);
    RewalkIndexed(recs, ReleaseIsolated(recs, c[k], w), minfo, minfo, c, k, k + 1, [w]);
    RewalkKinds(cap, recs, ReleaseIsolated(recs, c[k], w), c, k, k + 1, [w]);
  }

  lemma IsolatedSegs(cap: nat, recs: seq<MemInfo>, c: seq<int>, k: nat, w: int)
    requires UsedAt(cap, recs, c, k) && recs[c[k - 1]].used && recs[c[k + 1]].used
    requires cap <= w < 2 * cap && w !in c
    ensures var recs', c' := ReleaseIsolated(recs, c[k], w), Rewalk(c, k, k + 1, [w]);
            |c'| > 2 && Covers(recs', c') && Segs(recs', c') == S.Free(Segs(recs, c), k - 1)
  {
    hide S.JoinLo;
    hide S.JoinHi;
    hide S.JoinLen;
    hide S.Splice;
    hide ReleaseIsolated;
    hide Rewalk;
    var recs', c' := ReleaseIsolated(recs, c[k], w), Rewalk(c, k, k + 1, [w]);
    IsolatedTable(recs, c, k, w);
    RewalkAt(c, k, k + 1, [w]);
    JoinRead(cap, recs, c, k);
    var segs := Segs(recs, c);
    SegsSpliced(recs, recs', c, c', k - 1, k, [S.Seg(segs[k - 1].start, S.JoinLen(segs, k - 1), false)]);
  }

  lemma IntoNextLinks(cap: nat, recs: seq<MemInfo>, c: seq<int>, k: nat, u: int)
    requires Linked(cap, recs, c) && At(recs, c, k) && k + 1 < |c| - 1
    ensures var recs', c' := ReleaseIntoNext(recs, c[k]), Rewalk(c, k, k + 1, []);
            && Linked(cap, recs', c')
            && (StaleAt(recs', c', u) <==> StaleBut(recs, c, k + 1, u))
  {
    hide StaleBut;
    hide StaleAt;
    hide Rewalk;
    hide ReleaseIntoNext;
    var recs' := ReleaseIntoNext(recs, c[k]);
    IntoNextTable(recs, c, k);
    assert KeepsBack(cap, recs, recs', c, k, k + 1);
    assert Bridges(recs, recs', c, k, k + 1, []);
    RewalkLinked(cap, recs, recs', c, k, k + 1, [], u);
  }

  lemma IntoNextKinds(cap: nat, recs: seq<MemInfo>, minfo: seq<int>, c: seq<int>, k: nat)
    requires Indexed(recs, minfo, c)
    requires UsedAt(cap, recs, c, k) && recs[c[k - 1]].used && !recs[c[k + 1]].used
    ensures Kinds(cap, ReleaseIntoNext(recs, c[k]), Rewalk(c, k, k + 1, []))
    ensures Indexed(ReleaseIntoNext(recs, c[k]), minfo, Rewalk(c, k, k + 1, []))
    ensures ReleaseIntoNext(recs, c[k])[c[k]] == recs[c[k]]
  {
    hide ReleaseIntoNext;
    hide Rewalk;
    assert c[0] == 2 * cap && c[|c| - 1] == 2 * cap + 1;
    IntoNextTable(recs, c, k);
    RewalkIndexed(recs, ReleaseIntoNext(recs, c[k]), minfo, minfo, c, k, k + 1, []);
    RewalkKinds(cap, recs, ReleaseIntoNext(recs, c[k]), c, k, k + 1, []);
  }

  lemma IntoNextSegs(cap: nat, recs: seq<MemInfo>, c: seq<int>, k: nat)
    requires UsedAt(cap, recs, c, k) && recs[c[k - 1]].used && !recs[c[k + 1]].used
    ensures var recs', c' := ReleaseIntoNext(recs, c[k]), Rewalk(c, k, k + 1, []);
            |c'| > 2 && Covers(recs', c') && Segs(recs', c') == S.Free(Segs(recs, c), k - 1)
  {
    hide S.JoinLo;
    hide S.JoinHi;
    hide S.JoinLen;
    hide S.Splice;
    hide ReleaseIntoNext;
    hide Rewalk;
    var recs', c' := ReleaseIntoNext(recs, c[k]), Rewalk(c, k, k + 1, []);
    IntoNextTable(recs, c, k);
    RewalkAt(c, k, k + 1, []);
    JoinRead(cap, recs, c, k);
    var segs := Segs(recs, c);
    SegsSpliced(recs, recs', c, c', k - 1, k + 1, [S.Seg(segs[k - 1].start, S.JoinLen(segs, k - 1), false)]);
  }

  lemma IntoBackLinks(cap: nat, recs: seq<MemInfo>, c: seq<int>, k: nat, u: int)
    requires Linked(cap, recs, c) && At(recs, c, k) && k > 1
    ensures var recs', c' := ReleaseIntoBack(recs, c[k]), Rewalk(c, k, k + 1, []);
            && Linked(cap, recs', c')
            && (StaleAt(recs', c', u) <==> StaleBut(recs, c, k + 1, u))
  {
    hide StaleBut;
    hide StaleAt;
    hide Rewalk;
    hide ReleaseIntoBack;
    var recs' := ReleaseIntoBack(recs, c[k]);
    IntoBackTable(recs, c, k);
    assert KeepsBack(cap, recs, recs', c, k, k + 1);
    assert Bridges(recs, recs', c, k, k + 1, []);
    RewalkLinked(cap, recs, recs', c, k, k + 1, [], u);
  }

  lemma IntoBackKinds(cap: nat, recs: seq<MemInfo>, minfo: seq<int>, c: seq<int>, k: nat)
    requires Indexed(recs, minfo, c)
    requires UsedAt(cap, recs, c, k) && !recs[c[k - 1]].used && recs[c[k + 1]].used
    ensures Kinds(cap, ReleaseIntoBack(recs, c[k]), Rewalk(c, k, k + 1, []))
    ensures Indexed(ReleaseIntoBack(recs, c[k]), minfo, Rewalk(c, k, k + 1, []))
    ensures ReleaseIntoBack(recs, c[k])[c[k]] == recs[c[k]]
  {
    hide ReleaseIntoBack;
    hide Rewalk;
    assert c[0] == 2 * cap && c[|c| - 1] == 2 * cap + 1;
    IntoBackTable(recs, c, k);
    RewalkIndexed(recs, ReleaseIntoBack(recs, c[k]), minfo, minfo, c, k, k + 1, []);
    RewalkKinds(cap, recs, ReleaseIntoBack(recs, c[k]), c, k, k + 1, []);
  }

  lemma IntoBackSegs(cap: nat, recs: seq<MemInfo>, c: seq<int>, k: nat)
    requires UsedAt(cap, recs, c, k) && !recs[c[k - 1]].used && recs[c[k + 1]].used
    ensures var recs', c' := ReleaseIntoBack(recs, c[k]), Rewalk(c, k, k + 1, []);
            |c'| > 2 && Covers(recs', c') && Segs(recs', c') == S.Free(Segs(recs, c), k - 1)
  {
    hide S.JoinLo;
    hide S.JoinHi;
    hide S.JoinLen;
    hide S.Splice;
    hide ReleaseIntoBack;
    hide Rewalk;
    var recs', c' := ReleaseIntoBack(recs, c[k]), Rewalk(c, k, k + 1, []);
    IntoBackTable(recs, c, k);
    RewalkAt(c, k, k + 1, []);
    JoinRead(cap, recs, c, k);
    var segs := Segs(recs, c);
    SegsSpliced(recs, recs', c, c', k - 2, k, [S.Seg(segs[k - 2].start, S.JoinLen(segs, k - 1), false)]);
  }

  lemma IntoBothLinks(cap: nat, recs: seq<MemInfo>, c: seq<int>, k: nat, u: int)
    requires Linked(cap, recs, c) && At(recs, c, k) && 1 < k < |c| - 2
    requires !recs[c[k + 1]].used && recs[c[k + 1]].next == c[k + 2]
    ensures var recs', c' := ReleaseIntoBoth(recs, c[k]), Rewalk(c, k, k + 2, []);
            && Linked(cap, recs', c')
            && (StaleAt(recs', c', u) <==> StaleBut(recs, c, k + 2, u))
  {
    hide StaleBut;
    hide StaleAt;
    hide Rewalk;
    hide ReleaseIntoBoth;
    AtSegment(cap, recs, c, k + 1);
    var recs' := ReleaseIntoBoth(recs, c[k]);
    IntoBothTable(recs, c, k);
    assert KeepsBack(cap, recs, recs', c, k, k + 2);
    assert Bridges(recs, recs', c, k, k + 2, []);
    RewalkLinked(cap, recs, recs', c, k, k + 2, [], u);
  }

  lemma IntoBothKinds(cap: nat, recs: seq<MemInfo>, minfo: seq<int>, c: seq<int>, k: nat)
    requires Indexed(recs, minfo, c)
    requires UsedAt(cap, recs, c, k) && !recs[c[k - 1]].used && !recs[c[k + 1]].used
    requires k < |c| - 2 ==> recs[c[k + 1]].next == c[k + 2]
    ensures k < |c| - 2
    ensures Kinds(cap, ReleaseIntoBoth(recs, c[k]), Rewalk(c, k, k + 2, []))
    ensures Indexed(ReleaseIntoBoth(recs, c[k]), minfo, Rewalk(c, k, k + 2, []))
    ensures ReleaseIntoBoth(recs, c[k])[c[k]] == recs[c[k]]
  {
    hide ReleaseIntoBoth;
    hide Rewalk;
    assert c[0] == 2 * cap && c[|c| - 1] == 2 * cap + 1;
    IntoBothTable(recs, c, k);
    RewalkIndexed(recs, ReleaseIntoBoth(recs, c[k]), minfo, minfo, c, k, k + 2, []);
    RewalkKinds(cap, recs, ReleaseIntoBoth(recs, c[k]), c, k, k + 2, []);
  }

  lemma IntoBothSegs(cap: nat, recs: seq<MemInfo>, c: seq<int>, k: nat)
    requires UsedAt(cap, recs, c, k) && !recs[c[k - 1]].used && !recs[c[k + 1]].used
    requires k < |c| - 2 ==> recs[c[k + 1]].next == c[k + 2]
    ensures k < |c| - 2 && InTable(recs, c[k + 2])
    ensures var recs', c' := ReleaseIntoBoth(recs, c[k]), Rewalk(c, k, k + 2, []);
            |c'| > 2 && Covers(recs', c') && Segs(recs', c') == S.Free(Segs(recs, c), k - 1)
  {
    hide S.JoinLo;
    hide S.JoinHi;
    hide S.JoinLen;
    hide ReleaseIntoBoth;
    hide Rewalk;
    assert c[|c| - 1] == 2 * cap + 1;
    var recs', c' := ReleaseIntoBoth(recs, c[k]), Rewalk(c, k, k + 2, []);
    IntoBothTable(recs, c, k);
    RewalkAt(c, k, k + 2, []);
    JoinRead(cap, recs, c, k);
    var segs := Segs(recs, c);
    SegsSpliced(recs, recs', c, c', k - 2, k + 1, [S.Seg(segs[k - 2].start, S.JoinLen(segs, k - 1), false)]);
  }

  /** Where the back link it reads is right, em_free finds a record of mp_free whenever it asks for one. */
  lemma ReleaseReady(h: Heap, c: seq<int>, k: nat)
    requires Inv(h, c) && 0 < k < |c| - 1 && h.recs[c[k]].used && h.recs[c[k]].back == c[k - 1]
    ensures Releasable(h, c[k]) && UsedAt(h.cap, h.recs, c, k)
    ensures k + 1 < |c| - 1 ==> h.recs[c[k + 1]].next == c[k + 2]
  {
    AtSegment(h.cap, h.recs, c, k);
    JoinRead(h.cap, h.recs, c, k);
    if h.recs[c[k - 1]].used && h.recs[c[k + 1]].used {
      S.IsolatedFreeBound(Segs(h.recs, c), k - 1);
    }
    if k + 1 < |c| - 1 {
      assert h.recs[c[k + 1]].next == c[k + 2];
    }
  }

  /** Whatever back link it reads, em_free follows links to records only. */
  lemma ReleaseSafe(h: Heap, c: seq<int>, k: nat)
    requires Inv(h, c) && 0 < k < |c| - 1 && h.recs[c[k]].used
    ensures Releasable(h, c[k])
  {
    if h.recs[c[k]].back == c[k - 1] {
      ReleaseReady(h, c, k);
    } else {
      hide PoolView.Wf;
      hide Tallied;
      assert BackOk(h.cap, h.recs, c[k - 1], c[k]);
      assert h.recs[c[k]].next == c[k + 1];
      assert k + 1 < |c| - 1 ==> h.recs[c[k + 1]].next == c[k + 2];
    }
  }

  function ReleaseWalk(h: Heap, c: seq<int>, k: nat): seq<int>
    requires 0 < k < |c| - 1 && Covers(h.recs, c)
    requires h.recs[c[k - 1]].used && h.recs[c[k + 1]].used ==> h.mpFree.HasRoom()
  {
    if h.recs[c[k - 1]].used && h.recs[c[k + 1]].used then Rewalk(c, k, k + 1, [h.cap + h.mpFree.NextId()])
    else if !h.recs[c[k - 1]].used && !h.recs[c[k + 1]].used then Rewalk(c, k, k + 2, [])
    else Rewalk(c, k, k + 1, [])
  }

  ghost predicate JoinsBoth(h: Heap, c: seq<int>, k: nat)
    requires 0 < k < |c| - 1 && Covers(h.recs, c)
  {
    !h.recs[c[k - 1]].used && !h.recs[c[k + 1]].used
  }

  /** What the four cases have in common. */
  ghost predicate ReleaseAt(h: Heap, c: seq<int>, k: nat) {
    && UsedAt(h.cap, h.recs, c, k) && Releasable(h, c[k])
    && (k + 1 < |c| - 1 ==> h.recs[c[k + 1]].next == c[k + 2])
    && (h.mpFree.HasRoom() ==> h.mpFree.NextId() < h.cap && h.cap + h.mpFree.NextId() !in c)
  }

  /** The sentinels count as used, so a free neighbour is a segment. */
  lemma FreeNeighbours(cap: nat, recs: seq<MemInfo>, c: seq<int>, k: nat)
    requires UsedAt(cap, recs, c, k)
    ensures !recs[c[k - 1]].used ==> k > 1
    ensures !recs[c[k + 1]].used ==> k < |c| - 2
  {
    assert c[0] == 2 * cap && c[|c| - 1] == 2 * cap + 1;
  }

  lemma ReleaseLinks(h: Heap, c: seq<int>, k: nat, u: int)
    requires ReleaseAt(h, c, k) && Linked(h.cap, h.recs, c)
    ensures var recs', c', both := Release(h, c[k]).recs, ReleaseWalk(h, c, k), JoinsBoth(h, c, k);
            && Linked(h.cap, recs', c')
            && (StaleAt(recs', c', u) <==> StaleBut(h.recs, c, if both then k + 2 else k + 1, u))
  {
    hide StaleBut;
    hide StaleAt;
    hide PoolView.Wf;
    hide Rewalk;
    hide ReleaseIsolated;
    hide ReleaseIntoNext;
    hide ReleaseIntoBack;
    hide ReleaseIntoBoth;
    FreeNeighbours(h.cap, h.recs, c, k);
    if h.recs[c[k - 1]].used {
      if h.recs[c[k + 1]].used {
        IsolatedLinks(h.cap, h.recs, c, k, h.cap + h.mpFree.NextId(), u);
      } else {
        IntoNextLinks(h.cap, h.recs, c, k, u);
      }
    } else {
      if h.recs[c[k + 1]].used {
        IntoBackLinks(h.cap, h.recs, c, k, u);
      } else {
        IntoBothLinks(h.cap, h.recs, c, k, u);
      }
    }
  }

  lemma ReleaseKinds(h: Heap, c: seq<int>, k: nat)
    requires ReleaseAt(h, c, k) && Indexed(h.recs, h.minfo, c)
    ensures Indexed(Release(h, c[k]).recs, h.minfo, ReleaseWalk(h, c, k))
    ensures Kinds(h.cap, Release(h, c[k]).recs, ReleaseWalk(h, c, k))
    ensures Release(h, c[k]).recs[c[k]] == h.recs[c[k]]
  {
    if h.recs[c[k - 1]].used {
      if h.recs[c[k + 1]].used {
        IsolatedKinds(h.cap, h.recs, h.minfo, c, k, h.cap + h.mpFree.NextId());
      } else {
        IntoNextKinds(h.cap, h.recs, h.minfo, c, k);
      }
    } else {
      if h.recs[c[k + 1]].used {
        IntoBackKinds(h.cap, h.recs, h.minfo, c, k);
      } else {
        IntoBothKinds(h.cap, h.recs, h.minfo, c, k);
      }
    }
  }

  lemma ReleaseSegs(h: Heap, c: seq<int>, k: nat)
    requires ReleaseAt(h, c, k)
    ensures var recs', c' := Release(h, c[k]).recs, ReleaseWalk(h, c, k);
            |c'| > 2 && Covers(recs', c') && Segs(recs', c') == S.Free(Segs(h.recs, c), k - 1)
  {
    hide Walk;
    hide Kinds;
    if h.recs[c[k - 1]].used {
      if h.recs[c[k + 1]].used {
        IsolatedSegs(h.cap, h.recs, c, k, h.cap + h.mpFree.NextId());
      } else {
        IntoNextSegs(h.cap, h.recs, c, k);
      }
    } else {
      if h.recs[c[k + 1]].used {
        IntoBackSegs(h.cap, h.recs, c, k);
      } else {
        IntoBothSegs(h.cap, h.recs, c, k);
      }
    }
  }

  /** The records of mp_free that are live after the release of `d`. */
  lemma ReleaseFreePool(h: Heap, d: int, r: int)
    requires Releasable(h, d) && 0 <= r < h.cap
    ensures var h', b, x := Release(h, d), h.recs[h.recs[d].back], h.recs[d].next;
            && h'.mpFree.Wf() && |h'.mpFree.order| == h.cap
            && (h'.mpFree.IsLive(r) <==>
                if b.used && h.recs[x].used then h.mpFree.IsLive(r) || r == h.mpFree.NextId()
                else if !b.used && !h.recs[x].used then h.mpFree.IsLive(r) && h.cap + r != x
                else h.mpFree.IsLive(r))
  {
    hide PoolView.Wf;
    var b, x := h.recs[h.recs[d].back], h.recs[d].next;
    if b.used && h.recs[x].used {
      AllocRefinesSet(h.mpFree);
      assert r in h.mpFree.Alloc().LiveIds() <==> r in h.mpFree.LiveIds() || r == h.mpFree.NextId();
    } else if !b.used && !h.recs[x].used {
      FreeRefinesSet(h.mpFree, x - h.cap);
    }
  }

  lemma ReleaseShape(h: Heap, d: int)
    requires Releasable(h, d)
    ensures Release(h, d).Shape() && Release(h, d).cap == h.cap && Release(h, d).total == h.total
    ensures forall r :: Release(h, d).mpUsed.IsLive(r) <==> h.mpUsed.IsLive(r) && r != d
  {
    ReleaseFreePool(h, d, 0);
    FreeRefinesSet(h.mpUsed, d);
  }

  lemma ReleaseLive(h: Heap, d: int, r: int)
    requires Releasable(h, d) && 0 <= r < 2 * h.cap
    requires !h.recs[h.recs[d].next].used ==> h.recs[d].next >= h.cap
    ensures var h', b, x := Release(h, d), h.recs[h.recs[d].back], h.recs[d].next;
            h'.Live(r) <==>
            if b.used && h.recs[x].used then (h.Live(r) && r != d) || r == h.cap + h.mpFree.NextId()
            else if !b.used && !h.recs[x].used then h.Live(r) && r != d && r != x
            else h.Live(r) && r != d
  {
    if r < h.cap {
      ReleaseShape(h, d);
    } else {
      ReleaseFreePool(h, d, r - h.cap);
    }
  }

  lemma InhabitedOne(h: Heap, h': Heap, c: seq<int>, k: nat, mid: seq<int>)
    requires Walk(h.cap, c) && Inhabited(h, c) && Cut(c, k, k + 1, mid) && h'.cap == h.cap
    requires forall r | 0 <= r < 2 * h.cap :: h'.Live(r) <==> (h.Live(r) && r != c[k]) || r in mid
    ensures Inhabited(h', Rewalk(c, k, k + 1, mid))
  {
    assert c[k..k + 1] == [c[k]];
    RewalkInhabited(h, h', c, k, k + 1, mid);
  }

  lemma InhabitedTwo(h: Heap, h': Heap, c: seq<int>, k: nat)
    requires Walk(h.cap, c) && Inhabited(h, c) && Cut(c, k, k + 2, []) && h'.cap == h.cap
    requires forall r | 0 <= r < 2 * h.cap :: h'.Live(r) <==> h.Live(r) && r != c[k] && r != c[k + 1]
    ensures Inhabited(h', Rewalk(c, k, k + 2, []))
  {
    assert c[k..k + 2] == [c[k], c[k + 1]];
    RewalkInhabited(h, h', c, k, k + 2, []);
  }

  lemma ReleaseInhabited(h: Heap, c: seq<int>, k: nat)
    requires ReleaseAt(h, c, k) && Inhabited(h, c)
    ensures Inhabited(Release(h, c[k]), ReleaseWalk(h, c, k))
  {
    FreeNeighbours(h.cap, h.recs, c, k);
    hide PoolView.Wf;
    hide Kinds;
    var h', b, x := Release(h, c[k]), h.recs[c[k - 1]], c[k + 1];
    if b.used && h.recs[x].used {
      var w := h.cap + h.mpFree.NextId();
      forall r | 0 <= r < 2 * h.cap ensures h'.Live(r) <==> (h.Live(r) && r != c[k]) || r in [w] {
        ReleaseLive(h, c[k], r);
      }
      InhabitedOne(h, h', c, k, [w]);
    } else if !b.used && !h.recs[x].used {
      forall r | 0 <= r < 2 * h.cap ensures h'.Live(r) <==> h.Live(r) && r != c[k] && r != x {
        ReleaseLive(h, c[k], r);
      }
      InhabitedTwo(h, h', c, k);
    } else {
      forall r | 0 <= r < 2 * h.cap ensures h'.Live(r) <==> (h.Live(r) && r != c[k]) || r in [] {
        ReleaseLive(h, c[k], r);
      }
      InhabitedOne(h, h', c, k, []);
    }
  }

  lemma ReleaseTallied(h: Heap, d: int, segs: seq<S.Seg>, i: nat)
    requires Releasable(h, d) && h.mpUsed.IsLive(d) && Tallied(h, segs)
    requires i < |segs| && segs[i].used
    requires S.JoinLo(segs, i) == (if h.recs[h.recs[d].back].used then i else i - 1)
    requires S.JoinHi(segs, i) == (if h.recs[h.recs[d].next].used then i + 1 else i + 2)
    requires !h.recs[h.recs[d].next].used ==> h.mpFree.IsLive(h.recs[d].next - h.cap)
    ensures Tallied(Release(h, d), S.Free(segs, i))
  {
    S.FreeWf(segs, h.total, i);
    S.FreeCounts(segs, i);
  }

  lemma ReleaseTallies(h: Heap, c: seq<int>, k: nat)
    requires ReleaseAt(h, c, k) && Tallied(h, Segs(h.recs, c)) && Inhabited(h, c)
    ensures Tallied(Release(h, c[k]), S.Free(Segs(h.recs, c), k - 1))
  {
    assert c[k] in c && c[k + 1] in c;
    JoinRead(h.cap, h.recs, c, k);
    assert Segs(h.recs, c)[k - 1] == SegOf(h.recs[c[k]]);
    ReleaseTallied(h, c[k], Segs(h.recs, c), k - 1);
  }

  /** Reading a right back link, em_free keeps the invariant and does to the segments what Segments.Free does. */
  lemma ReleaseKeeps(h: Heap, c: seq<int>, k: nat)
    requires Inv(h, c) && 0 < k < |c| - 1 && h.recs[c[k]].used && h.recs[c[k]].back == c[k - 1]
    ensures Releasable(h, c[k])
    ensures var h', c' := Release(h, c[k]), ReleaseWalk(h, c, k);
            && Inv(h', c')
            && Segs(h'.recs, c') == S.Free(Segs(h.recs, c), k - 1)
  {
    hide PoolView.Wf;
    hide Kinds;
    hide Indexed;
    hide Inhabited;
    hide BackLinked;
    hide StaleBut;
    hide S.Wf;
    ReleaseReady(h, c, k);
    NewRecordIsOutside(h, c);
    ReleaseShape(h, c[k]);
    ReleaseLinks(h, c, k, 0);
    ReleaseKinds(h, c, k);
    ReleaseSegs(h, c, k);
    ReleaseInhabited(h, c, k);
    ReleaseTallies(h, c, k);
  }

  /** The released record keeps its length to the end, so the counter goes down by it, whatever was joined. */
  lemma ReleaseLength(h: Heap, c: seq<int>, k: nat)
    requires Inv(h, c) && 0 < k < |c| - 1 && h.recs[c[k]].used
    ensures Releasable(h, c[k]) && Release(h, c[k]).usedSize == h.usedSize - h.recs[c[k]].length
  {
    hide Tallied;
    hide Indexed;
    hide PoolView.Wf;
    ReleaseSafe(h, c, k);
    NewRecordIsOutside(h, c);
    assert BackOk(h.cap, h.recs, c[k - 1], c[k]);
    assert h.recs[c[k]].next == c[k + 1];
    assert c[k] in c;
  }

  /** No stale segment starts where the next one does, other than that one. */
  lemma StaleElsewhere(h: Heap, c: seq<int>, k: nat, hole: nat, u: int)
    requires Inv(h, c) && 0 < k < |c| - 1 && (hole == k + 1 || (hole == k + 2 && !h.recs[c[k + 1]].used))
    ensures StaleBut(h.recs, c, hole, u) <==>
            StaleAt(h.recs, c, u) && !(k < |c| - 2 && u == h.recs[c[k + 1]].index)
  {
    if k < |c| - 2 {
      if hole == k + 2 {
        FreeNextRight(h.cap, h.recs, c, k + 1, u);
      }
      forall j | 0 < j < |c| - 1 && j != k + 1
        ensures h.recs[c[j]].index != h.recs[c[k + 1]].index
      {
        StartsDiffer(h.recs, c, h.total, j, k + 1);
      }
    }
  }

  /** It repairs the back link of the segment after the released one, and makes none stale. */
  lemma ReleaseStale(h: Heap, c: seq<int>, k: nat, u: int)
    requires Inv(h, c) && 0 < k < |c| - 1 && h.recs[c[k]].used && h.recs[c[k]].back == c[k - 1]
    ensures Releasable(h, c[k])
    ensures StaleAt(Release(h, c[k]).recs, ReleaseWalk(h, c, k), u) <==>
            StaleAt(h.recs, c, u) && u != h.recs[c[k]].index + h.recs[c[k]].length
  {
    hide StaleBut;
    hide StaleAt;
    hide PoolView.Wf;
    ReleaseReady(h, c, k);
    NewRecordIsOutside(h, c);
    ReleaseLinks(h, c, k, u);
    FreeNeighbours(h.cap, h.recs, c, k);
    StaleElsewhere(h, c, k, if JoinsBoth(h, c, k) then k + 2 else k + 1, u);
    NextStart(h, c, k, u);
  }

  /** The next segment starts where segment `k` ends, and none starts at the end of the arena. */
  lemma NextStart(h: Heap, c: seq<int>, k: nat, u: int)
    requires Inv(h, c) && 0 < k < |c| - 1
    ensures k < |c| - 2 ==> h.recs[c[k + 1]].index == h.recs[c[k]].index + h.recs[c[k]].length
    ensures k == |c| - 2 && StaleAt(h.recs, c, u) ==> u != h.recs[c[k]].index + h.recs[c[k]].length
  {
    var segs := Segs(h.recs, c);
    assert segs[k - 1] == SegOf(h.recs[c[k]]);
    if k < |c| - 2 {
      assert segs[k] == SegOf(h.recs[c[k + 1]]);
      assert segs[k - 1].End() == segs[k].start;
    } else if StaleAt(h.recs, c, u) {
      var i, j :| 0 <= i && j == i + 1 && j < |c| - 1 && h.recs[c[j]].index == u && h.recs[c[j]].back != c[i];
      assert segs[j - 1] == SegOf(h.recs[c[j]]);
      S.Inside(segs, h.total, j - 1);
    }
  }
}
