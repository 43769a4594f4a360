/**
  Who has which unit, read off the live records of the two pools without the
  list: this also makes sense where the list has been broken. In a well-formed
  manager every unit is with exactly one record, and a release keeps it so
  exactly if the back link it reads is right.
 */
module HeapOwners {
  import opened HeapRecords
  import opened Mempool
  import opened HeapFree
  import S = Segments

  /** A pool has handed out record `r`, and `r` describes unit `u`. */
  ghost predicate HasUnit(h: Heap, r: int, u: int) {
    && 0 <= r < 2 * h.cap && r < |h.recs| && h.Live(r)
    && h.recs[r].index <= u < h.recs[r].index + h.recs[r].length
  }

  ghost predicate Held(h: Heap, u: int) {
    exists r :: HasUnit(h, r, u)
  }

  /** No unit is with two records, or outside the arena; but a unit may be with none. */
  ghost predicate Disjoint(h: Heap) {
    && (forall r, u | HasUnit(h, r, u) :: 0 <= u < h.total)
    && (forall r, s, u | HasUnit(h, r, u) && HasUnit(h, s, u) :: r == s)
  }

  /** Every unit of the arena, and no other, is with exactly one record. */
  ghost predicate Partition(h: Heap) {
    Disjoint(h) && forall u | 0 <= u < h.total :: Held(h, u)
  }

  /** Unit `u` is with a record of mp_free. */
  ghost predicate Offered(h: Heap, u: int) {
    exists r :: h.cap <= r && HasUnit(h, r, u)
  }

  /** On the walk, a record has the units of its segment. */
  lemma HasUnitAt(h: Heap, c: seq<int>, r: int, u: int) returns (i: nat)
    requires Inv(h, c) && HasUnit(h, r, u)
    ensures i < |c| - 2 && c[i + 1] == r
    ensures var s := Segs(h.recs, c)[i];
            s.start <= u < s.End() <= h.total && s.used == h.recs[r].used && (s.used <==> r < h.cap)
  {
    hide S.Coalesced;
    hide PoolView.Wf;
    var k :| 0 <= k < |c| && c[k] == r;
    i := k - 1;
    assert Segs(h.recs, c)[i] == SegOf(h.recs[r]);
    S.Inside(Segs(h.recs, c), h.total, i);
  }

  lemma SegmentHas(h: Heap, c: seq<int>, i: nat, u: int)
    requires Inv(h, c) && i < |c| - 2
    ensures HasUnit(h, c[i + 1], u) <==> Segs(h.recs, c)[i].start <= u < Segs(h.recs, c)[i].End()
  {
    hide S.Wf;
    hide PoolView.Wf;
    assert Segs(h.recs, c)[i] == SegOf(h.recs[c[i + 1]]);
    assert c[i + 1] in c;
  }

  lemma OneRecord(h: Heap, c: seq<int>, r: int, s: int, u: int)
    requires Inv(h, c) && HasUnit(h, r, u) && HasUnit(h, s, u)
    ensures r == s
  {
    var i := HasUnitAt(h, c, r, u);
    var j := HasUnitAt(h, c, s, u);
    if i != j {
      S.AllocationsDisjoint(Segs(h.recs, c), h.total, i, j, u);
    }
  }

  /** In a well-formed manager every unit is with exactly one record. */
  lemma InvPartition(h: Heap, c: seq<int>)
    requires Inv(h, c)
    ensures Partition(h)
  {
    forall u | 0 <= u < h.total
      ensures Held(h, u)
    {
      var i := S.Locate(Segs(h.recs, c), h.total, u);
      SegmentHas(h, c, i, u);
    }
    forall r, u | HasUnit(h, r, u)
      ensures 0 <= u < h.total
    {
      var _ := HasUnitAt(h, c, r, u);
    }
    hide Inv;
    forall r, s, u | HasUnit(h, r, u) && HasUnit(h, s, u)
      ensures r == s
    {
      OneRecord(h, c, r, s, u);
    }
  }

  /** The offered units are the unowned ones. */
  lemma OfferedIffUnowned(h: Heap, c: seq<int>, u: int)
    requires Inv(h, c)
    ensures Offered(h, u) <==> 0 <= u < h.total && S.Owner(Segs(h.recs, c), h.total, u).None?
  {
    if r :| h.cap <= r && HasUnit(h, r, u) {
      var i := HasUnitAt(h, c, r, u);
      S.OwnerIn(Segs(h.recs, c), h.total, u, i);
    }
    if 0 <= u < h.total && S.Owner(Segs(h.recs, c), h.total, u).None? {
      var i := S.Locate(Segs(h.recs, c), h.total, u);
      SegmentHas(h, c, i, u);
      var _ := HasUnitAt(h, c, c[i + 1], u);
    }
  }

  // ---------------------------------------------------------------- a release that reads a stale link

  /** The back link of segment `k` names a free record that is not the one before it. */
  ghost predicate StaleRead(h: Heap, c: seq<int>, k: nat) {
    0 < k < |c| - 1 && Covers(h.recs, c) && h.recs[c[k]].used && h.recs[c[k]].back != c[k - 1]
  }

  lemma StaleTable(h: Heap, c: seq<int>, k: nat)
    requires Inv(h, c) && StaleRead(h, c, k)
    ensures Releasable(h, c[k])
    ensures var h', d, f, x := Release(h, c[k]), c[k], h.recs[c[k]].back, c[k + 1];
            && h'.cap == h.cap && h'.total == h.total && |h'.recs| == |h.recs|
            && h.cap <= f < 2 * h.cap && f != d && f != c[k - 1] && !h.recs[f].used && h.recs[d].next == x
            && (forall r | 0 <= r < 2 * h.cap && r != f ::
                  h'.recs[r].index == h.recs[r].index && h'.recs[r].length == h.recs[r].length)
            && h'.recs[f].index == h.recs[f].index
            && (f != x && h.Live(f) ==> h'.recs[f].length >= h.recs[f].length + h.recs[d].length)
  {
    hide Tallied;
    hide Indexed;
    hide PoolView.Wf;
    ReleaseSafe(h, c, k);
    assert BackOk(h.cap, h.recs, c[k - 1], c[k]);
    assert h.recs[c[k]].next == c[k + 1];
    assert k < |c| - 2 ==> h.recs[c[k + 1]].next == c[k + 2];
  }

  /** Which records are handed out afterwards. */
  lemma StaleLive(h: Heap, c: seq<int>, k: nat, r: int)
    requires Inv(h, c) && StaleRead(h, c, k) && 0 <= r < 2 * h.cap
    ensures Releasable(h, c[k])
    ensures Release(h, c[k]).Live(r) <==> h.Live(r) && r != c[k] && (h.recs[c[k + 1]].used || r != c[k + 1])
  {
    StaleTable(h, c, k);
    hide Release;
    hide Tallied;
    assert c[|c| - 1] == 2 * h.cap + 1;
    ReleaseLive(h, c[k], r);
  }

  /** Where the stale link names a record that is not handed out, or the next one, the released units are lost. */
  lemma StaleLoses(h: Heap, c: seq<int>, k: nat, r: int)
    requires Inv(h, c) && StaleRead(h, c, k)
    requires h.recs[c[k]].back == c[k + 1] || !h.Live(h.recs[c[k]].back)
    ensures Releasable(h, c[k])
    ensures HasUnit(h, c[k], h.recs[c[k]].index) && !HasUnit(Release(h, c[k]), r, h.recs[c[k]].index)
  {
    StaleTable(h, c, k);
    var h', d := Release(h, c[k]), c[k];
    assert d in c && h.recs[d].length > 0;
    hide Tallied;
    hide Release;
    if HasUnit(h', r, h.recs[d].index) {
      StaleLive(h, c, k, r);
      OneRecord(h, c, r, d, h.recs[d].index);
    }
  }

  /** Where it names another free segment, that one comes to overlap its successor, or to leave the arena. */
  lemma StaleOverlaps(h: Heap, c: seq<int>, k: nat, e: nat)
    requires Inv(h, c) && StaleRead(h, c, k)
    requires 0 < e < |c| - 1 && h.recs[c[k]].back == c[e] != c[k + 1]
    ensures Releasable(h, c[k])
    ensures var h', u := Release(h, c[k]), h.recs[c[e]].index + h.recs[c[e]].length;
            && HasUnit(h', c[e], u) && !Offered(h, u) && !HasUnit(h, c[k], u)
            && (u == h.total || HasUnit(h', c[e + 1], u))
  {
    hide Release;
    hide Releasable;
    hide Partition;
    hide PoolView.Wf;
    hide Tallied;
    hide BackLinked;
    StaleTable(h, c, k);
    var h', u := Release(h, c[k]), h.recs[c[e]].index + h.recs[c[e]].length;
    Stretched(h, c, k, e);
    UnitAfter(h, c, e);
    if e < |c| - 2 {
      AfterFree(h, c, e);
      Untouched(h, c, k, e + 1, u);
    }
  }

  lemma Stretched(h: Heap, c: seq<int>, k: nat, e: nat)
    requires Inv(h, c) && StaleRead(h, c, k)
    requires 0 < e < |c| - 1 && h.recs[c[k]].back == c[e] != c[k + 1]
    ensures Releasable(h, c[k]) && !h.recs[c[e]].used && e != k && e + 1 != k
    ensures HasUnit(Release(h, c[k]), c[e], h.recs[c[e]].index + h.recs[c[e]].length)
  {
    hide Release;
    hide Releasable;
    hide PoolView.Wf;
    hide Tallied;
    hide BackLinked;
    StaleTable(h, c, k);
    StaleLive(h, c, k, c[e]);
    assert c[e] in c;
  }

  lemma Untouched(h: Heap, c: seq<int>, k: nat, i: nat, u: int)
    requires Inv(h, c) && StaleRead(h, c, k) && 0 < i < |c| - 1 && i != k && h.recs[c[i]].used
    requires HasUnit(h, c[i], u)
    ensures Releasable(h, c[k]) && HasUnit(Release(h, c[k]), c[i], u)
  {
    hide Release;
    hide Releasable;
    hide PoolView.Wf;
    hide Tallied;
    hide BackLinked;
    StaleTable(h, c, k);
    StaleLive(h, c, k, c[i]);
  }

  /** The unit after a free segment is outside the arena, or with the next segment, which is used. */
  lemma UnitAfter(h: Heap, c: seq<int>, e: nat)
    requires Inv(h, c) && 0 < e < |c| - 1 && !h.recs[c[e]].used
    ensures var u := h.recs[c[e]].index + h.recs[c[e]].length;
            && !Offered(h, u)
            && (e < |c| - 2 ==> HasUnit(h, c[e + 1], u) && forall r | HasUnit(h, r, u) :: r == c[e + 1])
            && (e == |c| - 2 ==> u == h.total && forall r :: !HasUnit(h, r, u))
  {
    hide PoolView.Wf;
    hide BackLinked;
    var u := h.recs[c[e]].index + h.recs[c[e]].length;
    NextStart(h, c, e, 0);
    EndOfLast(h, c);
    if e < |c| - 2 {
      AfterFree(h, c, e);
      assert c[e + 1] in c;
      assert HasUnit(h, c[e + 1], u);
    }
    forall r | HasUnit(h, r, u)
      ensures e < |c| - 2 && r == c[e + 1]
    {
      var _ := HasUnitAt(h, c, r, u);
      if e < |c| - 2 {
        OneRecord(h, c, r, c[e + 1], u);
      }
    }
  }

  lemma EndOfLast(h: Heap, c: seq<int>)
    requires Inv(h, c)
    ensures h.recs[c[|c| - 2]].index + h.recs[c[|c| - 2]].length == h.total
  {
    assert Segs(h.recs, c)[|c| - 3] == SegOf(h.recs[c[|c| - 2]]);
  }

  lemma AfterFree(h: Heap, c: seq<int>, e: nat)
    requires Inv(h, c) && 0 < e < |c| - 2 && !h.recs[c[e]].used
    ensures h.recs[c[e + 1]].used && c[e + 1] < h.cap
  {
    var segs := Segs(h.recs, c);
    assert segs[e - 1] == SegOf(h.recs[c[e]]) && segs[e] == SegOf(h.recs[c[e + 1]]);
    assert segs[e - 1].used || segs[e].used;
  }

  /** Either way some unit is no longer with exactly one record, and not exactly the released units were given up. */
  lemma StaleReleaseBreaks(h: Heap, c: seq<int>, k: nat) returns (u: int)
    requires Inv(h, c) && StaleRead(h, c, k)
    ensures Releasable(h, c[k])
    ensures !Partition(Release(h, c[k]))
    ensures Offered(Release(h, c[k]), u) <==> !(Offered(h, u) || HasUnit(h, c[k], u))
  {
    hide Release;
    hide Releasable;
    hide HasUnit;
    hide Tallied;
    hide BackLinked;
    hide Indexed;
    hide PoolView.Wf;
    StaleTable(h, c, k);
    if h.recs[c[k]].back == c[k + 1] || !h.Live(h.recs[c[k]].back) {
      u := UnitLost(h, c, k);
    } else {
      var e :| 0 <= e < |c| && c[e] == h.recs[c[k]].back;
      u := h.recs[c[e]].index + h.recs[c[e]].length;
      StaleOverlaps(h, c, k, e);
    }
  }

  lemma UnitLost(h: Heap, c: seq<int>, k: nat) returns (u: int)
    requires Inv(h, c) && StaleRead(h, c, k)
    requires h.recs[c[k]].back == c[k + 1] || !h.Live(h.recs[c[k]].back)
    ensures Releasable(h, c[k])
    ensures HasUnit(h, c[k], u) && !Held(Release(h, c[k]), u) && !Partition(Release(h, c[k]))
  {
    u := h.recs[c[k]].index;
    StaleTable(h, c, k);
    hide Release;
    hide Releasable;
    InvPartition(h, c);
    StaleLoses(h, c, k, 0);
    hide HasUnit;
    hide Inv;
    forall r ensures !HasUnit(Release(h, c[k]), r, u) {
      StaleLoses(h, c, k, r);
    }
  }

  /**
    A release gives up exactly the units of the released allocation if and only
    if the back link it reads is right.
   */
  lemma ReleaseGivesUpIff(h: Heap, c: seq<int>, k: nat)
    requires Inv(h, c) && 0 < k < |c| - 1 && h.recs[c[k]].used
    ensures Releasable(h, c[k])
    ensures (forall u :: Offered(Release(h, c[k]), u) <==> Offered(h, u) || HasUnit(h, c[k], u))
            <==> h.recs[c[k]].back == c[k - 1]
    ensures Partition(Release(h, c[k])) <==> h.recs[c[k]].back == c[k - 1]
  {
    if h.recs[c[k]].back == c[k - 1] {
      ReleaseKeeps(h, c, k);
      InvPartition(Release(h, c[k]), ReleaseWalk(h, c, k));
      forall u ensures Offered(Release(h, c[k]), u) <==> Offered(h, u) || HasUnit(h, c[k], u) {
        RightReleaseGivesUp(h, c, k, u);
      }
    } else {
      var u := StaleReleaseBreaks(h, c, k);
    }
  }

  /**
    The units stay disjoint if and only if the back link is right, or names the
    next record or one that is not handed out: then units are lost, not shared.
   */
  lemma ReleaseDisjointIff(h: Heap, c: seq<int>, k: nat)
    requires Inv(h, c) && 0 < k < |c| - 1 && h.recs[c[k]].used
    ensures Releasable(h, c[k])
    ensures var b := h.recs[c[k]].back;
            Disjoint(Release(h, c[k])) <==> b == c[k - 1] || b == h.recs[c[k]].next || !h.Live(b)
  {
    hide Release;
    hide Releasable;
    hide HasUnit;
    hide Tallied;
    hide BackLinked;
    hide Indexed;
    hide PoolView.Wf;
    var b := h.recs[c[k]].back;
    assert h.recs[c[k]].next == c[k + 1];
    if b == c[k - 1] {
      ReleaseGivesUpIff(h, c, k);
    } else if b == c[k + 1] || !h.Live(b) {
      LosingKeepsDisjoint(h, c, k);
    } else {
      StaleTable(h, c, k);
      var e :| 0 <= e < |c| && c[e] == b;
      StaleOverlaps(h, c, k, e);
    }
  }

  lemma LosingKeepsDisjoint(h: Heap, c: seq<int>, k: nat)
    requires Inv(h, c) && StaleRead(h, c, k)
    requires h.recs[c[k]].back == c[k + 1] || !h.Live(h.recs[c[k]].back)
    ensures Releasable(h, c[k]) && Disjoint(Release(h, c[k]))
  {
    hide Release;
    hide Releasable;
    hide Tallied;
    hide BackLinked;
    hide Indexed;
    hide PoolView.Wf;
    StaleTable(h, c, k);
    var h' := Release(h, c[k]);
    InvPartition(h, c);
    forall r, u | HasUnit(h', r, u)
      ensures HasUnit(h, r, u)
    {
      StaleLive(h, c, k, r);
    }
  }

  lemma RightReleaseGivesUp(h: Heap, c: seq<int>, k: nat, u: int)
    requires Inv(h, c) && 0 < k < |c| - 1 && h.recs[c[k]].used && h.recs[c[k]].back == c[k - 1]
    ensures Releasable(h, c[k])
    ensures Offered(Release(h, c[k]), u) <==> Offered(h, u) || HasUnit(h, c[k], u)
  {
    hide Offered;
    hide HasUnit;
    ReleaseKeeps(h, c, k);
    FreedOffered(h, c, Release(h, c[k]), ReleaseWalk(h, c, k), k, u);
  }

  lemma FreedOffered(h: Heap, c: seq<int>, h': Heap, c': seq<int>, k: nat, u: int)
    requires Inv(h, c) && 0 < k < |c| - 1 && h.recs[c[k]].used
    requires Inv(h', c') && h'.total == h.total && Segs(h'.recs, c') == S.Free(Segs(h.recs, c), k - 1)
    ensures Offered(h', u) <==> Offered(h, u) || HasUnit(h, c[k], u)
  {
    hide Core;
    hide BackLinked;
    hide Offered;
    hide HasUnit;
    hide S.Wf;
    SegmentInside(h, c, k - 1);
    OfferedIffUnowned(h, c, u);
    OfferedIffUnowned(h', c', u);
    SegmentHas(h, c, k - 1, u);
    if 0 <= u < h.total {
      S.FreeOwner(Segs(h.recs, c), h.total, k - 1, u);
    }
  }

  lemma SegmentInside(h: Heap, c: seq<int>, i: nat)
    requires Inv(h, c) && i < |c| - 2
    ensures Covers(h.recs, c)
    ensures var segs := Segs(h.recs, c);
            S.Wf(segs, h.total) && segs[i].End() <= h.total && segs[i].used == h.recs[c[i + 1]].used
  {
    S.Inside(Segs(h.recs, c), h.total, i);
  }
}
