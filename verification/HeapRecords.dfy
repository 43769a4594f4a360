/**
  The record table of em_malloc.c and what _em_malloc and em_free do to it, as
  functions on values. The functions follow the code as written, which leaves
  one back link stale on an exact fit; `Relink` is the statement the code lacks.

  A record is named by its place in one table: `0..cap` are the records of
  mp_used, `cap..2*cap` those of mp_free, then the two sentinels.
 */
module HeapRecords {
  import opened Basics
  import opened Mempool
  import S = Segments

  const SUCCESS: int := 0
  const NO_RECORD: int := -1
  const NO_SPACE: int := -2

  /** em_meminfo_t */
  datatype MemInfo = MemInfo(index: int, length: int, used: bool, next: int, back: int)

  // ---------------------------------------------------------------- the record table alone

  predicate InTable(recs: seq<MemInfo>, r: int) {
    0 <= r < |recs|
  }

  /** Record `r` and both its neighbours exist. */
  predicate Followable(recs: seq<MemInfo>, r: int) {
    InTable(recs, r) && InTable(recs, recs[r].back) && InTable(recs, recs[r].next)
  }

  /** Record `m` takes over all of free record `f`. */
  function TakeExact(recs: seq<MemInfo>, f: int, m: int, n: int): seq<MemInfo>
    requires InTable(recs, m) && Followable(recs, f)
  {
    var b := recs[f].back;
    var r1 := recs[m := MemInfo(recs[f].index, n, true, recs[m].next, b)];
    var r2 := r1[b := r1[b].(next := m)];
    r2[m := r2[m].(next := r2[f].next)]
  }

  /** Record `m` takes over the first `n` units of free record `f`. */
  function TakeSplit(recs: seq<MemInfo>, f: int, m: int, n: int): seq<MemInfo>
    requires InTable(recs, m) && Followable(recs, f)
  {
    var b := recs[f].back;
    var r1 := recs[m := MemInfo(recs[f].index, n, true, recs[m].next, b)];
    var r2 := r1[b := r1[b].(next := m)];
    var r3 := r2[m := r2[m].(next := f)];
    r3[f := r3[f].(index := r3[f].index + n, length := r3[f].length - n, back := m)]
  }

  /** The record after `m` points back to `m`. */
  function Relinked(recs: seq<MemInfo>, m: int): seq<MemInfo>
    requires InTable(recs, m) && InTable(recs, recs[m].next)
  {
    recs[recs[m].next := recs[recs[m].next].(back := m)]
  }

  /** Both neighbours of `d` are used: free record `w` takes its place. */
  function ReleaseIsolated(recs: seq<MemInfo>, d: int, w: int): seq<MemInfo>
    requires Followable(recs, d) && InTable(recs, w)
  {
    var b, x := recs[d].back, recs[d].next;
    var r1 := recs[w := recs[d].(used := false)];
    var r2 := r1[b := r1[b].(next := w)];
    r2[x := r2[x].(back := w)]
  }

  /** Only the next neighbour is free: it grows downwards. */
  function ReleaseIntoNext(recs: seq<MemInfo>, d: int): seq<MemInfo>
    requires Followable(recs, d)
  {
    var b, x := recs[d].back, recs[d].next;
    var r1 := recs[x := recs[x].(index := recs[d].index, length := recs[x].length + recs[d].length)];
    var r2 := r1[b := r1[b].(next := x)];
    r2[x := r2[x].(back := b)]
  }

  /** Only the previous neighbour is free: it grows upwards. */
  function ReleaseIntoBack(recs: seq<MemInfo>, d: int): seq<MemInfo>
    requires Followable(recs, d)
  {
    var b, x := recs[d].back, recs[d].next;
    var r1 := recs[b := recs[b].(length := recs[b].length + recs[d].length, next := x)];
    r1[x := r1[x].(back := b)]
  }

  /** Both neighbours are free: the previous one swallows all. */
  function ReleaseIntoBoth(recs: seq<MemInfo>, d: int): seq<MemInfo>
    requires Followable(recs, d) && InTable(recs, recs[recs[d].next].next)
  {
    var b, x := recs[d].back, recs[d].next;
    var r1 := recs[b := recs[b].(length := recs[b].length + recs[d].length)];
    var r2 := r1[b := r1[b].(length := r1[b].length + r1[x].length)];
    var r3 := r2[b := r2[b].(next := r2[x].next)];
    r3[r3[x].next := r3[r3[x].next].(back := b)]
  }

  // ---------------------------------------------------------------- the manager

  /** em_memmng_t without its locks. */
  datatype Heap = Heap(
    cap: nat,
    total: nat,
    recs: seq<MemInfo>,
    mpUsed: PoolView,
    mpFree: PoolView,
    minfo: seq<int>,
    usedSize: int)
  {
    ghost predicate Shape() {
      && cap > 0 && total > 0
      && |recs| == 2 * cap + 2 && |minfo| == total
      && mpUsed.Wf() && |mpUsed.order| == cap
      && mpFree.Wf() && |mpFree.order| == cap
    }

    /** Record `r` is handed out by its pool. */
    predicate Live(r: int) {
      if r < cap then mpUsed.IsLive(r) else mpFree.IsLive(r - cap)
    }

    /** The record at position `p` of mp_free. */
    function FreeRec(p: nat): int
      requires p < |mpFree.order|
    {
      cap + mpFree.order[p]
    }
  }

  /** The scan from position `i` down to 0 for a free segment of at least `n` units. */
  function Scan(h: Heap, n: int, i: nat): (p: int)
    requires h.Shape() && i <= h.mpFree.used
    ensures -1 <= p < i
    ensures p >= 0 ==> h.recs[h.FreeRec(p)].length >= n
    ensures forall q | p < q < i :: h.recs[h.FreeRec(q)].length < n
  {
    if i == 0 then -1
    else if h.recs[h.FreeRec(i - 1)].length >= n then i - 1
    else Scan(h, n, i - 1)
  }

  /** Free record `f` gives its first `n` units to record `m`; on an exact fit `f` goes back to its pool. */
  function Switch(h: Heap, f: int, m: int, n: int): Heap
    requires h.mpFree.Wf() && |h.mpFree.order| == h.cap
    requires InTable(h.recs, m) && h.cap <= f && Followable(h.recs, f) && 0 <= h.recs[f].index < |h.minfo|
  {
    var h' := h.(minfo := h.minfo[h.recs[f].index := m]);
    if h.recs[f].length == n
    then h'.(recs := TakeExact(h.recs, f, m, n), mpFree := h.mpFree.Free(f - h.cap))
    else h'.(recs := TakeSplit(h.recs, f, m, n))
  }

  /** The same for a record newly taken from mp_used. */
  function Take(h: Heap, f: int, n: int): Heap
    requires h.Shape() && h.mpUsed.HasRoom()
    requires h.cap <= f && Followable(h.recs, f) && 0 <= h.recs[f].index < h.total
  {
    Switch(h.(mpUsed := h.mpUsed.Alloc(), usedSize := h.usedSize + n), f, h.mpUsed.NextId(), n)
  }

  datatype MallocResult = MallocResult(heap: Heap, ret: int, rec: int)

  /** The record the scan finds can be followed. */
  ghost predicate MallocSafe(h: Heap, n: int) {
    && h.Shape()
    && var p := Scan(h, n, h.mpFree.used);
       p >= 0 ==>
         var f := h.FreeRec(p);
         Followable(h.recs, f) && 0 <= h.recs[f].index < h.total
  }

  /** _em_malloc for a request of `n` units. */
  function ExecMalloc(h: Heap, n: int): MallocResult
    requires MallocSafe(h, n)
  {
    var p := Scan(h, n, h.mpFree.used);
    if p < 0 then MallocResult(h, NO_SPACE, NULL)
    else if !h.mpUsed.HasRoom() then MallocResult(h.(usedSize := h.usedSize + n), NO_RECORD, NULL)
    else MallocResult(Take(h, h.FreeRec(p), n), SUCCESS, h.mpUsed.NextId())
  }

  /** The missing statement: the segment after the new one points back to it. */
  function Relink(h: Heap, m: int): Heap
    requires InTable(h.recs, m) && InTable(h.recs, h.recs[m].next)
  {
    h.(recs := Relinked(h.recs, m))
  }

  /** The pointers em_free follows lead to records, and a record is left where it needs one. */
  ghost predicate Releasable(h: Heap, d: int) {
    && h.Shape() && 0 <= d < h.cap && Followable(h.recs, d)
    && var b, x := h.recs[d].back, h.recs[d].next;
       && (h.recs[b].used && h.recs[x].used ==> h.mpFree.HasRoom())
       && (!h.recs[b].used && !h.recs[x].used ==> h.cap <= x < 2 * h.cap && InTable(h.recs, h.recs[x].next))
  }

  ghost predicate FreeSafe(h: Heap, index: int) {
    h.Shape() && 0 <= index < h.total && Releasable(h, h.minfo[index])
  }

  /** The four merge cases of em_free. */
  function Merge(h: Heap, d: int): Heap
    requires Releasable(h, d)
  {
    var b, x := h.recs[d].back, h.recs[d].next;
    if h.recs[b].used then
      if h.recs[x].used then
        h.(recs := ReleaseIsolated(h.recs, d, h.cap + h.mpFree.NextId()), mpFree := h.mpFree.Alloc())
      else
        h.(recs := ReleaseIntoNext(h.recs, d))
    else
      if h.recs[x].used then
        h.(recs := ReleaseIntoBack(h.recs, d))
      else
        h.(recs := ReleaseIntoBoth(h.recs, d), mpFree := h.mpFree.Free(x - h.cap))
  }

  /** em_free from the record on: the record goes back to mp_used after the merge. */
  function Release(h: Heap, d: int): Heap
    requires Releasable(h, d)
  {
    var h' := Merge(h, d);
    h'.(mpUsed := h.mpUsed.Free(d), usedSize := h.usedSize - h'.recs[d].length)
  }

  /** em_free for the allocation whose first unit is `index`. */
  function ExecFree(h: Heap, index: int): Heap
    requires FreeSafe(h, index)
  {
    Release(h, h.minfo[index])
  }

  // ---------------------------------------------------------------- the invariant

  function Nat(x: int): nat { if x < 0 then 0 else x }

  function SegOf(r: MemInfo): S.Seg {
    S.Seg(Nat(r.index), Nat(r.length), r.used)
  }

  /** A walk over the records from the first sentinel to the last one, meeting no record twice. */
  ghost predicate Walk(cap: nat, c: seq<int>) {
    && |c| > 2 && c[0] == 2 * cap && c[|c| - 1] == 2 * cap + 1
    && (forall i | 0 < i < |c| - 1 :: 0 <= c[i] < 2 * cap)
    && (forall i, j | 0 <= i < j < |c| :: c[i] != c[j])
  }

  ghost predicate Covers(recs: seq<MemInfo>, c: seq<int>) {
    forall i | 0 <= i < |c| :: 0 <= c[i] < |recs|
  }

  ghost predicate NextLinked(recs: seq<MemInfo>, c: seq<int>) {
    Covers(recs, c) && forall i, j | 0 <= i && j == i + 1 && j < |c| :: recs[c[i]].next == c[j]
  }

  /** Record `r`, which follows `b`, points back to `b`, or both are used and it points to a free record instead. */
  predicate BackOk(cap: nat, recs: seq<MemInfo>, b: int, r: int)
    requires InTable(recs, b) && InTable(recs, r)
  {
    || recs[r].back == b
    || (recs[b].used && recs[r].used && cap <= recs[r].back < 2 * cap <= |recs| && !recs[recs[r].back].used)
  }

  /** The back links of all segments. The code never reads the last sentinel's. */
  ghost predicate BackLinked(cap: nat, recs: seq<MemInfo>, c: seq<int>) {
    Covers(recs, c) && forall i, j | 0 <= i && j == i + 1 && j < |c| - 1 :: BackOk(cap, recs, c[i], c[j])
  }

  /** A segment other than the one at place `hole` starts at unit `u` and does not point back to its predecessor. */
  ghost predicate StaleBut(recs: seq<MemInfo>, c: seq<int>, hole: int, u: int) {
    && Covers(recs, c)
    && exists i, j :: 0 <= i && j == i + 1 && j < |c| - 1 && j != hole
                      && recs[c[j]].index == u && recs[c[j]].back != c[i]
  }

  ghost predicate StaleAt(recs: seq<MemInfo>, c: seq<int>, u: int) {
    StaleBut(recs, c, 0, u)
  }

  ghost predicate Linked(cap: nat, recs: seq<MemInfo>, c: seq<int>) {
    Walk(cap, c) && NextLinked(recs, c) && BackLinked(cap, recs, c)
  }

  /** The sentinels count as used, and a segment's record is in the pool that its state calls for. */
  ghost predicate Kinds(cap: nat, recs: seq<MemInfo>, c: seq<int>) {
    && |recs| == 2 * cap + 2 && Covers(recs, c)
    && recs[2 * cap].used && recs[2 * cap + 1].used
    && (forall i | 0 < i < |c| - 1 :: recs[c[i]].used <==> c[i] < cap)
    && (forall i | 0 < i < |c| - 1 :: recs[c[i]].index >= 0 && recs[c[i]].length > 0)
  }

  /** The segments on the walk are exactly the live blocks of the two pools. */
  ghost predicate Inhabited(h: Heap, c: seq<int>) {
    forall r | 0 <= r < 2 * h.cap :: h.Live(r) <==> r in c
  }

  /** minfo_ptr finds every allocation by its first unit. */
  ghost predicate Indexed(recs: seq<MemInfo>, minfo: seq<int>, c: seq<int>) {
    Covers(recs, c) && forall i | 0 < i < |c| - 1 && recs[c[i]].used ::
      0 <= recs[c[i]].index < |minfo| && minfo[recs[c[i]].index] == c[i]
  }

  /** The segment list the records stand for. */
  function Segs(recs: seq<MemInfo>, c: seq<int>): (s: seq<S.Seg>)
    requires |c| > 2 && forall i | 0 <= i < |c| :: 0 <= c[i] < |recs|
    ensures |s| == |c| - 2
    ensures forall i | 0 <= i < |s| :: s[i] == SegOf(recs[c[i + 1]])
  {
    seq(|c| - 2, i requires 0 <= i < |c| - 2 => SegOf(recs[c[i + 1]]))
  }

  ghost predicate Tallied(h: Heap, segs: seq<S.Seg>) {
    && S.Wf(segs, h.total)
    && S.Sum(segs, S.UsedOne) == h.mpUsed.used
    && S.Sum(segs, S.FreeOne) == h.mpFree.used
  }

  /** Everything but the back links. */
  ghost predicate Core(h: Heap, c: seq<int>) {
    && h.Shape()
    && Walk(h.cap, c)
    && NextLinked(h.recs, c)
    && Kinds(h.cap, h.recs, c)
    && Inhabited(h, c)
    && Indexed(h.recs, h.minfo, c)
    && Tallied(h, Segs(h.recs, c))
  }

  /**
    What every call keeps as long as em_free reads right back links. A back link
    may be stale, but only between two used segments, where no request reads it.
   */
  ghost predicate Inv(h: Heap, c: seq<int>) {
    Core(h, c) && BackLinked(h.cap, h.recs, c)
  }

  lemma {:induction false} SameStep(h: Heap, c: seq<int>, e: seq<int>, k: nat)
    requires Walk(h.cap, c) && NextLinked(h.recs, c)
    requires Walk(h.cap, e) && NextLinked(h.recs, e)
    requires k < |c|
    ensures k < |e| && c[k] == e[k]
  {
    if k > 0 {
      SameStep(h, c, e, k - 1);
      assert h.recs[c[k - 1]].next == c[k];
      assert e[k - 1] != 2 * h.cap + 1;
      assert h.recs[e[k - 1]].next == e[k];
    }
  }

  /** The walk is determined by the records. */
  lemma WalkUnique(h: Heap, c: seq<int>, e: seq<int>)
    requires Walk(h.cap, c) && NextLinked(h.recs, c)
    requires Walk(h.cap, e) && NextLinked(h.recs, e)
    ensures c == e
  {
    SameStep(h, c, e, |c| - 1);
    SameStep(h, e, c, |e| - 1);
    forall k | 0 <= k < |c|
      ensures c[k] == e[k]
    {
      SameStep(h, c, e, k);
    }
  }

  // ---------------------------------------------------------------- changing a walk

  /** The walk with the stretch `lo..hi` replaced. */
  function Rewalk(c: seq<int>, lo: nat, hi: nat, mid: seq<int>): seq<int>
    requires lo <= hi <= |c|
  {
    c[..lo] + mid + c[hi..]
  }

  /** A stretch strictly between the sentinels, replaced by at most one record that is not on the walk. */
  ghost predicate Cut(c: seq<int>, lo: nat, hi: nat, mid: seq<int>) {
    && 0 < lo <= hi < |c| && |mid| <= 1
    && |c| - (hi - lo) + |mid| > 2
    && (forall i | 0 <= i < |mid| :: mid[i] !in c)
  }

  lemma RewalkAt(c: seq<int>, lo: nat, hi: nat, mid: seq<int>)
    requires Cut(c, lo, hi, mid)
    ensures var c' := Rewalk(c, lo, hi, mid);
            && |c'| == |c| - (hi - lo) + |mid|
            && (forall i | 0 <= i < lo :: c'[i] == c[i])
            && (forall i | lo <= i < lo + |mid| :: c'[i] == mid[i - lo])
            && (forall i | lo + |mid| <= i < |c'| :: c'[i] == c[i - lo - |mid| + hi])
  {
  }

  lemma RewalkIsWalk(cap: nat, c: seq<int>, lo: nat, hi: nat, mid: seq<int>)
    requires Walk(cap, c) && Cut(c, lo, hi, mid)
    requires forall i | 0 <= i < |mid| :: 0 <= mid[i] < 2 * cap
    ensures Walk(cap, Rewalk(c, lo, hi, mid))
  {
    RewalkAt(c, lo, hi, mid);
  }

  lemma RewalkMembers(c: seq<int>, lo: nat, hi: nat, mid: seq<int>, r: int)
    requires Cut(c, lo, hi, mid)
    requires forall i, j | 0 <= i < j < |c| :: c[i] != c[j]
    ensures r in Rewalk(c, lo, hi, mid) <==> (r in c && r !in c[lo..hi]) || r in mid
  {
    assert c == c[..lo] + c[lo..hi] + c[hi..];
  }

  /** Which links of the kept records must be as before, and which must bridge the cut. */
  lemma RewalkNext(recs: seq<MemInfo>, recs': seq<MemInfo>, c: seq<int>, lo: nat, hi: nat, mid: seq<int>)
    requires NextLinked(recs, c) && Cut(c, lo, hi, mid)
    requires |recs'| == |recs| && forall i | 0 <= i < |mid| :: 0 <= mid[i] < |recs|
    requires forall i | 0 <= i < |c| && (i < lo - 1 || hi <= i) :: recs'[c[i]].next == recs[c[i]].next
    requires recs'[c[lo - 1]].next == if mid == [] then c[hi] else mid[0]
    requires mid != [] ==> recs'[mid[0]].next == c[hi]
    ensures NextLinked(recs', Rewalk(c, lo, hi, mid))
  {
    RewalkAt(c, lo, hi, mid);
  }

  /** What a change must keep so that the back links away from the cut stay as good as they were. */
  ghost predicate KeepsBack(cap: nat, recs: seq<MemInfo>, recs': seq<MemInfo>, c: seq<int>, lo: nat, hi: nat) {
    && Covers(recs, c) && |recs'| == |recs|
    && (forall i | 0 <= i < |c| && (i < lo || hi <= i) :: recs'[c[i]].used == recs[c[i]].used)
    && (forall i | 0 < i < |c| - 1 && (i < lo || hi < i) ::
          recs'[c[i]].back == recs[c[i]].back && recs'[c[i]].index == recs[c[i]].index)
    && (forall f | cap <= f < 2 * cap && f < |recs| && !recs[f].used :: !recs'[f].used)
  }

  lemma RewalkBack(cap: nat, recs: seq<MemInfo>, recs': seq<MemInfo>, c: seq<int>, lo: nat, hi: nat, mid: seq<int>)
    requires BackLinked(cap, recs, c) && Cut(c, lo, hi, mid) && KeepsBack(cap, recs, recs', c, lo, hi)
    requires forall i | 0 <= i < |mid| :: 0 <= mid[i] < |recs|
    requires hi < |c| - 1 ==> BackOk(cap, recs', if mid == [] then c[lo - 1] else mid[0], c[hi])
    requires mid != [] ==> recs'[mid[0]].back == c[lo - 1]
    ensures BackLinked(cap, recs', Rewalk(c, lo, hi, mid))
  {
    RewalkAt(c, lo, hi, mid);
    var c' := Rewalk(c, lo, hi, mid);
    forall i, j | 0 <= i && j == i + 1 && j < |c'| - 1
      ensures BackOk(cap, recs', c'[i], c'[j])
    {
      if j < lo {
        assert BackOk(cap, recs, c[i], c[j]);
      } else if j > lo + |mid| {
        assert BackOk(cap, recs, c[i - lo - |mid| + hi], c[j - lo - |mid| + hi]);
      }
    }
  }

  /** The record at the end of the cut starts at `u` and does not point back to the one now before it. */
  ghost predicate StaleEnd(recs: seq<MemInfo>, c: seq<int>, lo: nat, hi: nat, mid: seq<int>, u: int)
    requires 0 < lo <= hi <= |c| && Covers(recs, c)
  {
    && hi < |c| - 1 && recs[c[hi]].index == u
    && recs[c[hi]].back != if mid == [] then c[lo - 1] else mid[0]
  }

  lemma RewalkStaleOnly(cap: nat, recs: seq<MemInfo>, recs': seq<MemInfo>, c: seq<int>, lo: nat, hi: nat,
                        mid: seq<int>, u: int)
    requires Cut(c, lo, hi, mid) && KeepsBack(cap, recs, recs', c, lo, hi)
    requires forall i | 0 <= i < |mid| :: 0 <= mid[i] < |recs|
    requires mid != [] ==> recs'[mid[0]].back == c[lo - 1]
    requires StaleAt(recs', Rewalk(c, lo, hi, mid), u)
    ensures StaleBut(recs, c, hi, u) || StaleEnd(recs', c, lo, hi, mid, u)
  {
    RewalkAt(c, lo, hi, mid);
    var c', shift := Rewalk(c, lo, hi, mid), |mid| + lo - hi;
    var i, j :| 0 <= i && j == i + 1 && j < |c'| - 1 && j != 0 && recs'[c'[j]].index == u && recs'[c'[j]].back != c'[i];
    hide Rewalk;
    if j < lo {
      assert recs[c[j]].index == u && recs[c[j]].back != c[i];
    } else if j > lo + |mid| {
      assert recs[c[j - shift]].index == u && recs[c[j - shift]].back != c[i - shift];
    }
  }

  lemma RewalkStaleStays(cap: nat, recs: seq<MemInfo>, recs': seq<MemInfo>, c: seq<int>, lo: nat, hi: nat,
                         mid: seq<int>, u: int)
    requires Cut(c, lo, hi, mid) && KeepsBack(cap, recs, recs', c, lo, hi)
    requires forall i | 0 <= i < |mid| :: 0 <= mid[i] < |recs|
    requires forall i, j | lo - 1 <= i && j == i + 1 && j < hi :: recs[c[j]].back == c[i]
    requires StaleBut(recs, c, hi, u) || StaleEnd(recs', c, lo, hi, mid, u)
    ensures StaleAt(recs', Rewalk(c, lo, hi, mid), u)
  {
    RewalkAt(c, lo, hi, mid);
    var c', shift := Rewalk(c, lo, hi, mid), |mid| + lo - hi;
    hide Rewalk;
    assert Covers(recs', c');
    if StaleEnd(recs', c, lo, hi, mid, u) {
      var i, j := lo + |mid| - 1, lo + |mid|;
      assert c'[j] == c[hi] && c'[i] == if mid == [] then c[lo - 1] else mid[0];
    } else {
      var i, j :| 0 <= i && j == i + 1 && j < |c| - 1 && j != hi && recs[c[j]].index == u && recs[c[j]].back != c[i];
      if j < lo {
        assert recs'[c'[j]].index == u && recs'[c'[j]].back != c'[i];
      } else {
        assert recs'[c'[j + shift]].index == u && recs'[c'[j + shift]].back != c'[i + shift];
      }
    }
  }

  /** The stale back links after a change: those away from the cut, and perhaps one at its end. */
  lemma RewalkStale(cap: nat, recs: seq<MemInfo>, recs': seq<MemInfo>, c: seq<int>, lo: nat, hi: nat, mid: seq<int>,
                    u: int)
    requires Cut(c, lo, hi, mid) && KeepsBack(cap, recs, recs', c, lo, hi)
    requires forall i | 0 <= i < |mid| :: 0 <= mid[i] < |recs|
    requires forall i, j | lo - 1 <= i && j == i + 1 && j < hi :: recs[c[j]].back == c[i]
    requires mid != [] ==> recs'[mid[0]].back == c[lo - 1]
    ensures StaleAt(recs', Rewalk(c, lo, hi, mid), u) <==>
            StaleBut(recs, c, hi, u) || StaleEnd(recs', c, lo, hi, mid, u)
  {
    hide StaleBut;
    hide StaleEnd;
    hide StaleAt;
    hide Rewalk;
    if StaleAt(recs', Rewalk(c, lo, hi, mid), u) {
      RewalkStaleOnly(cap, recs, recs', c, lo, hi, mid, u);
    } else if StaleBut(recs, c, hi, u) || StaleEnd(recs', c, lo, hi, mid, u) {
      RewalkStaleStays(cap, recs, recs', c, lo, hi, mid, u);
    }
  }

  /** A change that links up the cut in both directions. */
  ghost predicate Bridges(recs: seq<MemInfo>, recs': seq<MemInfo>, c: seq<int>, lo: nat, hi: nat, mid: seq<int>) {
    && 0 < lo <= hi < |c| && |mid| <= 1 && Covers(recs, c) && |recs'| == |recs|
    && (forall i | 0 <= i < |mid| :: 0 <= mid[i] < |recs|)
    && (forall i | 0 <= i < |c| && (i < lo - 1 || hi <= i) :: recs'[c[i]].next == recs[c[i]].next)
    && (forall i, j | lo - 1 <= i && j == i + 1 && j < hi :: recs[c[j]].back == c[i])
    && recs'[c[lo - 1]].next == (if mid == [] then c[hi] else mid[0])
    && (hi < |c| - 1 ==> recs'[c[hi]].back == if mid == [] then c[lo - 1] else mid[0])
    && (mid != [] ==> recs'[mid[0]].next == c[hi] && recs'[mid[0]].back == c[lo - 1])
  }

  /** After such a change the links are as good as before, and the back link at the end of the cut is right. */
  lemma RewalkLinked(cap: nat, recs: seq<MemInfo>, recs': seq<MemInfo>, c: seq<int>, lo: nat, hi: nat, mid: seq<int>,
                     u: int)
    requires Linked(cap, recs, c) && Cut(c, lo, hi, mid) && forall i | 0 <= i < |mid| :: 0 <= mid[i] < 2 * cap
    requires KeepsBack(cap, recs, recs', c, lo, hi) && Bridges(recs, recs', c, lo, hi, mid)
    ensures var c' := Rewalk(c, lo, hi, mid);
            && Linked(cap, recs', c')
            && (StaleAt(recs', c', u) <==> StaleBut(recs, c, hi, u))
  {
    hide Rewalk;
    hide Walk;
    hide StaleBut;
    hide StaleAt;
    RewalkIsWalk(cap, c, lo, hi, mid);
    RewalkNext(recs, recs', c, lo, hi, mid);
    RewalkBack(cap, recs, recs', c, lo, hi, mid);
    RewalkStale(cap, recs, recs', c, lo, hi, mid, u);
  }

  lemma RewalkKinds(cap: nat, recs: seq<MemInfo>, recs': seq<MemInfo>, c: seq<int>, lo: nat, hi: nat, mid: seq<int>)
    requires Kinds(cap, recs, c) && Cut(c, lo, hi, mid)
    requires |recs'| == |recs| && forall i | 0 <= i < |mid| :: 0 <= mid[i] < |recs|
    requires recs'[2 * cap].used && recs'[2 * cap + 1].used
    requires forall i | 0 < i < |c| - 1 && (i < lo || hi <= i) ::
        recs'[c[i]].used == recs[c[i]].used && recs'[c[i]].index >= 0 && recs'[c[i]].length > 0
    requires mid != [] ==>
        var r := recs'[mid[0]]; (r.used <==> mid[0] < cap) && r.index >= 0 && r.length > 0
    ensures Kinds(cap, recs', Rewalk(c, lo, hi, mid))
  {
    RewalkAt(c, lo, hi, mid);
  }

  lemma RewalkIndexed(recs: seq<MemInfo>, recs': seq<MemInfo>, minfo: seq<int>, minfo': seq<int>,
                      c: seq<int>, lo: nat, hi: nat, mid: seq<int>)
    requires Indexed(recs, minfo, c) && Cut(c, lo, hi, mid)
    requires |recs'| == |recs| && |minfo'| == |minfo| && forall i | 0 <= i < |mid| :: 0 <= mid[i] < |recs|
    requires forall i | 0 < i < |c| - 1 && (i < lo || hi <= i) && recs'[c[i]].used ::
        var x := recs[c[i]].index;
        recs[c[i]].used && recs'[c[i]].index == x && (0 <= x < |minfo| ==> minfo'[x] == minfo[x])
    requires mid != [] && recs'[mid[0]].used ==>
        var x := recs'[mid[0]].index; 0 <= x < |minfo'| && minfo'[x] == mid[0]
    ensures Indexed(recs', minfo', Rewalk(c, lo, hi, mid))
  {
    RewalkAt(c, lo, hi, mid);
  }

  /** The pools follow the walk when they give up its cut-out records and hand out the new one. */
  lemma RewalkInhabited(h: Heap, h': Heap, c: seq<int>, lo: nat, hi: nat, mid: seq<int>)
    requires Walk(h.cap, c) && Inhabited(h, c) && Cut(c, lo, hi, mid) && h'.cap == h.cap
    requires forall r | 0 <= r < 2 * h.cap :: h'.Live(r) <==> (h.Live(r) && r !in c[lo..hi]) || r in mid
    ensures Inhabited(h', Rewalk(c, lo, hi, mid))
  {
    forall r | 0 <= r < 2 * h.cap
      ensures h'.Live(r) <==> r in Rewalk(c, lo, hi, mid)
    {
      RewalkMembers(c, lo, hi, mid, r);
    }
  }

  /** A change of the walk and its records, read as a splice of the segment list. */
  lemma SegsSpliced(recs: seq<MemInfo>, recs': seq<MemInfo>, c: seq<int>, c': seq<int>,
                    lo: nat, hi: nat, mid: seq<S.Seg>)
    requires |c| > 2 && Covers(recs, c) && |c'| > 2 && Covers(recs', c')
    requires lo < hi <= |c| - 2 && |c'| == |c| - (hi - lo) + |mid|
    requires forall i | 0 < i <= lo :: SegOf(recs'[c'[i]]) == SegOf(recs[c[i]])
    requires forall i | 0 <= i < |mid| :: SegOf(recs'[c'[lo + 1 + i]]) == mid[i]
    requires forall i | lo + |mid| < i < |c'| - 1 :: SegOf(recs'[c'[i]]) == SegOf(recs[c[i - lo - |mid| + hi]])
    ensures Segs(recs', c') == S.Splice(Segs(recs, c), lo, hi, mid)
  {
    S.SpliceParts(Segs(recs, c), lo, hi, mid);
  }

  /** Segment `k` of the walk between its neighbours. */
  ghost predicate At(recs: seq<MemInfo>, c: seq<int>, k: nat) {
    && 0 < k < |c| - 1 && Covers(recs, c)
    && recs[c[k]].back == c[k - 1] && recs[c[k]].next == c[k + 1]
  }

  /** Next to a free segment back links are right. */
  lemma AtSegment(cap: nat, recs: seq<MemInfo>, c: seq<int>, k: nat)
    requires NextLinked(recs, c) && BackLinked(cap, recs, c) && 0 < k < |c| - 1
    ensures recs[c[k]].next == c[k + 1]
    ensures !recs[c[k]].used || !recs[c[k - 1]].used || recs[c[k]].back == c[k - 1] ==> At(recs, c, k)
  {
    assert recs[c[k]].next == c[k + 1] && BackOk(cap, recs, c[k - 1], c[k]);
  }

  lemma NewRecordIsOutside(h: Heap, c: seq<int>)
    requires h.Shape() && Walk(h.cap, c) && Inhabited(h, c)
    ensures h.mpUsed.HasRoom() ==> h.mpUsed.NextId() < h.cap && h.mpUsed.NextId() !in c
    ensures h.mpFree.HasRoom() ==> h.mpFree.NextId() < h.cap && h.cap + h.mpFree.NextId() !in c
  {
    if h.mpUsed.HasRoom() {
      assert h.mpUsed.pos[h.mpUsed.NextId()] == h.mpUsed.used;
      assert !h.Live(h.mpUsed.NextId());
    }
    if h.mpFree.HasRoom() {
      assert h.mpFree.pos[h.mpFree.NextId()] == h.mpFree.used;
      assert !h.Live(h.cap + h.mpFree.NextId());
    }
  }
}
