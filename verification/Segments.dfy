/**
  The arena as its owner sees it: the address-ordered list of segments that the
  record list of em_malloc.c stands for. Splitting (malloc) and coalescing
  (free) are functions on this list. Who owns which unit is a separate,
  independent reading of it, and the two are tied together here.
 */
module Segments {
  import opened Basics

  /** A run of units: its first unit, its length, and whether it is allocated. */
  datatype Seg = Seg(start: nat, len: nat, used: bool) {
    function End(): nat { start + len }
    predicate Fits(n: nat) { !used && n <= len }
  }

  /** Positive segments that follow each other without gap or overlap from unit 0 to `total`. */
  ghost predicate Tiled(segs: seq<Seg>, total: nat) {
    && |segs| > 0
    && segs[0].start == 0
    && segs[|segs| - 1].End() == total
    && (forall i | 0 <= i < |segs| :: segs[i].len > 0)
    && (forall i, j | 0 <= i && j == i + 1 && j < |segs| :: segs[i].End() == segs[j].start)
  }

  /** No two neighbours are both free. */
  ghost predicate Coalesced(segs: seq<Seg>) {
    forall i, j | 0 <= i && j == i + 1 && j < |segs| :: segs[i].used || segs[j].used
  }

  ghost predicate Wf(segs: seq<Seg>, total: nat) {
    Tiled(segs, total) && Coalesced(segs)
  }

  /** A new arena is one free segment. */
  function Fresh(total: nat): seq<Seg> {
    [Seg(0, total, false)]
  }

  // ---------------------------------------------------------------- the two operations

  /** Replaces the stretch `lo..hi` of the list. */
  function Splice(segs: seq<Seg>, lo: nat, hi: nat, mid: seq<Seg>): seq<Seg>
    requires lo <= hi <= |segs|
  {
    segs[..lo] + mid + segs[hi..]
  }

  /** Takes the first `n` units of free segment `i`; the rest of it, if any, stays free. */
  function Malloc(segs: seq<Seg>, i: nat, n: nat): seq<Seg>
    requires i < |segs| && segs[i].Fits(n)
  {
    Splice(segs, i, i + 1, Taken(segs[i], n))
  }

  function Taken(s: Seg, n: nat): seq<Seg>
    requires n <= s.len
  {
    if s.len == n then [Seg(s.start, n, true)]
    else [Seg(s.start, n, true), Seg(s.start + n, s.len - n, false)]
  }

  /** First and one-past-last segment that the release of segment `i` joins together. */
  function JoinLo(segs: seq<Seg>, i: nat): (lo: nat)
    requires i < |segs|
    ensures lo <= i
  {
    if i > 0 && !segs[i - 1].used then i - 1 else i
  }

  function JoinHi(segs: seq<Seg>, i: nat): (hi: nat)
    requires i < |segs|
    ensures i < hi <= |segs|
  {
    if i + 1 < |segs| && !segs[i + 1].used then i + 2 else i + 1
  }

  function JoinLen(segs: seq<Seg>, i: nat): nat
    requires i < |segs|
  {
    (if i > 0 && !segs[i - 1].used then segs[i - 1].len else 0)
    + segs[i].len
    + (if i + 1 < |segs| && !segs[i + 1].used then segs[i + 1].len else 0)
  }

  /** Releases segment `i`, joining it with its free neighbours. */
  function Free(segs: seq<Seg>, i: nat): seq<Seg>
    requires i < |segs|
  {
    var lo, hi := JoinLo(segs, i), JoinHi(segs, i);
    Splice(segs, lo, hi, [Seg(segs[lo].start, JoinLen(segs, i), false)])
  }

  lemma SpliceParts(segs: seq<Seg>, lo: nat, hi: nat, mid: seq<Seg>)
    requires lo <= hi <= |segs|
    ensures var after := Splice(segs, lo, hi, mid);
            && |after| == |segs| - hi + lo + |mid|
            && (forall k | 0 <= k < lo :: after[k] == segs[k])
            && (forall k | lo <= k < lo + |mid| :: after[k] == mid[k - lo])
            && (forall k | lo + |mid| <= k < |after| :: after[k] == segs[k - lo - |mid| + hi])
  {
  }

  /** A stretch may be replaced by segments that tile the same units and keep free neighbours apart. */
  lemma SpliceWf(segs: seq<Seg>, total: nat, lo: nat, hi: nat, mid: seq<Seg>)
    requires Wf(segs, total) && lo < hi <= |segs| && |mid| > 0
    requires mid[0].start == segs[lo].start && mid[|mid| - 1].End() == segs[hi - 1].End()
    requires forall i | 0 <= i < |mid| :: mid[i].len > 0
    requires forall i, j | 0 <= i && j == i + 1 && j < |mid| :: mid[i].End() == mid[j].start
    requires Coalesced(mid)
    requires lo > 0 ==> segs[lo - 1].used || mid[0].used
    requires hi < |segs| ==> mid[|mid| - 1].used || segs[hi].used
    ensures Wf(Splice(segs, lo, hi, mid), total)
  {
    var after := Splice(segs, lo, hi, mid);
    SpliceParts(segs, lo, hi, mid);
    forall i, j | 0 <= i && j == i + 1 && j < |after|
      ensures after[i].End() == after[j].start && (after[i].used || after[j].used)
    {
      if j < lo {
        assert segs[i].End() == segs[j].start;
      } else if j == lo {
        assert segs[i].End() == segs[j].start;
      } else if j < lo + |mid| {
        assert mid[i - lo].End() == mid[j - lo].start;
      } else if j == lo + |mid| {
        assert segs[hi - 1].End() == segs[hi].start;
      } else {
        assert segs[i - lo - |mid| + hi].End() == segs[j - lo - |mid| + hi].start;
      }
    }
  }

  lemma MallocWf(segs: seq<Seg>, total: nat, i: nat, n: nat)
    requires Wf(segs, total) && i < |segs| && segs[i].Fits(n) && n > 0
    ensures Wf(Malloc(segs, i, n), total)
  {
    SpliceWf(segs, total, i, i + 1, Taken(segs[i], n));
  }

  lemma FreeWf(segs: seq<Seg>, total: nat, i: nat)
    requires Wf(segs, total) && i < |segs| && segs[i].used
    ensures Wf(Free(segs, i), total)
  {
    var lo, hi := JoinLo(segs, i), JoinHi(segs, i);
    SpliceWf(segs, total, lo, hi, [Seg(segs[lo].start, JoinLen(segs, i), false)]);
  }

  // ---------------------------------------------------------------- ownership

  lemma {:induction false} Ordered(segs: seq<Seg>, total: nat, i: nat, j: nat)
    requires Tiled(segs, total) && i < j < |segs|
    ensures segs[i].End() <= segs[j].start
  {
    if i + 1 < j {
      Ordered(segs, total, i, j - 1);
      assert segs[j - 1].End() == segs[j].start;
    }
  }

  lemma Inside(segs: seq<Seg>, total: nat, i: nat)
    requires Tiled(segs, total) && i < |segs|
    ensures segs[i].End() <= total
  {
    if i < |segs| - 1 {
      Ordered(segs, total, i, |segs| - 1);
    }
  }

  function LocateFrom(segs: seq<Seg>, total: nat, u: nat, i: nat): (k: nat)
    requires Tiled(segs, total) && i < |segs| && segs[i].start <= u < total
    ensures k < |segs| && segs[k].start <= u < segs[k].End()
    decreases |segs| - i
  {
    if u < segs[i].End() then i
    else
      assert i + 1 < |segs| && segs[i].End() == segs[i + 1].start;
      LocateFrom(segs, total, u, i + 1)
  }

  /** The segment that contains unit `u`. */
  function Locate(segs: seq<Seg>, total: nat, u: nat): (k: nat)
    requires Tiled(segs, total) && u < total
    ensures k < |segs| && segs[k].start <= u < segs[k].End()
  {
    LocateFrom(segs, total, u, 0)
  }

  lemma LocateUnique(segs: seq<Seg>, total: nat, u: nat, i: nat)
    requires Tiled(segs, total) && i < |segs| && segs[i].start <= u < segs[i].End()
    ensures u < total && Locate(segs, total, u) == i
  {
    Inside(segs, total, i);
    var k := Locate(segs, total, u);
    if k < i {
      Ordered(segs, total, k, i);
    } else if i < k {
      Ordered(segs, total, i, k);
    }
  }

  /** The allocation (named by its first unit) that unit `u` belongs to, or none. */
  function Owner(segs: seq<Seg>, total: nat, u: nat): Option<nat>
    requires Tiled(segs, total) && u < total
  {
    var s := segs[Locate(segs, total, u)];
    if s.used then Some(s.start) else None
  }

  lemma OwnerIn(segs: seq<Seg>, total: nat, u: nat, i: nat)
    requires Tiled(segs, total) && i < |segs| && segs[i].start <= u < segs[i].End()
    ensures u < total
    ensures Owner(segs, total, u) == if segs[i].used then Some(segs[i].start) else None
  {
    LocateUnique(segs, total, u, i);
  }

  /** Malloc takes exactly the units it returns, all of them unowned before. */
  lemma MallocOwner(segs: seq<Seg>, total: nat, i: nat, n: nat, u: nat)
    requires Wf(segs, total) && i < |segs| && segs[i].Fits(n) && n > 0 && u < total
    ensures Wf(Malloc(segs, i, n), total)
    ensures var s := segs[i].start;
            if s <= u < s + n
            then Owner(segs, total, u) == None && Owner(Malloc(segs, i, n), total, u) == Some(s)
            else Owner(Malloc(segs, i, n), total, u) == Owner(segs, total, u)
  {
    MallocWf(segs, total, i, n);
    var after := Malloc(segs, i, n);
    var k := Locate(segs, total, u);
    var k' :=
      if k < i || segs[i].len == n then k
      else if k == i && u < segs[i].start + n then i
      else k + 1;
    assert segs[k].start <= u < segs[k].End();
    if k < i {
      Ordered(segs, total, k, i);
    } else if i < k {
      Ordered(segs, total, i, k);
      assert segs[i].len != n ==> after[k'] == segs[k];
    }
    OwnerIn(after, total, u, k');
  }

  /** Free gives up exactly the units of the released segment. */
  lemma FreeOwner(segs: seq<Seg>, total: nat, i: nat, u: nat)
    requires Wf(segs, total) && i < |segs| && segs[i].used && u < total
    ensures Wf(Free(segs, i), total)
    ensures if segs[i].start <= u < segs[i].End()
            then Owner(segs, total, u) == Some(segs[i].start) && Owner(Free(segs, i), total, u) == None
            else Owner(Free(segs, i), total, u) == Owner(segs, total, u)
  {
    FreeWf(segs, total, i);
    var lo, hi := JoinLo(segs, i), JoinHi(segs, i);
    var after := Free(segs, i);
    var k := Locate(segs, total, u);
    assert segs[k].start <= u < segs[k].End();
    if k < lo {
      assert after[k] == segs[k];
      OwnerIn(after, total, u, k);
      Ordered(segs, total, k, i);
    } else if k < hi {
      assert after[lo].start <= u < after[lo].End();
      OwnerIn(after, total, u, lo);
      if segs[i].start <= u < segs[i].End() {
        OwnerIn(segs, total, u, i);
      }
    } else {
      assert after[k + lo + 1 - hi] == segs[k];
      OwnerIn(after, total, u, k + lo + 1 - hi);
      Ordered(segs, total, i, k);
    }
  }

  /** Two live allocations share no unit and every allocation lies inside the arena. */
  lemma AllocationsDisjoint(segs: seq<Seg>, total: nat, i: nat, j: nat, u: nat)
    requires Wf(segs, total) && i < |segs| && j < |segs| && i != j
    requires segs[i].start <= u < segs[i].End()
    ensures u < total && !(segs[j].start <= u < segs[j].End())
    ensures segs[i].start != segs[j].start
  {
    Inside(segs, total, i);
    if i < j {
      Ordered(segs, total, i, j);
    } else {
      Ordered(segs, total, j, i);
    }
  }

  // ---------------------------------------------------------------- canonical form

  ghost predicate SameOwners(a: seq<Seg>, b: seq<Seg>, total: nat)
    requires Tiled(a, total) && Tiled(b, total)
  {
    forall u: nat | u < total :: Owner(a, total, u) == Owner(b, total, u)
  }

  /** One step of the comparison below: equal starts and equal owners force equal segments. */
  lemma SameSegment(a: seq<Seg>, b: seq<Seg>, total: nat, k: nat)
    requires Wf(a, total) && Wf(b, total) && SameOwners(a, b, total)
    requires k < |a| && k < |b| && a[k].start == b[k].start
    ensures a[k].used == b[k].used && a[k].len >= b[k].len
  {
    var x := a[k].start;
    OwnerIn(a, total, x, k);
    OwnerIn(b, total, x, k);
    if a[k].len < b[k].len {
      var y := a[k].End();
      OwnerIn(b, total, y, k);
      assert k + 1 < |a| && a[k + 1].start == y;
      OwnerIn(a, total, y, k + 1);
    }
  }

  lemma {:induction false} SamePrefix(a: seq<Seg>, b: seq<Seg>, total: nat, k: nat)
    requires Wf(a, total) && Wf(b, total) && SameOwners(a, b, total)
    requires k <= |a|
    ensures k <= |b| && a[..k] == b[..k]
  {
    if k > 0 {
      SamePrefix(a, b, total, k - 1);
      if k > 1 {
        assert a[k - 2] == a[..k - 1][k - 2] == b[k - 2];
        Inside(a, total, k - 1);
        assert a[k - 2].End() == a[k - 1].start;
        assert k - 1 < |b|;
        assert b[k - 2].End() == b[k - 1].start;
      }
      SameSegment(a, b, total, k - 1);
      SameSegment(b, a, total, k - 1);
      assert a[..k] == a[..k - 1] + [a[k - 1]];
      assert b[..k] == b[..k - 1] + [b[k - 1]];
    }
  }

  /** The segment list, free part included, is determined by who owns which unit. */
  lemma Canonical(a: seq<Seg>, b: seq<Seg>, total: nat)
    requires Wf(a, total) && Wf(b, total) && SameOwners(a, b, total)
    ensures a == b
  {
    SamePrefix(a, b, total, |a|);
    SamePrefix(b, a, total, |b|);
  }

  /** Malloc followed by free of its result restores the segments. */
  lemma MallocThenFree(segs: seq<Seg>, total: nat, i: nat, n: nat)
    requires Wf(segs, total) && i < |segs| && segs[i].Fits(n) && n > 0
    ensures Free(Malloc(segs, i, n), i) == segs
  {
    var mid := Malloc(segs, i, n);
    MallocWf(segs, total, i, n);
    FreeWf(mid, total, i);
    forall u: nat | u < total
      ensures Owner(Free(mid, i), total, u) == Owner(segs, total, u)
    {
      MallocOwner(segs, total, i, n, u);
      FreeOwner(mid, total, i, u);
    }
    Canonical(Free(mid, i), segs, total);
  }

  // ---------------------------------------------------------------- freeing everything

  /** The live allocations, each named by its first unit. */
  ghost function Starts(segs: seq<Seg>, total: nat): set<nat>
    requires Tiled(segs, total)
  {
    set u: nat | u < total && Owner(segs, total, u) == Some(u)
  }

  lemma StartsAreUsedSegments(segs: seq<Seg>, total: nat, s: nat)
    requires Tiled(segs, total)
    ensures s in Starts(segs, total) <==> exists i: nat :: i < |segs| && segs[i].used && segs[i].start == s
  {
    if s in Starts(segs, total) {
      var i := Locate(segs, total, s);
      assert segs[i].used && segs[i].start == s;
    }
    if i: nat :| i < |segs| && segs[i].used && segs[i].start == s {
      OwnerIn(segs, total, s, i);
    }
  }

  lemma FreeStarts(segs: seq<Seg>, total: nat, i: nat)
    requires Wf(segs, total) && i < |segs| && segs[i].used
    ensures Wf(Free(segs, i), total)
    ensures Starts(Free(segs, i), total) == Starts(segs, total) - {segs[i].start}
  {
    FreeWf(segs, total, i);
    forall u: nat | u < total
      ensures u in Starts(Free(segs, i), total) <==> u in Starts(segs, total) && u != segs[i].start
    {
      FreeOwner(segs, total, i, u);
    }
  }

  lemma MallocStarts(segs: seq<Seg>, total: nat, i: nat, n: nat)
    requires Wf(segs, total) && i < |segs| && segs[i].Fits(n) && n > 0
    ensures Wf(Malloc(segs, i, n), total)
    ensures segs[i].start !in Starts(segs, total)
    ensures Starts(Malloc(segs, i, n), total) == Starts(segs, total) + {segs[i].start}
  {
    MallocWf(segs, total, i, n);
    OwnerIn(segs, total, segs[i].start, i);
    forall u: nat | u < total
      ensures u in Starts(Malloc(segs, i, n), total) <==> u in Starts(segs, total) || u == segs[i].start
    {
      MallocOwner(segs, total, i, n, u);
    }
  }

  /** The list has an allocation of `n` units that starts at unit `a`. */
  ghost predicate HasAllocation(segs: seq<Seg>, a: nat, n: nat) {
    exists i :: 0 <= i < |segs| && segs[i] == Seg(a, n, true)
  }

  lemma MallocAllocations(segs: seq<Seg>, i: nat, n: nat, a: nat, m: nat)
    requires i < |segs| && segs[i].Fits(n)
    ensures HasAllocation(Malloc(segs, i, n), a, m) <==>
            HasAllocation(segs, a, m) || (a == segs[i].start && m == n)
  {
    var after, len := Malloc(segs, i, n), |Taken(segs[i], n)|;
    SpliceParts(segs, i, i + 1, Taken(segs[i], n));
    hide Malloc;
    if k :| 0 <= k < |segs| && segs[k] == Seg(a, m, true) {
      assert after[if k < i then k else k - 1 + len] == Seg(a, m, true);
    }
    if k :| 0 <= k < |after| && after[k] == Seg(a, m, true) {
      assert k < i ==> segs[k] == Seg(a, m, true);
      assert k >= i + len ==> segs[k + 1 - len] == Seg(a, m, true);
    }
    assert after[i] == Seg(segs[i].start, n, true);
  }

  lemma FreeAllocations(segs: seq<Seg>, total: nat, i: nat, a: nat, m: nat)
    requires Wf(segs, total) && i < |segs| && segs[i].used
    ensures HasAllocation(Free(segs, i), a, m) <==> HasAllocation(segs, a, m) && a != segs[i].start
  {
    var after, lo, hi := Free(segs, i), JoinLo(segs, i), JoinHi(segs, i);
    SpliceParts(segs, lo, hi, [Seg(segs[lo].start, JoinLen(segs, i), false)]);
    hide Free;
    if k :| 0 <= k < |segs| && segs[k] == Seg(a, m, true) {
      if k != i {
        AllocationsDisjoint(segs, total, k, i, a);
        assert after[if k < lo then k else k - hi + lo + 1] == Seg(a, m, true);
      }
    }
    if k :| 0 <= k < |after| && after[k] == Seg(a, m, true) {
      var j := if k < lo then k else k - 1 - lo + hi;
      assert segs[j] == Seg(a, m, true);
      AllocationsDisjoint(segs, total, j, i, a);
    }
  }

  lemma StartHasAllocation(segs: seq<Seg>, total: nat, a: nat)
    requires Tiled(segs, total)
    ensures a in Starts(segs, total) <==> exists n :: HasAllocation(segs, a, n)
  {
    StartsAreUsedSegments(segs, total, a);
    if i: nat :| i < |segs| && segs[i].used && segs[i].start == a {
      assert segs[i] == Seg(a, segs[i].len, true);
      assert HasAllocation(segs, a, segs[i].len);
    }
  }

  /** Frees the allocations that start at the given units, in the given order. */
  ghost function FreeAll(segs: seq<Seg>, total: nat, order: seq<nat>): seq<Seg>
    requires Wf(segs, total)
    requires forall k | 0 <= k < |order| :: order[k] in Starts(segs, total)
    requires forall k, l | 0 <= k < l < |order| :: order[k] != order[l]
    decreases |order|
  {
    if order == [] then segs
    else
      assert order[0] in Starts(segs, total);
      var i := Locate(segs, total, order[0]);
      FreeStarts(segs, total, i);
      FreeAll(Free(segs, i), total, order[1..])
  }

  /** Freeing every allocation, in whatever order, leaves one free segment of the full length. */
  lemma {:induction false} FreeAllGivesFresh(segs: seq<Seg>, total: nat, order: seq<nat>)
    requires Wf(segs, total)
    requires forall k | 0 <= k < |order| :: order[k] in Starts(segs, total)
    requires forall k, l | 0 <= k < l < |order| :: order[k] != order[l]
    requires forall s | s in Starts(segs, total) :: s in order
    ensures FreeAll(segs, total, order) == Fresh(total)
    decreases |order|
  {
    if order == [] {
      StartsAreUsedSegments(segs, total, segs[0].start);
      if |segs| > 1 {
        StartsAreUsedSegments(segs, total, segs[1].start);
      }
    } else {
      assert order[0] in Starts(segs, total);
      var i := Locate(segs, total, order[0]);
      FreeStarts(segs, total, i);
      FreeAllGivesFresh(Free(segs, i), total, order[1..]);
    }
  }

  // ---------------------------------------------------------------- completeness

  /** `n` consecutive unowned units start at `s`. */
  ghost predicate UnownedRun(segs: seq<Seg>, total: nat, s: nat, n: nat)
    requires Tiled(segs, total)
  {
    s + n <= total && forall u | s <= u < s + n :: Owner(segs, total, u) == None
  }

  /**
    A request fits some free segment exactly when `n` consecutive unowned units
    exist anywhere. Right to left needs maximal coalescing.
   */
  lemma FitsIffUnownedRun(segs: seq<Seg>, total: nat, n: nat)
    requires Wf(segs, total) && n > 0
    ensures (exists i: nat :: i < |segs| && segs[i].Fits(n)) <==> (exists s: nat :: UnownedRun(segs, total, s, n))
  {
    if i: nat :| i < |segs| && segs[i].Fits(n) {
      Inside(segs, total, i);
      forall u | segs[i].start <= u < segs[i].start + n
        ensures Owner(segs, total, u) == None
      {
        OwnerIn(segs, total, u, i);
      }
      assert UnownedRun(segs, total, segs[i].start, n);
    }
    if s: nat :| UnownedRun(segs, total, s, n) {
      var i := Locate(segs, total, s);
      assert Owner(segs, total, s) == None;
      if segs[i].End() < s + n {
        OwnerIn(segs, total, segs[i].End(), i + 1);
      }
      assert segs[i].Fits(n);
    }
  }

  // ---------------------------------------------------------------- sums over the list

  function Sum(segs: seq<Seg>, weight: Seg -> nat): nat {
    if segs == [] then 0 else weight(segs[0]) + Sum(segs[1..], weight)
  }

  function UsedOne(s: Seg): nat { if s.used then 1 else 0 }
  function FreeOne(s: Seg): nat { if s.used then 0 else 1 }
  function UsedLen(s: Seg): nat { if s.used then s.len else 0 }

  lemma {:induction false} SumConcat(a: seq<Seg>, b: seq<Seg>, weight: Seg -> nat)
    ensures Sum(a + b, weight) == Sum(a, weight) + Sum(b, weight)
  {
    if a == [] {
      assert a + b == b;
    } else {
      assert (a + b)[1..] == a[1..] + b;
      SumConcat(a[1..], b, weight);
    }
  }

  lemma SumOne(s: Seg, weight: Seg -> nat)
    ensures Sum([s], weight) == weight(s)
  {
    assert [s][1..] == [];
  }

  lemma SumTwo(s: Seg, t: Seg, weight: Seg -> nat)
    ensures Sum([s, t], weight) == weight(s) + weight(t)
  {
    SumOne(t, weight);
    assert [s, t][1..] == [t];
  }

  lemma SumSplice(segs: seq<Seg>, lo: nat, hi: nat, mid: seq<Seg>, weight: Seg -> nat)
    requires lo <= hi <= |segs|
    ensures Sum(Splice(segs, lo, hi, mid), weight) + Sum(segs[lo..hi], weight) == Sum(segs, weight) + Sum(mid, weight)
  {
    assert segs == segs[..hi] + segs[hi..];
    assert segs[..hi] == segs[..lo] + segs[lo..hi];
    SumConcat(segs[..hi], segs[hi..], weight);
    SumConcat(segs[..lo], segs[lo..hi], weight);
    SumConcat(segs[..lo] + mid, segs[hi..], weight);
    SumConcat(segs[..lo], mid, weight);
  }

  lemma SumTaken(s: Seg, n: nat, weight: Seg -> nat)
    requires n <= s.len
    ensures Sum(Taken(s, n), weight)
            == weight(Seg(s.start, n, true)) + if s.len == n then 0 else weight(Seg(s.start + n, s.len - n, false))
  {
    SumOne(Seg(s.start, n, true), weight);
    if s.len != n {
      SumTwo(Seg(s.start, n, true), Seg(s.start + n, s.len - n, false), weight);
    }
  }

  /** What Malloc does to any additive measure. */
  lemma SumMalloc(segs: seq<Seg>, i: nat, n: nat, weight: Seg -> nat)
    requires i < |segs| && segs[i].Fits(n)
    ensures Sum(Malloc(segs, i, n), weight) + weight(segs[i]) == Sum(segs, weight) + Sum(Taken(segs[i], n), weight)
  {
    SumSplice(segs, i, i + 1, Taken(segs[i], n), weight);
    assert segs[i..i + 1] == [segs[i]];
    SumOne(segs[i], weight);
  }

  /** The segments joined by the release of segment `i`: one, two or three of them. */
  lemma SumJoined(segs: seq<Seg>, i: nat, weight: Seg -> nat)
    requires i < |segs|
    ensures var lo, hi := JoinLo(segs, i), JoinHi(segs, i);
            Sum(segs[lo..hi], weight)
            == (if lo < i then weight(segs[i - 1]) else 0) + weight(segs[i])
               + (if i + 1 < hi then weight(segs[i + 1]) else 0)
  {
    var lo, hi := JoinLo(segs, i), JoinHi(segs, i);
    var right := if i + 1 < hi then [segs[i], segs[i + 1]] else [segs[i]];
    assert segs[i..hi] == right;
    if i + 1 < hi {
      SumTwo(segs[i], segs[i + 1], weight);
    } else {
      SumOne(segs[i], weight);
    }
    if lo < i {
      assert segs[lo..hi] == [segs[i - 1]] + right;
      assert segs[lo..hi][1..] == right;
    }
  }

  /** What Free does to any additive measure. */
  lemma SumFree(segs: seq<Seg>, i: nat, weight: Seg -> nat)
    requires i < |segs|
    ensures var lo, hi := JoinLo(segs, i), JoinHi(segs, i);
            Sum(Free(segs, i), weight)
            + (if lo < i then weight(segs[i - 1]) else 0) + weight(segs[i])
            + (if i + 1 < hi then weight(segs[i + 1]) else 0)
            == Sum(segs, weight) + weight(Seg(segs[lo].start, JoinLen(segs, i), false))
  {
    var lo, hi := JoinLo(segs, i), JoinHi(segs, i);
    var joined := Seg(segs[lo].start, JoinLen(segs, i), false);
    SumJoined(segs, i, weight);
    SumOne(joined, weight);
    SumSplice(segs, lo, hi, [joined], weight);
  }

  /** Malloc: one more allocation, `n` more units, and a free segment less on an exact fit. */
  lemma MallocCounts(segs: seq<Seg>, i: nat, n: nat)
    requires i < |segs| && segs[i].Fits(n)
    ensures Sum(Malloc(segs, i, n), UsedOne) == Sum(segs, UsedOne) + 1
    ensures Sum(Malloc(segs, i, n), UsedLen) == Sum(segs, UsedLen) + n
    ensures Sum(Malloc(segs, i, n), FreeOne) == Sum(segs, FreeOne) - if segs[i].len == n then 1 else 0
  {
    SumMalloc(segs, i, n, UsedOne);
    SumTaken(segs[i], n, UsedOne);
    SumMalloc(segs, i, n, UsedLen);
    SumTaken(segs[i], n, UsedLen);
    SumMalloc(segs, i, n, FreeOne);
    SumTaken(segs[i], n, FreeOne);
  }

  /** Free: one allocation less, its units less, and a free segment more, the same or less. */
  lemma FreeCounts(segs: seq<Seg>, i: nat)
    requires i < |segs| && segs[i].used
    ensures Sum(Free(segs, i), UsedOne) == Sum(segs, UsedOne) - 1
    ensures Sum(Free(segs, i), UsedLen) == Sum(segs, UsedLen) - segs[i].len
    ensures Sum(Free(segs, i), FreeOne) == Sum(segs, FreeOne) + 2 - (JoinHi(segs, i) - JoinLo(segs, i))
  {
    SumFree(segs, i, UsedOne);
    SumFree(segs, i, UsedLen);
    SumFree(segs, i, FreeOne);
  }

  /** Free segments are at most one more than used ones, and a used end of the list costs one each. */
  lemma {:induction false} FreeCountBound(segs: seq<Seg>)
    requires |segs| > 0 && Coalesced(segs)
    ensures Sum(segs, FreeOne) + UsedOne(segs[0]) + UsedOne(segs[|segs| - 1]) <= Sum(segs, UsedOne) + 1
  {
    if |segs| == 1 {
      assert segs[1..] == [];
    } else {
      FreeCountBound(segs[1..]);
      assert segs[0].used || segs[1].used;
    }
  }

  /**
    If releasing segment `i` has to create a new free segment, then strictly
    fewer segments are free than used.
   */
  lemma IsolatedFreeBound(segs: seq<Seg>, i: nat)
    requires i < |segs| && Coalesced(segs) && segs[i].used
    requires JoinLo(segs, i) == i && JoinHi(segs, i) == i + 1
    ensures Sum(segs, FreeOne) < Sum(segs, UsedOne)
  {
    var a, b := segs[..i], segs[i + 1..];
    assert segs == a + ([segs[i]] + b);
    SumConcat(a, [segs[i]] + b, FreeOne);
    SumConcat([segs[i]], b, FreeOne);
    SumConcat(a, [segs[i]] + b, UsedOne);
    SumConcat([segs[i]], b, UsedOne);
    if a != [] {
      FreeCountBound(a);
    }
    if b != [] {
      FreeCountBound(b);
    }
  }

  // ---------------------------------------------------------------- what a failed request implies

  /** A request for `n` units succeeds: it is positive, a record is left, and a segment fits. */
  ghost predicate CanMalloc(segs: seq<Seg>, cap: nat, n: nat) {
    n > 0 && Sum(segs, UsedOne) < cap && exists i: nat :: i < |segs| && segs[i].Fits(n)
  }

  /** Allocations by others never turn a request that fails into one that succeeds. */
  lemma MallocKeepsFailure(segs: seq<Seg>, cap: nat, i: nat, n: nat, m: nat)
    requires i < |segs| && segs[i].Fits(n) && !CanMalloc(segs, cap, m)
    ensures !CanMalloc(Malloc(segs, i, n), cap, m)
  {
    var after := Malloc(segs, i, n);
    MallocCounts(segs, i, n);
    if k: nat :| k < |after| && after[k].Fits(m) {
      if segs[i].len == n || k < i {
        assert segs[k] == after[k];
      } else if k > i + 1 {
        assert segs[k - 1] == after[k];
      } else {
        assert segs[i].Fits(m);
      }
    }
  }
}
