/**
  The memory manager of em_malloc.c as an object: a record table, an index table
  and two pools, changed in place. Each method does what the functions of
  HeapRecords do, so everything proved about those holds of the object.
 */
module Malloc {
  import opened Basics
  import opened Mempool
  import opened HeapRecords
  import opened HeapVerdicts
  import S = Segments
  import Units

  const ERR_PARAM: int := -11

  class MemMng {
    const cap: nat
    const total: nat
    const unit: nat
    const memory: int
    const recs: array<MemInfo>
    const minfo: array<int>
    const mpUsed: Pool
    const mpFree: Pool
    var usedSize: int

    /** The state as a value. */
    ghost function View(): Heap
      reads this, recs, minfo, mpUsed, mpFree, mpUsed.Repr, mpFree.Repr
    {
      Heap(cap, total, recs[..], mpUsed.view, mpFree.view, minfo[..], usedSize)
    }

    /** Tables of the right size, pools in order, nothing shared. A record's address is its place in the table. */
    ghost predicate Consistent()
      reads this, recs, minfo, mpUsed, mpFree, mpUsed.Repr, mpFree.Repr
    {
      && mpUsed.Repr !! mpFree.Repr
      && {this, recs, minfo} !! mpUsed.Repr + mpFree.Repr
      && cap > 0 && total > 0 && unit > 0
      && recs.Length == 2 * cap + 2 && minfo.Length == total
      && mpUsed.Valid() && mpUsed.numMax == cap && mpUsed.blockSize == 1 && mpUsed.rawdata == 0
      && mpFree.Valid() && mpFree.numMax == cap && mpFree.blockSize == 1 && mpFree.rawdata == cap
    }

    ghost predicate Valid()
      reads this, recs, minfo, mpUsed, mpFree, mpUsed.Repr, mpFree.Repr
    {
      Consistent() && Good(View())
    }

    /** em_memmng_create */
    constructor (unit: nat, total: nat, cap: nat, memory: int)
      requires unit > 0 && total > 0 && cap > 0
      ensures Valid() && Clean(View())
      ensures fresh(recs) && fresh(minfo) && fresh(mpUsed.Repr) && fresh(mpFree.Repr)
      ensures this.unit == unit && this.total == total && this.cap == cap && this.memory == memory
      ensures Created(View()) && SegsOf(View()) == S.Fresh(total)
    {
      hide Good;
      hide Clean;
      hide Created;
      hide FreshPool;
      hide PoolView.Wf;
      this.cap, this.total, this.unit, this.memory := cap, total, unit, memory;
      var u := new Pool(1, cap, 0);
      var f := new Pool(1, cap, cap);
      var r := new MemInfo[2 * cap + 2](_ => MemInfo(0, 0, false, NULL, NULL));
      var m := new int[total];
      mpUsed, mpFree, recs, minfo := u, f, r, m;
      usedSize := 0;
      new;
      assert Consistent();
      InitRecords();
      CreatedClean(View());
    }

    /** The first record of mp_free describes the whole arena, between the two sentinels. */
    method InitRecords()
      requires Consistent() && mpUsed.view == FreshPool(cap) && mpFree.view == FreshPool(cap) && usedSize == 0
      modifies recs, mpFree.Repr
      ensures Consistent() && Created(View())
    {
      hide PoolView.Wf;
      var ret, initial := mpFree.AllocBlock();
      recs[2 * cap] := MemInfo(-1, 0, true, initial, NULL);
      recs[2 * cap + 1] := MemInfo(-2, 0, true, NULL, initial);
      recs[initial] := MemInfo(0, total, false, 2 * cap + 1, 2 * cap);
    }

    /** The scan of _em_malloc, from the last used position of mp_free down. */
    method FindFree(n: int) returns (p: int)
      requires Valid()
      ensures p == Scan(View(), n, mpFree.view.used)
    {
      MallocShape(View());
      assert mpFree.numUsed == mpFree.view.used;
      hide Good;
      hide PoolView.Wf;
      hide Pool.Valid;
      p := mpFree.numUsed - 1;
      while p >= 0
        invariant -1 <= p < mpFree.view.used
        invariant Scan(View(), n, mpFree.view.used) == Scan(View(), n, p + 1)
      {
        var f := mpFree.DataAt(p);
        if recs[f].length >= n {
          return;
        }
        p := p - 1;
      }
    }

    /** The record switch of _em_malloc: new record `m` takes `n` units from free record `f`. */
    method Carve(f: int, m: int, n: int) returns (exact: bool)
      requires Followable(recs[..], f) && InTable(recs[..], m)
      modifies recs
      ensures exact <==> old(recs[f]).length == n
      ensures recs[..] == if exact then TakeExact(old(recs[..]), f, m, n) else TakeSplit(old(recs[..]), f, m, n)
    {
      ghost var before := recs[..];
      var b := recs[f].back;
      exact := recs[f].length == n;
      recs[m] := MemInfo(recs[f].index, n, true, recs[m].next, b);
      recs[b] := recs[b].(next := m);
      assert recs[..] == before[m := MemInfo(before[f].index, n, true, before[m].next, b)][b := recs[b]];
      if exact {
        recs[m] := recs[m].(next := recs[f].next);
      } else {
        recs[m] := recs[m].(next := f);
        recs[f] := recs[f].(index := recs[f].index + n, length := recs[f].length - n, back := m);
      }
    }

    /** What is left of _em_malloc once a segment is found and a record is at hand. */
    method SwitchRecords(p: nat, n: int, m: int)
      requires Consistent() && p < mpFree.view.used && |mpFree.view.order| == cap
      requires mpFree.view.Wf() && InTable(recs[..], m)
      requires Followable(recs[..], View().FreeRec(p)) && 0 <= recs[View().FreeRec(p)].index < total
      modifies recs, minfo, mpFree.Repr
      ensures Consistent()
      ensures View() == Switch(old(View()), old(View().FreeRec(p)), m, n)
    {
      hide PoolView.Wf;
      hide Pool.Valid;
      var f := mpFree.DataAt(p);
      var index := recs[f].index;
      var exact := Carve(f, m, n);
      if exact {
        var _ := mpFree.FreeBlock(f, f - cap);
      }
      minfo[index] := m;
    }

    /** _em_malloc from the point where the scan stopped at position `p`. */
    method MallocAt(p: nat, n: int) returns (ret: int, m: int)
      requires Consistent() && p < mpFree.view.used && View().Shape()
      requires Followable(recs[..], View().FreeRec(p)) && 0 <= recs[View().FreeRec(p)].index < total
      modifies this`usedSize, recs, minfo, mpUsed.Repr, mpFree.Repr
      ensures Consistent()
      ensures var h := old(View());
              if !h.mpUsed.HasRoom()
              then ret == NO_RECORD && m == NULL && View() == h.(usedSize := h.usedSize + n)
              else ret == SUCCESS && m == h.mpUsed.NextId() && View() == Take(h, h.FreeRec(p), n)
    {
      hide PoolView.Wf;
      hide Pool.Valid;
      usedSize := usedSize + n;
      ret, m := mpUsed.AllocBlock();
      if ret != 0 {
        ret, m := NO_RECORD, NULL;
      } else {
        SwitchRecords(p, n, m);
      }
    }

    /**
      _em_malloc for `n` units, as written: it does what ExecMalloc does, and
      keeps the object valid.
     */
    method MallocUnits(n: nat) returns (ret: int, m: int)
      requires Valid() && n > 0
      modifies this`usedSize, recs, minfo, mpUsed.Repr, mpFree.Repr
      ensures Valid() && MallocSafe(old(View()), n)
      ensures MallocResult(View(), ret, m) == ExecMalloc(old(View()), n)
    {
      hide Good;
      hide PoolView.Wf;
      hide Pool.Valid;
      hide Take;
      hide Scan;
      MallocKeepsGood(View(), n);
      MallocShape(View());
      ret, m := NO_SPACE, NULL;
      var p := FindFree(n);
      if p >= 0 {
        ret, m := MallocAt(p, n);
      }
    }

    /** The index that em_free computes from an address. */
    function IndexAt(addr: int): int
      requires unit > 0
    {
      if addr < memory then -1 else Units.IndexOf(addr - memory, unit)
    }

    /**
      em_malloc and _em_malloc for `size` bytes, as written: 0 bytes are refused;
      otherwise the answer and the new state are those of ExecMalloc for the
      rounded-up number of units, and a success gives the address of its first unit.
     */
    method Malloc(size: nat) returns (ret: int, found: bool, addr: int)
      requires Valid()
      modifies this`usedSize, recs, minfo, mpUsed.Repr, mpFree.Repr
      ensures Valid()
      ensures size == 0 ==> ret == ERR_PARAM && !found && View() == old(View())
      ensures size > 0 ==>
          var n := Units.Count(size, unit);
          && n > 0 && MallocSafe(old(View()), n)
          && var r := ExecMalloc(old(View()), n);
             && View() == r.heap && ret == r.ret && (found <==> ret == SUCCESS)
             && (found ==> InTable(recs[..], r.rec) && addr == memory + recs[r.rec].index * unit)
             && (found ==> recs[r.rec].index >= 0 && IndexAt(addr) == recs[r.rec].index)
    {
      hide Good;
      hide ExecMalloc;
      hide MallocSafe;
      hide Pool.Valid;
      hide Units.Count;
      hide Units.IndexOf;
      hide Units.Offset;
      hide PoolView.Wf;
      if size == 0 {
        return ERR_PARAM, false, 0;
      }
      Units.CountRoundsUp(size, unit);
      var n := Units.Count(size, unit);
      MallocNames(View(), n);
      var m;
      ret, m := MallocUnits(n);
      found := ret == SUCCESS;
      addr := 0;
      if found {
        addr := AddressOf(recs[m].index);
      }
    }

    method AddressOf(index: nat) returns (addr: int)
      requires unit > 0
      ensures addr == memory + index * unit && IndexAt(addr) == index
    {
      Units.IndexInvertsOffset(index, unit, 0);
      addr := memory + Units.Offset(index, unit);
    }

    method MergeIsolated(d: int)
      requires Consistent() && Releasable(View(), d) && recs[recs[d].back].used && recs[recs[d].next].used
      modifies recs, mpFree.Repr
      ensures Consistent() && View() == Merge(old(View()), d)
    {
      hide PoolView.Wf;
      hide Pool.Valid;
      var b, x := recs[d].back, recs[d].next;
      var ret, w := mpFree.AllocBlock();
      recs[w] := recs[d].(used := false);
      recs[b] := recs[b].(next := w);
      recs[x] := recs[x].(back := w);
    }

    method MergeIntoNext(d: int)
      requires Consistent() && Releasable(View(), d) && recs[recs[d].back].used && !recs[recs[d].next].used
      modifies recs
      ensures Consistent() && View() == Merge(old(View()), d)
    {
      hide PoolView.Wf;
      hide Pool.Valid;
      var b, x := recs[d].back, recs[d].next;
      recs[x] := recs[x].(index := recs[d].index, length := recs[x].length + recs[d].length);
      recs[b] := recs[b].(next := x);
      recs[x] := recs[x].(back := b);
    }

    method MergeIntoBack(d: int)
      requires Consistent() && Releasable(View(), d) && !recs[recs[d].back].used && recs[recs[d].next].used
      modifies recs
      ensures Consistent() && View() == Merge(old(View()), d)
    {
      hide PoolView.Wf;
      hide Pool.Valid;
      var b, x := recs[d].back, recs[d].next;
      recs[b] := recs[b].(length := recs[b].length + recs[d].length, next := x);
      recs[x] := recs[x].(back := b);
    }

    method MergeIntoBoth(d: int)
      requires Consistent() && Releasable(View(), d) && !recs[recs[d].back].used && !recs[recs[d].next].used
      modifies recs, mpFree.Repr
      ensures Consistent() && View() == Merge(old(View()), d)
    {
      hide PoolView.Wf;
      hide Pool.Valid;
      var b, x := recs[d].back, recs[d].next;
      recs[b] := recs[b].(length := recs[b].length + recs[d].length);
      recs[b] := recs[b].(length := recs[b].length + recs[x].length);
      recs[b] := recs[b].(next := recs[x].next);
      recs[recs[x].next] := recs[recs[x].next].(back := b);
      var _ := mpFree.FreeBlock(x, x - cap);
    }

    /** em_free from the record on. */
    method ReleaseRecord(d: int)
      requires Consistent() && Releasable(View(), d)
      modifies this`usedSize, recs, mpUsed.Repr, mpFree.Repr
      ensures Consistent() && View() == Release(old(View()), d)
    {
      hide PoolView.Wf;
      hide Pool.Valid;
      ghost var h := View();
      if recs[recs[d].back].used {
        if recs[recs[d].next].used {
          MergeIsolated(d);
        } else {
          MergeIntoNext(d);
        }
      } else {
        if recs[recs[d].next].used {
          MergeIntoBack(d);
        } else {
          MergeIntoBoth(d);
        }
      }
      assert View() == Merge(h, d);
      hide Merge;
      var _ := mpUsed.FreeBlock(d, d);
      usedSize := usedSize - recs[d].length;
    }

    /**
      em_free, for the address of a live allocation: it does what ExecFree does,
      and keeps the object valid if and only if that allocation is not stale.
     */
    method Free(addr: int)
      requires Valid() && LiveStart(View(), IndexAt(addr))
      modifies this`usedSize, recs, mpUsed.Repr, mpFree.Repr
      ensures Consistent() && FreeSafe(old(View()), IndexAt(addr))
      ensures View() == ExecFree(old(View()), IndexAt(addr))
      ensures Valid() <==> !StaleStart(old(View()), IndexAt(addr))
    {
      hide Good;
      hide PoolView.Wf;
      hide Pool.Valid;
      hide Release;
      hide Releasable;
      hide StaleStart;
      hide LiveStart;
      FreeKeepsGoodIff(View(), IndexAt(addr));
      var index := if Units.BitTest(unit) then Units.Shr(addr - memory, Units.Log2(unit)) else (addr - memory) / unit;
      ReleaseRecord(minfo[index]);
    }
  }
}
