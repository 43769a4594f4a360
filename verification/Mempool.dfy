/**
  The block pool of em_mempool.c: O(1) allocation and release by swapping the
  entries of a permutation and of its inverse.
 */
module Mempool {
  import Units

  /**
    The bookkeeping of a pool. `order` is block_ptr (as block ids), `pos` is the
    index_ptr of every block, and the blocks in `order[..used]` are live.
   */
  datatype PoolView = PoolView(order: seq<nat>, pos: seq<nat>, used: nat) {

    ghost predicate Wf() {
      && |pos| == |order| && used <= |order|
      && (forall p | 0 <= p < |order| :: order[p] < |pos| && pos[order[p]] == p)
      && (forall b | 0 <= b < |pos| :: pos[b] < |order| && order[pos[b]] == b)
    }

    /** The guard of the release and lookup functions. */
    predicate IsLive(id: int) {
      0 <= id < |pos| && pos[id] < used
    }

    ghost function LiveIds(): (s: set<nat>)
      ensures forall id: nat :: id in s <==> IsLive(id)
    {
      set id: nat | id < |pos| && IsLive(id)
    }

    predicate HasRoom() {
      used < |order|
    }

    function NextId(): nat
      requires HasRoom()
    {
      order[used]
    }

    /** The next block of the permutation becomes live. */
    function Alloc(): PoolView
      requires HasRoom()
    {
      this.(used := used + 1)
    }

    /** The released block and the last live one change places; an id that is not live is rejected. */
    function Free(id: int): PoolView
      requires |pos| == |order|
      requires IsLive(id) ==> used <= |order| && order[used - 1] < |pos|
    {
      if !IsLive(id) then this
      else
        var hole := pos[id];
        var last := used - 1;
        var moved := order[last];
        PoolView(order[hole := moved][last := id], pos[moved := hole][id := last], last)
    }
  }

  /** A new pool: the identity permutation and no live block. */
  function FreshPool(n: nat): (v: PoolView)
    ensures v.Wf() && |v.order| == n && v.used == 0
  {
    PoolView(seq(n, i => i), seq(n, i => i), 0)
  }

  /** Allocation hands out a block that was not live, and nothing else changes. */
  lemma AllocRefinesSet(v: PoolView)
    requires v.Wf() && v.HasRoom()
    ensures v.Alloc().Wf()
    ensures !v.IsLive(v.NextId())
    ensures v.Alloc().LiveIds() == v.LiveIds() + {v.NextId()}
  {
    var id := v.NextId();
    assert v.pos[id] == v.used;
    forall b: nat
      ensures b in v.Alloc().LiveIds() <==> b in v.LiveIds() + {id}
    {
      if v.Alloc().IsLive(b) && !v.IsLive(b) {
        assert v.order[v.pos[b]] == b;
      }
    }
  }

  lemma FreeWf(v: PoolView, id: int)
    requires v.Wf()
    ensures |v.pos| == |v.order| && v.used <= |v.order| && (v.IsLive(id) ==> v.order[v.used - 1] < |v.pos|)
    ensures v.Free(id).Wf() && |v.Free(id).order| == |v.order|
  {
  }

  /** Release by swapping removes exactly the named block; an id that is not live changes nothing. */
  lemma FreeRefinesSet(v: PoolView, id: int)
    requires v.Wf()
    ensures v.Free(id).Wf()
    ensures v.IsLive(id) <==> v.Free(id) != v
    ensures forall b: nat :: v.Free(id).IsLive(b) <==> v.IsLive(b) && b != id
    ensures |v.Free(id).order| == |v.order|
  {
  }

  /** Release after allocation restores the pool, and a released block is the next to be handed out. */
  lemma AllocFreeInverse(v: PoolView, id: nat)
    requires v.Wf()
    ensures v.HasRoom() ==> v.Alloc().Free(v.NextId()) == v
    ensures v.IsLive(id) ==> v.Free(id).HasRoom() && v.Free(id).NextId() == id
  {
    if v.HasRoom() {
      assert v.pos[v.NextId()] == v.used;
    }
  }

  /** Exactly `used` blocks are live. */
  lemma {:induction false} LiveCount(v: PoolView)
    requires v.Wf()
    ensures |v.LiveIds()| == v.used
    decreases v.used
  {
    if v.used == 0 {
      assert v.LiveIds() == {};
    } else {
      var smaller := v.(used := v.used - 1);
      assert smaller.Wf();
      hide PoolView.Wf;
      LiveCount(smaller);
      AllocRefinesSet(smaller);
      assert smaller.Alloc() == v;
    }
  }

  /** While nothing was ever released, the live blocks are 0, 1, 2, ... in this order. */
  ghost predicate IdentityPrefix(v: PoolView) {
    v.used <= |v.order| && forall p | 0 <= p < |v.order| :: v.order[p] == p
  }

  /** Of the releases only that of the last live block keeps this order. */
  lemma FreeKeepsIdentityIff(v: PoolView, id: int)
    requires v.Wf() && IdentityPrefix(v) && v.IsLive(id)
    ensures IdentityPrefix(v.Free(id)) <==> id == v.used - 1
  {
    FreeWf(v, id);
    assert v.order[id] == id && v.pos[id] == id;
    assert v.order[v.used - 1] == v.used - 1;
    if id != v.used - 1 {
      assert v.Free(id).order[id] == v.used - 1;
    }
  }

  // ---------------------------------------------------------------- the object

  /** One entry of the block table. */
  datatype BlkInfo = BlkInfo(index: nat, indexPtr: nat, dataPtr: int)

  /** A pool whose blocks lie at `rawdata`, each `blockSize` bytes long. */
  class Pool {
    const numMax: nat
    const blockSize: nat
    const rawdata: int
    var numUsed: nat
    var sem: nat
    const blockPtr: array<nat>
    const block: array<BlkInfo>
    const dataPtr: array<int>
    ghost var view: PoolView
    ghost const Repr: set<object>

    /** The address of block `id`. */
    function Addr(id: int): int {
      rawdata + blockSize * id
    }

    /** The three tables agree; what holds between taking a permit and using it. */
    ghost predicate Consistent()
      reads this, Repr
      ensures Consistent() ==> this in Repr
    {
      && this in Repr && blockPtr in Repr && block in Repr && dataPtr in Repr
      && blockSize > 0
      && blockPtr.Length == block.Length == dataPtr.Length == numMax
      && view.Wf() && view.used == numUsed && |view.order| == numMax
      && blockPtr[..] == view.order
      && (forall b | 0 <= b < numMax :: block[b].index == b && block[b].indexPtr == view.pos[b])
      && (forall b | 0 <= b < numMax :: block[b].dataPtr == Addr(b))
      && (forall p | 0 <= p < numMax :: dataPtr[p] == block[blockPtr[p]].dataPtr)
    }

    ghost predicate Valid()
      reads this, Repr
      ensures Valid() ==> this in Repr
    {
      Consistent() && sem == numMax - numUsed
    }

    /** em_mpool_create_with_mem */
    constructor (blockSize: nat, numMax: nat, rawdata: int)
      requires blockSize > 0
      ensures Valid() && fresh(Repr)
      ensures this.numMax == numMax && this.blockSize == blockSize && this.rawdata == rawdata
      ensures view == FreshPool(numMax)
    {
      this.numMax, this.blockSize, this.rawdata := numMax, blockSize, rawdata;
      numUsed, sem := 0, numMax;
      var bp, bl, dp := new nat[numMax], new BlkInfo[numMax](_ => BlkInfo(0, 0, 0)), new int[numMax];
      blockPtr, block, dataPtr := bp, bl, dp;
      view := FreshPool(numMax);
      Repr := {this, bp, bl, dp};
      new;
      for i := 0 to numMax
        invariant numUsed == 0 && sem == numMax && view == FreshPool(numMax)
        invariant forall k | 0 <= k < i ::
            blockPtr[k] == k && block[k] == BlkInfo(k, k, Addr(k)) && dataPtr[k] == Addr(k)
      {
        blockPtr[i] := i;
        block[i] := BlkInfo(i, i, Addr(i));
        dataPtr[i] := block[i].dataPtr;
      }
    }

    /** _em_mpool_alloc_blockmng: the next block, or None when all are used. */
    method AllocBlockmng() returns (ret: int, id: nat)
      requires Consistent()
      modifies Repr
      ensures Consistent() && sem == old(sem)
      ensures ret == if old(view).HasRoom() then 0 else -1
      ensures ret == 0 ==> view == old(view).Alloc() && id == old(view).NextId()
      ensures ret != 0 ==> view == old(view)
    {
      if numUsed >= numMax {
        return -1, 0;
      }
      AllocRefinesSet(view);
      id := blockPtr[numUsed];
      numUsed := numUsed + 1;
      view := view.Alloc();
      ret := 0;
    }

    /**
      em_mpool_alloc_block with EM_NO_WAIT, run alone: the semaphore wait fails
      exactly when it is zero, and after it the allocation cannot fail.
     */
    method AllocBlock() returns (ret: int, data: int)
      requires Valid()
      modifies Repr
      ensures Valid()
      ensures ret == if old(view).HasRoom() then 0 else -1
      ensures ret == 0 ==>
          view == old(view).Alloc() && old(view).NextId() < numMax && data == Addr(old(view).NextId())
      ensures ret != 0 ==> view == old(view)
    {
      if sem == 0 {
        return -1, 0;
      }
      sem := sem - 1;
      var id;
      ret, id := AllocBlockmng();
      data := block[id].dataPtr;
    }

    /** em_mpool_get_dataidx: the block that the byte at an address belongs to. */
    method GetDataidx(data: int) returns (id: int)
      requires Valid() && rawdata <= data
      ensures id >= 0 && Addr(id) <= data < Addr(id) + blockSize
      ensures id < numMax <==> data < rawdata + blockSize * numMax
    {
      id := (data - rawdata) / blockSize;
      MulMonotonic(blockSize, id + 1, numMax);
      MulMonotonic(blockSize, numMax, id);
    }

    /** No byte belongs to two blocks. */
    lemma BlocksApart(a: int, b: int, byte: int)
      requires blockSize > 0
      requires Addr(a) <= byte < Addr(a) + blockSize && Addr(b) <= byte < Addr(b) + blockSize
      ensures a == b
    {
      Units.DivUnique(byte - rawdata, blockSize, a, byte - rawdata - blockSize * a);
      Units.DivUnique(byte - rawdata, blockSize, b, byte - rawdata - blockSize * b);
    }

    /** The blocks lie inside the memory of the pool. */
    lemma BlockInside(id: nat)
      requires id < numMax
      ensures rawdata <= Addr(id) && Addr(id) + blockSize <= rawdata + blockSize * numMax
    {
      MulMonotonic(blockSize, id + 1, numMax);
    }

    /** And they fill it: every byte of it belongs to some block. */
    lemma BlocksFill(byte: int) returns (id: nat)
      requires blockSize > 0 && rawdata <= byte < rawdata + blockSize * numMax
      ensures id < numMax && Addr(id) <= byte < Addr(id) + blockSize
    {
      id := (byte - rawdata) / blockSize;
      MulMonotonic(blockSize, numMax, id);
    }

    /** Conversion from any byte of a block to an id inverts conversion from an id to an address. */
    lemma AddrInverts(b: int, id: int, offset: nat)
      requires offset < blockSize && Addr(id) <= Addr(b) + offset < Addr(id) + blockSize
      ensures id == b
    {
      BlocksApart(b, id, Addr(b) + offset);
    }

    /** em_mpool_get_dataptr: the address of a live block, None for every other id. */
    method GetDataptr(id: nat) returns (found: bool, data: int)
      requires Valid()
      ensures found <==> view.IsLive(id)
      ensures found ==> data == Addr(id)
    {
      if id >= numMax || block[id].indexPtr >= numUsed {
        return false, 0;
      }
      return true, block[id].dataPtr;
    }

    /** The address of the block at position `p`: block_ptr[p]->data_ptr. */
    method DataAt(p: nat) returns (data: int)
      requires Valid() && p < view.used
      ensures p < |view.order| && view.order[p] < numMax && data == Addr(view.order[p])
    {
      data := block[blockPtr[p]].dataPtr;
    }

    /** The id of the block at position `p`: block_ptr[p]->index. */
    method IndexAt(p: nat) returns (id: nat)
      requires Valid() && p < view.used
      ensures p < |view.order| && id == view.order[p] && id < numMax && view.IsLive(id)
    {
      id := block[blockPtr[p]].index;
    }

    /** em_mpool_free_block_by_dataidx */
    method FreeByDataidx(id: nat) returns (ret: int)
      requires Valid()
      modifies Repr
      ensures Valid()
      ensures ret == if old(view).IsLive(id) then 0 else -1
      ensures view == old(view).Free(id)
    {
      hide PoolView.Wf;
      FreeWf(view, id);
      ghost var after := view.Free(id);
      if numUsed == 0 || id >= numMax || block[id].indexPtr >= numUsed {
        return -1;
      }
      var hole := block[id].indexPtr;
      numUsed := numUsed - 1;
      SwapBlocks(id, block[blockPtr[numUsed]].index, hole, numUsed);
      assert blockPtr[..] == after.order;
      assert forall b | 0 <= b < numMax :: block[b] == BlkInfo(b, after.pos[b], Addr(b));
      sem := sem + 1;
      view := after;
      return 0;
    }

    /** Block `moved` goes to position `hole`, and block `id` to position `last`. */
    method SwapBlocks(id: nat, moved: nat, hole: nat, last: nat)
      requires blockPtr.Length == block.Length == dataPtr.Length
      requires id < block.Length && moved < block.Length && hole < block.Length && last < block.Length
      modifies blockPtr, block, dataPtr
      ensures blockPtr[..] == old(blockPtr[..])[hole := moved][last := id]
      ensures dataPtr[..] == old(dataPtr[..])[hole := old(block[moved].dataPtr)][last := old(block[id].dataPtr)]
      ensures forall b | 0 <= b < block.Length ::
          block[b] == old(block[b]).(
            indexPtr := if b == id then last else if b == moved then hole else old(block[b].indexPtr))
    {
      block[moved] := block[moved].(indexPtr := hole);
      block[id] := block[id].(indexPtr := last);
      blockPtr[hole] := moved;
      dataPtr[hole] := block[moved].dataPtr;
      blockPtr[last] := id;
      dataPtr[last] := block[id].dataPtr;
    }

    /** em_mpool_free_block, for the address of one of the pool's blocks. */
    method FreeBlock(data: int, ghost id: nat) returns (ret: int)
      requires Valid() && id < numMax && Addr(id) <= data < Addr(id) + blockSize
      modifies Repr
      ensures Valid()
      ensures ret == if old(view).IsLive(id) then 0 else -1
      ensures view == old(view).Free(id)
    {
      Units.DivUnique(data - rawdata, blockSize, id, data - rawdata - blockSize * id);
      ret := FreeByDataidx((data - rawdata) / blockSize);
    }

    /** em_mpool_get_dataptr_array: the addresses of the first live blocks. */
    method GetDataptrArray(maxSize: nat, dst: array<int>) returns (num: nat)
      requires Valid() && dst !in Repr && maxSize <= dst.Length
      modifies dst
      ensures num == view.used
      ensures forall i | 0 <= i < dst.Length ::
          dst[i] == if i < num && i < maxSize then Addr(view.order[i]) else old(dst[i])
    {
      num := numUsed;
      var i := 0;
      while i < numUsed && i < maxSize
        invariant i <= numUsed && i <= maxSize
        invariant forall k | 0 <= k < dst.Length ::
            dst[k] == if k < i then Addr(view.order[k]) else old(dst[k])
      {
        dst[i] := block[blockPtr[i]].dataPtr;
        i := i + 1;
      }
    }
  }

  lemma MulMonotonic(d: nat, a: int, b: int)
    ensures a <= b ==> d * a <= d * b
  {
    if a <= b {
      assert d * b == d * a + d * (b - a);
    }
  }
}
