/**
  The ring buffer of em_ringbuf.c, with the 32-bit arithmetic of its two read
  functions written out.
 */
module RingBuf {
  import opened Basics
  import Units

  /** EM_RINGBUF_ERROR, EM_RINGBUF_UPDATE, or an invalid value. */
  datatype Mode = ErrorMode | UpdateMode | InvalidMode

  const TWO_32: nat := 0x1_0000_0000
  const TWO_31: nat := 0x8000_0000

  /** The slot at distance `x` from slot 0, around a ring of `n`. */
  function Place(x: nat, n: nat): (p: nat)
    requires n > 0
    ensures p < n
  {
    x % n
  }

  /** The fields of em_ring_t that change, and the slots. */
  datatype Ring = Ring(slots: seq<Bytes>, used: nat, head: nat, tail: nat) {

    function Max(): nat { |slots| }

    ghost predicate Wf() {
      && 0 < |slots| < TWO_31 && used <= |slots| && tail < |slots|
      && head == Place(tail + used, |slots|)
    }

    /** The stored blocks, oldest first. */
    function Window(): (w: seq<Bytes>)
      requires |slots| > 0
      ensures |w| == used
      ensures forall i | 0 <= i < used :: w[i] == slots[Place(tail + i, |slots|)]
    {
      seq(used, i requires 0 <= i < used => slots[Place(tail + i, |slots|)])
    }

    /** em_ring_delete_taildata; None is its error return. */
    function DeleteTail(n: nat): Option<Ring>
      requires |slots| > 0
    {
      if n == 0 || n > used then None
      else
        var t := tail + n;
        Some(this.(used := used - n, tail := if t >= |slots| then t % |slots| else t))
    }

    /** em_ring_add_newdata; None is its error return. */
    function AddNew(): Option<Ring>
      requires |slots| > 0
    {
      if used >= |slots| then None
      else
        var h := head + 1;
        Some(this.(used := used + 1, head := if h >= |slots| then h % |slots| else h))
    }

    /** em_ring_get_dataptr_new: the state it leaves and the slot it returns; None is NULL. */
    function GetNew(mode: Mode): Option<(Ring, nat)>
      requires |slots| > 0
    {
      if used < |slots| then Some((this, head))
      else match mode
           case ErrorMode => None
           case UpdateMode =>
             var r := DeleteTail(1);
             Some((if r.Some? then r.value else this, head))
           case InvalidMode => Some((this, head))
    }

    /** How the samples use them: get a slot, fill it, register it. */
    function Push(mode: Mode, v: Bytes): Ring
      requires |slots| > 0 && head < |slots|
    {
      match GetNew(mode)
      case None => this
      case Some((r, slot)) =>
        var filled := r.(slots := r.slots[slot := v]);
        var added := filled.AddNew();
        if added.Some? then added.value else filled
    }

    /** The index em_ring_get_dataptr_head computes, step by step in 32 bits; None is NULL. */
    function HeadIndex(offset: nat): Option<nat>
      requires 0 < |slots| < TWO_31 && head < |slots| && offset < TWO_32
    {
      if (offset + 1) % TWO_32 > used then None
      else
        var unsigned := (head + TWO_32 - 1 + TWO_32 - offset) % TWO_32;
        if unsigned < TWO_31 then Some(unsigned) else Some(unsigned % |slots|)
    }

    /** The index em_ring_get_dataptr_tail computes; None is NULL. */
    function TailIndex(offset: nat): Option<nat>
      requires 0 < |slots| < TWO_31 && tail < |slots| && offset < TWO_32
    {
      if (offset + 1) % TWO_32 > used then None
      else
        var idx := (tail + offset) % TWO_32;
        Some(if idx >= |slots| then idx % |slots| else idx)
    }

    /** The slot that holds the `offset`-th newest, or oldest, block; None where there is none. */
    function Newest(offset: nat): Option<nat>
      requires |slots| > 0
    {
      if offset < used then Some(Place(tail + (used - 1 - offset), |slots|)) else None
    }

    function Oldest(offset: nat): Option<nat>
      requires |slots| > 0
    {
      if offset < used then Some(Place(tail + offset, |slots|)) else None
    }
  }

  // ---------------------------------------------------------------- remainders

  lemma ModSmall(x: nat, n: nat)
    requires x < 2 * n
    ensures x % n == Place(x, n) == if x < n then x else x - n
  {
  }

  /** Going `back` steps below `m` lands where the modulus says exactly when n divides m. */
  lemma BelowMultiple(m: nat, n: nat, back: nat)
    requires 0 < n <= m && 0 < back <= n
    ensures (m - back) % n == n - back <==> m % n == 0
  {
    var q, r := m / n, m % n;
    assert m == n * q + r;
    if back <= r {
      Units.DivUnique(m - back, n, q, r - back);
    } else {
      assert n * (q - 1) == n * q - n;
      Units.DivUnique(m - back, n, q - 1, n + r - back);
    }
  }

  // ---------------------------------------------------------------- reading

  /** What the 32-bit steps of em_ring_get_dataptr_head amount to. */
  lemma HeadIndexIs(r: Ring, offset: nat)
    requires 0 < r.Max() < TWO_31 && r.head < r.Max() && r.used <= r.Max() && offset < TWO_32
    ensures r.HeadIndex(offset) ==
            if offset == TWO_32 - 1 then Some(r.head)
            else if offset >= r.used then None
            else if offset < r.head then Some(r.head - 1 - offset)
            else Some((TWO_32 - (offset + 1 - r.head)) % r.Max())
  {
    var x := r.head + TWO_32 - 1 + TWO_32 - offset;
    if offset == TWO_32 - 1 {
      Units.DivUnique(x, TWO_32, 1, r.head);
    } else if offset < r.used {
      if offset < r.head {
        Units.DivUnique(x, TWO_32, 2, r.head - 1 - offset);
      } else {
        Units.DivUnique(x, TWO_32, 1, TWO_32 - (offset + 1 - r.head));
      }
    }
  }

  /** Where the `offset`-th newest block is, counted from the head. */
  lemma NewestIs(r: Ring, offset: nat)
    requires r.Wf() && offset < r.used
    ensures r.Newest(offset) ==
            if offset < r.head then Some(r.head - 1 - offset) else Some(r.Max() - (offset + 1 - r.head))
    ensures offset >= r.head ==> 0 < offset + 1 - r.head <= r.Max()
  {
    ModSmall(r.tail + r.used, r.Max());
    ModSmall(r.tail + (r.used - 1 - offset), r.Max());
  }

  /**
    Reading from the head finds the right slot exactly without a wrap below 0,
    or when the capacity divides 2^32; and past the stored blocks it finds
    nothing, except at the one offset whose successor wraps to 0.
   */
  lemma HeadReadIff(r: Ring, offset: nat)
    requires r.Wf() && offset < TWO_32
    ensures r.HeadIndex(offset) == r.Newest(offset) <==>
            if offset < r.used then offset < r.head || TWO_32 % r.Max() == 0 else offset != TWO_32 - 1
  {
    HeadIndexIs(r, offset);
    if offset < r.used {
      NewestIs(r, offset);
      if offset >= r.head {
        BelowMultiple(TWO_32, r.Max(), offset + 1 - r.head);
      }
    }
  }

  /** Reading from the tail is right for every offset but that one. */
  lemma TailReadIff(r: Ring, offset: nat)
    requires r.Wf() && offset < TWO_32
    ensures r.TailIndex(offset) == r.Oldest(offset) <==> offset != TWO_32 - 1
  {
    if offset < r.used {
      ModSmall(r.tail + offset, TWO_32);
      ModSmall(r.tail + offset, r.Max());
    }
  }

  /** For a capacity that divides 2^32, head offset k and tail offset num_used-1-k are the same slot. */
  lemma HeadMeetsTail(r: Ring, k: nat)
    requires r.Wf() && k < r.used && TWO_32 % r.Max() == 0
    ensures r.HeadIndex(k) == r.TailIndex(r.used - 1 - k)
    ensures r.HeadIndex(k).Some? && r.HeadIndex(k).value < r.Max()
    ensures r.slots[r.HeadIndex(k).value] == r.Window()[r.used - 1 - k]
  {
    hide Ring.HeadIndex;
    hide Ring.TailIndex;
    HeadReadIff(r, k);
    TailReadIff(r, r.used - 1 - k);
  }

  /** Three full slots: the newest block is in slot 2, and the read from the head returns slot 0. */
  lemma HeadReadWrongForThree(v: Bytes)
    ensures var r := Ring([v, v, v], 3, 0, 0);
            r.Wf() && r.HeadIndex(0) == Some(0) && r.Newest(0) == Some(2)
  {
  }

  /** The slots called oldest and newest hold those blocks of the window. */
  lemma PlacesHold(r: Ring, k: nat)
    requires r.Wf() && k < r.used
    ensures r.Oldest(k).Some? && r.Newest(k).Some?
    ensures r.slots[r.Oldest(k).value] == r.Window()[k]
    ensures r.slots[r.Newest(k).value] == r.Window()[r.used - 1 - k]
  {
  }

  // ---------------------------------------------------------------- writing

  lemma DeleteTailDropsOldest(r: Ring, n: nat)
    requires r.Wf()
    ensures r.DeleteTail(n).Some? <==> 0 < n <= r.used
    ensures r.DeleteTail(n).Some? ==>
        var r' := r.DeleteTail(n).value;
        r'.Wf() && r'.head == r.head && r'.slots == r.slots && r'.Window() == r.Window()[n..]
  {
    if 0 < n <= r.used {
      var r' := r.DeleteTail(n).value;
      ModSmall(r.tail + n, r.Max());
      SamePlaces(r, r', n);
    }
  }

  /** Place `i` after the tail moved by `n` is place `i + n` before. */
  lemma SamePlaces(r: Ring, r': Ring, n: nat)
    requires r.Wf() && n <= r.used && r'.slots == r.slots && r'.used == r.used - n
    requires r'.tail == Place(r.tail + n, r.Max())
    ensures Place(r'.tail + r'.used, r.Max()) == r.head
    ensures r'.Window() == r.Window()[n..]
  {
    hide Place;
    ModSmall(r.tail + n, r.Max());
    ModSmall(r.tail + r.used, r.Max());
    ModSmall(r'.tail + r'.used, r.Max());
    forall i | 0 <= i < r'.used
      ensures r'.Window()[i] == r.Window()[i + n]
    {
      ModSmall(r.tail + (i + n), r.Max());
      ModSmall(r'.tail + i, r.Max());
    }
  }

  /** Distinct places of a window are distinct slots, and none of them is the slot one past the window. */
  lemma PlacesDiffer(r: Ring, i: nat, j: nat)
    requires r.Wf() && i < j && j - i < r.Max() && j <= r.Max() && r.tail < r.Max()
    ensures Place(r.tail + i, r.Max()) != Place(r.tail + j, r.Max())
  {
    ModSmall(r.tail + i, r.Max());
    ModSmall(r.tail + j, r.Max());
  }

  lemma FillKeepsWindow(r: Ring, v: Bytes)
    requires r.Wf() && r.used < r.Max()
    ensures var f := r.(slots := r.slots[r.head := v]); f.Wf() && f.Max() == r.Max() && f.Window() == r.Window()
  {
    hide Place;
    var f := r.(slots := r.slots[r.head := v]);
    forall i | 0 <= i < r.used
      ensures f.Window()[i] == r.Window()[i]
    {
      PlacesDiffer(r, i, r.used);
    }
  }

  /** Filling the head slot and registering it appends; there must be a free slot. */
  lemma FillAppends(r: Ring, v: Bytes)
    requires r.Wf() && r.used < r.Max()
    ensures var r' := r.(slots := r.slots[r.head := v]).AddNew();
            r'.Some? && r'.value.Wf() && r'.value.Max() == r.Max() && r'.value.Window() == r.Window() + [v]
  {
    var r' := r.(slots := r.slots[r.head := v]).AddNew().value;
    FillKeepsWindow(r, v);
    NextPlace(r);
    hide Place;
  }

  lemma NextPlace(r: Ring)
    requires r.Wf() && r.used < r.Max()
    ensures (if r.head + 1 >= r.Max() then (r.head + 1) % r.Max() else r.head + 1)
            == Place(r.tail + (r.used + 1), r.Max())
  {
    ModSmall(r.tail + r.used, r.Max());
    ModSmall(r.head + 1, r.Max());
    ModSmall(r.tail + (r.used + 1), r.Max());
  }

  /** When full, the head slot is the oldest block's. */
  lemma OverwriteWhenFull(r: Ring, v: Bytes)
    requires r.Wf() && r.used == r.Max()
    ensures r.head == r.tail
    ensures var f := r.(slots := r.slots[r.head := v]); f.Wf() && f.Window() == [v] + r.Window()[1..]
  {
    ModSmall(r.tail + r.used, r.Max());
    ModSmall(r.tail, r.Max());
    hide Place;
    var f := r.(slots := r.slots[r.head := v]);
    forall i | 0 < i < r.used
      ensures f.Window()[i] == r.Window()[i]
    {
      PlacesDiffer(r, 0, i);
    }
  }

  /** Pushing: below capacity it appends; at capacity the mode decides. */
  lemma PushWindow(r: Ring, mode: Mode, v: Bytes)
    requires r.Wf()
    ensures r.Push(mode, v).Wf() && r.Push(mode, v).Max() == r.Max()
    ensures r.Push(mode, v).Window() ==
            if r.used < r.Max() then r.Window() + [v]
            else match mode
                 case ErrorMode => r.Window()
                 case UpdateMode => r.Window()[1..] + [v]
                 case InvalidMode => [v] + r.Window()[1..]
  {
    hide Place;
    if r.used < r.Max() {
      FillAppends(r, v);
    } else if mode == UpdateMode {
      DeleteTailDropsOldest(r, 1);
      FillAppends(r.DeleteTail(1).value, v);
    } else if mode == InvalidMode {
      OverwriteWhenFull(r, v);
    }
  }

  // ---------------------------------------------------------------- whole runs in update mode

  datatype Op = PushOp(v: Bytes) | DeleteOp(n: nat)

  function Step(r: Ring, op: Op): (r': Ring)
    requires r.Wf()
    ensures r'.Wf() && r'.Max() == r.Max()
  {
    match op
    case PushOp(v) => PushWindow(r, UpdateMode, v); r.Push(UpdateMode, v)
    case DeleteOp(n) => DeleteTailDropsOldest(r, n); var d := r.DeleteTail(n); if d.Some? then d.value else r
  }

  function Run(r: Ring, ops: seq<Op>): (r': Ring)
    requires r.Wf()
    ensures r'.Wf() && r'.Max() == r.Max()
    decreases |ops|
  {
    if ops == [] then r else Step(Run(r, ops[..|ops| - 1]), ops[|ops| - 1])
  }

  /** The same run on a plain list that forgets its oldest element when it would exceed `max`. */
  function Kept(max: nat, ops: seq<Op>): (w: seq<Bytes>)
    requires max > 0
    ensures |w| <= max
    decreases |ops|
  {
    if ops == [] then []
    else
      var w := Kept(max, ops[..|ops| - 1]);
      match ops[|ops| - 1]
      case PushOp(v) => (if |w| == max then w[1..] else w) + [v]
      case DeleteOp(n) => if n <= |w| then w[n..] else w
  }

  /** In update mode the ring is that list, through every wrap. */
  lemma {:induction false} RunIsKept(r: Ring, ops: seq<Op>)
    requires r.Wf() && r.used == 0
    ensures Run(r, ops).Window() == Kept(r.Max(), ops)
    decreases |ops|
  {
    if ops != [] {
      var before, op := ops[..|ops| - 1], ops[|ops| - 1];
      RunIsKept(r, before);
      hide Place;
      hide Ring.Push;
      hide Ring.DeleteTail;
      match op
      case PushOp(v) => PushWindow(Run(r, before), UpdateMode, v);
      case DeleteOp(n) => DeleteTailDropsOldest(Run(r, before), n);
    }
  }

  /** Everything pushed so far, oldest first. */
  function Pushed(ops: seq<Op>): seq<Bytes>
    decreases |ops|
  {
    if ops == [] then []
    else Pushed(ops[..|ops| - 1]) + match ops[|ops| - 1] case PushOp(v) => [v] case DeleteOp(_) => []
  }

  /** How many of them are still there: pushes count up to `max`, deletions of more than there are do nothing. */
  function Left(max: nat, ops: seq<Op>): (n: nat)
    ensures n <= max && n <= |Pushed(ops)|
    decreases |ops|
  {
    if ops == [] then 0
    else
      var n := Left(max, ops[..|ops| - 1]);
      match ops[|ops| - 1]
      case PushOp(_) => if n == max then n else n + 1
      case DeleteOp(d) => if d <= n then n - d else n
  }

  /** In update mode the buffer always holds exactly that many of the most recent pushes. */
  lemma HoldsMostRecent(r: Ring, ops: seq<Op>)
    requires r.Wf() && r.used == 0
    ensures var all, n := Pushed(ops), Left(r.Max(), ops);
            Run(r, ops).used == n <= r.Max() && Run(r, ops).Window() == all[|all| - n..]
  {
    RunIsKept(r, ops);
    KeptIsMostRecent(r.Max(), ops);
  }

  lemma {:induction false} KeptIsMostRecent(max: nat, ops: seq<Op>)
    requires max > 0
    ensures Kept(max, ops) == Pushed(ops)[|Pushed(ops)| - Left(max, ops)..]
    decreases |ops|
  {
    if ops != [] {
      var before, op := ops[..|ops| - 1], ops[|ops| - 1];
      KeptIsMostRecent(max, before);
      match op
      case PushOp(v) => LastPushed(Pushed(before), Left(max, before), v);
      case DeleteOp(d) => assert Pushed(ops) == Pushed(before);
    }
  }

  lemma LastPushed(all: seq<Bytes>, n: nat, v: Bytes)
    requires n <= |all|
    ensures all[|all| - n..] + [v] == (all + [v])[|all| - n..]
    ensures n > 0 ==> all[|all| - n..][1..] + [v] == (all + [v])[|all| + 1 - n..]
  {
  }

  /** Three pushes into a new ring of three lead to the state in which the read from the head is wrong. */
  lemma ThreePushesReached(v: Bytes)
    ensures var r := Run(Ring([[], [], []], 0, 0, 0), [PushOp(v), PushOp(v), PushOp(v)]);
            r == Ring([v, v, v], 3, 0, 0) && r.HeadIndex(0) == Some(0) && r.Newest(0) == Some(2)
  {
    var r0, ops := Ring([[], [], []], 0, 0, 0), [PushOp(v), PushOp(v), PushOp(v)];
    assert ops[..2] == [PushOp(v), PushOp(v)] && ops[..2][..1] == [PushOp(v)] && ops[..2][..1][..0] == [];
    assert Run(r0, ops[..2][..1]).slots == [v, [], []];
    assert Run(r0, ops[..2]).slots == [v, v, []];
    assert Run(r0, ops).slots == [v, v, v];
    HeadReadWrongForThree(v);
  }

  // ---------------------------------------------------------------- the object

  /** em_ring_t */
  class EmRing {
    const slots: array<Bytes>
    const mode: Mode
    var used: nat
    var head: nat
    var tail: nat

    ghost function View(): Ring
      reads this, slots
    {
      Ring(slots[..], used, head, tail)
    }

    /** em_ring_create */
    constructor (mode: Mode, num: nat)
      requires 0 < num < TWO_31
      ensures View().Wf() && View().Window() == [] && fresh(slots) && slots.Length == num && this.mode == mode
    {
      this.mode := mode;
      slots := new Bytes[num](_ => []);
      used, head, tail := 0, 0, 0;
    }

    method DeleteTaildata(n: nat) returns (ret: int)
      requires View().Wf()
      modifies this`used, this`tail
      ensures View().Wf() && ret == if old(View()).DeleteTail(n).Some? then 0 else -1
      ensures View() == if ret == 0 then old(View()).DeleteTail(n).value else old(View())
    {
      DeleteTailDropsOldest(View(), n);
      if n == 0 || n > used {
        return -1;
      }
      used := used - n;
      tail := tail + n;
      if tail >= slots.Length {
        tail := tail % slots.Length;
      }
      return 0;
    }

    /** em_ring_get_dataptr_new */
    method GetDataptrNew() returns (slot: int)
      requires View().Wf()
      modifies this`used, this`tail
      ensures View().Wf()
      ensures match old(View()).GetNew(mode)
              case None => slot == -1 && View() == old(View())
              case Some((r, s)) => slot == s && View() == r
    {
      if used >= slots.Length {
        if mode == ErrorMode {
          return -1;
        } else if mode == UpdateMode {
          var _ := DeleteTaildata(1);
        }
      }
      slot := head;
    }

    /** em_ring_add_newdata */
    method AddNewdata() returns (ret: int)
      requires View().Wf()
      modifies this`used, this`head
      ensures View().Wf() && ret == if old(View()).AddNew().Some? then 0 else -1
      ensures View() == if ret == 0 then old(View()).AddNew().value else old(View())
    {
      AddNewWf(View());
      if used >= slots.Length {
        return -1;
      }
      used := used + 1;
      head := head + 1;
      if head >= slots.Length {
        head := head % slots.Length;
      }
      return 0;
    }

    /** em_ring_get_dataptr_head, as written; -1 is NULL. */
    method GetDataptrHead(offset: nat) returns (slot: int)
      requires View().Wf() && offset < TWO_32
      ensures match View().HeadIndex(offset) case None => slot == -1 case Some(i) => slot == i
    {
      if (offset + 1) % TWO_32 > used {
        return -1;
      }
      var idx: int := (head + TWO_32 - 1 + TWO_32 - offset) % TWO_32;
      if idx >= TWO_31 {
        idx := idx - TWO_32;
      }
      if idx < 0 {
        idx := (idx + TWO_32) % slots.Length;
      }
      slot := idx;
    }

    /** em_ring_get_dataptr_tail; -1 is NULL. */
    method GetDataptrTail(offset: nat) returns (slot: int)
      requires View().Wf() && offset < TWO_32
      ensures match View().TailIndex(offset) case None => slot == -1 case Some(i) => slot == i
    {
      if (offset + 1) % TWO_32 > used {
        return -1;
      }
      slot := (tail + offset) % TWO_32;
      if slot >= slots.Length {
        slot := slot % slots.Length;
      }
    }

    /** A caller's push: get the slot, fill it, register it. */
    method Push(v: Bytes) returns (ok: bool)
      requires View().Wf()
      modifies this, slots
      ensures View().Wf() && View() == old(View()).Push(mode, v)
      ensures ok <==> old(used) < slots.Length || mode == UpdateMode
    {
      var slot := GetDataptrNew();
      if slot < 0 {
        return false;
      }
      slots[slot] := v;
      var ret := AddNewdata();
      ok := ret == 0;
    }
  }

  lemma AddNewWf(r: Ring)
    requires r.Wf()
    ensures r.AddNew().Some? ==> r.AddNew().value.Wf()
  {
    if r.AddNew().Some? {
      FillAppends(r, r.slots[r.head]);
      assert r.(slots := r.slots[r.head := r.slots[r.head]]) == r;
    }
  }
}
