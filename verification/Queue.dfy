/**
  The circular buffer of em_queue.c, on values and as an object. QueueProtocol
  adds the semaphores and the mutex around it.
 */
module Queue {
  import opened Basics

  // ---------------------------------------------------------------- the circular buffer

  /** The counter after a step: back to 0 at `n`, by subtraction as in the code. */
  function Wrap(x: int, n: int): int {
    if x >= n then x - n else x
  }

  lemma WrapIsMod(x: nat, n: nat)
    requires x < 2 * n
    ensures Wrap(x, n) == x % n
  {
  }

  /** The fields of em_queue_t that the mutex protects. */
  datatype Ring = Ring(slots: seq<Bytes>, used: nat, head: nat, tail: nat) {

    ghost predicate Wf() {
      && |slots| > 0 && used <= |slots| && tail < |slots|
      && head == Wrap(tail + used, |slots|)
    }

    /** The queued blocks, oldest first. */
    function Window(): (w: seq<Bytes>)
      requires Wf()
      ensures |w| == used
      ensures forall i | 0 <= i < used :: w[i] == slots[Wrap(tail + i, |slots|)]
    {
      seq(used, i requires 0 <= i < used => slots[Wrap(tail + i, |slots|)])
    }

    /** The critical section of em_enqueue; None is its "Fatal" branch. */
    function Put(v: Bytes): Option<Ring>
      requires head < |slots|
    {
      if used >= |slots| then None
      else Some(Ring(slots[head := v], used + 1, Wrap(head + 1, |slots|), tail))
    }

    /** The critical section of em_dequeue; None is its "Fatal" branch. */
    function Take(): Option<(Ring, Bytes)>
      requires tail < |slots|
    {
      if used <= 0 then None
      else Some((Ring(slots, used - 1, head, Wrap(tail + 1, |slots|)), slots[tail]))
    }
  }

  /** A slot is free exactly below capacity; the block then becomes the newest. */
  lemma PutAppends(q: Ring, v: Bytes)
    requires q.Wf()
    ensures q.head < |q.slots| && (q.Put(v).Some? <==> q.used < |q.slots|)
    ensures q.Put(v).Some? ==>
        var q' := q.Put(v).value; q'.Wf() && |q'.slots| == |q.slots| && q'.Window() == q.Window() + [v]
  {
    if q.Put(v).Some? {
      var q' := q.Put(v).value;
      assert forall i | 0 <= i < q.used :: q'.Window()[i] == q.Window()[i];
    }
  }

  /** There is a block exactly above zero; the oldest one is removed. */
  lemma TakeRemovesOldest(q: Ring)
    requires q.Wf()
    ensures q.Take().Some? <==> q.used > 0
    ensures q.Take().Some? ==>
        var (q', v) := q.Take().value; q'.Wf() && |q'.slots| == |q.slots| && q.Window() == [v] + q'.Window()
  {
    if q.Take().Some? {
      var (q', v) := q.Take().value;
      assert forall i | 0 <= i < q'.used :: q'.Window()[i] == q.Window()[i + 1];
    }
  }

  /** The head stands `num_used` slots after the tail, through every wrap. */
  lemma HeadIsTailPlusUsed(q: Ring)
    requires q.Wf()
    ensures q.head == (q.tail + q.used) % |q.slots|
    ensures forall i | 0 <= i < q.used :: q.Window()[i] == q.slots[(q.tail + i) % |q.slots|]
  {
    WrapIsMod(q.tail + q.used, |q.slots|);
    forall i | 0 <= i < q.used
      ensures q.Window()[i] == q.slots[(q.tail + i) % |q.slots|]
    {
      WrapIsMod(q.tail + i, |q.slots|);
    }
  }

  /** em_queue_t, used by one thread at a time. */
  class EmQueue {
    const numMax: nat
    const slots: array<Bytes>
    var numUsed: nat
    var head: nat
    var tail: nat
    var semIn: nat
    var semOut: nat

    ghost function View(): Ring
      reads this, slots
    {
      Ring(slots[..], numUsed, head, tail)
    }

    ghost predicate Valid()
      reads this, slots
    {
      && slots.Length == numMax && View().Wf()
      && semIn == numMax - numUsed && semOut == numUsed
    }

    constructor (numMax: nat)
      requires numMax > 0
      ensures Valid() && fresh(slots) && this.numMax == numMax && View().Window() == []
    {
      this.numMax := numMax;
      slots := new Bytes[numMax](_ => []);
      numUsed, head, tail := 0, 0, 0;
      semIn, semOut := numMax, 0;
    }

    /** _em_enqueue_get_dataptr, the copy, and _em_enqueue_increment. */
    method Insert(v: Bytes) returns (ok: bool)
      requires slots.Length == numMax && head < numMax
      modifies this`numUsed, this`head, slots
      ensures ok <==> old(View()).Put(v).Some?
      ensures View() == if ok then old(View()).Put(v).value else old(View())
    {
      if numUsed >= numMax {
        return false;
      }
      slots[head] := v;
      numUsed := numUsed + 1;
      head := head + 1;
      if head >= numMax {
        head := head - numMax;
      }
      ok := true;
    }

    /** _em_dequeue_get_dataptr, the copy, and _em_dequeue_increment. */
    method Remove() returns (ok: bool, v: Bytes)
      requires slots.Length == numMax && tail < numMax
      modifies this`numUsed, this`tail
      ensures ok <==> old(View()).Take().Some?
      ensures if ok then (View(), v) == old(View()).Take().value else View() == old(View())
    {
      if numUsed <= 0 {
        return false, [];
      }
      v := slots[tail];
      numUsed := numUsed - 1;
      tail := tail + 1;
      if tail >= numMax {
        tail := tail - numMax;
      }
      ok := true;
    }

    /** em_enqueue without waiting: refused exactly when full. */
    method Enqueue(v: Bytes) returns (ret: int)
      requires Valid()
      modifies this, slots
      ensures Valid()
      ensures ret == if old(numUsed) < numMax then 0 else -1
      ensures View().Window() == if ret == 0 then old(View().Window()) + [v] else old(View().Window())
    {
      if semIn == 0 {
        return -1;
      }
      PutAppends(View(), v);
      semIn := semIn - 1;
      var ok := Insert(v);
      semOut := semOut + 1;
      ret := 0;
    }

    /** em_dequeue without waiting: refused (with EM_ERR_TIMEOUT) exactly when empty, else the oldest block. */
    method Dequeue() returns (ret: int, v: Bytes)
      requires Valid()
      modifies this
      ensures Valid()
      ensures ret == if old(numUsed) > 0 then 0 else -2
      ensures old(View().Window()) == if ret == 0 then [v] + View().Window() else View().Window()
    {
      if semOut == 0 {
        return -2, [];
      }
      TakeRemovesOldest(View());
      semOut := semOut - 1;
      var ok;
      ok, v := Remove();
      semIn := semIn + 1;
      ret := 0;
    }
  }
}
