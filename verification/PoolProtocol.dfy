/**
  em_mpool_alloc_block and em_mpool_free_block_by_dataidx as steps of any number
  of threads: a counting semaphore, a mutex, and the tables of Mempool.PoolView.
 */
module PoolProtocol {
  import opened Basics
  import opened Mempool
  import opened Threads
  import opened Calls
  import Runs

  /** What a call is for, and what it did in its critical section. */
  datatype Asked = ToAlloc | ToFree(id: nat)
  datatype Deed = Took(id: nat) | Gave(id: nat)

  /** Where a thread is inside call `c`, an allocation (A) or a release (F) of block `id`. */
  datatype PC =
    | Idle
    | AWait(c: nat)               // waiting for the semaphore
    | APermit(c: nat)             // past the wait, about to lock
    | ACrit(c: nat)
    | AFailed(c: nat)             // found no block although past the wait
    | AUnlock(c: nat, id: nat)    // the block is taken
    | AReturn(c: nat, got: Option<nat>)
    | FWant(c: nat, id: nat)
    | FCrit(c: nat, id: nat)
    | FRejected(c: nat, id: nat)  // the id was not live
    | FUnlock(c: nat, id: nat)    // the block is back
    | FPost(c: nat, id: nat)      // unlocked, about to post the semaphore
    | FReturn(c: nat, id: nat, ret: int)

  /**
    `held` says which blocks each thread has obtained and not started to release,
    `book` records the calls and, in critical-section order, their deeds, and
    `granted` the calls that got a permit.
   */
  datatype State = State(
    pool: PoolView,
    sem: nat,
    mutex: Option<nat>,
    threads: map<nat, PC>,
    held: map<nat, set<nat>>,
    book: Book<Asked, Deed>,
    granted: set<nat>)

  predicate InCrit(pc: PC) {
    pc.ACrit? || pc.AFailed? || pc.AUnlock? || pc.FCrit? || pc.FRejected? || pc.FUnlock?
  }

  /** Past the semaphore and not yet counted in num_used. */
  predicate Taking(pc: PC) { pc.APermit? || pc.ACrit? || pc.AFailed? }
  /** No longer counted in num_used and not yet posted. */
  predicate Returning(pc: PC) { pc.FUnlock? || pc.FPost? }

  function Goto(s: State, t: nat, pc: PC): State {
    s.(threads := s.threads[t := pc])
  }

  function Asking(s: State, asked: Asked): Book<Asked, Deed> {
    s.book.(calls := s.book.calls + [asked])
  }

  function Doing(s: State, c: nat, deed: Deed): Book<Asked, Deed> {
    s.book.(log := s.book.log + [(c, deed)])
  }

  ghost predicate BeginAlloc(s: State, t: nat, s': State) {
    s' == Goto(s, t, AWait(|s.book.calls|)).(book := Asking(s, ToAlloc))
  }

  /** A caller may ask for the release of any id whatever. */
  ghost predicate BeginFree(s: State, t: nat, s': State) {
    exists id: nat ::
      && t in s.held
      && s' == Goto(s, t, FWant(|s.book.calls|, id)).(
                 held := s.held[t := s.held[t] - {id}], book := Asking(s, ToFree(id)))
  }

  /** A careful caller releases blocks it holds, or ids out of range. */
  ghost predicate Careful(s: State, t: nat, s': State) {
    t in s.threads && t in s.held && t in s'.threads && s.threads[t].Idle? && s'.threads[t].FWant? ==>
      s'.threads[t].id in s.held[t] || s'.threads[t].id >= |s.pool.order|
  }

  ghost predicate TakeBlock(s: State, t: nat, c: nat, s': State) {
    if s.pool.HasRoom() then
      s' == Goto(s, t, AUnlock(c, s.pool.NextId())).(pool := s.pool.Alloc(), book := Doing(s, c, Took(s.pool.NextId())))
    else s' == Goto(s, t, AFailed(c))
  }

  ghost predicate ReturnBlock(s: State, t: nat, c: nat, id: nat, s': State) {
    && s.pool.Wf()
    && s' == if s.pool.IsLive(id)
             then Goto(s, t, FUnlock(c, id)).(pool := s.pool.Free(id), book := Doing(s, c, Gave(id)))
             else Goto(s, t, FRejected(c, id))
  }

  /** What the caller does with the answer: a block it got is now held. */
  ghost predicate EndAlloc(s: State, t: nat, got: Option<nat>, s': State) {
    && t in s.held
    && s' == match got
             case None => Goto(s, t, Idle)
             case Some(id) => Goto(s, t, Idle).(held := s.held[t := s.held[t] + {id}])
  }

  /** One step of thread `t`. A wait may time out. */
  ghost predicate Next(s: State, t: nat, s': State) {
    && t in s.threads && t in s.held
    && match s.threads[t]
       case Idle => BeginAlloc(s, t, s') || BeginFree(s, t, s')
       case AWait(c) =>
         || s' == Goto(s, t, AReturn(c, None))
         || (s.sem > 0 && s' == Goto(s, t, APermit(c)).(sem := s.sem - 1, granted := s.granted + {c}))
       case APermit(c) => s.mutex == None && s' == Goto(s, t, ACrit(c)).(mutex := Some(t))
       case ACrit(c) => TakeBlock(s, t, c, s')
       case AFailed(c) => s' == Goto(s, t, AReturn(c, None)).(mutex := None)
       case AUnlock(c, id) => s' == Goto(s, t, AReturn(c, Some(id))).(mutex := None)
       case AReturn(c, got) => EndAlloc(s, t, got, s')
       case FWant(c, id) => s.mutex == None && s' == Goto(s, t, FCrit(c, id)).(mutex := Some(t))
       case FCrit(c, id) => ReturnBlock(s, t, c, id, s')
       case FRejected(c, id) => s' == Goto(s, t, FReturn(c, id, -1)).(mutex := None)
       case FUnlock(c, id) => s' == Goto(s, t, FPost(c, id)).(mutex := None)
       case FPost(c, id) => s' == Goto(s, t, FReturn(c, id, 0)).(sem := s.sem + 1)
       case FReturn(c, id, ret) => s' == Goto(s, t, Idle)
  }

  ghost predicate Init(s: State) {
    && s.pool == FreshPool(|s.pool.order|) && s.sem == |s.pool.order| && s.mutex == None
    && s.book == Book([], []) && s.granted == {}
    && s.held.Keys == s.threads.Keys
    && (forall t | t in s.threads :: s.threads[t] == Idle && s.held[t] == {})
  }

  // ---------------------------------------------------------------- the invariant

  /** The block a thread has obtained and not passed on, or is about to release. */
  function Hand(pc: PC): Option<nat> {
    match pc
    case AUnlock(_, id) => Some(id)
    case AReturn(_, got) => got
    case FWant(_, id) => Some(id)
    case FCrit(_, id) => Some(id)
    case _ => None
  }

  /** What thread `t` holds or has in its hand. */
  function Mine(s: State, t: nat): set<nat>
    requires t in s.threads && t in s.held
  {
    var pc, hand := s.threads[t], Hand(s.threads[t]);
    s.held[t] + if hand.Some? && (pc.AUnlock? || pc.AReturn? || hand.value < |s.pool.order|) then {hand.value} else {}
  }

  ghost predicate Exclusive(s: State) {
    && s.held.Keys == s.threads.Keys
    && (forall t | t in s.threads :: InCrit(s.threads[t]) <==> s.mutex == Some(t))
    && (s.mutex.Some? ==> s.mutex.value in s.threads)
    && (forall t | t in s.threads :: !s.threads[t].AFailed?)
  }

  ghost predicate Balanced(s: State) {
    s.sem + CountAt(s.threads, Taking) + CountAt(s.threads, Returning) + s.pool.used == |s.pool.order|
  }

  ghost predicate Has(s: State, t: nat, id: nat) {
    t in s.threads && t in s.held && id in Mine(s, t)
  }

  /** The live blocks are exactly the ones some thread has, and no block is with two threads. */
  ghost predicate Owned(s: State) {
    && (forall id: nat :: s.pool.IsLive(id) ==> exists t :: Has(s, t, id))
    && (forall t, id: nat | Has(s, t, id) :: s.pool.IsLive(id))
    && (forall t, u, id: nat | Has(s, t, id) && Has(s, u, id) :: t == u)
  }

  /** A block in a thread's hand is not among its held ones. */
  ghost predicate HandApart(s: State) {
    && s.held.Keys == s.threads.Keys
    && (forall t | t in s.threads && Hand(s.threads[t]).Some? :: Hand(s.threads[t]).value !in s.held[t])
  }

  /** A release gives back the block it names, and an allocation takes one. */
  predicate Fits(asked: Asked, deed: Deed) {
    match asked
    case ToAlloc => deed.Took?
    case ToFree(id) => deed == Gave(id)
  }

  /** What a thread knows of its call. */
  function Known(pc: PC): Option<Account<Asked, Deed>> {
    match pc
    case Idle => None
    case AWait(c) => Some(Account(c, ToAlloc, None))
    case APermit(c) => Some(Account(c, ToAlloc, None))
    case ACrit(c) => Some(Account(c, ToAlloc, None))
    case AFailed(c) => Some(Account(c, ToAlloc, None))
    case AUnlock(c, id) => Some(Account(c, ToAlloc, Some(Took(id))))
    case AReturn(c, got) => Some(Account(c, ToAlloc, if got.Some? then Some(Took(got.value)) else None))
    case FWant(c, id) => Some(Account(c, ToFree(id), None))
    case FCrit(c, id) => Some(Account(c, ToFree(id), None))
    case FRejected(c, id) => Some(Account(c, ToFree(id), None))
    case FUnlock(c, id) => Some(Account(c, ToFree(id), Some(Gave(id))))
    case FPost(c, id) => Some(Account(c, ToFree(id), Some(Gave(id))))
    case FReturn(c, id, ret) => Some(Account(c, ToFree(id), if ret == 0 then Some(Gave(id)) else None))
  }

  /** An allocation comes back empty-handed only without a permit. */
  ghost predicate CodeOk(s: State, pc: PC) {
    match pc
    case AWait(c) => c !in s.granted
    case APermit(c) => c in s.granted
    case ACrit(c) => c in s.granted
    case AUnlock(c, _) => c in s.granted
    case AReturn(c, got) => got.Some? <==> c in s.granted
    case FReturn(_, _, ret) => ret == 0 || ret == -1
    case _ => true
  }

  /** The blocks taken and not given back since. */
  function Out(log: seq<(nat, Deed)>): set<nat>
    decreases |log|
  {
    if log == [] then {}
    else
      var before := Out(log[..|log| - 1]);
      match log[|log| - 1].1
      case Took(id) => before + {id}
      case Gave(id) => before - {id}
  }

  ghost predicate Recorded(s: State) {
    && Kept(s.book, s.threads, Known, Fits)
    && (forall c | c in s.granted :: c < |s.book.calls|)
    && (forall t | t in s.threads :: CodeOk(s, s.threads[t]))
    && forall id: nat :: s.pool.IsLive(id) <==> id in Out(s.book.log)
  }

  /** What every step keeps. */
  ghost predicate Inv(s: State) {
    s.pool.Wf() && Exclusive(s) && Balanced(s) && Recorded(s)
  }

  /** What the steps of careful callers keep as well. */
  ghost predicate InvOwned(s: State) {
    Inv(s) && HandApart(s) && Owned(s)
  }

  lemma InitInv(s: State)
    requires Init(s)
    ensures InvOwned(s)
  {
    CountNone(s.threads, Taking);
    CountNone(s.threads, Returning);
  }

  lemma ExclusiveStep(s: State, t: nat, s': State)
    requires Exclusive(s) && Balanced(s) && s.pool.Wf() && Next(s, t, s')
    ensures Exclusive(s')
  {
    hide PoolView.Wf;
    hide Balanced;
    hide BeginAlloc;
    hide BeginFree;
    hide TakeBlock;
    hide ReturnBlock;
    hide GoesOn;
    if s.threads[t].Idle? {
      BeginBook(s, t, s');
    } else if s.threads[t].ACrit? {
      TakeBook(s, t, s');
      PermitCovers(s, t);
    } else if s.threads[t].FCrit? {
      ReturnBook(s, t, s');
    }
  }

  lemma PoolStep(s: State, t: nat, s': State)
    requires s.pool.Wf() && Next(s, t, s')
    ensures s'.pool.Wf() && |s'.pool.order| == |s.pool.order|
  {
    match s.threads[t]
    case ACrit(_) => if s.pool.HasRoom() { AllocRefinesSet(s.pool); }
    case FCrit(_, id) => FreeWf(s.pool, id);
    case _ =>
  }

  /** Past the semaphore a block is left. */
  lemma PermitCovers(s: State, t: nat)
    requires Balanced(s) && t in s.threads && Taking(s.threads[t])
    ensures s.pool.HasRoom()
  {
    CountSome(s.threads, t, Taking);
  }

  lemma BalancedStep(s: State, t: nat, s': State)
    requires Balanced(s) && s.pool.Wf() && Next(s, t, s') && !s.threads[t].AFailed?
    ensures Balanced(s')
  {
    hide PoolView.Wf;
    hide At;
    hide CountAt;
    if s.threads[t].ACrit? {
      PermitCovers(s, t);
    }
    PoolStep(s, t, s');
    var pc := s'.threads[t];
    CountMove(s.threads, t, pc, Taking);
    CountMove(s.threads, t, pc, Returning);
    assert s'.threads == s.threads[t := pc];
  }

  lemma OthersKeep(s: State, t: nat, s': State, u: nat)
    requires s.held.Keys == s.threads.Keys && s.pool.Wf() && Next(s, t, s') && u != t
    ensures s'.held.Keys == s'.threads.Keys == s.threads.Keys && |s'.pool.order| == |s.pool.order|
    ensures u in s.threads ==> s'.threads[u] == s.threads[u] && s'.held[u] == s.held[u]
  {
    PoolStep(s, t, s');
    hide PoolView.Wf;
    match s.threads[t]
    case Idle =>
    case _ =>
  }

  lemma OwnBegin(s: State, t: nat, s': State, id: nat)
    requires t in s.threads && t in s.held && s.threads[t].Idle?
    requires (BeginAlloc(s, t, s') || BeginFree(s, t, s')) && Careful(s, t, s')
    requires Has(s, t, id) ==> id < |s.pool.order|
    ensures Has(s', t, id) <==> Has(s, t, id)
  {
  }

  lemma OwnTake(s: State, t: nat, s': State, id: nat)
    requires t in s.threads && t in s.held && s.threads[t].ACrit? && TakeBlock(s, t, s.threads[t].c, s')
    ensures Has(s', t, id) <==> (s.pool.HasRoom() && id == s.pool.NextId()) || Has(s, t, id)
  {
  }

  lemma OwnReturn(s: State, t: nat, s': State, id: nat)
    requires HandApart(s) && t in s.threads && t in s.held && s.threads[t].FCrit?
    requires ReturnBlock(s, t, s.threads[t].c, s.threads[t].id, s')
    ensures Has(s', t, id) <==> s.threads[t].id != id && Has(s, t, id)
  {
    hide PoolView.Wf;
    hide PoolView.Free;
  }

  lemma OwnStep(s: State, t: nat, s': State, id: nat)
    requires HandApart(s) && s.pool.Wf() && Next(s, t, s') && Careful(s, t, s')
    requires Has(s, t, id) ==> id < |s.pool.order|
    ensures Has(s', t, id) <==>
            if s.threads[t].ACrit? && s.pool.HasRoom() && id == s.pool.NextId() then true
            else if s.threads[t].FCrit? && s.threads[t].id == id then false
            else Has(s, t, id)
  {
    hide PoolView.Wf;
    hide BeginAlloc;
    hide BeginFree;
    hide TakeBlock;
    hide ReturnBlock;
    hide Careful;
    if s.threads[t].Idle? {
      OwnBegin(s, t, s', id);
    } else if s.threads[t].ACrit? {
      OwnTake(s, t, s', id);
    } else if s.threads[t].FCrit? {
      OwnReturn(s, t, s', id);
    }
  }

  /** How a step changes who has what: a block is obtained, released, or nothing changes. */
  lemma HasStep(s: State, t: nat, s': State, u: nat, id: nat)
    requires HandApart(s) && Owned(s) && s.pool.Wf() && Next(s, t, s') && Careful(s, t, s')
    ensures Has(s', u, id) <==>
            if u == t && s.threads[t].ACrit? && s.pool.HasRoom() && id == s.pool.NextId() then true
            else if u == t && s.threads[t].FCrit? && s.threads[t].id == id then false
            else Has(s, u, id)
  {
    if u == t {
      assert Has(s, t, id) ==> s.pool.IsLive(id);
      OwnStep(s, t, s', id);
    } else {
      OthersKeep(s, t, s', u);
      hide Next;
    }
  }

  /** A block just taken was with nobody. */
  lemma TakenApart(s: State, t: nat)
    requires Owned(s) && s.pool.Wf() && s.pool.HasRoom() && t in s.threads && t in s.held
    ensures s.pool.NextId() !in s.held[t]
  {
    AllocRefinesSet(s.pool);
    if s.pool.NextId() in s.held[t] {
      assert Has(s, t, s.pool.NextId());
    }
  }

  lemma OwnHand(s: State, t: nat, s': State)
    requires HandApart(s) && Owned(s) && s.pool.Wf() && Next(s, t, s')
    ensures t in s'.threads && t in s'.held
    ensures Hand(s'.threads[t]).Some? ==> Hand(s'.threads[t]).value !in s'.held[t]
  {
    hide Owned;
    hide PoolView.Wf;
    hide PoolView.Free;
    hide PoolView.Alloc;
    if s.threads[t].ACrit? && s.pool.HasRoom() {
      TakenApart(s, t);
    }
  }

  lemma HandApartStep(s: State, t: nat, s': State)
    requires HandApart(s) && Owned(s) && s.pool.Wf() && Next(s, t, s') && Careful(s, t, s')
    ensures HandApart(s')
  {
    hide Next;
    hide Careful;
    hide Owned;
    hide PoolView.Wf;
    hide Hand;
    OwnHand(s, t, s');
    OthersKeep(s, t, s', t + 1);
    forall u | u in s'.threads && u != t
      ensures u in s.threads && s'.threads[u] == s.threads[u] && s'.held[u] == s.held[u]
    {
      OthersKeep(s, t, s', u);
    }
  }

  /** The live ids change by the one a thread obtains or releases. */
  lemma LiveStep(s: State, t: nat, s': State, id: nat)
    requires s.pool.Wf() && Next(s, t, s')
    ensures s'.pool.IsLive(id) <==>
            if s.threads[t].ACrit? && s.pool.HasRoom() && id == s.pool.NextId() then true
            else if s.threads[t].FCrit? && s.threads[t].id == id then false
            else s.pool.IsLive(id)
    ensures s.threads[t].ACrit? && s.pool.HasRoom() ==> !s.pool.IsLive(s.pool.NextId())
  {
    match s.threads[t]
    case ACrit(_) =>
      if s.pool.HasRoom() {
        AllocRefinesSet(s.pool);
        assert id in s.pool.Alloc().LiveIds() <==> id in s.pool.LiveIds() || id == s.pool.NextId();
      }
    case FCrit(_, x) => FreeRefinesSet(s.pool, x);
    case _ =>
  }

  lemma OwnedStep(s: State, t: nat, s': State)
    requires HandApart(s) && Owned(s) && s.pool.Wf() && Next(s, t, s') && Careful(s, t, s')
    ensures Owned(s')
  {
    assert |s.pool.pos| == |s.pool.order|;
    hide PoolView.Wf;
    forall id: nat | s'.pool.IsLive(id)
      ensures exists u :: Has(s', u, id)
    {
      LiveStep(s, t, s', id);
      HasStep(s, t, s', t, id);
      if s.pool.IsLive(id) {
        var u :| Has(s, u, id);
        HasStep(s, t, s', u, id);
      }
    }
    forall u, id: nat | Has(s', u, id)
      ensures s'.pool.IsLive(id)
    {
      LiveStep(s, t, s', id);
      HasStep(s, t, s', u, id);
      assert s.threads[t].FCrit? && s.threads[t].id == id && s.pool.IsLive(id) ==> Has(s, t, id);
    }
    forall u, v, id: nat | Has(s', u, id) && Has(s', v, id)
      ensures u == v
    {
      LiveStep(s, t, s', id);
      HasStep(s, t, s', u, id);
      HasStep(s, t, s', v, id);
    }
  }

  lemma BookStep(s: State, t: nat, s': State)
    requires s.pool.Wf() && Next(s, t, s')
    ensures t in s.threads && t in s'.threads && s'.threads == s.threads[t := s'.threads[t]]
    ensures GoesOn(s.book, s'.book, Known(s.threads[t]), Known(s'.threads[t]), Fits)
    ensures s'.granted == s.granted
            || (Known(s.threads[t]).Some? && s'.granted == s.granted + {Known(s.threads[t]).value.c})
  {
    hide PoolView.Wf;
    hide BeginAlloc;
    hide BeginFree;
    hide TakeBlock;
    hide ReturnBlock;
    if s.threads[t].Idle? {
      BeginBook(s, t, s');
    } else if s.threads[t].ACrit? {
      TakeBook(s, t, s');
    } else if s.threads[t].FCrit? {
      ReturnBook(s, t, s');
    }
  }

  lemma BeginBook(s: State, t: nat, s': State)
    requires t in s.threads && s.threads[t].Idle? && (BeginAlloc(s, t, s') || BeginFree(s, t, s'))
    ensures t in s'.threads && s'.threads == s.threads[t := s'.threads[t]] && s'.granted == s.granted
    ensures GoesOn(s.book, s'.book, Known(s.threads[t]), Known(s'.threads[t]), Fits)
    ensures s'.mutex == s.mutex && !InCrit(s'.threads[t]) && !s'.threads[t].AFailed?
    ensures t in s.held && s.held.Keys == s.threads.Keys ==> s'.held.Keys == s.threads.Keys
  {
  }

  lemma TakeBook(s: State, t: nat, s': State)
    requires t in s.threads && s.threads[t].ACrit? && TakeBlock(s, t, s.threads[t].c, s')
    ensures t in s'.threads && s'.threads == s.threads[t := s'.threads[t]] && s'.granted == s.granted
    ensures GoesOn(s.book, s'.book, Known(s.threads[t]), Known(s'.threads[t]), Fits)
    ensures s'.mutex == s.mutex && s'.held == s.held && InCrit(s'.threads[t])
    ensures s'.threads[t].AFailed? <==> !s.pool.HasRoom()
  {
    hide PoolView.Alloc;
  }

  lemma ReturnBook(s: State, t: nat, s': State)
    requires t in s.threads && s.threads[t].FCrit? && ReturnBlock(s, t, s.threads[t].c, s.threads[t].id, s')
    ensures t in s'.threads && s'.threads == s.threads[t := s'.threads[t]] && s'.granted == s.granted
    ensures GoesOn(s.book, s'.book, Known(s.threads[t]), Known(s'.threads[t]), Fits)
    ensures s'.mutex == s.mutex && s'.held == s.held && InCrit(s'.threads[t]) && !s'.threads[t].AFailed?
  {
    hide PoolView.Wf;
    hide PoolView.Free;
  }

  lemma BookKept(s: State, t: nat, s': State)
    requires Kept(s.book, s.threads, Known, Fits) && s.pool.Wf() && Next(s, t, s')
    ensures Kept(s'.book, s'.threads, Known, Fits)
  {
    hide Next;
    hide Kept;
    hide GoesOn;
    BookStep(s, t, s');
    KeptStep(s.book, s'.book, s.threads, s'.threads, t, Known, Fits);
  }

  lemma CodeStep(s: State, t: nat, s': State)
    requires s.pool.Wf() && Next(s, t, s') && CodeOk(s, s.threads[t])
    requires (forall c | c in s.granted :: c < |s.book.calls|) && !s.threads[t].AFailed?
    ensures t in s'.threads && CodeOk(s', s'.threads[t])
  {
    hide PoolView.Wf;
    hide PoolView.Free;
    hide PoolView.Alloc;
  }

  lemma OtherCode(s: State, t: nat, s': State, u: nat)
    requires Kept(s.book, s.threads, Known, Fits) && t in s.threads && u in s.threads && u != t
    requires CodeOk(s, s.threads[u])
    requires s'.granted == s.granted
             || (Known(s.threads[t]).Some? && s'.granted == s.granted + {Known(s.threads[t]).value.c})
    ensures CodeOk(s', s.threads[u])
  {
    assert Known(s.threads[t]).Some? && Known(s.threads[u]).Some? ==>
        Known(s.threads[t]).value.c != Known(s.threads[u]).value.c;
    hide Kept;
  }

  lemma {:induction false} OutGrows(log: seq<(nat, Deed)>, d: (nat, Deed))
    ensures Out(log + [d]) == match d.1 case Took(id) => Out(log) + {id} case Gave(id) => Out(log) - {id}
  {
    assert (log + [d])[..|log|] == log;
  }

  /** The live blocks go on being those taken and not given back. */
  lemma OutStep(s: State, t: nat, s': State, id: nat)
    requires s.pool.Wf() && Next(s, t, s') && (s.pool.IsLive(id) <==> id in Out(s.book.log))
    ensures s'.pool.IsLive(id) <==> id in Out(s'.book.log)
  {
    hide Out;
    LiveStep(s, t, s', id);
    hide PoolView.Wf;
    match s.threads[t]
    case ACrit(c) =>
      if s.pool.HasRoom() {
        OutGrows(s.book.log, (c, Took(s.pool.NextId())));
      }
    case FCrit(c, x) => OutGrows(s.book.log, (c, Gave(x)));
    case _ =>
  }

  lemma RecordedStep(s: State, t: nat, s': State)
    requires s.pool.Wf() && Exclusive(s) && Recorded(s) && Next(s, t, s')
    ensures Recorded(s')
  {
    hide Next;
    hide CodeOk;
    hide PoolView.Wf;
    hide PoolView.IsLive;
    BookStep(s, t, s');
    BookKept(s, t, s');
    CodeStep(s, t, s');
    if Known(s.threads[t]).Some? {
      assert True(s.book, Known(s.threads[t]).value);
    }
    forall u | u in s.threads && u != t
      ensures CodeOk(s', s.threads[u])
    {
      OtherCode(s, t, s', u);
    }
    forall id: nat
      ensures s'.pool.IsLive(id) <==> id in Out(s'.book.log)
    {
      OutStep(s, t, s', id);
    }
  }

  /** Every step of every thread keeps the invariant, whatever ids callers release. */
  lemma InvStep(s: State, t: nat, s': State)
    requires Inv(s) && Next(s, t, s')
    ensures Inv(s') && |s'.pool.order| == |s.pool.order|
  {
    hide Next;
    hide Recorded;
    hide PoolView.Wf;
    PoolStep(s, t, s');
    BookStep(s, t, s');
    ExclusiveStep(s, t, s');
    BalancedStep(s, t, s');
    RecordedStep(s, t, s');
  }

  lemma InvOwnedStep(s: State, t: nat, s': State)
    requires InvOwned(s) && Next(s, t, s') && Careful(s, t, s')
    ensures InvOwned(s') && |s'.pool.order| == |s.pool.order|
  {
    InvStep(s, t, s');
    HandApartStep(s, t, s');
    OwnedStep(s, t, s');
  }

  // ---------------------------------------------------------------- whole runs

  ghost predicate Moves(s: State, s': State) {
    exists t :: Next(s, t, s')
  }

  ghost predicate IsRun(run: seq<State>) {
    Runs.Run(run, Init, Moves)
  }

  ghost predicate CarefulMoves(s: State, s': State) {
    exists t :: Next(s, t, s') && Careful(s, t, s')
  }

  /** A run in which all callers are careful. */
  ghost predicate IsCarefulRun(run: seq<State>) {
    Runs.Run(run, Init, CarefulMoves)
  }

  ghost predicate InvOf(s: State, max: nat) {
    Inv(s) && |s.pool.order| == max
  }

  lemma RunInv(run: seq<State>, i: nat)
    requires IsRun(run) && i < |run|
    ensures InvOf(run[i], |run[0].pool.order|)
  {
    var max := |run[0].pool.order|;
    hide Init;
    hide Next;
    hide Inv;
    var init, inv := (s: State) => Init(s) && |s.pool.order| == max, (s: State) => InvOf(s, max);
    forall s | init(s) ensures inv(s) {
      InitInv(s);
    }
    forall s, s' | inv(s) && Moves(s, s') ensures inv(s') {
      var t: nat :| Next(s, t, s');
      InvStep(s, t, s');
    }
    Runs.RunKeeps(run, init, Moves, inv, i);
  }

  lemma CarefulRunInv(run: seq<State>, i: nat)
    requires IsCarefulRun(run) && i < |run|
    ensures InvOwned(run[i]) && InvOf(run[i], |run[0].pool.order|)
  {
    var max := |run[0].pool.order|;
    hide Init;
    hide Next;
    hide Careful;
    hide Inv;
    hide HandApart;
    hide Owned;
    var init, inv := (s: State) => Init(s) && |s.pool.order| == max, (s: State) => InvOwned(s) && InvOf(s, max);
    forall s | init(s) ensures inv(s) {
      InitInv(s);
    }
    forall s, s' | inv(s) && CarefulMoves(s, s') ensures inv(s') {
      var t: nat :| Next(s, t, s') && Careful(s, t, s');
      InvOwnedStep(s, t, s');
    }
    Runs.RunKeeps(run, init, CarefulMoves, inv, i);
  }

  /** The semaphore and num_used account for every block, under any interleaving. */
  lemma BlocksConserved(run: seq<State>, i: nat)
    requires IsRun(run) && i < |run|
    ensures var s, max := run[i], |run[0].pool.order|;
            s.sem + CountAt(s.threads, Taking) + CountAt(s.threads, Returning) + s.pool.used == max
  {
    RunInv(run, i);
  }

  /** An allocation past the semaphore never fails. */
  lemma NeverFailsPastWait(run: seq<State>, i: nat, t: nat)
    requires IsRun(run) && i < |run| && t in run[i].threads
    ensures !run[i].threads[t].AFailed?
    ensures Taking(run[i].threads[t]) ==> run[i].pool.HasRoom()
  {
    RunInv(run, i);
    if Taking(run[i].threads[t]) {
      PermitCovers(run[i], t);
    }
  }

  /**
    Among careful callers no two threads have the same block, what a thread has
    is live, and no live block is lost.
   */
  lemma BlocksOwned(run: seq<State>, i: nat, t: nat, u: nat, id: nat)
    requires IsCarefulRun(run) && i < |run|
    ensures Has(run[i], t, id) ==> run[i].pool.IsLive(id)
    ensures Has(run[i], t, id) && Has(run[i], u, id) ==> t == u
    ensures run[i].pool.IsLive(id) ==> exists v :: Has(run[i], v, id)
  {
    CarefulRunInv(run, i);
  }

  /**
    Whatever id is released, by whomever: it is rejected exactly if it is not
    live at that moment, and then no block changes; otherwise exactly that block
    is given back. A second release of the same id is therefore rejected unless
    the block was handed out again in between.
   */
  lemma ReleaseOutcome(run: seq<State>, i: nat, t: nat, s': State)
    requires IsRun(run) && i < |run| && t in run[i].threads && run[i].threads[t].FCrit? && Next(run[i], t, s')
    ensures var s, id := run[i], run[i].threads[t].id;
            && t in s'.threads && (s'.threads[t].FRejected? <==> !s.pool.IsLive(id))
            && (s'.threads[t].FRejected? ==> s'.pool == s.pool)
            && (!s'.threads[t].FRejected? ==> s'.threads[t].FUnlock?)
            && s'.sem == s.sem && !s'.pool.IsLive(id)
            && forall b: nat | b != id :: s'.pool.IsLive(b) <==> s.pool.IsLive(b)
  {
    RunInv(run, i);
    FreeRefinesSet(run[i].pool, run[i].threads[t].id);
  }

  /**
    What an allocation returns: the very block it took, or an error if and only if
    it got no permit, and then it took none.
   */
  lemma AllocReturns(run: seq<State>, i: nat, t: nat, id: nat)
    requires IsRun(run) && i < |run| && t in run[i].threads && run[i].threads[t].AReturn?
    ensures var s, pc := run[i], run[i].threads[t];
            && pc.c < |s.book.calls| && s.book.calls[pc.c] == ToAlloc
            && (pc.got == Some(id) <==> (pc.c, Took(id)) in s.book.log)
            && (pc.got == None <==> !Made(s.book.log, pc.c))
            && (pc.got == None <==> pc.c !in s.granted)
  {
    RunInv(run, i);
    AccountIs(run[i].book, run[i].threads, t, Known, Fits, Took(id));
    assert CodeOk(run[i], run[i].threads[t]);
  }

  /** What a release returns: 0 if and only if it gave back the block it names, else -1, and then it gave back none. */
  lemma FreeReturns(run: seq<State>, i: nat, t: nat)
    requires IsRun(run) && i < |run| && t in run[i].threads && run[i].threads[t].FReturn?
    ensures var s, pc := run[i], run[i].threads[t];
            && pc.c < |s.book.calls| && s.book.calls[pc.c] == ToFree(pc.id)
            && (pc.ret == 0 <==> (pc.c, Gave(pc.id)) in s.book.log)
            && (pc.ret != 0 ==> pc.ret == -1 && !Made(s.book.log, pc.c))
  {
    RunInv(run, i);
    AccountIs(run[i].book, run[i].threads, t, Known, Fits, Gave(run[i].threads[t].id));
    assert CodeOk(run[i], run[i].threads[t]);
  }

  /** The live blocks are those that some call took and none gave back since; each call did so once at most. */
  lemma LiveIffOut(run: seq<State>, i: nat, id: nat, j: nat, k: nat)
    requires IsRun(run) && i < |run|
    ensures run[i].pool.IsLive(id) <==> id in Out(run[i].book.log)
    ensures j < k < |run[i].book.log| ==> run[i].book.log[j].0 != run[i].book.log[k].0
  {
    RunInv(run, i);
  }

  /** Releasing a block one has is never rejected; an id out of range always is. */
  lemma RejectedIffOutOfRange(run: seq<State>, i: nat, t: nat)
    requires IsCarefulRun(run) && i < |run| && t in run[i].threads && run[i].threads[t].FCrit?
    ensures run[i].pool.IsLive(run[i].threads[t].id) <==> run[i].threads[t].id < |run[0].pool.order|
  {
    CarefulRunInv(run, i);
    if run[i].threads[t].id < |run[0].pool.order| {
      assert Has(run[i], t, run[i].threads[t].id);
    }
  }

  // ---------------------------------------------------------------- no deadlock

  /** The thread is inside a call and not waiting for the semaphore. */
  predicate Busy(pc: PC) {
    !pc.Idle? && !pc.AWait?
  }

  lemma CanStep(s: State, t: nat) returns (s': State)
    requires s.pool.Wf() && t in s.threads && t in s.held && Busy(s.threads[t])
    requires InCrit(s.threads[t]) || s.mutex == None
    ensures Next(s, t, s')
  {
    match s.threads[t]
    case APermit(c) => s' := Goto(s, t, ACrit(c)).(mutex := Some(t));
    case ACrit(c) =>
      if s.pool.HasRoom() {
        var id := s.pool.NextId();
        s' := Goto(s, t, AUnlock(c, id)).(pool := s.pool.Alloc(), book := Doing(s, c, Took(id)));
      } else {
        s' := Goto(s, t, AFailed(c));
      }
    case AFailed(c) => s' := Goto(s, t, AReturn(c, None)).(mutex := None);
    case AUnlock(c, id) => s' := Goto(s, t, AReturn(c, Some(id))).(mutex := None);
    case AReturn(_, got) =>
      s' := Goto(s, t, Idle);
      if got.Some? {
        s' := s'.(held := s.held[t := s.held[t] + {got.value}]);
      }
    case FWant(c, id) => s' := Goto(s, t, FCrit(c, id)).(mutex := Some(t));
    case FCrit(c, id) =>
      if s.pool.IsLive(id) {
        s' := Goto(s, t, FUnlock(c, id)).(pool := s.pool.Free(id), book := Doing(s, c, Gave(id)));
      } else {
        s' := Goto(s, t, FRejected(c, id));
      }
    case FRejected(c, id) => s' := Goto(s, t, FReturn(c, id, -1)).(mutex := None);
    case FUnlock(c, id) => s' := Goto(s, t, FPost(c, id)).(mutex := None);
    case FPost(c, id) => s' := Goto(s, t, FReturn(c, id, 0)).(sem := s.sem + 1);
    case FReturn(_, _, _) => s' := Goto(s, t, Idle);
  }

  lemma BusyStep(s: State, u: nat) returns (t: nat, s': State)
    requires Inv(s) && u in s.threads && Busy(s.threads[u])
    ensures t in s.threads && Busy(s.threads[t]) && Next(s, t, s')
  {
    hide Next;
    hide PoolView.Wf;
    t := if s.mutex.Some? then s.mutex.value else u;
    s' := CanStep(s, t);
  }

  /**
    No deadlock: while some call is past the semaphore, or waits for it although
    a block is left, some thread can take a step that is not a timeout.
   */
  lemma NoDeadlock(s: State, u: nat) returns (t: nat, s': State)
    requires Inv(s) && u in s.threads
    requires Busy(s.threads[u]) || (s.threads[u].AWait? && s.pool.HasRoom())
    ensures t in s.threads && Next(s, t, s') && (Busy(s.threads[t]) || s'.threads[t].APermit?)
  {
    hide PoolView.Wf;
    hide CountAt;
    if s.threads[u].AWait? && s.sem > 0 {
      var c := s.threads[u].c;
      t, s' := u, Goto(s, u, APermit(c)).(sem := s.sem - 1, granted := s.granted + {c});
    } else {
      var w := u;
      if !Busy(s.threads[u]) {
        if CountAt(s.threads, Taking) > 0 {
          w := CountWitness(s.threads, Taking);
        } else {
          w := CountWitness(s.threads, Returning);
        }
      }
      t, s' := BusyStep(s, w);
    }
  }
}
