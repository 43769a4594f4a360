/**
  The keyed store of em_gdatamng.c: a linear-scan dictionary with reference
  counts whose entries are blocks of a pool. A table of blocks, keys and counts
  stands for a finite map from key to data and count.
 */
module KeyStore {
  import opened Basics
  import opened Mempool

  /** EM_DMNG_KEY_STRING, or anything else, which is compared byte by byte. */
  datatype KeyType = StringKey | BytesKey

  /** EM_DMNG_DPLCT_ERROR, _UPDATE, _COUNTUP, or an unknown mode. */
  datatype Mode = ErrorMode | UpdateMode | CountUpMode | UnknownMode

  // ---------------------------------------------------------------- keys

  /** strncmp(a, b, n) == 0: equal up to the first difference, the first NUL or `n` bytes. */
  predicate StrncmpEqual(a: Bytes, b: Bytes, n: nat)
    requires n <= |a| && n <= |b|
    decreases n
  {
    n == 0 || (a[0] == b[0] && (a[0] == 0 || StrncmpEqual(a[1..], b[1..], n - 1)))
  }

  /** The bytes before the first NUL. */
  function BeforeNul(a: Bytes): Bytes {
    if a == [] || a[0] == 0 then [] else [a[0]] + BeforeNul(a[1..])
  }

  /** What a key stands for. */
  function Norm(kt: KeyType, key: Bytes): Bytes {
    match kt
    case StringKey => BeforeNul(key)
    case BytesKey => key
  }

  /** _em_gdatamng_keycmp(...) == 0 */
  predicate KeyEqual(kt: KeyType, a: Bytes, b: Bytes, n: nat)
    requires |a| == |b| == n
  {
    match kt
    case StringKey => StrncmpEqual(a, b, n)
    case BytesKey => a == b
  }

  lemma {:induction false} StrncmpIsNorm(a: Bytes, b: Bytes, n: nat)
    requires |a| == |b| == n
    ensures StrncmpEqual(a, b, n) <==> BeforeNul(a) == BeforeNul(b)
    decreases n
  {
    if n > 0 {
      assert a[0] != 0 ==> BeforeNul(a) != [] && BeforeNul(a)[0] == a[0] && BeforeNul(a)[1..] == BeforeNul(a[1..]);
      assert b[0] != 0 ==> BeforeNul(b) != [] && BeforeNul(b)[0] == b[0] && BeforeNul(b)[1..] == BeforeNul(b[1..]);
      if a[0] == b[0] != 0 {
        StrncmpIsNorm(a[1..], b[1..], n - 1);
      }
    }
  }

  /** Comparing two keys of the store's key size decides whether they stand for the same thing. */
  lemma KeyEqualIsNorm(kt: KeyType, a: Bytes, b: Bytes, n: nat)
    requires |a| == |b| == n
    ensures KeyEqual(kt, a, b, n) <==> Norm(kt, a) == Norm(kt, b)
  {
    StrncmpIsNorm(a, b, n);
  }

  /**
    When two keys of the same size are the same key, in so many words: string keys
    that agree up to their end or a common NUL, other keys that agree in every byte.
   */
  ghost predicate SameKey(kt: KeyType, a: Bytes, b: Bytes)
    requires |a| == |b|
  {
    match kt
    case StringKey => exists m :: AgreeUpTo(a, b, m)
    case BytesKey => forall i | 0 <= i < |a| :: a[i] == b[i]
  }

  /** The first `m` bytes agree, and there both end or have a NUL. */
  ghost predicate AgreeUpTo(a: Bytes, b: Bytes, m: int)
    requires |a| == |b|
  {
    0 <= m <= |a| && a[..m] == b[..m] && (m == |a| || a[m] == b[m] == 0)
  }

  lemma {:induction false} StrncmpAgrees(a: Bytes, b: Bytes, n: nat)
    requires |a| == |b| == n
    ensures StrncmpEqual(a, b, n) <==> exists m :: AgreeUpTo(a, b, m)
    decreases n
  {
    if n == 0 {
      assert AgreeUpTo(a, b, 0);
    } else {
      StrncmpAgrees(a[1..], b[1..], n - 1);
      if a[0] == b[0] == 0 {
        assert AgreeUpTo(a, b, 0);
      } else if a[0] == b[0] {
        if m :| AgreeUpTo(a[1..], b[1..], m) {
          assert a[..m + 1] == [a[0]] + a[1..][..m] && b[..m + 1] == [b[0]] + b[1..][..m];
          assert AgreeUpTo(a, b, m + 1);
        }
        if m :| AgreeUpTo(a, b, m) {
          assert m > 0;
          assert a[1..][..m - 1] == a[..m][1..] && b[1..][..m - 1] == b[..m][1..];
          assert AgreeUpTo(a[1..], b[1..], m - 1);
        }
      } else {
        forall m ensures !AgreeUpTo(a, b, m) {
          assert m > 0 && m <= n ==> a[..m][0] == a[0] && b[..m][0] == b[0];
        }
      }
    }
  }

  /** The comparison of the code finds exactly the keys that are the same. */
  lemma KeyEqualIff(kt: KeyType, a: Bytes, b: Bytes, n: nat)
    requires |a| == |b| == n
    ensures KeyEqual(kt, a, b, n) <==> SameKey(kt, a, b)
    ensures Norm(kt, a) == Norm(kt, b) <==> SameKey(kt, a, b)
  {
    KeyEqualIsNorm(kt, a, b, n);
    match kt
    case StringKey => StrncmpAgrees(a, b, n);
    case BytesKey => assert a == b <==> forall i | 0 <= i < |a| :: a[i] == b[i];
  }

  // ---------------------------------------------------------------- the table and its map

  datatype Entry = Entry(data: Bytes, count: int)

  /** Key and entry of every live block. */
  type Blocks = map<nat, (Bytes, Entry)>

  /** The blocks list the map: one block per key, each with a positive count. */
  ghost predicate Lists(b: Blocks, m: map<Bytes, Entry>) {
    && (forall i | i in b :: b[i].0 in m && m[b[i].0] == b[i].1 && b[i].1.count > 0)
    && (forall i, j | i in b && j in b && b[i].0 == b[j].0 :: i == j)
    && (forall k | k in m :: exists i :: i in b && b[i].0 == k)
  }

  lemma ListsInsert(b: Blocks, m: map<Bytes, Entry>, id: nat, k: Bytes, e: Entry)
    requires Lists(b, m) && id !in b && k !in m && e.count > 0
    ensures Lists(b[id := (k, e)], m[k := e])
  {
    var b', m' := b[id := (k, e)], m[k := e];
    forall x | x in m'
      ensures exists i :: i in b' && b'[i].0 == x
    {
      if x == k {
        assert b'[id].0 == x;
      } else {
        var i :| i in b && b[i].0 == x;
        assert b'[i].0 == x;
      }
    }
  }

  lemma ListsUpdate(b: Blocks, m: map<Bytes, Entry>, id: nat, e: Entry)
    requires Lists(b, m) && id in b && e.count > 0
    ensures b[id].0 in m && Lists(b[id := (b[id].0, e)], m[b[id].0 := e])
  {
    var b', m' := b[id := (b[id].0, e)], m[b[id].0 := e];
    forall x | x in m'
      ensures exists i :: i in b' && b'[i].0 == x
    {
      var i :| i in b && b[i].0 == x;
      assert b'[i].0 == x;
    }
  }

  lemma ListsRemove(b: Blocks, m: map<Bytes, Entry>, id: nat)
    requires Lists(b, m) && id in b
    ensures b[id].0 in m && Lists(b - {id}, m - {b[id].0}) && |m - {b[id].0}| == |m| - 1
  {
    var k, b', m' := b[id].0, b - {id}, m - {b[id].0};
    forall x | x in m'
      ensures exists i :: i in b' && b'[i].0 == x
    {
      var i :| i in b && b[i].0 == x;
      assert b'[i].0 == x;
    }
    assert m'.Keys == m.Keys - {k};
    assert |m.Keys - {k}| == |m.Keys| - 1;
  }

  /** The pool's tables, and per block its key, its count and its data. */
  datatype Table = Table(kt: KeyType, pool: PoolView, keys: seq<Bytes>, counts: seq<int>, data: seq<Bytes>) {

    ghost predicate Shape() {
      pool.Wf() && |keys| == |counts| == |data| == |pool.order|
    }

    ghost function Live(): (b: Blocks)
      requires Shape()
      ensures forall i: nat :: i in b <==> pool.IsLive(i)
      ensures forall i: nat | i in b :: i < |keys| && b[i] == (Norm(kt, keys[i]), Entry(data[i], counts[i]))
    {
      map i: nat | i < |pool.pos| && pool.IsLive(i) :: (Norm(kt, keys[i]), Entry(data[i], counts[i]))
    }

    /** The live blocks are the entries of `m`. */
    ghost predicate Represents(m: map<Bytes, Entry>) {
      Shape() && Lists(Live(), m) && |m| == pool.used
    }
  }

  /** A table stands for one map only. */
  lemma MapUnique(t: Table, m1: map<Bytes, Entry>, m2: map<Bytes, Entry>)
    requires t.Represents(m1) && t.Represents(m2)
    ensures m1 == m2
  {
    forall k | k in m1 || k in m2
      ensures k in m1 && k in m2 && m1[k] == m2[k]
    {
      var i :| i in t.Live() && t.Live()[i].0 == k;
    }
  }

  /** A block newly taken from the pool becomes a new entry. */
  function Inserted(t: Table, key: Bytes, value: Bytes): Table
    requires t.Shape() && t.pool.HasRoom()
  {
    var id := t.pool.NextId();
    Table(t.kt, t.pool.Alloc(), t.keys[id := key], t.counts[id := 1], t.data[id := value])
  }

  lemma InsertedLive(t: Table, key: Bytes, value: Bytes)
    requires t.Shape() && t.pool.HasRoom()
    ensures var id, t' := t.pool.NextId(), Inserted(t, key, value);
            && t'.Shape() && id !in t.Live()
            && t'.Live() == t.Live()[id := (Norm(t.kt, key), Entry(value, 1))]
  {
    var t' := Inserted(t, key, value);
    AllocRefinesSet(t.pool);
    forall i: nat
      ensures t'.pool.IsLive(i) <==> t.pool.IsLive(i) || i == t.pool.NextId()
    {
      assert i in t.pool.Alloc().LiveIds() <==> i in t.pool.LiveIds() || i == t.pool.NextId();
    }
    hide PoolView.IsLive;
  }

  lemma InsertAddsEntry(t: Table, m: map<Bytes, Entry>, key: Bytes, value: Bytes)
    requires t.Represents(m) && t.pool.HasRoom() && Norm(t.kt, key) !in m
    ensures Inserted(t, key, value).Represents(m[Norm(t.kt, key) := Entry(value, 1)])
  {
    hide Lists;
    InsertedLive(t, key, value);
    ListsInsert(t.Live(), m, t.pool.NextId(), Norm(t.kt, key), Entry(value, 1));
  }

  /** Data and count of a live block change. */
  function Overwritten(t: Table, id: nat, value: Bytes, count: int): Table
    requires id < |t.data| == |t.counts|
  {
    t.(data := t.data[id := value], counts := t.counts[id := count])
  }

  lemma OverwrittenLive(t: Table, id: nat, value: Bytes, count: int)
    requires t.Shape() && t.pool.IsLive(id)
    ensures id < |t.keys| && Overwritten(t, id, value, count).Shape() && id in t.Live()
    ensures Overwritten(t, id, value, count).Live()
            == t.Live()[id := (Norm(t.kt, t.keys[id]), Entry(value, count))]
  {
  }

  lemma OverwriteUpdatesEntry(t: Table, m: map<Bytes, Entry>, id: nat, value: Bytes, count: int)
    requires t.Represents(m) && t.pool.IsLive(id) && count > 0
    ensures id < |t.keys| == |t.data| == |t.counts|
    ensures Overwritten(t, id, value, count).Represents(m[Norm(t.kt, t.keys[id]) := Entry(value, count)])
  {
    hide Lists;
    hide Norm;
    OverwrittenLive(t, id, value, count);
    ListsUpdate(t.Live(), m, id, Entry(value, count));
    hide PoolView.Wf;
    assert |m[Norm(t.kt, t.keys[id]) := Entry(value, count)]| == |m|;
  }

  /** A live block goes back to the pool. */
  function Released(t: Table, id: nat, count: int): Table
    requires t.Shape() && t.pool.IsLive(id)
  {
    t.(pool := t.pool.Free(id), counts := t.counts[id := count])
  }

  lemma ReleasedLive(t: Table, id: nat, count: int)
    requires t.Shape() && t.pool.IsLive(id)
    ensures id < |t.keys| && id in t.Live() && t.Live()[id].0 == Norm(t.kt, t.keys[id])
    ensures Released(t, id, count).Shape() && Released(t, id, count).pool.used == t.pool.used - 1
    ensures Released(t, id, count).Live() == t.Live() - {id}
  {
    FreeWf(t.pool, id);
    FreeRefinesSet(t.pool, id);
    hide PoolView.Wf;
    hide Norm;
  }

  lemma ReleaseDropsEntry(t: Table, m: map<Bytes, Entry>, id: nat, count: int)
    requires t.Represents(m) && t.pool.IsLive(id)
    ensures id < |t.keys|
    ensures Released(t, id, count).Represents(m - {Norm(t.kt, t.keys[id])})
  {
    hide Lists;
    hide Norm;
    hide PoolView.Wf;
    ReleasedLive(t, id, count);
    ListsRemove(t.Live(), m, id);
  }

  /** Block `id` is live and stands for key `k`. */
  ghost predicate Holds(t: Table, id: int, k: Bytes) {
    t.Shape() && id >= 0 && id in t.Live() && t.Live()[id].0 == k
  }

  lemma CanBeFreed(t: Table, m: map<Bytes, Entry>, id: nat)
    requires t.Represents(m)
    ensures t.pool.Free.requires(id)
  {
  }

  lemma HoldsOnce(t: Table, m: map<Bytes, Entry>, i: int, j: int, k: Bytes)
    requires t.Represents(m) && Holds(t, i, k) && Holds(t, j, k)
    ensures i == j
  {
  }

  /** While blocks 0, 1, 2, ... are the live ones in this order, only the removal of the last keeps it so. */
  lemma RemovalKeepsIdentityIff(t: Table, m: map<Bytes, Entry>, id: nat, k: Bytes)
    requires t.Represents(m) && IdentityPrefix(t.pool) && Holds(t, id, k)
    ensures t.pool.Wf() && t.pool.IsLive(id)
    ensures IdentityPrefix(t.pool.Free(id)) <==> Holds(t, t.pool.used - 1, k)
  {
    FreeKeepsIdentityIff(t.pool, id);
    if Holds(t, t.pool.used - 1, k) {
      HoldsOnce(t, m, id, t.pool.used - 1, k);
    }
  }

  /** A key of the map is found at some position of the used prefix. */
  lemma KeyHasPosition(t: Table, m: map<Bytes, Entry>, k: Bytes)
    requires t.Represents(m)
    ensures k in m ==> exists p :: 0 <= p < t.pool.used && Holds(t, t.pool.order[p], k)
  {
    if k in m {
      var j :| j in t.Live() && t.Live()[j].0 == k;
      assert t.pool.order[t.pool.pos[j]] == j;
    }
  }

  lemma HoldsIff(t: Table, id: nat, key: Bytes, n: nat)
    requires t.Shape() && t.pool.IsLive(id) && |t.keys[id]| == |key| == n
    ensures Holds(t, id, Norm(t.kt, key)) <==> KeyEqual(t.kt, t.keys[id], key, n)
  {
    KeyEqualIsNorm(t.kt, t.keys[id], key, n);
  }

  /** What a block holds is what the map says. */
  lemma HeldEntry(t: Table, m: map<Bytes, Entry>, id: nat, k: Bytes)
    requires t.Represents(m) && Holds(t, id, k)
    ensures id < |t.data| == |t.counts| == |t.keys| && t.pool.IsLive(id) && Norm(t.kt, t.keys[id]) == k
    ensures k in m && m[k] == Entry(t.data[id], t.counts[id]) && t.counts[id] > 0
  {
  }

  /** The pool has room exactly below capacity. */
  lemma RoomForKey(t: Table, m: map<Bytes, Entry>)
    requires t.Represents(m)
    ensures t.Shape() && t.pool.used <= |t.pool.order|
    ensures t.pool.HasRoom() <==> |m| < |t.keys|
    ensures t.pool.HasRoom() ==> t.pool.NextId() < |t.keys|
  {
  }

  // ---------------------------------------------------------------- reverse lookup

  /** The first position from `i` on whose block's data satisfies the comparator, or -1. */
  function FirstMatch(t: Table, cmp: Bytes -> bool, i: nat): (p: int)
    requires t.Shape() && i <= t.pool.used
    ensures -1 <= p < t.pool.used
    ensures p >= 0 ==> i <= p && cmp(t.data[t.pool.order[p]])
    ensures forall q | i <= q < (if p < 0 then t.pool.used else p) :: !cmp(t.data[t.pool.order[q]])
    decreases t.pool.used - i
  {
    if i == t.pool.used then -1
    else if cmp(t.data[t.pool.order[i]]) then i
    else FirstMatch(t, cmp, i + 1)
  }

  lemma FirstMatchStep(t: Table, cmp: Bytes -> bool, i: nat)
    requires t.Shape() && i < t.pool.used
    ensures i < |t.pool.order| && t.pool.order[i] < |t.data|
    ensures FirstMatch(t, cmp, i) == if cmp(t.data[t.pool.order[i]]) then i else FirstMatch(t, cmp, i + 1)
  {
  }

  lemma FirstMatchEnd(t: Table, cmp: Bytes -> bool)
    requires t.Shape()
    ensures FirstMatch(t, cmp, t.pool.used) == -1
  {
  }

  /** The slot whose key em_gdatamng_get_key_by_func returns: the id of the block that matched. */
  function KeySlotByFunc(t: Table, cmp: Bytes -> bool): int
    requires t.Shape()
  {
    var p := FirstMatch(t, cmp, 0);
    if p < 0 then -1 else t.pool.order[p]
  }

  /** The slot whose key em_gdatamng_get_key returns: the position of the match, not its block's id. */
  function KeySlotAsWritten(t: Table, cmp: Bytes -> bool): int
    requires t.Shape()
  {
    FirstMatch(t, cmp, 0)
  }

  /** The lookup by block id finds a live key whose data matches, exactly when there is one. */
  lemma ByFuncFindsLiveKey(t: Table, m: map<Bytes, Entry>, cmp: Bytes -> bool)
    requires t.Represents(m)
    ensures var slot := KeySlotByFunc(t, cmp);
            && (slot >= 0 <==> exists k :: k in m && cmp(m[k].data))
            && (slot >= 0 ==>
                  && slot < |t.keys| && Norm(t.kt, t.keys[slot]) in m
                  && cmp(m[Norm(t.kt, t.keys[slot])].data))
  {
    var slot := KeySlotByFunc(t, cmp);
    if slot >= 0 {
      assert slot in t.Live();
    }
    if k :| k in m && cmp(m[k].data) {
      KeyHasPosition(t, m, k);
      var p :| 0 <= p < t.pool.used && Holds(t, t.pool.order[p], k);
      assert cmp(t.data[t.pool.order[p]]);
    }
  }

  /** The lookup as written returns the same slot exactly when the matching block stands at its own position. */
  lemma GetKeyAgreesIff(t: Table, cmp: Bytes -> bool)
    requires t.Shape()
    ensures var p := FirstMatch(t, cmp, 0);
            KeySlotAsWritten(t, cmp) == KeySlotByFunc(t, cmp) <==> (p >= 0 ==> t.pool.order[p] == p)
    ensures IdentityPrefix(t.pool) ==> KeySlotAsWritten(t, cmp) == KeySlotByFunc(t, cmp)
  {
  }

  /** Position `p` of the used prefix holds the first occurrence of its data. */
  ghost predicate FirstOfData(t: Table, p: int)
    requires t.Shape()
  {
    0 <= p < t.pool.used && forall q | 0 <= q < p :: t.data[t.pool.order[q]] != t.data[t.pool.order[p]]
  }

  /** The key that slot `p` holds, or still holds, is that of some live block with the data found at position `p`. */
  ghost predicate SlotAnswers(t: Table, p: int)
    requires t.Shape()
  {
    && 0 <= p < t.pool.used
    && exists q :: 0 <= q < t.pool.used && t.data[t.pool.order[q]] == t.data[t.pool.order[p]]
                   && Norm(t.kt, t.keys[t.pool.order[q]]) == Norm(t.kt, t.keys[p])
  }

  /** Where the searched data first occurs, the slot of that number answers for it. */
  ghost predicate AnswersFor(t: Table, search: Bytes)
    requires t.Shape()
  {
    forall p | FirstOfData(t, p) && t.data[t.pool.order[p]] == search :: SlotAnswers(t, p)
  }

  /** What em_gdatamng_get_key is for: the key it returns, if any, is in the store with the searched data. */
  ghost predicate AnsweredRightly(t: Table, m: map<Bytes, Entry>, search: Bytes)
    requires t.Shape()
  {
    var slot := KeySlotAsWritten(t, d => d == search);
    slot >= 0 ==> slot < |t.keys| && Norm(t.kt, t.keys[slot]) in m && m[Norm(t.kt, t.keys[slot])].data == search
  }

  /** A key is in the store with some data exactly if a position of the used prefix has both. */
  lemma KeyWithData(t: Table, m: map<Bytes, Entry>, k: Bytes, value: Bytes)
    requires t.Represents(m)
    ensures k in m && m[k].data == value <==>
            exists q :: 0 <= q < t.pool.used && t.data[t.pool.order[q]] == value
                        && Norm(t.kt, t.keys[t.pool.order[q]]) == k
  {
    if k in m {
      KeyHasPosition(t, m, k);
      var q :| 0 <= q < t.pool.used && Holds(t, t.pool.order[q], k);
      HeldEntry(t, m, t.pool.order[q], k);
    }
    forall q | 0 <= q < t.pool.used && t.data[t.pool.order[q]] == value && Norm(t.kt, t.keys[t.pool.order[q]]) == k
      ensures k in m && m[k].data == value
    {
      assert t.pool.IsLive(t.pool.order[q]);
      HeldEntry(t, m, t.pool.order[q], k);
    }
  }

  /** Of a live slot only the data matters: it answers exactly if its block has the data found at position `p`. */
  lemma LiveSlotAnswersIff(t: Table, m: map<Bytes, Entry>, p: nat)
    requires t.Represents(m) && p < t.pool.used && t.pool.IsLive(p)
    ensures p < |t.data| && t.pool.order[p] < |t.data|
    ensures SlotAnswers(t, p) <==> t.data[p] == t.data[t.pool.order[p]]
  {
    var value, k := t.data[t.pool.order[p]], Norm(t.kt, t.keys[p]);
    KeyWithData(t, m, k, value);
    HeldEntry(t, m, p, k);
  }

  /**
    So every search is answered rightly if and only if, for every first occurrence
    of some data, the slot of that position is live with the same data, or not
    live and left with the key of a live block that has it.
   */
  lemma GetKeyAlwaysRightBySlots(t: Table, m: map<Bytes, Entry>)
    requires t.Represents(m)
    ensures (forall search :: AnsweredRightly(t, m, search)) <==>
            forall p | FirstOfData(t, p) ::
              if t.pool.IsLive(p) then t.data[p] == t.data[t.pool.order[p]] else SlotAnswers(t, p)
  {
    GetKeyAlwaysRightIff(t, m);
    forall p | FirstOfData(t, p) && t.pool.IsLive(p)
      ensures SlotAnswers(t, p) <==> t.data[p] == t.data[t.pool.order[p]]
    {
      LiveSlotAnswersIff(t, m, p);
    }
  }

  /** A search as written is answered rightly if and only if the slot it picks answers for the data. */
  lemma GetKeyRightIff(t: Table, m: map<Bytes, Entry>, search: Bytes)
    requires t.Represents(m)
    ensures AnsweredRightly(t, m, search) <==> AnswersFor(t, search)
  {
    var p := FirstMatch(t, d => d == search, 0);
    if p >= 0 {
      assert FirstOfData(t, p);
      KeyWithData(t, m, Norm(t.kt, t.keys[p]), search);
      assert forall q | FirstOfData(t, q) && t.data[t.pool.order[q]] == search :: q == p;
    }
  }

  /** Every search is, if and only if every first occurrence has a slot that answers for it. */
  lemma GetKeyAlwaysRightIff(t: Table, m: map<Bytes, Entry>)
    requires t.Represents(m)
    ensures (forall search :: AnsweredRightly(t, m, search)) <==> forall p | FirstOfData(t, p) :: SlotAnswers(t, p)
  {
    forall search
      ensures AnsweredRightly(t, m, search) <==> AnswersFor(t, search)
    {
      GetKeyRightIff(t, m, search);
    }
    if forall search :: AnsweredRightly(t, m, search) {
      forall p | FirstOfData(t, p)
        ensures SlotAnswers(t, p)
      {
        assert AnsweredRightly(t, m, t.data[t.pool.order[p]]);
      }
    }
  }

  ghost predicate DataDiffer(t: Table)
    requires t.Shape()
  {
    forall p, q | 0 <= p < q < t.pool.used :: t.data[t.pool.order[p]] != t.data[t.pool.order[q]]
  }

  /**
    With pairwise different data, every search is answered rightly if and only if
    every block of the used prefix stands at its own position, or that position's
    slot is not live and happens to hold the block's key still.
   */
  lemma GetKeyRightForDifferent(t: Table, m: map<Bytes, Entry>)
    requires t.Represents(m) && DataDiffer(t)
    ensures (forall search :: AnsweredRightly(t, m, search)) <==>
            forall p | 0 <= p < t.pool.used ::
              || t.pool.order[p] == p
              || (!t.pool.IsLive(p) && Norm(t.kt, t.keys[p]) == Norm(t.kt, t.keys[t.pool.order[p]]))
  {
    GetKeyAlwaysRightIff(t, m);
    forall p | 0 <= p < t.pool.used
      ensures FirstOfData(t, p)
      ensures SlotAnswers(t, p) <==>
              || t.pool.order[p] == p
              || (!t.pool.IsLive(p) && Norm(t.kt, t.keys[p]) == Norm(t.kt, t.keys[t.pool.order[p]]))
    {
      SlotAnswersDifferent(t, m, p);
    }
  }

  lemma SlotAnswersDifferent(t: Table, m: map<Bytes, Entry>, p: nat)
    requires t.Represents(m) && DataDiffer(t) && p < t.pool.used
    ensures FirstOfData(t, p)
    ensures SlotAnswers(t, p) <==> Norm(t.kt, t.keys[p]) == Norm(t.kt, t.keys[t.pool.order[p]])
    ensures t.pool.IsLive(p) && Norm(t.kt, t.keys[p]) == Norm(t.kt, t.keys[t.pool.order[p]]) ==> t.pool.order[p] == p
  {
    var id := t.pool.order[p];
    assert t.pool.IsLive(id) && id in t.Live();
    if t.pool.IsLive(p) && Norm(t.kt, t.keys[p]) == Norm(t.kt, t.keys[id]) {
      assert p in t.Live() && t.Live()[p].0 == t.Live()[id].0;
    }
  }

  /** Keys 1 and 2 were added and key 1 was removed. */
  function AfterRemoval(): Table {
    Table(BytesKey, FreshPool(2).Alloc().Alloc().Free(0), [[1], [2]], [0, 1], [[7], [8]])
  }

  /** A new store for two keys. */
  function NewTable(): Table {
    Table(BytesKey, FreshPool(2), [[0], [0]], [0, 0], [[], []])
  }

  function OneAdded(): Table {
    Table(BytesKey, FreshPool(2).Alloc(), [[1], [0]], [1, 0], [[7], []])
  }

  function BothAdded(): Table {
    Table(BytesKey, FreshPool(2).Alloc().Alloc(), [[1], [2]], [1, 1], [[7], [8]])
  }

  lemma AddsFirst()
    ensures NewTable().Represents(map[]) && NewTable().pool.HasRoom()
    ensures Inserted(NewTable(), [1], [7]) == OneAdded() && OneAdded().Represents(map[[1] := Entry([7], 1)])
  {
    assert NewTable().Live() == map[];
    InsertAddsEntry(NewTable(), map[], [1], [7]);
  }

  lemma SecondTable()
    ensures OneAdded().Shape() && OneAdded().pool.HasRoom() && Inserted(OneAdded(), [2], [8]) == BothAdded()
  {
  }

  lemma AddsSecond()
    ensures BothAdded().Represents(map[[1] := Entry([7], 1), [2] := Entry([8], 1)])
  {
    hide Table.Represents;
    hide Table.Shape;
    hide PoolView.Wf;
    AddsFirst();
    SecondTable();
    var m := map[[1] := Entry([7], 1)];
    InsertAddsEntry(OneAdded(), m, [2], [8]);
    assert m[[2] := Entry([8], 1)] == map[[1] := Entry([7], 1), [2] := Entry([8], 1)];
  }

  lemma RemovesFirst()
    ensures BothAdded().Shape() && BothAdded().pool.IsLive(0) && Released(BothAdded(), 0, 0) == AfterRemoval()
  {
  }

  /** Two additions to a new store and the removal of the first key lead to the state above. */
  lemma AfterRemovalReached()
    ensures NewTable().Represents(map[]) && NewTable().pool.HasRoom()
    ensures Inserted(NewTable(), [1], [7]) == OneAdded()
    ensures OneAdded().Shape() && OneAdded().pool.HasRoom() && Inserted(OneAdded(), [2], [8]) == BothAdded()
    ensures BothAdded().Represents(map[[1] := Entry([7], 1), [2] := Entry([8], 1)])
    ensures BothAdded().pool.IsLive(0) && Released(BothAdded(), 0, 0) == AfterRemoval()
  {
    hide *;
    AddsFirst();
    SecondTable();
    AddsSecond();
    RemovesFirst();
  }

  /** As written, looking up the data of the remaining key then returns the key that was removed. */
  lemma GetKeyReturnsRemovedKey()
    ensures AfterRemoval().Represents(map[[2] := Entry([8], 1)])
    ensures KeySlotAsWritten(AfterRemoval(), d => d == [8]) == 0
    ensures Norm(BytesKey, AfterRemoval().keys[0]) == [1]
    ensures KeySlotByFunc(AfterRemoval(), d => d == [8]) == 1
  {
    var t := AfterRemoval();
    assert t.pool.order == [1, 0] && t.pool.pos == [1, 0] && t.pool.used == 1;
    assert t.Live() == map[1 := ([2], Entry([8], 1))];
  }

  lemma BlocksFollowBase(pool: Pool)
    requires pool.Valid()
    ensures pool.blockSize > 0 && forall b: nat :: pool.rawdata <= pool.Addr(b)
  {
    forall b: nat
      ensures pool.rawdata <= pool.Addr(b)
    {
      assert pool.blockSize * b >= 0;
    }
  }

  // ---------------------------------------------------------------- the object

  class DataMng {
    const kt: KeyType
    const mode: Mode
    const keySize: nat
    const pool: Pool
    const keys: array<Bytes>
    const counts: array<int>
    const data: array<Bytes>
    ghost var contents: map<Bytes, Entry>

    ghost function View(): Table
      reads this, pool, pool.Repr, keys, counts, data
    {
      Table(kt, pool.view, keys[..], counts[..], data[..])
    }

    ghost predicate Valid()
      reads this, pool, pool.Repr, keys, counts, data
    {
      && pool.Valid() && keys.Length == counts.Length == data.Length == pool.numMax
      && {this, keys, counts, data} !! pool.Repr && keys != data
      && (forall i | 0 <= i < keys.Length :: |keys[i]| == keySize)
      && View().Represents(contents)
    }

    /** em_gdatamng_create */
    constructor (kt: KeyType, mode: Mode, keySize: nat, dataSize: nat, dataNum: nat)
      requires dataSize > 0
      ensures Valid() && contents == map[]
      ensures fresh(pool.Repr) && fresh(keys) && fresh(counts) && fresh(data)
      ensures this.kt == kt && this.mode == mode && this.keySize == keySize && pool.numMax == dataNum
      ensures IdentityPrefix(pool.view)
    {
      this.kt, this.mode, this.keySize := kt, mode, keySize;
      var p := new Pool(dataSize, dataNum, 0);
      pool := p;
      keys := new Bytes[dataNum](_ => seq(keySize, _ => 0));
      counts := new int[dataNum](_ => 0);
      data := new Bytes[dataNum](_ => []);
      contents := map[];
    }

    /** _em_gdatamng_get_dataidx and _em_gdatamng_get_blockinfo: the live block that holds the key, if any. */
    method Find(key: Bytes) returns (id: int)
      requires Valid() && |key| == keySize
      ensures id < 0 ==> Norm(kt, key) !in contents
      ensures id >= 0 ==> Holds(View(), id, Norm(kt, key)) && id < pool.numMax
    {
      hide Table.Represents;
      hide Table.Shape;
      hide Holds;
      hide Norm;
      hide PoolView.Wf;
      ghost var t, k := View(), Norm(kt, key);
      KeyHasPosition(t, contents, k);
      RoomForKey(t, contents);
      id := -1;
      var i, num := 0, pool.numUsed;
      assert num == t.pool.used;
      hide Pool.Valid;
      while i < num && id < 0
        invariant i <= num
        invariant id < 0 ==> forall p | 0 <= p < i :: !Holds(t, t.pool.order[p], k)
        invariant id >= 0 ==> Holds(t, id, k) && id < pool.numMax
      {
        var idx := pool.IndexAt(i);
        var same := HoldsKey(idx, key);
        if same {
          id := idx;
        }
        i := i + 1;
      }
    }

    method HoldsKey(idx: nat, key: Bytes) returns (same: bool)
      requires Valid() && |key| == keySize && idx < pool.numMax && pool.view.IsLive(idx)
      ensures same <==> Holds(View(), idx, Norm(kt, key))
    {
      RoomForKey(View(), contents);
      HoldsIff(View(), idx, key, keySize);
      same := KeyEqual(kt, keys[idx], key, keySize);
    }

    /** em_gdatamng_add_data */
    method AddData(key: Bytes, value: Bytes) returns (ret: int)
      requires Valid() && |key| == keySize
      modifies this`contents, pool.Repr, keys, counts, data
      ensures Valid()
      ensures var m, k := old(contents), Norm(kt, key);
              if k !in m then
                if |m| < pool.numMax then ret == 0 && contents == m[k := Entry(value, 1)]
                else ret == -1 && contents == m
              else match mode
                case ErrorMode => ret == -1 && contents == m
                case UpdateMode => ret == 0 && contents == m[k := Entry(value, m[k].count)]
                case CountUpMode => ret == 0 && contents == m[k := Entry(m[k].data, m[k].count + 1)]
                case UnknownMode => ret == -1 && contents == m
      ensures IdentityPrefix(old(pool.view)) ==> IdentityPrefix(pool.view)
    {
      ghost var t, m, k := View(), contents, Norm(kt, key);
      ret := -1;
      var id := Find(key);
      hide Table.Represents;
      if id < 0 {
        ret := Insert(key, value);
      } else {
        ret := Repeat(id, value, k);
      }
    }

    /** The part of em_gdatamng_add_data for a key that is not there yet. */
    method Insert(key: Bytes, value: Bytes) returns (ret: int)
      requires Valid() && |key| == keySize && Norm(kt, key) !in contents
      modifies this`contents, pool.Repr, keys, counts, data
      ensures Valid()
      ensures if |old(contents)| < pool.numMax
              then ret == 0 && contents == old(contents)[Norm(kt, key) := Entry(value, 1)]
              else ret == -1 && contents == old(contents)
      ensures IdentityPrefix(old(pool.view)) ==> IdentityPrefix(pool.view)
    {
      hide Table.Represents;
      hide Table.Shape;
      hide Norm;
      hide Pool.Valid;
      ghost var t, m := View(), contents;
      RoomForKey(t, m);
      if t.pool.HasRoom() {
        InsertAddsEntry(t, m, key, value);
      }
      hide PoolView.Wf;
      var addr;
      BlocksFollowBase(pool);
      ret, addr := pool.AllocBlock();
      if ret == 0 {
        var id := pool.GetDataidx(addr);
        pool.AddrInverts(t.pool.NextId(), id, 0);
        hide Pool.Addr;
        data[id] := value;
        keys[id] := key;
        counts[id] := 1;
        contents := m[Norm(kt, key) := Entry(value, 1)];
        assert View() == Inserted(t, key, value);
      }
    }

    /** The part of em_gdatamng_add_data for a key that block `id` holds. */
    method Repeat(id: nat, value: Bytes, ghost k: Bytes) returns (ret: int)
      requires Valid() && id < pool.numMax && Holds(View(), id, k) && k in contents
      modifies this`contents, counts, data
      ensures Valid() && pool.view == old(pool.view)
      ensures var m := old(contents);
              match mode
              case ErrorMode => ret == -1 && contents == m
              case UpdateMode => ret == 0 && contents == m[k := Entry(value, m[k].count)]
              case CountUpMode => ret == 0 && contents == m[k := Entry(m[k].data, m[k].count + 1)]
              case UnknownMode => ret == -1 && contents == m
    {
      hide Table.Represents;
      hide Holds;
      hide Table.Shape;
      hide Norm;
      hide Pool.Valid;
      ghost var t, m := View(), contents;
      HeldEntry(t, m, id, k);
      OverwriteUpdatesEntry(t, m, id, value, counts[id]);
      OverwriteUpdatesEntry(t, m, id, data[id], counts[id] + 1);
      match mode
      case ErrorMode => ret := -1;
      case UpdateMode =>
        data[id] := value;
        contents := m[k := Entry(value, m[k].count)];
        assert View() == Overwritten(t, id, value, t.counts[id]);
        ret := 0;
      case CountUpMode =>
        counts[id] := counts[id] + 1;
        contents := m[k := Entry(m[k].data, m[k].count + 1)];
        assert View() == Overwritten(t, id, t.data[id], t.counts[id] + 1);
        ret := 0;
      case UnknownMode => ret := -1;
    }

    /** em_gdatamng_get_data */
    method GetData(key: Bytes) returns (ret: int, value: Bytes)
      requires Valid() && |key| == keySize
      ensures ret == if Norm(kt, key) in contents then 0 else -1
      ensures ret == 0 ==> value == contents[Norm(kt, key)].data
    {
      var id := Find(key);
      ret, value := -1, [];
      if id >= 0 {
        ret, value := 0, data[id];
      }
    }

    /** em_gdatamng_get_data_cnt */
    method GetDataCnt(key: Bytes) returns (ret: int)
      requires Valid() && |key| == keySize
      ensures ret == if Norm(kt, key) in contents then contents[Norm(kt, key)].count else -1
    {
      var id := Find(key);
      ret := -1;
      if id >= 0 {
        ret := counts[id];
      }
    }

    /** em_gdatamng_remove_data: one count less, and at zero the key is gone. */
    method RemoveData(key: Bytes) returns (ret: int)
      requires Valid() && |key| == keySize
      modifies this`contents, pool.Repr, counts
      ensures Valid()
      ensures var m, k := old(contents), Norm(kt, key);
              if k !in m then ret == -1 && contents == m
              else if m[k].count > 1 then ret == 0 && contents == m[k := Entry(m[k].data, m[k].count - 1)]
              else ret == 0 && contents == m - {k}
      ensures var m, k := old(contents), Norm(kt, key);
              IdentityPrefix(old(pool.view)) ==>
                (IdentityPrefix(pool.view) <==>
                 k !in m || m[k].count > 1 || Holds(old(View()), old(pool.view.used) - 1, k))
    {
      hide Table.Represents;
      hide Table.Shape;
      hide Holds;
      hide Norm;
      hide Pool.Valid;
      hide PoolView.Wf;
      hide IdentityPrefix;
      ret := -1;
      ghost var t, m, k := View(), contents, Norm(kt, key);
      var id := Find(key);
      if id >= 0 {
        HeldEntry(t, m, id, k);
        if IdentityPrefix(t.pool) {
          RemovalKeepsIdentityIff(t, m, id, k);
        }
        CountDown(id, k);
        ret := 0;
      }
    }

    method CountDown(id: nat, ghost k: Bytes)
      requires Valid() && id < pool.numMax && Holds(View(), id, k) && k in contents
      modifies this`contents, pool.Repr, counts
      ensures Valid()
      ensures var m := old(contents);
              contents == if m[k].count > 1 then m[k := Entry(m[k].data, m[k].count - 1)] else m - {k}
      ensures old(pool.view).Free.requires(id)
      ensures pool.view == if old(contents)[k].count > 1 then old(pool.view) else old(pool.view).Free(id)
    {
      hide Table.Represents;
      hide Holds;
      hide Table.Shape;
      hide Norm;
      hide Pool.Valid;
      hide PoolView.Wf;
      ghost var t, m := View(), contents;
      HeldEntry(t, m, id, k);
      RoomForKey(t, m);
      CanBeFreed(t, m, id);
      if counts[id] > 1 {
        OverwriteUpdatesEntry(t, m, id, data[id], counts[id] - 1);
      } else {
        ReleaseDropsEntry(t, m, id, 0);
      }
      counts[id] := counts[id] - 1;
      if counts[id] <= 0 {
        var _ := pool.FreeByDataidx(id);
        contents := m - {k};
        assert View() == Released(t, id, 0);
      } else {
        contents := m[k := Entry(m[k].data, m[k].count - 1)];
        assert View() == Overwritten(t, id, t.data[id], t.counts[id] - 1);
      }
    }

    method DataMatches(p: nat, cmp: Bytes -> bool) returns (matches: bool)
      requires Valid() && p < View().pool.used
      ensures View().Shape() && p < |View().pool.order| && View().pool.order[p] < |View().data|
      ensures matches <==> cmp(View().data[View().pool.order[p]])
    {
      RoomForKey(View(), contents);
      hide Table.Represents;
      hide Pool.Valid;
      var idx := pool.IndexAt(p);
      matches := cmp(data[idx]);
    }

    /** The scan over the used prefix that both reverse lookups make. */
    method ScanData(cmp: Bytes -> bool) returns (p: int)
      requires Valid()
      ensures View().Shape() && p == FirstMatch(View(), cmp, 0)
    {
      hide FirstMatch;
      hide Table.Represents;
      hide Table.Shape;
      hide PoolView.Wf;
      ghost var t := View();
      RoomForKey(t, contents);
      var num := pool.numUsed;
      assert num == t.pool.used;
      hide *;
      p := 0;
      while p < num
        invariant 0 <= p <= num
        invariant FirstMatch(t, cmp, 0) == FirstMatch(t, cmp, p)
      {
        FirstMatchStep(t, cmp, p);
        var matches := DataMatches(p, cmp);
        if matches {
          return;
        }
        p := p + 1;
      }
      FirstMatchEnd(t, cmp);
      p := -1;
    }

    /** em_gdatamng_get_key_by_func */
    method GetKeyByFunc(cmp: Bytes -> bool) returns (found: bool, slot: int, key: Bytes)
      requires Valid()
      ensures View().Shape() && slot == KeySlotByFunc(View(), cmp) && (found <==> slot >= 0)
      ensures found <==> exists k :: k in contents && cmp(contents[k].data)
      ensures found ==> slot < keys.Length && key == keys[slot]
      ensures found ==> Norm(kt, key) in contents && cmp(contents[Norm(kt, key)].data)
    {
      ByFuncFindsLiveKey(View(), contents, cmp);
      hide Table.Represents;
      hide Norm;
      var p := ScanData(cmp);
      found, slot, key := p >= 0, -1, [];
      if found {
        slot := pool.IndexAt(p);
        key := keys[slot];
      }
    }

    ghost predicate HasData(key: Bytes, value: Bytes)
      reads this
    {
      Norm(kt, key) in contents && contents[Norm(kt, key)].data == value
    }

    /** em_gdatamng_get_key, as written. */
    method GetKey(search: Bytes) returns (found: bool, slot: int, key: Bytes)
      requires Valid()
      ensures View().Shape() && slot == KeySlotAsWritten(View(), d => d == search)
      ensures found <==> exists k :: k in contents && contents[k].data == search
      ensures found ==> slot < keys.Length && key == keys[slot]
      ensures found ==> (HasData(key, search) <==> AnswersFor(View(), search))
      ensures found && IdentityPrefix(pool.view) ==> HasData(key, search)
    {
      ByFuncFindsLiveKey(View(), contents, d => d == search);
      RoomForKey(View(), contents);
      GetKeyAgreesIff(View(), d => d == search);
      GetKeyRightIff(View(), contents, search);
      hide AnswersFor;
      hide Table.Represents;
      hide Norm;
      hide Pool.Valid;
      slot := ScanData(d => d == search);
      found, key := slot >= 0, [];
      if found {
        key := keys[slot];
      }
    }
  }

  /** What a caller finds in a new store after adding one entry: the entry, under exactly the keys that are the same. */
  method AddThenGet(kt: KeyType, mode: Mode, dataSize: nat, dataNum: nat, a: Bytes, value: Bytes, b: Bytes)
    returns (ret: int, found: Bytes, count: int)
    requires dataSize > 0 && dataNum > 0 && |a| == |b|
    ensures ret == 0 <==> SameKey(kt, a, b)
    ensures if SameKey(kt, a, b) then found == value && count == 1 else ret == -1 && count == -1
  {
    hide *;
    KeyEqualIff(kt, a, b, |a|);
    var store := new DataMng(kt, mode, |a|, dataSize, dataNum);
    var _ := store.AddData(a, value);
    ret, found := store.GetData(b);
    count := store.GetDataCnt(b);
  }
}
