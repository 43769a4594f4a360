/**
  The doubly linked list of em_list.c. Its nodes are blocks of a pool and are
  named by their ids; NULL is -1.
 */
module LinkedList {
  import opened Basics
  import opened Mempool

  /** em_listitem_t; `data` is the caller's pointer. */
  datatype Item = Item(data: int, next: int, back: int)

  /** The node storage and the two ends. */
  datatype Links = Links(items: seq<Item>, first: int, last: int) {

    /** The id at place `i`, NULL before and after the list. */
    static function NodeAt(nodes: seq<nat>, i: int): int {
      if 0 <= i < |nodes| then nodes[i] else NULL
    }

    /** From `first` along next and from `last` along back, the nodes are exactly `nodes`. */
    ghost predicate Chain(nodes: seq<nat>) {
      && first == NodeAt(nodes, 0) && last == NodeAt(nodes, |nodes| - 1)
      && (forall i | 0 <= i < |nodes| :: nodes[i] < |items|)
      && (forall i, j | 0 <= i < j < |nodes| :: nodes[i] != nodes[j])
      && (nodes != [] ==> items[nodes[0]].back == NULL && items[nodes[|nodes| - 1]].next == NULL)
      && (forall i, j | 0 <= i && j == i + 1 && j < |nodes| ::
            items[nodes[i]].next == nodes[j] && items[nodes[j]].back == nodes[i])
    }

    /** The caller's pointers in list order. */
    ghost function Values(nodes: seq<nat>): (v: seq<int>)
      requires forall i | 0 <= i < |nodes| :: nodes[i] < |items|
      ensures |v| == |nodes| && forall i | 0 <= i < |v| :: v[i] == items[nodes[i]].data
    {
      seq(|nodes|, i requires 0 <= i < |nodes| => items[nodes[i]].data)
    }

    /** em_list_add with new node `id`. */
    function Append(id: nat, data: int): Links
      requires id < |items| && (first != NULL ==> 0 <= last < |items|)
    {
      if first == NULL then
        Links(items[id := Item(data, NULL, NULL)], id, id)
      else
        var i1 := items[id := Item(data, NULL, last)];
        Links(i1[last := i1[last].(next := id)], first, id)
    }

    /** The relinking of em_list_remove_at for node `d`. */
    function Unlink(d: nat): Links
      requires d < |items|
      requires items[d].back != NULL ==> 0 <= items[d].back < |items|
      requires items[d].next != NULL ==> 0 <= items[d].next < |items|
    {
      var b, x := items[d].back, items[d].next;
      var l1 := if b == NULL then this.(first := x) else this.(items := items[b := items[b].(next := x)]);
      if x == NULL then l1.(last := b) else l1.(items := l1.items[x := l1.items[x].(back := b)])
    }
  }

  lemma AppendItems(l: Links, nodes: seq<nat>, id: nat, data: int)
    requires l.Chain(nodes) && id < |l.items| && id !in nodes
    ensures l.first != NULL ==> 0 <= l.last < |l.items|
    ensures var l' := l.Append(id, data);
            && |l'.items| == |l.items| && l'.items[id] == Item(data, NULL, Links.NodeAt(nodes, |nodes| - 1))
            && l'.first == (if nodes == [] then id else nodes[0]) && l'.last == id
            && (forall i | 0 <= i < |nodes| ::
                  l'.items[nodes[i]] == if i == |nodes| - 1 then l.items[nodes[i]].(next := id) else l.items[nodes[i]])
  {
    assert forall i | 0 <= i < |nodes| :: nodes[i] in nodes;
  }

  /** Adding appends. */
  lemma AppendChain(l: Links, nodes: seq<nat>, id: nat, data: int)
    requires l.Chain(nodes) && id < |l.items| && id !in nodes
    ensures l.first != NULL ==> 0 <= l.last < |l.items|
    ensures var l' := l.Append(id, data);
            l'.Chain(nodes + [id]) && l'.Values(nodes + [id]) == l.Values(nodes) + [data]
  {
    AppendItems(l, nodes, id, data);
    var l', nodes' := l.Append(id, data), nodes + [id];
    hide Links.Append;
    assert forall i | 0 <= i < |nodes| :: nodes'[i] == nodes[i];
  }

  /** The sequence without place `k`. */
  function Without<T>(s: seq<T>, k: nat): (r: seq<T>)
    requires k < |s|
    ensures |r| == |s| - 1
    ensures forall i | 0 <= i < k :: r[i] == s[i]
    ensures forall i | k <= i < |r| :: r[i] == s[i + 1]
  {
    s[..k] + s[k + 1..]
  }

  lemma UnlinkItems(l: Links, nodes: seq<nat>, k: nat)
    requires l.Chain(nodes) && k < |nodes|
    ensures l.Unlink.requires(nodes[k])
    ensures var l', b, x := l.Unlink(nodes[k]), Links.NodeAt(nodes, k - 1), Links.NodeAt(nodes, k + 1);
            && |l'.items| == |l.items|
            && l'.first == (if k == 0 then x else l.first) && l'.last == (if k == |nodes| - 1 then b else l.last)
            && (forall i | 0 <= i < |nodes| ::
                  l'.items[nodes[i]] ==
                  if i == k - 1 then l.items[nodes[i]].(next := x)
                  else if i == k + 1 then l.items[nodes[i]].(back := b)
                  else l.items[nodes[i]])
  {
    if k > 0 {
      assert l.items[nodes[k]].back == nodes[k - 1];
    }
    if k + 1 < |nodes| {
      assert l.items[nodes[k]].next == nodes[k + 1];
    }
  }

  lemma UnlinkValues(l: Links, nodes: seq<nat>, k: nat)
    requires l.Chain(nodes) && k < |nodes|
    ensures l.Unlink.requires(nodes[k]) && |l.Unlink(nodes[k]).items| == |l.items|
    ensures l.Unlink(nodes[k]).Values(Without(nodes, k)) == Without(l.Values(nodes), k)
  {
    UnlinkItems(l, nodes, k);
    hide Links.Unlink;
    hide Links.Chain;
  }

  /** Removing takes out exactly the node at place `k`. */
  lemma UnlinkChain(l: Links, nodes: seq<nat>, k: nat)
    requires l.Chain(nodes) && k < |nodes|
    ensures l.Unlink.requires(nodes[k])
    ensures l.Unlink(nodes[k]).Chain(Without(nodes, k))
  {
    UnlinkItems(l, nodes, k);
    var l', nodes' := l.Unlink(nodes[k]), Without(nodes, k);
    hide Links.Unlink;
    forall i, j | 0 <= i && j == i + 1 && j < |nodes'|
      ensures l'.items[nodes'[i]].next == nodes'[j] && l'.items[nodes'[j]].back == nodes'[i]
    {
      if j < k {
        assert l.items[nodes[i]].next == nodes[j];
      } else if i >= k {
        assert l.items[nodes[i + 1]].next == nodes[j + 1];
      }
    }
  }

  // ---------------------------------------------------------------- the object

  /** em_list_t */
  class EmList {
    const pool: Pool
    const items: array<Item>
    var first: int
    var last: int
    var count: nat
    ghost var nodes: seq<nat>

    ghost function View(): Links
      reads this, items
    {
      Links(items[..], first, last)
    }

    /** The caller's pointers in list order. */
    ghost function Contents(): seq<int>
      requires forall i | 0 <= i < |nodes| :: nodes[i] < items.Length
      reads this, items
    {
      View().Values(nodes)
    }

    /** The nodes form a chain and are exactly the live blocks of the pool, so none leaks. */
    ghost predicate Valid()
      reads this, items, pool, pool.Repr
    {
      && pool.Valid() && pool.blockSize == 1 && pool.rawdata == 0 && pool.numMax == items.Length
      && {this, items} !! pool.Repr
      && View().Chain(nodes)
      && count == |nodes| == pool.view.used
      && (forall id: nat :: pool.view.IsLive(id) <==> id in nodes)
    }

    /** em_list_create */
    constructor (numMax: nat)
      ensures Valid() && nodes == [] && pool.numMax == numMax
      ensures fresh(pool.Repr) && fresh(items)
    {
      var p := new Pool(1, numMax, 0);
      pool := p;
      items := new Item[numMax](_ => Item(0, NULL, NULL));
      first, last, count := NULL, NULL, 0;
      nodes := [];
    }

    /** The linking of em_list_add. */
    method Link(id: nat, data: int)
      requires id < items.Length && (first != NULL ==> 0 <= last < items.Length)
      modifies this`first, this`last, items
      ensures View() == old(View()).Append(id, data)
    {
      if first == NULL {
        items[id] := Item(data, NULL, NULL);
        first := id;
      } else {
        items[id] := Item(data, NULL, last);
        items[last] := items[last].(next := id);
      }
      last := id;
    }

    /** em_list_add: fails exactly at capacity, else appends. */
    method Add(data: int) returns (ret: int)
      requires Valid()
      modifies this, items, pool.Repr
      ensures Valid()
      ensures ret == if |old(nodes)| < pool.numMax then 0 else -1
      ensures Contents() == if ret == 0 then old(Contents()) + [data] else old(Contents())
    {
      AddFacts(View(), pool.view, nodes, data);
      assert |pool.view.order| == pool.numMax;
      hide Links.Chain;
      hide Pool.Valid;
      hide PoolView.Wf;
      hide PoolView.IsLive;
      var id;
      ret, id := pool.AllocBlock();
      if ret == 0 {
        Link(id, data);
        count := count + 1;
        nodes := nodes + [id];
      }
    }

    /** The relinking of em_list_remove_at. */
    method Cut(d: nat)
      requires View().Unlink.requires(d)
      modifies this`first, this`last, items
      ensures View() == old(View()).Unlink(d)
    {
      var b, x := items[d].back, items[d].next;
      if b == NULL {
        first := x;
      } else {
        items[b] := items[b].(next := x);
      }
      if x == NULL {
        last := b;
      } else {
        items[x] := items[x].(back := b);
      }
    }

    /** The walk of em_list_remove_at from the first node. */
    method Walk(index: nat) returns (d: nat)
      requires Valid() && index < |nodes|
      ensures d == nodes[index] && d < items.Length
    {
      var p := first;
      var i := 0;
      while i < index
        invariant i <= index && p == nodes[i]
      {
        assert items[nodes[i]].next == nodes[i + 1];
        p := items[p].next;
        i := i + 1;
      }
      d := p;
    }

    /** em_list_remove_at: out of range is an error, else exactly that place is taken out. */
    method RemoveAt(index: nat) returns (ret: int)
      requires Valid()
      modifies this, items, pool.Repr
      ensures Valid()
      ensures ret == if index < |old(nodes)| then 0 else -1
      ensures Contents() == if ret == 0 then Without(old(Contents()), index) else old(Contents())
    {
      ret := -1;
      if index < count {
        Detach(index);
        ret := 0;
      }
    }

    method Detach(index: nat)
      requires Valid() && index < |nodes|
      modifies this, items, pool.Repr
      ensures Valid() && Contents() == Without(old(Contents()), index)
    {
      var d := Walk(index);
      RemoveFacts(View(), pool.view, nodes, index);
      assert d < pool.numMax;
      DetachNode(d, Without(nodes, index));
    }

    /** Relinks around node `d` and gives its block back. */
    method DetachNode(d: nat, ghost rest: seq<nat>)
      requires pool.Valid() && pool.blockSize == 1 && pool.rawdata == 0 && {this, items} !! pool.Repr
      requires d < pool.numMax && pool.view.IsLive(d) && View().Unlink.requires(d) && count > 0
      modifies this, items, pool.Repr
      ensures pool.Valid() && pool.view == old(pool.view).Free(d)
      ensures View() == old(View()).Unlink(d) && count == old(count) - 1 && nodes == rest
    {
      hide Pool.Valid;
      Cut(d);
      var _ := pool.FreeBlock(d, d);
      count := count - 1;
      nodes := rest;
    }
  }

  /** What em_list_add relies on: a new node is outside the list, and with it the live blocks are the nodes again. */
  lemma AddFacts(l: Links, v: PoolView, nodes: seq<nat>, data: int)
    requires l.Chain(nodes) && v.Wf() && |v.order| == |l.items| && v.used == |nodes|
    requires forall id: nat :: v.IsLive(id) <==> id in nodes
    ensures v.HasRoom() <==> |nodes| < |l.items|
    ensures v.HasRoom() ==>
        var id := v.NextId();
        && id < |l.items| && (l.first != NULL ==> 0 <= l.last < |l.items|)
        && l.Append(id, data).Chain(nodes + [id])
        && l.Append(id, data).Values(nodes + [id]) == l.Values(nodes) + [data]
        && (forall b: nat :: v.Alloc().IsLive(b) <==> b in nodes + [id])
  {
    if v.HasRoom() {
      AllocRefinesSet(v);
      AppendChain(l, nodes, v.NextId(), data);
      forall b: nat
        ensures v.Alloc().IsLive(b) <==> b in nodes + [v.NextId()]
      {
        assert b in v.Alloc().LiveIds() <==> b in v.LiveIds() || b == v.NextId();
      }
    }
  }

  /** What em_list_remove_at relies on. */
  lemma RemoveFacts(l: Links, v: PoolView, nodes: seq<nat>, k: nat)
    requires l.Chain(nodes) && v.Wf() && v.used == |nodes| && k < |nodes|
    requires forall id: nat :: v.IsLive(id) <==> id in nodes
    ensures var d, nodes' := nodes[k], Without(nodes, k);
            && v.IsLive(d) && l.Unlink.requires(d) && |l.Unlink(d).items| == |l.items|
            && l.Unlink(d).Chain(nodes') && l.Unlink(d).Values(nodes') == Without(l.Values(nodes), k)
            && v.Free(d).used == |nodes'|
            && (forall b: nat :: v.Free(d).IsLive(b) <==> b in nodes')
  {
    var d := nodes[k];
    assert d in nodes;
    UnlinkChain(l, nodes, k);
    UnlinkValues(l, nodes, k);
    FreeRefinesSet(v, d);
    WithoutMembers(l, nodes, k);
  }

  lemma WithoutMembers(l: Links, nodes: seq<nat>, k: nat)
    requires l.Chain(nodes) && k < |nodes|
    ensures forall b: nat :: b in Without(nodes, k) <==> b in nodes && b != nodes[k]
  {
    var r := Without(nodes, k);
    forall b | b in nodes && b != nodes[k]
      ensures b in r
    {
      var i :| 0 <= i < |nodes| && nodes[i] == b;
      assert r[if i < k then i else i - 1] == b;
    }
  }
}
