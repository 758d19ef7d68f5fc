/** The node store (src/store.rs): what its slots hold, seen from outside as a finite map from ids to nodes. */
module Store {
  import opened Nodes

  // Node ids are 32 bits wide: the slab length is truncated when it becomes an id.
  const ID_LIMIT: nat := 0x1_0000_0000

  /** The 32-bit id of a slot. */
  function Truncate(slot: nat): (id: NodeId)
    ensures id == slot <==> slot < ID_LIMIT
    ensures id < ID_LIMIT
  {
    slot % ID_LIMIT
  }

  /** The first `n` slots of the slab. */
  ghost function Slots(n: nat): (s: set<NodeId>)
    ensures |s| == n
    ensures forall i :: i in s <==> 0 <= i < n
  {
    if n == 0 then {} else Slots(n - 1) + {n - 1}
  }

  ghost predicate Distinct(ids: seq<NodeId>) {
    forall i, j :: 0 <= i < j < |ids| ==> ids[i] != ids[j]
  }

  /** Every slot is either live or on the free list, the latter once, and the slab holds the live nodes. */
  ghost predicate Partition<V>(slab: seq<Node<V>>, free: seq<NodeId>, nodes: map<NodeId, Node<V>>) {
    && Distinct(free)
    && (forall id :: id in free ==> id < |slab|)
    && (forall id :: id in nodes <==> 0 <= id < |slab| && id !in free)
    && (forall id :: id in nodes ==> nodes[id] == slab[id])
  }

  lemma KeysAfterInsert<V>(nodes: map<NodeId, Node<V>>, id: NodeId, node: Node<V>)
    requires id !in nodes
    ensures multiset(nodes[id := node].Keys) == multiset(nodes.Keys) + multiset{id}
    ensures |nodes[id := node]| == |nodes| + 1
  {
    assert nodes[id := node].Keys == nodes.Keys + {id};
  }

  lemma SubsetCount<T>(a: set<T>, b: set<T>)
    requires a <= b
    ensures |a| <= |b|
  {
    assert b == a + (b - a);
  }

  /** Live and free slots add up to the slab. */
  lemma {:induction false} Census<V>(slab: seq<Node<V>>, free: seq<NodeId>, nodes: map<NodeId, Node<V>>)
    requires Partition(slab, free, nodes)
    ensures |nodes| + |free| == |slab|
    decreases |free|
  {
    if free == [] {
      AllLive(slab, nodes);
    } else {
      var rest, slot := free[..|free| - 1], free[|free| - 1];
      assert slot in free;
      assert free == rest + [slot];
      PartitionReuse(slab, rest, slot, nodes, slab[slot]);
      KeysAfterInsert(nodes, slot, slab[slot]);
      Census(slab[slot := slab[slot]], rest, nodes[slot := slab[slot]]);
    }
  }

  lemma PartitionReuse<V>(slab: seq<Node<V>>, rest: seq<NodeId>, slot: NodeId, nodes: map<NodeId, Node<V>>,
                          node: Node<V>)
    requires Partition(slab, rest + [slot], nodes)
    ensures slot < |slab| && slot !in nodes
    ensures Partition(slab[slot := node], rest, nodes[slot := node])
  {
    var free := rest + [slot];
    assert free[|rest|] == slot;
    assert forall i :: 0 <= i < |rest| ==> free[i] == rest[i];
    assert slot in free;
    assert forall id :: id in free <==> id in rest || id == slot;
    assert slot !in rest;
  }

  lemma PartitionGrow<V>(slab: seq<Node<V>>, nodes: map<NodeId, Node<V>>, node: Node<V>)
    requires Partition(slab, [], nodes)
    ensures |slab| !in nodes
    ensures Partition(slab + [node], [], nodes[|slab| := node])
  {
  }

  /** Without free slots every slot is live. */
  lemma AllLive<V>(slab: seq<Node<V>>, nodes: map<NodeId, Node<V>>)
    requires Partition(slab, [], nodes)
    ensures |nodes| == |slab|
  {
    assert nodes.Keys == Slots(|slab|);
  }

  /** A slab of any length can be all live; with 2^32 slots the next id wraps to that of a live node. */
  lemma FullSlab<V>(n: nat) returns (slab: seq<Node<V>>, nodes: map<NodeId, Node<V>>)
    ensures Partition(slab, [], nodes) && |slab| == n == |nodes|
    ensures n >= ID_LIMIT ==> Truncate(|slab|) in nodes && Truncate(|slab|) != |slab|
  {
    slab := seq(n, i => EmptyLeaf());
    nodes := map i | i in Slots(n) :: EmptyLeaf();
    AllLive(slab, nodes);
  }

  /** The high-water mark after an operation that only adds nodes: no higher than the live nodes demand. */
  ghost predicate Raised(before: nat, live: nat, after: nat) {
    after == before || before < after <= live
  }

  lemma PartitionRelease<V>(slab: seq<Node<V>>, free: seq<NodeId>, nodes: map<NodeId, Node<V>>, id: NodeId,
                            node: Node<V>)
    requires Partition(slab, free, nodes) && id in nodes
    ensures Partition(slab[id := node], free + [id], nodes - {id})
  {
    var more := free + [id];
    assert forall x :: x in more <==> x in free || x == id;
  }

  class InMemoryStore<V> {
    // Every slot ever made, live or not; `Partition` says which.
    var slab: seq<Node<V>>
    // The slots that are not live, a stack whose top `NextSlot` names.
    var free: seq<NodeId>

    // The store as its clients see it: the live nodes by id.
    ghost var nodes: map<NodeId, Node<V>>
    // The most nodes that were ever live at once since the last reset.
    ghost var peak: nat

    /** Slots are partitioned into live and free ones; the slab is as long as the peak demand. */
    ghost predicate Valid()
      reads this
    {
      Partition(slab, free, nodes) && |slab| == peak
    }

    constructor ()
      ensures Valid() && nodes == map[] && peak == 0 && slab == [] && free == []
    {
      slab, free := [], [];
      nodes, peak := map[], 0;
    }

    /** The slot the next allocation uses. */
    ghost function NextSlot(): NodeId
      reads this
    {
      if free != [] then free[|free| - 1] else |slab|
    }

    /**
      `NextSlot` becomes live with `node`; the id names it exactly while ids fit their width, a wrapped one names
      another node.
     */
    method Alloc(node: Node<V>) returns (id: NodeId)
      requires Valid()
      modifies this
      ensures Valid()
      ensures old(NextSlot()) !in old(nodes) && nodes == old(nodes)[old(NextSlot()) := node]
      ensures id == old(NextSlot()) <==> old(free) != [] || |old(slab)| < ID_LIMIT
      ensures id != old(NextSlot()) ==> id in old(nodes)
      ensures |old(nodes)| < ID_LIMIT ==> id == old(NextSlot())
      ensures multiset(nodes.Keys) == multiset(old(nodes).Keys) + multiset{old(NextSlot())}
      ensures if old(free) != [] then free == old(free)[..|old(free)| - 1] && |slab| == |old(slab)|
              else free == [] && |slab| == |old(slab)| + 1
      ensures |nodes| == |old(nodes)| + 1
      ensures peak == if |nodes| > old(peak) then |nodes| else old(peak)
    {
      ghost var slot, grown := NextSlot(), nodes[NextSlot() := node];
      if |free| > 0 {
        var rest := free[..|free| - 1];
        id := free[|free| - 1];
        assert free == rest + [id];
        PartitionReuse(slab, rest, id, nodes, node);
        free, slab := rest, slab[id := node];
      } else {
        PartitionGrow(slab, nodes, node);
        AllLive(slab, nodes);
        id := Truncate(|slab|);
        slab := slab + [node];
      }
      KeysAfterInsert(nodes, slot, node);
      SubsetCount(grown.Keys, Slots(|slab|));
      nodes := grown;
      peak := if |nodes| > peak then |nodes| else peak;
    }

    /** `id` is no longer live, and the next to be allocated; its slot holds an empty leaf meanwhile. */
    method Reclaim(id: NodeId) returns (node: Node<V>)
      requires Valid() && id in nodes
      modifies this
      ensures Valid()
      ensures node == old(nodes)[id] && nodes == old(nodes) - {id}
      ensures multiset(nodes.Keys) + multiset{id} == multiset(old(nodes).Keys)
      ensures free == old(free) + [id] && slab == old(slab)[id := EmptyLeaf()]
      ensures peak == old(peak)
    {
      node := slab[id];
      PartitionRelease(slab, free, nodes, id, EmptyLeaf());
      slab := slab[id := EmptyLeaf()];
      free := free + [id];
      nodes := nodes - {id};
      assert old(nodes).Keys == nodes.Keys + {id};
    }

    /** The slab agrees with the abstract map. */
    function Get(id: NodeId): (node: Node<V>)
      requires Valid() && id in nodes
      reads this
      ensures node == nodes[id]
    {
      slab[id]
    }

    /** One slot changes and everything else stays, as after an edit through a mutable borrow. */
    method Set(id: NodeId, node: Node<V>)
      requires Valid() && id in nodes
      modifies this
      ensures Valid()
      ensures nodes == old(nodes)[id := node] && nodes.Keys == old(nodes).Keys
      ensures free == old(free) && slab == old(slab)[id := node] && peak == old(peak)
    {
      slab := slab[id := node];
      nodes := nodes[id := node];
      assert nodes.Keys == old(nodes).Keys;
    }

    /** The store is as if newly made, with one leaf allocated. */
    method Reset() returns (id: NodeId)
      requires Valid()
      modifies this
      ensures Valid()
      ensures nodes == map[id := EmptyLeaf()] && id == 0
      ensures free == [] && |slab| == 1 && peak == 1
    {
      slab, free := [], [];
      nodes, peak := map[], 0;
      id := Alloc(EmptyLeaf());
    }
  }
}
