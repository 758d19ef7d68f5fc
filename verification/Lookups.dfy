/** Point lookup (src/ops.rs:31-43). */
module Lookups {
  import opened Wrappers
  import opened SortedEntries
  import opened Nodes
  import opened Store
  import opened Trees

  /** Descend to the leaf that owns `key`; the search reads one node on every level. */
  method Get<V>(store: InMemoryStore<V>, root: NodeId, key: Key, ghost t: Tree<V>, ghost h: nat, ghost order: nat)
    returns (found: Option<V>, ghost visits: nat)
    requires store.Valid() && order >= 3 && root == t.id && IsIndex(store.nodes, t, h, order)
    ensures found == Find(Entries(t), key)
    ensures visits == h
  {
    var id := root;
    ghost var s, m := t, RootMin(h);
    visits := 1;
    OrderedRoutable(t, None, None);
    StoredIsFind(t, key, None, None);
    while true
      invariant s.id == id && Rep(store.nodes, s) && Routable(s) && Stored(s, key) == Stored(t, key)
      invariant visits <= h && Balanced(s, h + 1 - visits, order, m)
      decreases s
    {
      match store.Get(id)
      case Leaf(keys, vals) => return LeafGet(keys, vals, key), visits;
      case Internal(keys, children) =>
        id := children[ChildIndex(keys, key)];
        s, m := Next(s, key), MinKeys(order);
        visits := visits + 1;
    }
  }
}
