/**
  The trees that live in a node store, and the invariant of a B+tree.

  A `Tree` is the unfolding of a node id through the store. `Rep` ties it to the
  store, `IdBag` says which slots it occupies, `Entries` is its in-order sequence,
  and `Balanced` and `Ordered` are the two halves of the structural invariant
  (the recursive check at src/tree.rs:434-521, with inherited key bounds instead
  of subtree minima, so that it also covers nodes in the middle of an update).
 */
module Trees {
  import opened Wrappers
  import opened SortedEntries
  import opened Nodes

  datatype Tree<V> =
    | LeafT(id: NodeId, keys: seq<Key>, vals: seq<V>)
    | BranchT(id: NodeId, keys: seq<Key>, children: seq<Tree<V>>)

  // ---- The tree in the store ----

  ghost function RootIds<V>(ts: seq<Tree<V>>): (ids: seq<NodeId>)
    ensures |ids| == |ts|
    ensures forall i :: 0 <= i < |ts| ==> ids[i] == ts[i].id
  {
    seq(|ts|, i requires 0 <= i < |ts| => ts[i].id)
  }

  /** The node a store keeps for the root of `t`. */
  ghost function NodeOf<V>(t: Tree<V>): Node<V> {
    match t
    case LeafT(_, keys, vals) => Leaf(keys, vals)
    case BranchT(_, keys, children) => Internal(keys, RootIds(children))
  }

  /** `t` is what the store holds under its root id. */
  ghost predicate Rep<V>(nodes: map<NodeId, Node<V>>, t: Tree<V>)
    decreases t
  {
    match t
    case LeafT(id, keys, vals) => id in nodes && nodes[id] == Leaf(keys, vals)
    case BranchT(id, keys, children) =>
      id in nodes && nodes[id] == Internal(keys, RootIds(children)) && RepAll(nodes, children)
  }

  ghost predicate RepAll<V>(nodes: map<NodeId, Node<V>>, ts: seq<Tree<V>>)
    decreases ts
  {
    forall i :: 0 <= i < |ts| ==> Rep(nodes, ts[i])
  }

  /** The ids of all nodes of a tree, with repetitions if nodes were shared. */
  ghost function IdBag<V>(t: Tree<V>): multiset<NodeId>
    decreases t
  {
    multiset{t.id} + (if t.BranchT? then Bags(t.children) else multiset{})
  }

  ghost function Bags<V>(ts: seq<Tree<V>>): multiset<NodeId>
    decreases ts
  {
    if ts == [] then multiset{} else IdBag(ts[0]) + Bags(ts[1..])
  }

  lemma {:induction false} BagsConcat<V>(a: seq<Tree<V>>, b: seq<Tree<V>>)
    ensures Bags(a + b) == Bags(a) + Bags(b)
  {
    if a == [] {
      assert a + b == b;
    } else {
      var c := a + b;
      assert c[0] == a[0] && c[1..] == a[1..] + b;
      BagsConcat(a[1..], b);
      assert Bags(c) == IdBag(c[0]) + Bags(c[1..]);
    }
  }

  lemma BagsOne<V>(t: Tree<V>)
    ensures Bags([t]) == IdBag(t)
  {
  }

  /** The ids of a forest, around its `i`-th tree. */
  lemma BagsAt<V>(ts: seq<Tree<V>>, i: nat)
    requires i < |ts|
    ensures Bags(ts) == Bags(ts[..i]) + IdBag(ts[i]) + Bags(ts[i + 1..])
  {
    Around(ts, i);
    BagsConcat(ts[..i] + [ts[i]], ts[i + 1..]);
    BagsConcat(ts[..i], [ts[i]]);
    BagsOne(ts[i]);
  }

  lemma BagsMember<V>(ts: seq<Tree<V>>, i: nat)
    requires i < |ts|
    ensures IdBag(ts[i]) <= Bags(ts)
  {
    BagsAt(ts, i);
  }

  /** A tree survives every change of the store outside its own nodes. */
  lemma {:induction false} RepFrame<V>(before: map<NodeId, Node<V>>, after: map<NodeId, Node<V>>, t: Tree<V>)
    requires Rep(before, t)
    requires forall id :: id in IdBag(t) ==> id in after && (id in before ==> after[id] == before[id])
    ensures Rep(after, t)
    decreases t
  {
    assert t.id in IdBag(t);
    if t.LeafT? {
    } else {
      RepAllFrame(before, after, t.children);
    }
  }

  lemma {:induction false} RepAllFrame<V>(before: map<NodeId, Node<V>>, after: map<NodeId, Node<V>>, ts: seq<Tree<V>>)
    requires RepAll(before, ts)
    requires forall id :: id in Bags(ts) ==> id in after && (id in before ==> after[id] == before[id])
    ensures RepAll(after, ts)
    decreases ts
  {
    forall i | 0 <= i < |ts|
      ensures Rep(after, ts[i])
    {
      BagsMember(ts, i);
      RepFrame(before, after, ts[i]);
    }
  }

  /** The trees right below the root. */
  ghost function Under<V>(t: Tree<V>): seq<Tree<V>> {
    if t.BranchT? then t.children else []
  }

  /** A tree whose root node is in the store, above trees in the store. */
  lemma RepFrom<V>(nodes: map<NodeId, Node<V>>, t: Tree<V>)
    requires t.id in nodes && nodes[t.id] == NodeOf(t) && RepAll(nodes, Under(t))
    ensures Rep(nodes, t)
  {
  }

  /** A forest survives a new node in a slot that was not live. */
  lemma NewNodeKeeps<V>(nodes: map<NodeId, Node<V>>, ts: seq<Tree<V>>, id: NodeId, node: Node<V>)
    requires RepAll(nodes, ts) && Bags(ts) <= multiset(nodes.Keys) && id !in nodes
    ensures RepAll(nodes[id := node], ts)
  {
    forall x | x in Bags(ts)
      ensures x in nodes
    {
      assert x in multiset(nodes.Keys);
    }
    RepAllFrame(nodes, nodes[id := node], ts);
  }

  // ---- The in-order sequence ----

  ghost function Entries<V>(t: Tree<V>): seq<Entry<V>>
    decreases t
  {
    match t
    case LeafT(_, keys, vals) => if |keys| == |vals| then Zip(keys, vals) else []
    case BranchT(_, _, children) => Flatten(children)
  }

  ghost function Flatten<V>(ts: seq<Tree<V>>): seq<Entry<V>>
    decreases ts
  {
    if ts == [] then [] else Entries(ts[0]) + Flatten(ts[1..])
  }

  lemma {:induction false} FlattenConcat<V>(a: seq<Tree<V>>, b: seq<Tree<V>>)
    ensures Flatten(a + b) == Flatten(a) + Flatten(b)
  {
    if a == [] {
      assert a + b == b;
    } else {
      var c := a + b;
      assert c[0] == a[0] && c[1..] == a[1..] + b;
      FlattenConcat(a[1..], b);
      assert Flatten(c) == Entries(c[0]) + Flatten(c[1..]);
      Associative(Entries(a[0]), Flatten(a[1..]), Flatten(b));
    }
  }

  lemma FlattenOne<V>(t: Tree<V>)
    ensures Flatten([t]) == Entries(t)
  {
    assert Flatten([t]) == Entries(t) + [];
  }

  lemma FlattenAt<V>(ts: seq<Tree<V>>, i: nat)
    requires i < |ts|
    ensures Flatten(ts) == Flatten(ts[..i]) + Entries(ts[i]) + Flatten(ts[i + 1..])
  {
    Around(ts, i);
    FlattenConcat(ts[..i] + [ts[i]], ts[i + 1..]);
    FlattenConcat(ts[..i], [ts[i]]);
    FlattenOne(ts[i]);
  }

  // ---- Balance and occupancy ----

  /** Division rounded up: how many chunks of `b` items `a` items fill. */
  function CeilDiv(a: nat, b: nat): nat
    requires b > 0
    decreases a
  {
    if a == 0 then 0 else if a <= b then 1 else 1 + CeilDiv(a - b, b)
  }

  lemma {:induction false} CeilDivBounds(a: nat, b: nat)
    requires b > 0
    ensures var q := CeilDiv(a, b); a <= q * b && (q > 0 ==> (q - 1) * b < a) && (q > 0 <==> a > 0)
    decreases a
  {
    if a <= b {
    } else {
      CeilDivBounds(a - b, b);
      var q := CeilDiv(a - b, b);
      assert (q + 1) * b == q * b + b && (q - 1 + 1) * b == (q - 1) * b + b;
    }
  }

  /** The occupancy that `Balanced` demands below the root: half of `order`, rounded up, less one. */
  function MinKeys(order: nat): (m: nat)
    requires order >= 3
    ensures 1 <= m && 2 * m + 1 <= order <= 2 * m + 2
  {
    CeilDivBounds(order, 2);
    CeilDiv(order, 2) - 1
  }

  /**
    `t` has all its leaves at depth `h`, and its nodes hold between the minimum and `order - 1` keys, its root at
    least `m`.
   */
  ghost predicate Balanced<V>(t: Tree<V>, h: nat, order: nat, m: int)
    requires order >= 3
    decreases t
  {
    match t
    case LeafT(_, keys, vals) => h == 1 && m <= |keys| < order && |keys| == |vals|
    case BranchT(_, keys, children) =>
      h >= 2 && m <= |keys| < order && |children| == |keys| + 1 && BalancedAll(children, h - 1, order)
  }

  ghost predicate BalancedAll<V>(ts: seq<Tree<V>>, h: nat, order: nat)
    requires order >= 3
    decreases ts
  {
    forall i :: 0 <= i < |ts| ==> Balanced(ts[i], h, order, MinKeys(order))
  }

  /** The least occupancy of a root: none for a leaf, one separator for a branch. */
  function RootMin(h: nat): nat {
    if h == 1 then 0 else 1
  }

  // ---- Key order and separator bounds ----

  ghost predicate AtLeast(lo: Option<Key>, k: Key) {
    lo.Some? ==> lo.value <= k
  }

  ghost predicate Above(lo: Option<Key>, k: Key) {
    lo.Some? ==> lo.value < k
  }

  ghost predicate Below(k: Key, hi: Option<Key>) {
    hi.Some? ==> k < hi.value
  }

  /** The lower bound the `i`-th child inherits. */
  ghost function LoAt(keys: seq<Key>, lo: Option<Key>, i: nat): Option<Key>
    requires i <= |keys|
  {
    if i == 0 then lo else Some(keys[i - 1])
  }

  /** The upper bound the `i`-th child inherits. */
  ghost function HiAt(keys: seq<Key>, hi: Option<Key>, i: nat): Option<Key>
    requires i <= |keys|
  {
    if i == |keys| then hi else Some(keys[i])
  }

  /** Keys ascend in every node and lie in the half-open range the separators above allow. */
  ghost predicate Ordered<V>(t: Tree<V>, lo: Option<Key>, hi: Option<Key>)
    decreases t, 1
  {
    match t
    case LeafT(_, keys, vals) =>
      && AscendingKeys(keys)
      && |keys| == |vals|
      && (forall i :: 0 <= i < |keys| ==> AtLeast(lo, keys[i]) && Below(keys[i], hi))
    case BranchT(_, keys, children) => OrderedForest(children, keys, lo, hi)
  }

  /** Separators ascend strictly inside the bounds; the subtree between two of them keeps to their range. */
  ghost predicate OrderedForest<V>(ts: seq<Tree<V>>, keys: seq<Key>, lo: Option<Key>, hi: Option<Key>)
    decreases ts, 0
  {
    && |ts| == |keys| + 1
    && Separators(keys, lo, hi)
    && (forall i :: 0 <= i < |ts| ==> Ordered(ts[i], LoAt(keys, lo, i), HiAt(keys, hi, i)))
  }

  ghost predicate Separators(keys: seq<Key>, lo: Option<Key>, hi: Option<Key>) {
    && AscendingKeys(keys)
    && (forall i :: 0 <= i < |keys| ==> Above(lo, keys[i]) && Below(keys[i], hi))
  }

  /** Cutting a forest at a separator gives two forests. */
  lemma ForestCut<V>(ts: seq<Tree<V>>, keys: seq<Key>, lo: Option<Key>, hi: Option<Key>, m: nat)
    requires OrderedForest(ts, keys, lo, hi) && m < |keys|
    ensures OrderedForest(ts[..m + 1], keys[..m], lo, Some(keys[m]))
    ensures OrderedForest(ts[m + 1..], keys[m + 1..], Some(keys[m]), hi)
  {
    forall i | 0 <= i < m + 1
      ensures Ordered(ts[..m + 1][i], LoAt(keys[..m], lo, i), HiAt(keys[..m], Some(keys[m]), i))
    {
      assert Ordered(ts[i], LoAt(keys, lo, i), HiAt(keys, hi, i));
    }
    var rest := ts[m + 1..];
    forall i | 0 <= i < |rest|
      ensures Ordered(rest[i], LoAt(keys[m + 1..], Some(keys[m]), i), HiAt(keys[m + 1..], hi, i))
    {
      assert Ordered(ts[m + 1 + i], LoAt(keys, lo, m + 1 + i), HiAt(keys, hi, m + 1 + i));
    }
  }

  /** Two forests on both sides of a separator make one. */
  lemma ForestJoin<V>(a: seq<Tree<V>>, ka: seq<Key>, b: seq<Tree<V>>, kb: seq<Key>,
                      lo: Option<Key>, s: Key, hi: Option<Key>)
    requires OrderedForest(a, ka, lo, Some(s)) && OrderedForest(b, kb, Some(s), hi)
    requires Above(lo, s) && Below(s, hi)
    ensures OrderedForest(a + b, ka + [s] + kb, lo, hi)
  {
    var keys, ts := ka + [s] + kb, a + b;
    SeparatorsJoin(ka, kb, lo, s, hi);
    forall i | 0 <= i < |ts|
      ensures Ordered(ts[i], LoAt(keys, lo, i), HiAt(keys, hi, i))
    {
      if i < |a| {
        assert Ordered(a[i], LoAt(ka, lo, i), HiAt(ka, Some(s), i));
      } else {
        var j := i - |a|;
        assert Ordered(b[j], LoAt(kb, Some(s), j), HiAt(kb, hi, j));
      }
    }
  }

  lemma SeparatorsJoin(ka: seq<Key>, kb: seq<Key>, lo: Option<Key>, s: Key, hi: Option<Key>)
    requires Separators(ka, lo, Some(s)) && Separators(kb, Some(s), hi)
    requires Above(lo, s) && Below(s, hi)
    ensures Separators(ka + [s] + kb, lo, hi)
  {
  }

  lemma ForestOne<V>(t: Tree<V>, lo: Option<Key>, hi: Option<Key>)
    requires Ordered(t, lo, hi)
    ensures OrderedForest([t], [], lo, hi)
  {
  }

  /** The in-order sequence of an ordered tree ascends and stays in its range. */
  ghost predicate Within<V>(es: seq<Entry<V>>, lo: Option<Key>, hi: Option<Key>) {
    && Ascending(es)
    && forall i :: 0 <= i < |es| ==> AtLeast(lo, es[i].key) && Below(es[i].key, hi)
  }

  lemma {:induction false} OrderedEntries<V>(t: Tree<V>, lo: Option<Key>, hi: Option<Key>)
    requires Ordered(t, lo, hi)
    ensures Within(Entries(t), lo, hi)
    decreases t, 1
  {
    if t.LeafT? {
    } else {
      ForestEntries(t.children, t.keys, lo, hi);
    }
  }

  lemma {:induction false} ForestEntries<V>(ts: seq<Tree<V>>, keys: seq<Key>, lo: Option<Key>, hi: Option<Key>)
    requires OrderedForest(ts, keys, lo, hi)
    ensures Within(Flatten(ts), lo, hi)
    decreases ts, 0
  {
    assert Ordered(ts[0], LoAt(keys, lo, 0), HiAt(keys, hi, 0));
    OrderedEntries(ts[0], lo, HiAt(keys, hi, 0));
    if |keys| > 0 {
      ForestCut(ts, keys, lo, hi, 0);
      ForestEntries(ts[1..], keys[1..], Some(keys[0]), hi);
      WithinJoin(Entries(ts[0]), Flatten(ts[1..]), lo, keys[0], hi);
    } else {
      assert ts[1..] == [];
      assert Flatten(ts) == Entries(ts[0]) + [];
    }
  }

  lemma WithinJoin<V>(a: seq<Entry<V>>, b: seq<Entry<V>>, lo: Option<Key>, s: Key, hi: Option<Key>)
    requires Within(a, lo, Some(s)) && Within(b, Some(s), hi)
    requires Above(lo, s) && Below(s, hi)
    ensures Within(a + b, lo, hi)
  {
  }

  /** What a separator promises: all keys left of it are below it, all keys right of it are not. */
  lemma SeparatorPromise<V>(t: Tree<V>, lo: Option<Key>, hi: Option<Key>, i: nat)
    requires t.BranchT? && Ordered(t, lo, hi) && i < |t.keys|
    ensures |t.children| == |t.keys| + 1
    ensures AllBelow(Flatten(t.children[..i + 1]), t.keys[i])
    ensures forall e :: e in Flatten(t.children[i + 1..]) ==> t.keys[i] <= e.key
  {
    ForestCut(t.children, t.keys, lo, hi, i);
    ForestEntries(t.children[..i + 1], t.keys[..i], lo, Some(t.keys[i]));
    ForestEntries(t.children[i + 1..], t.keys[i + 1..], Some(t.keys[i]), hi);
  }

  /** What lies in the children left of `ChildIndex` is below the key, what lies in those right of it above. */
  lemma Descend<V>(t: Tree<V>, lo: Option<Key>, hi: Option<Key>, key: Key)
    requires t.BranchT? && Ordered(t, lo, hi)
    requires AtLeast(lo, key) && Below(key, hi)
    ensures AscendingKeys(t.keys)
    ensures var i := ChildIndex(t.keys, key);
            && i < |t.children|
            && Ordered(t.children[i], LoAt(t.keys, lo, i), HiAt(t.keys, hi, i))
            && AtLeast(LoAt(t.keys, lo, i), key) && Below(key, HiAt(t.keys, hi, i))
            && AllBelow(Flatten(t.children[..i]), key) && AllAbove(Flatten(t.children[i + 1..]), key)
            && Entries(t) == Flatten(t.children[..i]) + Entries(t.children[i]) + Flatten(t.children[i + 1..])
  {
    DescendRange(t, lo, hi, key);
    DescendSides(t, lo, hi, key);
    FlattenAt(t.children, ChildIndex(t.keys, key));
  }

  lemma DescendSides<V>(t: Tree<V>, lo: Option<Key>, hi: Option<Key>, key: Key)
    requires t.BranchT? && Ordered(t, lo, hi) && AscendingKeys(t.keys) && |t.children| == |t.keys| + 1
    ensures var i := ChildIndex(t.keys, key);
            AllBelow(Flatten(t.children[..i]), key) && AllAbove(Flatten(t.children[i + 1..]), key)
  {
    var i, ts, keys := ChildIndex(t.keys, key), t.children, t.keys;
    if i > 0 {
      ForestCut(ts, keys, lo, hi, i - 1);
      ForestEntries(ts[..i], keys[..i - 1], lo, Some(keys[i - 1]));
    }
    if i < |keys| {
      ForestCut(ts, keys, lo, hi, i);
      ForestEntries(ts[i + 1..], keys[i + 1..], Some(keys[i]), hi);
    }
    AboveAll(ts, keys, hi, i, key);
  }

  /** The bounds that the child at `ChildIndex` inherits admit the key. */
  lemma DescendRange<V>(t: Tree<V>, lo: Option<Key>, hi: Option<Key>, key: Key)
    requires t.BranchT? && Ordered(t, lo, hi) && AscendingKeys(t.keys)
    requires AtLeast(lo, key) && Below(key, hi)
    ensures var i := ChildIndex(t.keys, key);
            && i < |t.children|
            && Ordered(t.children[i], LoAt(t.keys, lo, i), HiAt(t.keys, hi, i))
            && AtLeast(LoAt(t.keys, lo, i), key) && Below(key, HiAt(t.keys, hi, i))
  {
  }

  lemma AboveAll<V>(ts: seq<Tree<V>>, keys: seq<Key>, hi: Option<Key>, i: nat, key: Key)
    requires |ts| == |keys| + 1 && i <= |keys|
    requires i < |keys| ==> key < keys[i] && Within(Flatten(ts[i + 1..]), Some(keys[i]), hi)
    ensures AllAbove(Flatten(ts[i + 1..]), key)
  {
    if i == |keys| {
      assert ts[i + 1..] == [];
    }
  }

  /**
    The invariant of an index: `t` is the tree under its root id, it occupies exactly the live
    slots of the store, each once, and it is a B+tree of height `h`.
   */
  ghost predicate IsIndex<V>(nodes: map<NodeId, Node<V>>, t: Tree<V>, h: nat, order: nat)
    requires order >= 3
  {
    && Rep(nodes, t)
    && IdBag(t) == multiset(nodes.Keys)
    && Balanced(t, h, order, RootMin(h))
    && Ordered(t, None, None)
  }

  /** One empty leaf is an index. */
  lemma EmptyIndex<V>(id: NodeId, order: nat)
    requires order >= 3
    ensures var t: Tree<V> := LeafT(id, [], []); IsIndex(map[id := EmptyLeaf()], t, 1, order) && Entries(t) == []
  {
    var nodes: map<NodeId, Node<V>> := map[id := EmptyLeaf()];
    assert nodes.Keys == {id};
  }

  // ---- Searching ----

  /** Searches are defined everywhere in the tree. */
  ghost predicate Routable<V>(t: Tree<V>)
    decreases t
  {
    match t
    case LeafT(_, keys, vals) => AscendingKeys(keys) && |keys| == |vals|
    case BranchT(_, keys, children) =>
      && AscendingKeys(keys)
      && |children| == |keys| + 1
      && forall i :: 0 <= i < |children| ==> Routable(children[i])
  }

  lemma {:induction false} OrderedRoutable<V>(t: Tree<V>, lo: Option<Key>, hi: Option<Key>)
    requires Ordered(t, lo, hi)
    ensures Routable(t)
    decreases t
  {
    if t.LeafT? {
    } else {
      forall i | 0 <= i < |t.children|
        ensures Routable(t.children[i])
      {
        OrderedRoutable(t.children[i], LoAt(t.keys, lo, i), HiAt(t.keys, hi, i));
      }
    }
  }

  /** The child the search for `key` enters. */
  ghost function Next<V>(t: Tree<V>, key: Key): (c: Tree<V>)
    requires t.BranchT? && Routable(t)
    ensures c < t && Routable(c)
  {
    t.children[ChildIndex(t.keys, key)]
  }

  /** The leaf where the search for `key` ends. */
  ghost function LeafFor<V>(t: Tree<V>, key: Key): (l: Tree<V>)
    requires Routable(t)
    ensures l.LeafT? && Routable(l)
    decreases t
  {
    if t.LeafT? then t else LeafFor(Next(t, key), key)
  }

  /** The value the search for `key` finds. */
  ghost function Stored<V>(t: Tree<V>, key: Key): Option<V>
    requires Routable(t)
  {
    LeafGet(LeafFor(t, key).keys, LeafFor(t, key).vals, key)
  }

  /** The ids on the search path of `key`. */
  ghost function Path<V>(t: Tree<V>, key: Key): set<NodeId>
    requires Routable(t)
    decreases t
  {
    {t.id} + (if t.BranchT? then Path(Next(t, key), key) else {})
  }

  lemma {:induction false} PathInBag<V>(t: Tree<V>, key: Key)
    requires Routable(t)
    ensures forall id :: id in Path(t, key) ==> id in IdBag(t)
    decreases t
  {
    if t.LeafT? {
    } else {
      PathInBag(Next(t, key), key);
      BagsMember(t.children, ChildIndex(t.keys, key));
    }
  }

  /** The search finds what the in-order sequence holds under the key. */
  lemma {:induction false} StoredIsFind<V>(t: Tree<V>, key: Key, lo: Option<Key>, hi: Option<Key>)
    requires Ordered(t, lo, hi) && Routable(t) && AtLeast(lo, key) && Below(key, hi)
    ensures Stored(t, key) == Find(Entries(t), key)
    decreases t
  {
    if t.LeafT? {
    } else {
      var i := ChildIndex(t.keys, key);
      Descend(t, lo, hi, key);
      FindMiddle(Flatten(t.children[..i]), Entries(t.children[i]), Flatten(t.children[i + 1..]), key);
      StoredIsFind(t.children[i], key, LoAt(t.keys, lo, i), HiAt(t.keys, hi, i));
    }
  }
}
