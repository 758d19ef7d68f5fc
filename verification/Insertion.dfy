/** Insertion with leaf and internal splits, in the node store (src/ops.rs:45-196). */
module Insertion {
  import opened Wrappers
  import opened SortedEntries
  import opened Nodes
  import opened Multisets
  import opened Store
  import opened Trees
  import opened TreeInsert
  import opened Grafting
  import opened Shapes
  import opened Bounds

  /** What one level of the recursion tells the level above; `Reports` ties it to the tree that comes out. */
  datatype Outcome<V> =
    | Replaced(previous: V)
    | Done
    | Split(sep: Key, right: NodeId)

  /** One tree came out, with or without a displaced value, or two, around this separator and with this right root. */
  ghost predicate Reports<V>(out: Outcome<V>, g: Grown<V>, displaced: Option<V>) {
    match out
    case Replaced(v) => g.One? && displaced == Some(v)
    case Done => g.One? && displaced == None
    case Split(s, right) => g.Two? && s == g.sep && right == g.right.id && displaced == None
  }

  // ---- Writing one node ----

  /** The store afterwards holds `Settle` of the leaf with the entry in it, and the outcome `Reports` it. */
  method InsertLeaf<V>(store: InMemoryStore<V>, id: NodeId, key: Key, val: V, order: nat, ghost t: Tree<V>,
                       ghost h: nat, ghost m: int)
    returns (out: Outcome<V>, ghost spare: NodeId)
    requires store.Valid() && order >= 3 && t.LeafT? && Routable(t) && Balanced(t, h, order, m)
    requires |store.nodes| + Splits(t, key, order) <= ID_LIMIT
    requires id == t.id && id in store.nodes && store.nodes[id] == NodeOf(t)
    modifies store
    ensures store.Valid()
    ensures var g := Settle(LeafWith(t, key, val), order, spare);
            && Reports(out, g, Stored(t, key))
            && Written(old(store.nodes), store.nodes, g, spare)
            && (g.Two? <==> Overflows(t, key, order))
    ensures |store.nodes| == |old(store.nodes)| + Splits(t, key, order)
    ensures Raised(old(store.peak), |store.nodes|, store.peak)
    ensures if key in t.keys then out.Replaced? && Holds(store.nodes, id, |t.keys|)
            else if |t.keys| + 1 < order then out.Done? && Holds(store.nodes, id, |t.keys| + 1)
            else
              && out.Split? && Holds(store.nodes, id, order / 2) && Holds(store.nodes, out.right, order - order / 2)
              && out.sep == store.nodes[out.right].keys[0]
  {
    spare := 0;
    match store.Get(id)
    case Leaf(keys, vals) =>
      match BinarySearch(keys, key) {
        case Found(i) =>
          out := Replaced(vals[i]);
          store.Set(id, Leaf(keys, vals[i := val]));
        case Missing(i) =>
          keys := InsertAt(keys, i, key);
          vals := InsertAt(vals, i, val);
          if |keys| < order {
            store.Set(id, Leaf(keys, vals));
            out := Done;
          } else {
            var mid := |keys| / 2;
            store.Set(id, Leaf(keys[..mid], vals[..mid]));
            var right := store.Alloc(Leaf(keys[mid..], vals[mid..]));
            spare := right;
            out := Split(keys[mid], right);
          }
      }
    case Internal(_, _) => assert false;
  }

  lemma NodeOfSpliced<V>(t: Tree<V>, i: nat, c: Grown<V>)
    requires t.BranchT? && i < |t.children| == |t.keys| + 1
    requires c.Two? && c.left.id == t.children[i].id
    ensures NodeOf(BranchWith(t, i, c))
         == Internal(InsertAt(t.keys, i, c.sep), InsertAt(RootIds(t.children), i + 1, c.right.id))
  {
    assert RootIds(BranchWith(t, i, c).children) == InsertAt(RootIds(t.children), i + 1, c.right.id);
  }

  lemma NodeOfHalves<V>(t: Tree<V>, spare: NodeId)
    requires t.BranchT? && |t.keys| >= 2 && |t.children| == |t.keys| + 1
    ensures var mid, ids, g := |t.keys| / 2, RootIds(t.children), Cut(t, spare);
            && NodeOf(g.left) == Internal(t.keys[..mid], ids[..mid + 1])
            && NodeOf(g.right) == Internal(t.keys[mid + 1..], ids[mid + 1..])
  {
    var mid := |t.keys| / 2;
    assert RootIds(t.children[..mid + 1]) == RootIds(t.children)[..mid + 1];
    assert RootIds(t.children[mid + 1..]) == RootIds(t.children)[mid + 1..];
  }

  /** The store afterwards holds both trees of `Cut`, the left one under the old id. */
  method SplitInternal<V>(store: InMemoryStore<V>, id: NodeId, keys: seq<Key>, children: seq<NodeId>, ghost w: Tree<V>)
    returns (sep: Key, right: NodeId)
    requires store.Valid() && |store.nodes| < ID_LIMIT && id in store.nodes
    requires w.BranchT? && w.id == id && |w.keys| >= 2 && |w.children| == |w.keys| + 1
    requires NodeOf(w) == Internal(keys, children)
    modifies store
    ensures store.Valid()
    ensures sep == Cut(w, right).sep && right !in old(store.nodes)
    ensures var g := Cut(w, right);
            store.nodes == old(store.nodes)[id := NodeOf(g.left)][right := NodeOf(g.right)]
    ensures var mid := |keys| / 2;
            sep == keys[mid] && Holds(store.nodes, id, mid) && Holds(store.nodes, right, |keys| - mid - 1)
    ensures |store.nodes| == |old(store.nodes)| + 1
    ensures Raised(old(store.peak), |store.nodes|, store.peak)
  {
    var mid := |keys| / 2;
    store.Set(id, Internal(keys[..mid], children[..mid + 1]));
    right := store.Alloc(Internal(keys[mid + 1..], children[mid + 1..]));
    NodeOfHalves(w, right);
    sep := keys[mid];
  }

  /**
    The store afterwards holds `Settle` of the branch with `c` in place of its child; a slot is used exactly when
    that is two nodes.
   */
  method AbsorbSplit<V>(store: InMemoryStore<V>, id: NodeId, idx: nat, sep: Key, right: NodeId, order: nat,
                        ghost t: Tree<V>, ghost c: Grown<V>)
    returns (out: Outcome<V>, ghost spare: NodeId)
    requires store.Valid() && order >= 3
    requires t.BranchT? && idx < |t.children| == |t.keys| + 1
    requires id == t.id && id in store.nodes && store.nodes[id] == NodeOf(t)
    requires c.Two? && c.left.id == t.children[idx].id && c.sep == sep && c.right.id == right
    requires |t.keys| + 1 >= order ==> |store.nodes| < ID_LIMIT
    modifies store
    ensures store.Valid()
    ensures var g := Settle(BranchWith(t, idx, c), order, spare);
            && Reports(out, g, None)
            && Written(old(store.nodes), store.nodes, g, spare)
            && |store.nodes| == |old(store.nodes)| + (if g.Two? then 1 else 0)
            && (g.Two? <==> |t.keys| + 1 >= order)
            && (g.One? ==> spare == 0)
    ensures Raised(old(store.peak), |store.nodes|, store.peak)
    ensures var n := |t.keys| + 1;
            if n < order then out.Done? && Holds(store.nodes, id, n)
            else out.Split? && Holds(store.nodes, id, n / 2) && Holds(store.nodes, out.right, n - n / 2 - 1)
  {
    spare := 0;
    ghost var w := BranchWith(t, idx, c);
    match store.Get(id)
    case Internal(keys, children) =>
      keys := InsertAt(keys, idx, sep);
      children := InsertAt(children, idx + 1, right);
      NodeOfSpliced(t, idx, c);
      if |keys| < order {
        store.Set(id, Internal(keys, children));
        out := Done;
      } else {
        var newSep, newRight := SplitInternal(store, id, keys, children, w);
        spare := newRight;
        out := Split(newSep, newRight);
      }
    case Leaf(_, _) => assert false;
  }

  /** The heap side of one branch level: the child changed, then this node was written. */
  lemma BranchGrafted<V>(before: map<NodeId, Node<V>>, between: map<NodeId, Node<V>>, after: map<NodeId, Node<V>>,
                         t: Tree<V>, i: nat, c: Grown<V>, key: Key, order: nat, spare: NodeId)
    requires order >= 3 && t.BranchT? && Routable(t)
    requires i == ChildIndex(t.keys, key)
    requires Rep(before, t) && IdBag(t) <= multiset(before.Keys)
    requires Routable(t.children[i]) && Grafted(before, between, t.children[i], c, Path(t.children[i], key))
    requires Written(between, after, Settle(BranchWith(t, i, c), order, spare), spare)
    ensures Grafted(before, after, t, Settle(BranchWith(t, i, c), order, spare), Path(t, key))
  {
    var w := BranchWith(t, i, c);
    var g := Settle(w, order, spare);
    BranchWritten(before, between, after, t, i, c, key, order, spare);
    assert multiset(after.Keys) + IdBag(t) == multiset(before.Keys) + GrownBag(g) by {
      AroundChildBag(before, between, t, i, c);
      Chain(multiset(before.Keys), multiset(between.Keys), multiset(after.Keys), IdBag(t), IdBag(w), GrownBag(g));
    }
    assert Path(t, key) == {t.id} + Path(t.children[i], key);
  }

  lemma BranchWritten<V>(before: map<NodeId, Node<V>>, between: map<NodeId, Node<V>>, after: map<NodeId, Node<V>>,
                         t: Tree<V>, i: nat, c: Grown<V>, key: Key, order: nat, spare: NodeId)
    requires order >= 3 && t.BranchT? && i < |t.children| == |t.keys| + 1
    requires Rep(before, t) && IdBag(t) <= multiset(before.Keys)
    requires Routable(t.children[i]) && Grafted(before, between, t.children[i], c, Path(t.children[i], key))
    requires Written(between, after, Settle(BranchWith(t, i, c), order, spare), spare)
    ensures var w := BranchWith(t, i, c);
            var g := Settle(w, order, spare);
            && GrownRep(after, g) && GrownId(g) == t.id
            && multiset(after.Keys) + IdBag(w) == multiset(between.Keys) + GrownBag(g)
    ensures forall id :: id in between && id != t.id ==> id in after && after[id] == between[id]
  {
    var w := BranchWith(t, i, c);
    PathInBag(t.children[i], key);
    AroundChild(before, between, t, i, c, Path(t.children[i], key));
    AroundChildBag(before, between, t, i, c);
    assert forall id :: id in Bags(w.children) ==> id in multiset(between.Keys) by {
      assert forall id :: id in Bags(w.children) ==> id in IdBag(w);
    }
    SettleInStore(between, after, w, order, spare);
  }

  // ---- Insertion into a subtree ----

  /** What the store holds at the root of a subtree. */
  lemma Resolve<V>(nodes: map<NodeId, Node<V>>, t: Tree<V>)
    requires Rep(nodes, t) && Routable(t)
    ensures t.id in nodes && AscendingKeys(t.keys)
    ensures t.LeafT? ==> nodes[t.id] == Leaf(t.keys, t.vals) && |t.keys| == |t.vals|
    ensures t.BranchT? ==> nodes[t.id] == Internal(t.keys, RootIds(t.children)) && |t.children| == |t.keys| + 1
  {
  }

  /** The preconditions of the recursive call, and how the split counts of the two levels are related. */
  lemma EnterChild<V>(nodes: map<NodeId, Node<V>>, t: Tree<V>, i: nat, h: nat, order: nat, m: int, key: Key)
    requires order >= 3 && t.BranchT? && Rep(nodes, t) && IdBag(t) <= multiset(nodes.Keys)
    requires Balanced(t, h, order, m) && Routable(t) && i == ChildIndex(t.keys, key)
    ensures h >= 2 && |t.keys| < order && i < |t.children| && t.children[i] == Next(t, key)
    ensures Rep(nodes, t.children[i]) && IdBag(t.children[i]) <= multiset(nodes.Keys)
    ensures Balanced(t.children[i], h - 1, order, MinKeys(order)) && Routable(t.children[i])
    ensures Splits(t, key, order) == Splits(t.children[i], key, order) + (if Overflows(t, key, order) then 1 else 0)
    ensures Overflows(t, key, order) <==> Overflows(t.children[i], key, order) && |t.keys| + 1 >= order
    ensures Stored(t, key) == Stored(t.children[i], key)
  {
    PartsApart(t, i, multiset(nodes.Keys));
  }

  /** The slots used below the root are the ones the child's insertion used. */
  lemma InsStep<V>(t: Tree<V>, i: nat, key: Key, val: V, order: nat, below: seq<NodeId>, spare: NodeId)
    requires order >= 3 && t.BranchT? && Routable(t) && i == ChildIndex(t.keys, key)
    requires !Overflows(t, key, order) ==> spare == 0
    ensures Ins(t, key, val, order, AllSpares(t, key, order, below, spare))
            == Settle(BranchWith(t, i, Ins(t.children[i], key, val, order, below)), order, spare)
  {
    assert (below + [spare])[..|below|] == below;
  }

  /** A branch above a child that did not split is not written at all. */
  lemma UnsplitChild<V>(before: map<NodeId, Node<V>>, between: map<NodeId, Node<V>>, t: Tree<V>, i: nat, c: Grown<V>,
                        key: Key, order: nat)
    requires order >= 3 && t.BranchT? && i < |t.children| == |t.keys| + 1 && |t.keys| < order
    requires Rep(before, t) && IdBag(t) <= multiset(before.Keys)
    requires Routable(t.children[i]) && Grafted(before, between, t.children[i], c, Path(t.children[i], key)) && c.One?
    ensures Written(between, between, Settle(BranchWith(t, i, c), order, 0), 0)
  {
    PathInBag(t.children[i], key);
    AroundChild(before, between, t, i, c, Path(t.children[i], key));
    assert RootIds(BranchWith(t, i, c).children) == RootIds(t.children);
    assert between == between[t.id := NodeOf(t)];
  }

  /** The subtree is `Grafted` to `Ins` of it, with `Splits` nodes more and no change off the search path. */
  method InsertInto<V>(store: InMemoryStore<V>, id: NodeId, key: Key, val: V, order: nat,
                       ghost t: Tree<V>, ghost h: nat, ghost m: int)
    returns (out: Outcome<V>, ghost spares: seq<NodeId>)
    requires store.Valid() && order >= 3
    requires id == t.id && Rep(store.nodes, t) && IdBag(t) <= multiset(store.nodes.Keys)
    requires Balanced(t, h, order, m) && Routable(t)
    requires |store.nodes| + Splits(t, key, order) <= ID_LIMIT
    modifies store
    ensures store.Valid()
    ensures Grafted(old(store.nodes), store.nodes, t, Ins(t, key, val, order, spares), Path(t, key))
    ensures Reports(out, Ins(t, key, val, order, spares), Stored(t, key))
    ensures |store.nodes| == |old(store.nodes)| + Splits(t, key, order)
    ensures Raised(old(store.peak), |store.nodes|, store.peak)
    decreases t, 1
  {
    Resolve(store.nodes, t);
    match store.Get(id)
    case Leaf(_, _) =>
      ghost var spare;
      out, spare := InsertLeaf(store, id, key, val, order, t, h, m);
      spares := [spare];
      SettleInStore(old(store.nodes), store.nodes, LeafWith(t, key, val), order, spare);
    case Internal(keys, children) =>
      var idx := ChildIndex(keys, key);
      out, spares := InsertBelow(store, id, idx, children[idx], key, val, order, t, h, m);
  }

  lemma RootOffPath<V>(nodes: map<NodeId, Node<V>>, t: Tree<V>, i: nat, key: Key)
    requires t.BranchT? && i < |t.children| && Routable(t.children[i]) && IdBag(t) <= multiset(nodes.Keys)
    ensures t.id in nodes && t.id !in Path(t.children[i], key)
  {
    PartsApart(t, i, multiset(nodes.Keys));
    PathInBag(t.children[i], key);
  }

  /** A subtree splits exactly when it overflows, whatever slots the halves get. */
  lemma SplitsAreOverflows<V>(t: Tree<V>, key: Key, val: V, order: nat, h: nat, m: int)
    requires order >= 3 && Routable(t) && Balanced(t, h, order, m)
    ensures forall spares :: Ins(t, key, val, order, spares).Two? <==> Overflows(t, key, order)
  {
    forall spares
      ensures Ins(t, key, val, order, spares).Two? <==> Overflows(t, key, order)
    {
      InsShape(t, key, val, order, spares, h, m);
    }
  }

  /** The slots of the splits in `t`, given those below its root. */
  ghost function AllSpares<V>(t: Tree<V>, key: Key, order: nat, below: seq<NodeId>, spare: NodeId): seq<NodeId>
    requires Routable(t)
  {
    if Overflows(t, key, order) then below + [spare] else below
  }

  /**
    One level of an insertion is done: the child changed and reported `below`; if it split,
    this node was written and reported `out`, otherwise nothing happened here.
   */
  lemma LevelDone<V>(before: map<NodeId, Node<V>>, between: map<NodeId, Node<V>>, after: map<NodeId, Node<V>>,
                     below: Outcome<V>, out: Outcome<V>, t: Tree<V>, i: nat, key: Key, val: V, order: nat,
                     under: seq<NodeId>, spare: NodeId, h: nat, m: int)
    requires order >= 3 && t.BranchT? && Routable(t) && Balanced(t, h, order, m) && i == ChildIndex(t.keys, key)
    requires Rep(before, t) && IdBag(t) <= multiset(before.Keys)
    requires Grafted(before, between, t.children[i], Ins(t.children[i], key, val, order, under), Path(t.children[i], key))
    requires Reports(below, Ins(t.children[i], key, val, order, under), Stored(t.children[i], key))
    requires !Overflows(t, key, order) ==> spare == 0
    requires var g := Settle(BranchWith(t, i, Ins(t.children[i], key, val, order, under)), order, spare);
             if below.Split? then Written(between, after, g, spare) && Reports(out, g, None)
             else after == between && spare == 0 && out == below
    ensures var g := Ins(t, key, val, order, AllSpares(t, key, order, under, spare));
            Grafted(before, after, t, g, Path(t, key)) && Reports(out, g, Stored(t, key))
  {
    var c := Ins(t.children[i], key, val, order, under);
    if c.One? { UnsplitChild(before, between, t, i, c, key, order); }
    InsStep(t, i, key, val, order, under, spare);
    BranchGrafted(before, between, after, t, i, c, key, order, spare);
    LevelReports(out, below, t, i, key, val, order, under, spare, h, m);
  }

  lemma LevelReports<V>(out: Outcome<V>, below: Outcome<V>, t: Tree<V>, i: nat, key: Key, val: V, order: nat,
                        under: seq<NodeId>, spare: NodeId, h: nat, m: int)
    requires order >= 3 && t.BranchT? && Routable(t) && Balanced(t, h, order, m) && i == ChildIndex(t.keys, key)
    requires Reports(below, Ins(t.children[i], key, val, order, under), Stored(t.children[i], key))
    requires !Overflows(t, key, order) ==> spare == 0
    requires var g := Settle(BranchWith(t, i, Ins(t.children[i], key, val, order, under)), order, spare);
             if below.Split? then Reports(out, g, None) else spare == 0 && out == below
    ensures Reports(out, Ins(t, key, val, order, AllSpares(t, key, order, under, spare)), Stored(t, key))
  {
    InsStep(t, i, key, val, order, under, spare);
    InsShape(t, key, val, order, AllSpares(t, key, order, under, spare), h, m);
    assert Stored(t, key) == Stored(Next(t, key), key);
  }

  /** After the insertion below, this node is as it was. */
  lemma StillThere<V>(before: map<NodeId, Node<V>>, between: map<NodeId, Node<V>>, t: Tree<V>, i: nat, u: Tree<V>,
                      c: Grown<V>, key: Key)
    requires Rep(before, t) && IdBag(t) <= multiset(before.Keys) && t.BranchT? && i < |t.children| && u == t.children[i]
    requires Routable(u) && Grafted(before, between, u, c, Path(u, key))
    ensures t.id in between && between[t.id] == NodeOf(t)
  {
    RootOffPath(before, t, i, key);
  }

  /** It splits exactly if a split came up from below and it is full. */
  lemma Overflowing<V>(below: Outcome<V>, t: Tree<V>, i: nat, u: Tree<V>, key: Key, val: V, order: nat, under: seq<NodeId>,
                       c: Grown<V>, h: nat, m: int)
    requires order >= 3 && t.BranchT? && Balanced(t, h, order, m) && Routable(t)
    requires i == ChildIndex(t.keys, key) && i < |t.children| && u == t.children[i]
    requires c == Ins(u, key, val, order, under) && Reports(below, c, Stored(u, key))
    ensures |t.children| == |t.keys| + 1
    ensures below.Split? ==> c.Two? && c.left.id == u.id && c.sep == below.sep && c.right.id == below.right
    ensures Overflows(t, key, order) <==> below.Split? && |t.keys| + 1 >= order
    ensures Splits(t, key, order) == Splits(u, key, order) + (if Overflows(t, key, order) then 1 else 0)
  {
    InsShape(u, key, val, order, under, h - 1, MinKeys(order));
  }

  /** A split below is absorbed; any other outcome is handed up as it is. */
  method AbsorbBelow<V>(store: InMemoryStore<V>, id: NodeId, idx: nat, below: Outcome<V>, ghost before: map<NodeId, Node<V>>,
                        ghost t: Tree<V>, ghost u: Tree<V>, ghost c: Grown<V>, ghost key: Key, ghost val: V, order: nat,
                        ghost under: seq<NodeId>, ghost h: nat, ghost m: int)
    returns (out: Outcome<V>, ghost spare: NodeId)
    requires store.Valid() && order >= 3 && id == t.id && Rep(before, t) && IdBag(t) <= multiset(before.Keys)
    requires t.BranchT? && Balanced(t, h, order, m) && Routable(t) && idx == ChildIndex(t.keys, key) && idx < |t.children|
    requires u == t.children[idx] && c == Ins(u, key, val, order, under)
    requires Grafted(before, store.nodes, u, c, Path(u, key)) && Reports(below, c, Stored(u, key))
    requires |store.nodes| == |before| + Splits(u, key, order)
    requires |before| + Splits(t, key, order) <= ID_LIMIT
    modifies store
    ensures store.Valid()
    ensures Grafted(before, store.nodes, t, Ins(t, key, val, order, AllSpares(t, key, order, under, spare)), Path(t, key))
    ensures Reports(out, Ins(t, key, val, order, AllSpares(t, key, order, under, spare)), Stored(t, key))
    ensures |store.nodes| == |before| + Splits(t, key, order)
    ensures Raised(old(store.peak), |store.nodes|, store.peak)
  {
    ghost var between := store.nodes;
    StillThere(before, between, t, idx, u, c, key);
    Overflowing(below, t, idx, u, key, val, order, under, c, h, m);
    out, spare := below, 0;
    if below.Split? {
      out, spare := AbsorbSplit(store, id, idx, below.sep, below.right, order, t, c);
    }
    LevelDone(before, between, store.nodes, below, out, t, idx, key, val, order, under, spare, h, m);
  }

  /** The case of a branch: the contract of `InsertInto`, from the one for the child. */
  method InsertBelow<V>(store: InMemoryStore<V>, id: NodeId, idx: nat, child: NodeId, key: Key, val: V, order: nat,
                        ghost t: Tree<V>, ghost h: nat, ghost m: int)
    returns (out: Outcome<V>, ghost spares: seq<NodeId>)
    requires store.Valid() && order >= 3
    requires id == t.id && Rep(store.nodes, t) && IdBag(t) <= multiset(store.nodes.Keys)
    requires Balanced(t, h, order, m) && Routable(t)
    requires |store.nodes| + Splits(t, key, order) <= ID_LIMIT
    requires t.BranchT? && idx == ChildIndex(t.keys, key) && idx < |t.children| && child == t.children[idx].id
    modifies store
    ensures store.Valid()
    ensures Grafted(old(store.nodes), store.nodes, t, Ins(t, key, val, order, spares), Path(t, key))
    ensures Reports(out, Ins(t, key, val, order, spares), Stored(t, key))
    ensures |store.nodes| == |old(store.nodes)| + Splits(t, key, order)
    ensures Raised(old(store.peak), |store.nodes|, store.peak)
    decreases t, 0
  {
    EnterChild(store.nodes, t, idx, h, order, m, key);
    var below, under := InsertInto(store, child, key, val, order, t.children[idx], h - 1, MinKeys(order));
    ghost var before, spare := old(store.nodes), 0;
    out, spare := AbsorbBelow(store, id, idx, below, before, t, t.children[idx],
                              Ins(t.children[idx], key, val, order, under), key, val, order, under, h, m);
    spares := AllSpares(t, key, order, under, spare);
  }

  // ---- Insertion into the tree ----

  /** By how much inserting `key` raises an index: 1 if its root overflows. */
  ghost function Grows<V>(t: Tree<V>, key: Key, order: nat): nat
    requires Routable(t)
  {
    if Overflows(t, key, order) then 1 else 0
  }

  lemma RootedIndex<V>(g: Grown<V>, top: NodeId, h: nat, order: nat)
    requires order >= 3 && h >= 1 && Fits(g, h, order, RootMin(h), None, None)
    ensures var t, k := Rooted(g, top), if g.One? then h else h + 1;
            && Balanced(t, k, order, RootMin(k)) && Ordered(t, None, None)
            && Entries(t) == GrownEntries(g)
            && IdBag(t) == GrownBag(g) + (if g.Two? then multiset{top} else multiset{})
  {
    if g.Two? {
      var ts := [g.left, g.right];
      assert Flatten(ts) == Entries(g.left) + Flatten(ts[1..]) && ts[1..] == [g.right];
      FlattenOne(g.right);
      BagsOne(g.right);
    }
  }

  lemma NewRootInStore<V>(before: map<NodeId, Node<V>>, g: Grown<V>, top: NodeId)
    requires g.Two? && GrownRep(before, g) && top !in before
    requires GrownBag(g) == multiset(before.Keys)
    ensures Rep(before[top := NodeOf(Rooted(g, top))], Rooted(g, top))
    ensures IdBag(Rooted(g, top)) == multiset(before[top := NodeOf(Rooted(g, top))].Keys)
  {
    var t := Rooted(g, top);
    HalvesStay(before, g, top, NodeOf(t));
    RepFrom(before[top := NodeOf(t)], t);
    RootedBag(g, top);
    KeysAfterInsert(before, top, NodeOf(t));
  }

  /** A new node leaves both halves as they are. */
  lemma HalvesStay<V>(before: map<NodeId, Node<V>>, g: Grown<V>, top: NodeId, node: Node<V>)
    requires g.Two? && GrownRep(before, g) && top !in before && GrownBag(g) == multiset(before.Keys)
    ensures Rep(before[top := node], g.left) && Rep(before[top := node], g.right)
  {
    forall id | id in GrownBag(g)
      ensures id in before
    {
      assert id in multiset(before.Keys);
    }
    RepFrame(before, before[top := node], g.left);
    RepFrame(before, before[top := node], g.right);
  }

  lemma RootedBag<V>(g: Grown<V>, top: NodeId)
    requires g.Two?
    ensures IdBag(Rooted(g, top)) == GrownBag(g) + multiset{top}
  {
    var ts := [g.left, g.right];
    assert Bags(ts) == IdBag(g.left) + Bags(ts[1..]) && ts[1..] == [g.right];
    BagsOne(g.right);
  }

  /** What an insertion makes of the tree below the root. */
  lemma InsCorrect<V>(t: Tree<V>, key: Key, val: V, order: nat, spares: seq<NodeId>, h: nat)
    requires order >= 3 && Routable(t) && Balanced(t, h, order, RootMin(h)) && Ordered(t, None, None)
    ensures h >= 1 && Fits(Ins(t, key, val, order, spares), h, order, RootMin(h), None, None)
    ensures GrownEntries(Ins(t, key, val, order, spares)) == Put(Entries(t), key, val)
    ensures Ins(t, key, val, order, spares).Two? <==> Overflows(t, key, order)
    ensures Stored(t, key) == Find(Entries(t), key)
  {
    InsFits(t, key, val, order, spares, h, RootMin(h), None, None);
    InsEntries(t, key, val, order, spares, None, None);
    InsShape(t, key, val, order, spares, h, RootMin(h));
    StoredIsFind(t, key, None, None);
  }

  /** The root did not split: the result is an index of the same height. */
  lemma SameHeight<V>(before: map<NodeId, Node<V>>, after: map<NodeId, Node<V>>, t: Tree<V>, key: Key, val: V,
                      order: nat, spares: seq<NodeId>, h: nat)
    returns (u: Tree<V>)
    requires order >= 3 && IsIndex(before, t, h, order) && Routable(t) && !Overflows(t, key, order)
    requires Grafted(before, after, t, Ins(t, key, val, order, spares), Path(t, key))
    ensures u.id == t.id && IsIndex(after, u, h, order) && Entries(u) == Put(Entries(t), key, val)
    ensures Bare(u) == Inserted(Bare(t), key, val, order)
  {
    InsertedShape(t, key, val, order, spares, 0);
    InsCorrect(t, key, val, order, spares, h);
    u := Rooted(Ins(t, key, val, order, spares), 0);
    RootedIndex(Ins(t, key, val, order, spares), 0, h, order);
    Cancel(multiset(after.Keys), IdBag(t), GrownBag(Ins(t, key, val, order, spares)));
  }

  /** The root split: with a new root above its halves the result is an index one level taller. */
  lemma OneTaller<V>(before: map<NodeId, Node<V>>, after: map<NodeId, Node<V>>, grown: map<NodeId, Node<V>>, t: Tree<V>,
                     key: Key, val: V, order: nat, spares: seq<NodeId>, g: Grown<V>, h: nat, top: NodeId)
    returns (u: Tree<V>)
    requires order >= 3 && IsIndex(before, t, h, order) && Routable(t) && Overflows(t, key, order)
    requires g == Ins(t, key, val, order, spares) && Grafted(before, after, t, g, Path(t, key)) && top !in after
    requires g.Two? ==> grown == after[top := Internal([g.sep], [t.id, g.right.id])]
    ensures u.id == top && IsIndex(grown, u, h + 1, order) && Entries(u) == Put(Entries(t), key, val)
    ensures Bare(u) == Inserted(Bare(t), key, val, order)
  {
    InsertedShape(t, key, val, order, spares, top);
    InsCorrect(t, key, val, order, spares, h);
    RootedIndex(g, top, h, order);
    TallerStore(before, after, t, g, top, Path(t, key));
    u := Rooted(g, top);
  }

  lemma TallerStore<V>(before: map<NodeId, Node<V>>, after: map<NodeId, Node<V>>, t: Tree<V>, g: Grown<V>, top: NodeId,
                       touched: set<NodeId>)
    requires IdBag(t) == multiset(before.Keys) && g.Two? && Grafted(before, after, t, g, touched) && top !in after
    ensures var u := Rooted(g, top);
            && Rep(after[top := NodeOf(u)], u) && IdBag(u) == multiset(after[top := NodeOf(u)].Keys)
            && NodeOf(u) == Internal([g.sep], [t.id, g.right.id])
  {
    Cancel(multiset(after.Keys), IdBag(t), GrownBag(g));
    NewRootInStore(after, g, top);
    assert RootIds([g.left, g.right]) == [t.id, g.right.id];
  }

  // ---- The ids an insertion needs ----

  /** The nodes of an index and those an insertion adds are no more than a tree of its entries can have. */
  lemma NodesAfter<V>(t: Tree<V>, key: Key, val: V, h: nat, order: nat)
    requires order >= 3 && Routable(t) && Balanced(t, h, order, RootMin(h)) && Ordered(t, None, None)
    ensures |IdBag(t)| + Splits(t, key, order) + Grows(t, key, order) <= NodeBound(|Put(Entries(t), key, val)|, order)
  {
    var g := Ins(t, key, val, order, []);
    InsCorrect(t, key, val, order, [], h);
    InsCount(t, key, val, order, [], h, RootMin(h));
    RootedIndex(g, 0, h, order);
    Population(Rooted(g, 0), if g.One? then h else h + 1, order);
  }

  /** The ids that the nodes of a store refer to. */
  ghost predicate Narrow<V>(nodes: map<NodeId, Node<V>>, limit: nat) {
    forall id :: id in nodes && nodes[id].Internal? ==> forall c :: c in nodes[id].children ==> c < limit
  }

  lemma {:induction false} NarrowIds<V>(nodes: map<NodeId, Node<V>>, t: Tree<V>, limit: nat)
    requires Rep(nodes, t) && Narrow(nodes, limit) && t.id < limit
    ensures forall id :: id in IdBag(t) ==> id < limit
    decreases t, 1
  {
    match t
    case LeafT(_, _, _) =>
    case BranchT(id, _, children) =>
      forall i | 0 <= i < |children|
        ensures children[i].id < limit
      {
        assert RootIds(children)[i] in nodes[id].children;
      }
      NarrowForest(nodes, children, limit);
  }

  lemma {:induction false} NarrowForest<V>(nodes: map<NodeId, Node<V>>, ts: seq<Tree<V>>, limit: nat)
    requires RepAll(nodes, ts) && Narrow(nodes, limit) && forall i :: 0 <= i < |ts| ==> ts[i].id < limit
    ensures forall id :: id in Bags(ts) ==> id < limit
    decreases ts, 0
  {
    if ts == [] {
    } else {
      NarrowIds(nodes, ts[0], limit);
      NarrowForest(nodes, ts[1..], limit);
    }
  }

  /** An index whose ids fit their width has no more nodes than there are ids. */
  lemma IndexFits<V>(nodes: map<NodeId, Node<V>>, t: Tree<V>, h: nat, order: nat, limit: nat)
    requires order >= 3 && Narrow(nodes, limit) && t.id < limit
    ensures IsIndex(nodes, t, h, order) ==> |nodes| == |IdBag(t)| <= limit
  {
    if IsIndex(nodes, t, h, order) {
      NarrowIds(nodes, t, limit);
      BagCount(nodes.Keys, IdBag(t));
      assert forall id :: id in nodes.Keys ==> id in multiset(nodes.Keys);
      SubsetCount(nodes.Keys, Slots(limit));
    }
  }

  /** Room for an insertion is needed: without it no store with 32-bit ids holds the tree after the insertion. */
  lemma RoomIsNeeded<V>(after: map<NodeId, Node<V>>, t: Tree<V>, key: Key, val: V, order: nat, spares: seq<NodeId>,
                        top: NodeId, h: nat, k: nat)
    requires order >= 3 && Routable(t) && Balanced(t, h, order, RootMin(h)) && Ordered(t, None, None)
    requires Narrow(after, ID_LIMIT) && Rooted(Ins(t, key, val, order, spares), top).id < ID_LIMIT
    ensures IsIndex(after, Rooted(Ins(t, key, val, order, spares), top), k, order) ==>
              |IdBag(t)| + Splits(t, key, order) + Grows(t, key, order) <= ID_LIMIT
  {
    var g := Ins(t, key, val, order, spares);
    InsCorrect(t, key, val, order, spares, h);
    InsCount(t, key, val, order, spares, h, RootMin(h));
    RootedIndex(g, top, h, order);
    IndexFits(after, Rooted(g, top), k, order, ID_LIMIT);
  }

  // ---- The insertion into an index ----

  /** Put a new root above the halves of a split one. */
  method GrowRoot<V>(store: InMemoryStore<V>, root: NodeId, sep: Key, right: NodeId, order: nat,
                     ghost before: map<NodeId, Node<V>>, ghost t: Tree<V>, ghost key: Key, ghost val: V,
                     ghost spares: seq<NodeId>, ghost h: nat)
    returns (newRoot: NodeId, ghost u: Tree<V>)
    requires store.Valid() && |store.nodes| < ID_LIMIT
    requires order >= 3 && IsIndex(before, t, h, order) && Routable(t) && Overflows(t, key, order)
    requires Grafted(before, store.nodes, t, Ins(t, key, val, order, spares), Path(t, key))
    requires var g := Ins(t, key, val, order, spares); g.Two? ==> root == t.id && sep == g.sep && right == g.right.id
    modifies store
    ensures store.Valid()
    ensures newRoot == u.id && IsIndex(store.nodes, u, h + 1, order) && Entries(u) == Put(Entries(t), key, val)
    ensures Bare(u) == Inserted(Bare(t), key, val, order)
    ensures |store.nodes| == |old(store.nodes)| + 1
    ensures Raised(old(store.peak), |store.nodes|, store.peak)
    ensures forall id :: id in old(store.nodes) ==> id in store.nodes && store.nodes[id] == old(store.nodes)[id]
  {
    ghost var between, g := store.nodes, Ins(t, key, val, order, spares);
    newRoot := store.Alloc(Internal([sep], [root, right]));
    u := OneTaller(before, between, store.nodes, t, key, val, order, spares, g, h, newRoot);
  }

  /** From the outcome at the root to an index: `Rooted`, one level taller exactly when there are two halves. */
  method Finish<V>(store: InMemoryStore<V>, root: NodeId, out: Outcome<V>, order: nat,
                   ghost before: map<NodeId, Node<V>>, ghost t: Tree<V>, ghost key: Key, ghost val: V,
                   ghost spares: seq<NodeId>, ghost h: nat)
    returns (displaced: Option<V>, newRoot: NodeId, ghost u: Tree<V>, ghost k: nat)
    requires store.Valid() && root == t.id
    requires order >= 3 && IsIndex(before, t, h, order) && Routable(t)
    requires Grafted(before, store.nodes, t, Ins(t, key, val, order, spares), Path(t, key))
    requires Reports(out, Ins(t, key, val, order, spares), Stored(t, key))
    requires out.Split? <==> Overflows(t, key, order)
    requires out.Split? ==> |store.nodes| < ID_LIMIT
    modifies store
    ensures store.Valid() && displaced == Stored(t, key)
    ensures newRoot == u.id && IsIndex(store.nodes, u, k, order) && Entries(u) == Put(Entries(t), key, val)
    ensures Bare(u) == Inserted(Bare(t), key, val, order)
    ensures if out.Split? then k == h + 1 && |store.nodes| == |old(store.nodes)| + 1
            else k == h && newRoot == root && store.nodes == old(store.nodes)
    ensures Raised(old(store.peak), |store.nodes|, store.peak)
    ensures forall id :: id in old(store.nodes) ==> id in store.nodes && store.nodes[id] == old(store.nodes)[id]
  {
    k, newRoot := h, root;
    match out
    case Replaced(v) =>
      displaced := Some(v);
      u := SameHeight(before, store.nodes, t, key, val, order, spares, h);
    case Done =>
      displaced := None;
      u := SameHeight(before, store.nodes, t, key, val, order, spares, h);
    case Split(sep, right) =>
      displaced, k := None, h + 1;
      newRoot, u := GrowRoot(store, root, sep, right, order, before, t, key, val, spares, h);
  }

  lemma PathStep<V>(before: map<NodeId, Node<V>>, after: map<NodeId, Node<V>>, t: Tree<V>, i: nat, c: Grown<V>, key: Key)
    requires t.BranchT? && Routable(t) && i == ChildIndex(t.keys, key) && i < |t.children|
    requires Rep(before, t) && c.One? && c.tree.id == t.children[i].id
    requires Rep(after, BranchWith(t, i, c))
    requires forall id :: id in before && id !in Path(t, key) ==> id in after && after[id] == before[id]
    ensures Rep(after, c.tree) && Rep(before, t.children[i])
    ensures forall id :: id in before && id !in Path(t.children[i], key) ==> id in after && after[id] == before[id]
  {
    var w := BranchWith(t, i, c);
    assert w.children[i] == c.tree;
    assert RootIds(w.children) == RootIds(t.children);
    assert after[t.id] == before[t.id];
    assert Path(t, key) == {t.id} + Path(t.children[i], key);
  }

  /** When nothing splits, an insertion changes exactly one node: the leaf where the search ends. */
  lemma {:induction false} OneLeafChanges<V>(before: map<NodeId, Node<V>>, after: map<NodeId, Node<V>>, t: Tree<V>,
                                             key: Key, val: V, order: nat, spares: seq<NodeId>, h: nat, m: int)
    requires order >= 3 && Routable(t) && Balanced(t, h, order, m) && Rep(before, t)
    requires Splits(t, key, order) == 0
    requires GrownRep(after, Ins(t, key, val, order, spares))
    requires forall id :: id in before && id !in Path(t, key) ==> id in after && after[id] == before[id]
    ensures LeafFor(t, key).id in after && after[LeafFor(t, key).id] == NodeOf(LeafWith(LeafFor(t, key), key, val))
    ensures forall id :: id in before && id != LeafFor(t, key).id ==> id in after && after[id] == before[id]
    decreases t
  {
    if t.BranchT? {
      var i, rest := ChildIndex(t.keys, key), ChildSpares(t, key, order, spares);
      var c := Ins(t.children[i], key, val, order, rest);
      UnsplitStep(t, key, val, order, spares, h, m);
      PathStep(before, after, t, i, c, key);
      OneLeafChanges(before, after, t.children[i], key, val, order, rest, h - 1, MinKeys(order));
    } else {
      InsShape(t, key, val, order, spares, h, m);
    }
  }

  /** Where nothing splits, a branch only gets its child back. */
  lemma UnsplitStep<V>(t: Tree<V>, key: Key, val: V, order: nat, spares: seq<NodeId>, h: nat, m: int)
    requires order >= 3 && t.BranchT? && Routable(t) && Balanced(t, h, order, m) && Splits(t, key, order) == 0
    ensures var i := ChildIndex(t.keys, key);
            var c := Ins(t.children[i], key, val, order, ChildSpares(t, key, order, spares));
            && c.One? && c.tree.id == t.children[i].id
            && Ins(t, key, val, order, spares) == One(BranchWith(t, i, c))
            && Splits(t.children[i], key, order) == 0
            && Balanced(t.children[i], h - 1, order, MinKeys(order))
  {
    NoSplits(Next(t, key), key, order);
    InsShape(Next(t, key), key, val, order, ChildSpares(t, key, order, spares), h - 1, MinKeys(order));
  }

  lemma NoSplits<V>(t: Tree<V>, key: Key, order: nat)
    requires Routable(t) && Splits(t, key, order) == 0
    ensures !Overflows(t, key, order)
  {
  }

  /** The store with nothing changed but the leaf where the search for `key` ends. */
  ghost function Overwritten<V>(nodes: map<NodeId, Node<V>>, t: Tree<V>, key: Key, val: V): map<NodeId, Node<V>>
    requires Routable(t)
  {
    nodes[LeafFor(t, key).id := NodeOf(LeafWith(LeafFor(t, key), key, val))]
  }

  lemma InPlace<V>(before: map<NodeId, Node<V>>, after: map<NodeId, Node<V>>, t: Tree<V>, key: Key, val: V,
                   order: nat, spares: seq<NodeId>, h: nat)
    requires order >= 3 && IsIndex(before, t, h, order) && Routable(t) && Splits(t, key, order) == 0
    requires Grafted(before, after, t, Ins(t, key, val, order, spares), Path(t, key)) && |after| == |before|
    ensures after == Overwritten(before, t, key, val)
  {
    OneLeafChanges(before, after, t, key, val, order, spares, h, RootMin(h));
    OneChange(before, after, LeafFor(t, key).id, NodeOf(LeafWith(LeafFor(t, key), key, val)));
  }

  lemma OneChange<K, T>(before: map<K, T>, after: map<K, T>, k: K, v: T)
    requires |after| == |before| && k in after && after[k] == v
    requires forall x :: x in before && x != k ==> x in after && after[x] == before[x]
    ensures after == before[k := v]
  {
    assert before.Keys <= after.Keys;
    assert after.Keys == before.Keys + (after.Keys - before.Keys);
  }

  /** An index of `Put` of the entries, taller by `Grows`; without growth the root id stays. */
  method Insert<V>(store: InMemoryStore<V>, root: NodeId, key: Key, val: V, order: nat, ghost t: Tree<V>, ghost h: nat)
    returns (displaced: Option<V>, newRoot: NodeId, ghost u: Tree<V>, ghost k: nat)
    requires store.Valid() && order >= 3 && root == t.id && IsIndex(store.nodes, t, h, order) && Routable(t)
    requires |store.nodes| + Splits(t, key, order) + Grows(t, key, order) <= ID_LIMIT
    modifies store
    ensures store.Valid() && newRoot == u.id && IsIndex(store.nodes, u, k, order) && k == h + Grows(t, key, order)
    ensures Entries(u) == Put(Entries(t), key, val) && Bare(u) == Inserted(Bare(t), key, val, order)
    ensures displaced == Find(Entries(t), key)
    ensures k == h ==> newRoot == root
    ensures forall id :: id in old(store.nodes) && id !in Path(t, key) ==>
                           id in store.nodes && store.nodes[id] == old(store.nodes)[id]
    ensures Splits(t, key, order) == 0 ==> store.nodes == Overwritten(old(store.nodes), t, key, val)
    ensures displaced.Some? ==> Splits(t, key, order) == 0
    ensures |store.nodes| == |old(store.nodes)| + Splits(t, key, order) + Grows(t, key, order)
    ensures Raised(old(store.peak), |store.nodes|, store.peak)
  {
    ghost var before := store.nodes;
    SplitsAreOverflows(t, key, val, order, h, RootMin(h));
    StoredIsFind(t, key, None, None);
    var out, spares := InsertInto(store, root, key, val, order, t, h, RootMin(h));
    if Stored(t, key).Some? {
      PresentSplitsNothing(t, key, order);
    }
    if Splits(t, key, order) == 0 {
      InPlace(before, store.nodes, t, key, val, order, spares, h);
    }
    displaced, newRoot, u, k := Finish(store, root, out, order, before, t, key, val, spares, h);
  }
}
