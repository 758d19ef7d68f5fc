/** Removal with borrowing, merging and root collapse, in the node store (src/ops.rs:198-463). */
module Removal {
  import opened Wrappers
  import opened SortedEntries
  import opened Nodes
  import opened Multisets
  import opened Store
  import opened Trees
  import opened TreeInsert
  import opened TreeRemove
  import opened Grafting
  import opened Shapes
  import opened Bounds

  /** The store after a borrow: the two siblings and the parent are rewritten in place. */
  ghost predicate PairWritten<V>(before: map<NodeId, Node<V>>, after: map<NodeId, Node<V>>, w: Tree<V>, j: nat, p: Grown<V>)
    requires w.BranchT? && j < |w.keys| && |w.children| == |w.keys| + 1
  {
    match p
    case One(_) => false
    case Two(l, _, r) => after == before[l.id := NodeOf(l)][r.id := NodeOf(r)][w.id := NodeOf(WithPair(w, j, p))]
  }

  /** The store after a merge: the right sibling is gone, the left one and the parent are rewritten in place. */
  ghost predicate JoinWritten<V>(before: map<NodeId, Node<V>>, after: map<NodeId, Node<V>>, w: Tree<V>, j: nat, u: Tree<V>)
    requires w.BranchT? && j < |w.keys| && |w.children| == |w.keys| + 1
  {
    match w.children[j + 1]
    case LeafT(gone, _, _) => after == (before[w.id := NodeOf(WithJoined(w, j, u))] - {gone})[u.id := NodeOf(u)]
    case BranchT(gone, _, _) => after == (before[w.id := NodeOf(WithJoined(w, j, u))] - {gone})[u.id := NodeOf(u)]
  }

  // ---- The nodes of shifted and joined siblings ----

  lemma ShiftRightNodes<V>(l: Tree<V>, s: Key, r: Tree<V>)
    requires Siblings(l, r) && |l.keys| > 0 && l.BranchT?
    ensures var n, p := |l.keys| - 1, ShiftRight(l, s, r);
            && NodeOf(p.left) == Internal(l.keys[..n], RootIds(l.children)[..n + 1])
            && NodeOf(p.right) == Internal([s] + r.keys, [RootIds(l.children)[n + 1]] + RootIds(r.children))
  {
    var n := |l.keys| - 1;
    assert RootIds(l.children[..n + 1]) == RootIds(l.children)[..n + 1];
    assert RootIds([l.children[n + 1]] + r.children) == [RootIds(l.children)[n + 1]] + RootIds(r.children);
  }

  lemma ShiftLeftNodes<V>(l: Tree<V>, s: Key, r: Tree<V>)
    requires Siblings(l, r) && |r.keys| > 1 && l.BranchT?
    ensures var p := ShiftLeft(l, s, r);
            && NodeOf(p.left) == Internal(l.keys + [s], RootIds(l.children) + [RootIds(r.children)[0]])
            && NodeOf(p.right) == Internal(r.keys[1..], RootIds(r.children)[1..])
  {
    assert RootIds(l.children + [r.children[0]]) == RootIds(l.children) + [RootIds(r.children)[0]];
    assert RootIds(r.children[1..]) == RootIds(r.children)[1..];
  }

  lemma JoinNode<V>(l: Tree<V>, s: Key, r: Tree<V>)
    requires Siblings(l, r) && l.BranchT?
    ensures NodeOf(Join(l, s, r)) == Internal(l.keys + [s] + r.keys, RootIds(l.children) + RootIds(r.children))
  {
    assert RootIds(l.children + r.children) == RootIds(l.children) + RootIds(r.children);
  }

  lemma WithPairNode<V>(w: Tree<V>, j: nat, p: Grown<V>)
    requires w.BranchT? && j < |w.keys| && |w.children| == |w.keys| + 1 && p.Two?
    requires p.left.id == w.children[j].id && p.right.id == w.children[j + 1].id
    ensures NodeOf(WithPair(w, j, p)) == Internal(w.keys[j := p.sep], RootIds(w.children))
  {
    assert RootIds(WithPair(w, j, p).children) == RootIds(w.children);
  }

  lemma WithJoinedNode<V>(w: Tree<V>, j: nat, u: Tree<V>)
    requires w.BranchT? && j < |w.keys| && |w.children| == |w.keys| + 1
    requires u.id == w.children[j].id
    ensures NodeOf(WithJoined(w, j, u)) == Internal(RemoveAt(w.keys, j), RemoveAt(RootIds(w.children), j + 1))
  {
    var cs, ids := WithJoined(w, j, u).children, RemoveAt(RootIds(w.children), j + 1);
    forall k | 0 <= k < |cs|
      ensures RootIds(cs)[k] == ids[k]
    {
      assert cs[k] == if k == j then u else if k < j then w.children[k] else w.children[k + 1];
    }
    assert RootIds(cs) == ids;
  }

  // ---- Borrowing and merging ----

  /** A branch in the store with two neighbouring children of one kind. */
  ghost predicate Pair<V>(nodes: map<NodeId, Node<V>>, w: Tree<V>, j: nat) {
    match w
    case LeafT(_, _, _) => false
    case BranchT(id, keys, ts) =>
      && j < |keys| && |ts| == |keys| + 1
      && id in nodes && nodes[id] == NodeOf(w)
      && ts[j].id in nodes && nodes[ts[j].id] == NodeOf(ts[j])
      && ts[j + 1].id in nodes && nodes[ts[j + 1].id] == NodeOf(ts[j + 1])
      && id != ts[j].id && id != ts[j + 1].id && ts[j].id != ts[j + 1].id
      && Siblings(ts[j], ts[j + 1])
  }

  /** Which keys a shift to the right puts where. */
  lemma KeysShiftedRight<V>(before: map<NodeId, Node<V>>, after: map<NodeId, Node<V>>, w: Tree<V>, j: nat)
    requires Pair(before, w, j) && |w.children[j].keys| > 1
    requires PairWritten(before, after, w, j, ShiftRight(w.children[j], w.keys[j], w.children[j + 1]))
    ensures OnlyNodes(before, after, {w.id, w.children[j].id, w.children[j + 1].id})
    ensures var l, s, r := w.children[j].keys, w.keys[j], w.children[j + 1].keys;
            var moved := l[|l| - 1];
            && after[w.children[j].id].keys == l[..|l| - 1]
            && after[w.children[j + 1].id].keys == [if w.children[j].LeafT? then moved else s] + r
            && after[w.id].keys == w.keys[j := moved]
  {
  }

  /** Which keys a shift to the left puts where. */
  lemma KeysShiftedLeft<V>(before: map<NodeId, Node<V>>, after: map<NodeId, Node<V>>, w: Tree<V>, j: nat)
    requires Pair(before, w, j) && |w.children[j + 1].keys| > 1
    requires PairWritten(before, after, w, j, ShiftLeft(w.children[j], w.keys[j], w.children[j + 1]))
    ensures OnlyNodes(before, after, {w.id, w.children[j].id, w.children[j + 1].id})
    ensures var l, s, r := w.children[j].keys, w.keys[j], w.children[j + 1].keys;
            && after[w.children[j].id].keys == l + [if w.children[j].LeafT? then r[0] else s]
            && after[w.children[j + 1].id].keys == r[1..]
            && after[w.id].keys == w.keys[j := if w.children[j].LeafT? then r[1] else r[0]]
  {
  }

  /** A leaf gets the last entry of the leaf to its left. */
  method EntryFromLeft<V>(store: InMemoryStore<V>, parent: NodeId, idx: nat, left: NodeId, child: NodeId, ghost w: Tree<V>)
    requires store.Valid() && idx > 0 && Pair(store.nodes, w, idx - 1) && w.children[idx].LeafT?
    requires parent == w.id && left == w.children[idx - 1].id && child == w.children[idx].id
    requires |w.children[idx - 1].keys| > 1
    modifies store
    ensures store.Valid() && store.peak == old(store.peak) && store.free == old(store.free)
    ensures PairWritten(old(store.nodes), store.nodes, w, idx - 1,
                        ShiftRight(w.children[idx - 1], w.keys[idx - 1], w.children[idx]))
  {
    WithPairNode(w, idx - 1, ShiftRight(w.children[idx - 1], w.keys[idx - 1], w.children[idx]));
    var Leaf(lk, lv) := store.Get(left);
    var Leaf(ck, cv) := store.Get(child);
    var Internal(pk, pc) := store.Get(parent);
    var n := |lk| - 1;
    store.Set(left, Leaf(lk[..n], lv[..n]));
    store.Set(child, Leaf([lk[n]] + ck, [lv[n]] + cv));
    store.Set(parent, Internal(pk[idx - 1 := lk[n]], pc));
  }

  /** A branch gets the last child of the branch to its left, and the separators rotate through the parent. */
  method ChildFromLeft<V>(store: InMemoryStore<V>, parent: NodeId, idx: nat, left: NodeId, child: NodeId, ghost w: Tree<V>)
    requires store.Valid() && idx > 0 && Pair(store.nodes, w, idx - 1) && w.children[idx].BranchT?
    requires parent == w.id && left == w.children[idx - 1].id && child == w.children[idx].id
    requires |w.children[idx - 1].keys| > 1
    modifies store
    ensures store.Valid() && store.peak == old(store.peak) && store.free == old(store.free)
    ensures PairWritten(old(store.nodes), store.nodes, w, idx - 1,
                        ShiftRight(w.children[idx - 1], w.keys[idx - 1], w.children[idx]))
  {
    WithPairNode(w, idx - 1, ShiftRight(w.children[idx - 1], w.keys[idx - 1], w.children[idx]));
    ShiftRightNodes(w.children[idx - 1], w.keys[idx - 1], w.children[idx]);
    var Internal(lk, lc) := store.Get(left);
    var Internal(ck, cc) := store.Get(child);
    var Internal(pk, pc) := store.Get(parent);
    var n := |lk| - 1;
    store.Set(left, Internal(lk[..n], lc[..n + 1]));
    store.Set(child, Internal([pk[idx - 1]] + ck, [lc[n + 1]] + cc));
    store.Set(parent, Internal(pk[idx - 1 := lk[n]], pc));
  }

  /** The three nodes involved are those of `ShiftRight` and of the parent with the new separator; no other changes. */
  method BorrowFromLeft<V>(store: InMemoryStore<V>, parent: NodeId, idx: nat, left: NodeId, child: NodeId, ghost w: Tree<V>)
    requires store.Valid() && idx > 0 && Pair(store.nodes, w, idx - 1)
    requires parent == w.id && left == w.children[idx - 1].id && child == w.children[idx].id
    requires |w.children[idx - 1].keys| > 1
    modifies store
    ensures store.Valid() && store.peak == old(store.peak)
    ensures PairWritten(old(store.nodes), store.nodes, w, idx - 1,
                        ShiftRight(w.children[idx - 1], w.keys[idx - 1], w.children[idx]))
    ensures OnlyNodes(old(store.nodes), store.nodes, {parent, left, child}) && store.free == old(store.free)
    ensures var l, s, c := w.children[idx - 1].keys, w.keys[idx - 1], w.children[idx].keys;
            var moved := l[|l| - 1];
            && store.nodes[left].keys == l[..|l| - 1]
            && store.nodes[child].keys == [if w.children[idx].LeafT? then moved else s] + c
            && store.nodes[parent].keys == w.keys[idx - 1 := moved]
  {
    match store.Get(child) {
      case Leaf(_, _) => EntryFromLeft(store, parent, idx, left, child, w);
      case Internal(_, _) => ChildFromLeft(store, parent, idx, left, child, w);
    }
    KeysShiftedRight(old(store.nodes), store.nodes, w, idx - 1);
  }

  /** A leaf gets the first entry of the leaf to its right. */
  method EntryFromRight<V>(store: InMemoryStore<V>, parent: NodeId, idx: nat, child: NodeId, right: NodeId, ghost w: Tree<V>)
    requires store.Valid() && Pair(store.nodes, w, idx) && w.children[idx].LeafT?
    requires parent == w.id && child == w.children[idx].id && right == w.children[idx + 1].id
    requires |w.children[idx + 1].keys| > 1
    modifies store
    ensures store.Valid() && store.peak == old(store.peak) && store.free == old(store.free)
    ensures PairWritten(old(store.nodes), store.nodes, w, idx, ShiftLeft(w.children[idx], w.keys[idx], w.children[idx + 1]))
  {
    WithPairNode(w, idx, ShiftLeft(w.children[idx], w.keys[idx], w.children[idx + 1]));
    var Leaf(ck, cv) := store.Get(child);
    var Leaf(rk, rv) := store.Get(right);
    var Internal(pk, pc) := store.Get(parent);
    store.Set(right, Leaf(rk[1..], rv[1..]));
    store.Set(child, Leaf(ck + [rk[0]], cv + [rv[0]]));
    store.Set(parent, Internal(pk[idx := rk[1]], pc));
  }

  /** A branch gets the first child of the branch to its right, and the separators rotate through the parent. */
  method ChildFromRight<V>(store: InMemoryStore<V>, parent: NodeId, idx: nat, child: NodeId, right: NodeId, ghost w: Tree<V>)
    requires store.Valid() && Pair(store.nodes, w, idx) && w.children[idx].BranchT?
    requires parent == w.id && child == w.children[idx].id && right == w.children[idx + 1].id
    requires |w.children[idx + 1].keys| > 1
    modifies store
    ensures store.Valid() && store.peak == old(store.peak) && store.free == old(store.free)
    ensures PairWritten(old(store.nodes), store.nodes, w, idx, ShiftLeft(w.children[idx], w.keys[idx], w.children[idx + 1]))
  {
    WithPairNode(w, idx, ShiftLeft(w.children[idx], w.keys[idx], w.children[idx + 1]));
    ShiftLeftNodes(w.children[idx], w.keys[idx], w.children[idx + 1]);
    var Internal(ck, cc) := store.Get(child);
    var Internal(rk, rc) := store.Get(right);
    var Internal(pk, pc) := store.Get(parent);
    store.Set(right, Internal(rk, rc[1..]));
    store.Set(child, Internal(ck + [pk[idx]], cc + [rc[0]]));
    store.Set(right, Internal(rk[1..], rc[1..]));
    store.Set(parent, Internal(pk[idx := rk[0]], pc));
  }

  /** The three nodes involved are those of `ShiftLeft` and of the parent with the new separator; no other changes. */
  method BorrowFromRight<V>(store: InMemoryStore<V>, parent: NodeId, idx: nat, child: NodeId, right: NodeId, ghost w: Tree<V>)
    requires store.Valid() && Pair(store.nodes, w, idx)
    requires parent == w.id && child == w.children[idx].id && right == w.children[idx + 1].id
    requires |w.children[idx + 1].keys| > 1
    modifies store
    ensures store.Valid() && store.peak == old(store.peak)
    ensures PairWritten(old(store.nodes), store.nodes, w, idx, ShiftLeft(w.children[idx], w.keys[idx], w.children[idx + 1]))
    ensures OnlyNodes(old(store.nodes), store.nodes, {parent, child, right}) && store.free == old(store.free)
    ensures var c, s, r := w.children[idx].keys, w.keys[idx], w.children[idx + 1].keys;
            && store.nodes[child].keys == c + [if w.children[idx].LeafT? then r[0] else s] && store.nodes[right].keys == r[1..]
            && store.nodes[parent].keys == w.keys[idx := if w.children[idx].LeafT? then r[1] else r[0]]
  {
    match store.Get(child) {
      case Leaf(_, _) => EntryFromRight(store, parent, idx, child, right, w);
      case Internal(_, _) => ChildFromRight(store, parent, idx, child, right, w);
    }
    KeysShiftedLeft(old(store.nodes), store.nodes, w, idx);
  }

  /** The store afterwards holds `Join` of the pair under a parent with one separator less; the right slot is free. */
  method Merge<V>(store: InMemoryStore<V>, parent: NodeId, j: nat, left: NodeId, right: NodeId, ghost w: Tree<V>)
    requires store.Valid() && Pair(store.nodes, w, j)
    requires parent == w.id && left == w.children[j].id && right == w.children[j + 1].id
    modifies store
    ensures store.Valid() && store.peak == old(store.peak)
    ensures JoinWritten(old(store.nodes), store.nodes, w, j, Join(w.children[j], w.keys[j], w.children[j + 1]))
    ensures right !in store.nodes && store.free == old(store.free) + [right]
    ensures OnlyNodes(old(store.nodes) - {right}, store.nodes, {parent, left, right})
    ensures var l, s, r := w.children[j].keys, w.keys[j], w.children[j + 1].keys;
            && store.nodes[left].keys == l + (if w.children[j].LeafT? then [] else [s]) + r
            && store.nodes[parent].keys == w.keys[..j] + w.keys[j + 1..]
  {
    ghost var l, s, r := w.children[j], w.keys[j], w.children[j + 1];
    WithJoinedNode(w, j, Join(l, s, r));
    match store.Get(parent)
    case Internal(pk, pc) =>
      store.Set(parent, Internal(RemoveAt(pk, j), RemoveAt(pc, j + 1)));
      var rightNode := store.Reclaim(right);
      match (store.Get(left), rightNode) {
        case (Leaf(lk, lv), Leaf(rk, rv)) =>
          store.Set(left, Leaf(lk + rk, lv + rv));
        case (Internal(lk, lc), Internal(rk, rc)) =>
          JoinNode(l, s, r);
          store.Set(left, Internal(lk + [pk[j]] + rk, lc + rc));
        case _ => assert false;
      }
    case Leaf(_, _) => assert false;
  }

  // ---- The store around a repair ----

  lemma PairParts<V>(w: Tree<V>, j: nat)
    requires w.BranchT? && j + 1 < |w.children|
    ensures var l, r := w.children[j], w.children[j + 1];
            IdBag(w) == multiset{w.id} + (Bags(w.children[..j]) + (multiset{l.id} + multiset{r.id} + Bags(Under(l) + Under(r)))
                                          + Bags(w.children[j + 2..]))
  {
    AroundPair(w.children, j);
    PairBag(w.children[j], w.children[j + 1]);
  }

  /** The slots of a pair, of what is under it and of the other children are all different. */
  lemma PairApart<V>(w: Tree<V>, j: nat, l: Tree<V>, r: Tree<V>, slots: set<NodeId>, touched: set<NodeId>)
    requires w.BranchT? && j + 1 < |w.children| && IdBag(w) <= multiset(slots)
    requires l == w.children[j] && r == w.children[j + 1] && touched == {w.id, l.id, r.id}
    ensures w.id != l.id && w.id != r.id && l.id != r.id && w.id in slots && l.id in slots && r.id in slots
    ensures forall id :: id in Bags(Under(l) + Under(r)) ==> id in slots && id !in touched
    ensures forall id :: id in Bags(w.children[..j]) ==> id in slots && id !in touched
    ensures forall id :: id in Bags(w.children[j + 2..]) ==> id in slots && id !in touched
  {
    PairParts(w, j);
    FiveParts(w.id, l.id, r.id, Bags(w.children[..j]), Bags(Under(l) + Under(r)), Bags(w.children[j + 2..]), IdBag(w),
              slots, touched);
  }

  lemma PairOthers<V>(nodes: map<NodeId, Node<V>>, w: Tree<V>, j: nat)
    requires w.BranchT? && j + 1 < |w.children| && Rep(nodes, w)
    ensures RepAll(nodes, w.children[..j]) && RepAll(nodes, w.children[j + 2..])
    ensures RepAll(nodes, Under(w.children[j]) + Under(w.children[j + 1]))
  {
    var l, r := w.children[j], w.children[j + 1];
    var both := Under(l) + Under(r);
    assert Rep(nodes, l) && RepAll(nodes, Under(l));
    assert Rep(nodes, r) && RepAll(nodes, Under(r));
    forall k | 0 <= k < |both|
      ensures Rep(nodes, both[k])
    {
      assert both[k] == if k < |Under(l)| then Under(l)[k] else Under(r)[k - |Under(l)|];
    }
  }

  /** A change of a branch and two of its children leaves everything under the two and all other children alone. */
  lemma OthersStay<V>(before: map<NodeId, Node<V>>, after: map<NodeId, Node<V>>, w: Tree<V>, j: nat)
    requires w.BranchT? && j + 1 < |w.children| && Rep(before, w) && IdBag(w) <= multiset(before.Keys)
    requires Same(before, after, {w.id, w.children[j].id, w.children[j + 1].id})
    ensures w.id != w.children[j].id && w.id != w.children[j + 1].id && w.children[j].id != w.children[j + 1].id
    ensures w.id in before && w.children[j].id in before && w.children[j + 1].id in before
    ensures RepAll(after, w.children[..j]) && RepAll(after, w.children[j + 2..])
    ensures RepAll(after, Under(w.children[j]) + Under(w.children[j + 1]))
  {
    var touched := {w.id, w.children[j].id, w.children[j + 1].id};
    PairApart(w, j, w.children[j], w.children[j + 1], before.Keys, touched);
    PairOthers(before, w, j);
    Untouched(before, after, Under(w.children[j]) + Under(w.children[j + 1]), touched);
    Untouched(before, after, w.children[..j], touched);
    Untouched(before, after, w.children[j + 2..], touched);
  }

  lemma RepPair<V>(nodes: map<NodeId, Node<V>>, w: Tree<V>, j: nat, p: Grown<V>)
    requires w.BranchT? && j < |w.keys| && |w.children| == |w.keys| + 1 && p.Two?
    requires RepAll(nodes, w.children[..j]) && RepAll(nodes, w.children[j + 2..])
    requires Rep(nodes, p.left) && Rep(nodes, p.right)
    ensures RepAll(nodes, WithPair(w, j, p).children)
  {
    var us := WithPair(w, j, p).children;
    forall k | 0 <= k < |us|
      ensures Rep(nodes, us[k])
    {
      if k < j { assert us[k] == w.children[..j][k]; }
      if k > j + 1 { assert us[k] == w.children[j + 2..][k - j - 2]; }
    }
  }

  lemma RepJoined<V>(nodes: map<NodeId, Node<V>>, w: Tree<V>, j: nat, u: Tree<V>)
    requires w.BranchT? && j < |w.keys| && |w.children| == |w.keys| + 1
    requires RepAll(nodes, w.children[..j]) && RepAll(nodes, w.children[j + 2..]) && Rep(nodes, u)
    ensures RepAll(nodes, WithJoined(w, j, u).children)
  {
    var us := WithJoined(w, j, u).children;
    forall k | 0 <= k < |us|
      ensures Rep(nodes, us[k])
    {
      if k < j { assert us[k] == w.children[..j][k]; }
      if k > j { assert us[k] == w.children[j + 2..][k - j - 1]; }
    }
  }

  /** After a borrow the store holds the branch with the shifted pair, in the same slots. */
  lemma PairInStore<V>(before: map<NodeId, Node<V>>, after: map<NodeId, Node<V>>, w: Tree<V>, j: nat, p: Grown<V>)
    requires w.BranchT? && j < |w.keys| && |w.children| == |w.keys| + 1 && p.Two?
    requires Rep(before, w) && IdBag(w) <= multiset(before.Keys)
    requires SameContent(w.children[j], w.children[j + 1], p.left, p.right)
    requires PairWritten(before, after, w, j, p)
    ensures Rep(after, WithPair(w, j, p)) && after.Keys == before.Keys
    ensures Same(before, after, {w.id, w.children[j].id, w.children[j + 1].id})
  {
    OthersStay(before, after, w, j);
    SplitUnder(after, p.left, p.right);
    RepFrom(after, p.left);
    RepFrom(after, p.right);
    RepPair(after, w, j, p);
    RepFrom(after, WithPair(w, j, p));
  }

  lemma SplitUnder<V>(nodes: map<NodeId, Node<V>>, u: Tree<V>, v: Tree<V>)
    requires RepAll(nodes, Under(u) + Under(v))
    ensures RepAll(nodes, Under(u)) && RepAll(nodes, Under(v))
  {
    var a, b := Under(u), Under(v);
    forall k | 0 <= k < |a|
      ensures Rep(nodes, a[k])
    {
      assert (a + b)[k] == a[k];
    }
    forall k | 0 <= k < |b|
      ensures Rep(nodes, b[k])
    {
      assert (a + b)[|a| + k] == b[k];
    }
  }

  /** After a merge the store holds the branch with the joined child, and the right sibling's slot is free. */
  lemma JoinInStore<V>(before: map<NodeId, Node<V>>, after: map<NodeId, Node<V>>, w: Tree<V>, j: nat)
    requires w.BranchT? && j < |w.keys| && |w.children| == |w.keys| + 1
    requires Rep(before, w) && IdBag(w) <= multiset(before.Keys)
    requires Siblings(w.children[j], w.children[j + 1])
    requires JoinWritten(before, after, w, j, Join(w.children[j], w.keys[j], w.children[j + 1]))
    ensures Rep(after, WithJoined(w, j, Join(w.children[j], w.keys[j], w.children[j + 1])))
    ensures after.Keys == before.Keys - {w.children[j + 1].id} && w.children[j + 1].id in before
    ensures forall id :: id in before && id !in {w.id, w.children[j].id, w.children[j + 1].id} ==>
                           id in after && after[id] == before[id]
  {
    var l, r := w.children[j], w.children[j + 1];
    var u := Join(l, w.keys[j], r);
    OthersStay(before, after, w, j);
    assert Under(u) == Under(l) + Under(r);
    RepFrom(after, u);
    RepJoined(after, w, j, u);
    RepFrom(after, WithJoined(w, j, u));
  }

  // ---- Restoring the occupancy of a child ----

  /** The ids of a branch, of its `i`-th child and of that child's neighbours. */
  ghost function Vicinity<V>(w: Tree<V>, i: nat): set<NodeId>
    requires w.BranchT? && i < |w.children|
  {
    {w.id, w.children[i].id}
    + (if i > 0 then {w.children[i - 1].id} else {})
    + (if i + 1 < |w.children| then {w.children[i + 1].id} else {})
  }

  /** The children `j` and `j + 1` of a branch are siblings to work on. */
  lemma PairOf<V>(nodes: map<NodeId, Node<V>>, w: Tree<V>, j: nat)
    requires w.BranchT? && j < |w.keys| && |w.children| == |w.keys| + 1
    requires Rep(nodes, w) && IdBag(w) <= multiset(nodes.Keys) && Siblings(w.children[j], w.children[j + 1])
    ensures Pair(nodes, w, j)
  {
    PairApart(w, j, w.children[j], w.children[j + 1], nodes.Keys, {w.id, w.children[j].id, w.children[j + 1].id});
    assert Rep(nodes, w.children[j]) && Rep(nodes, w.children[j + 1]);
  }

  lemma BorrowGrafted<V>(before: map<NodeId, Node<V>>, after: map<NodeId, Node<V>>, w: Tree<V>, j: nat, toRight: bool,
                         touched: set<NodeId>)
    requires w.BranchT? && j < |w.keys| && |w.children| == |w.keys| + 1
    requires Rep(before, w) && IdBag(w) <= multiset(before.Keys) && Siblings(w.children[j], w.children[j + 1])
    requires if toRight then |w.children[j].keys| > 1 else |w.children[j + 1].keys| > 1
    requires {w.id, w.children[j].id, w.children[j + 1].id} <= touched
    requires var l, s, r := w.children[j], w.keys[j], w.children[j + 1];
             PairWritten(before, after, w, j, if toRight then ShiftRight(l, s, r) else ShiftLeft(l, s, r))
    ensures var l, s, r := w.children[j], w.keys[j], w.children[j + 1];
            Grafted(before, after, w, One(WithPair(w, j, if toRight then ShiftRight(l, s, r) else ShiftLeft(l, s, r))), touched)
  {
    var l, s, r := w.children[j], w.keys[j], w.children[j + 1];
    var p := if toRight then ShiftRight(l, s, r) else ShiftLeft(l, s, r);
    if toRight { ShiftRightContent(l, s, r); } else { ShiftLeftContent(l, s, r); }
    PairInStore(before, after, w, j, p);
    WithPairEntries(w, j, p);
  }

  lemma MergeGrafted<V>(before: map<NodeId, Node<V>>, after: map<NodeId, Node<V>>, w: Tree<V>, j: nat, touched: set<NodeId>)
    requires w.BranchT? && j < |w.keys| && |w.children| == |w.keys| + 1
    requires Rep(before, w) && IdBag(w) <= multiset(before.Keys) && Siblings(w.children[j], w.children[j + 1])
    requires {w.id, w.children[j].id, w.children[j + 1].id} <= touched
    requires JoinWritten(before, after, w, j, Join(w.children[j], w.keys[j], w.children[j + 1]))
    ensures Grafted(before, after, w, One(WithJoined(w, j, Join(w.children[j], w.keys[j], w.children[j + 1]))), touched)
  {
    JoinInStore(before, after, w, j);
    WithJoinedEntries(w, j);
    KeysAfterRemove(before.Keys, after.Keys, w.children[j + 1].id);
  }

  lemma KeysAfterRemove(before: set<NodeId>, after: set<NodeId>, gone: NodeId)
    requires gone in before && after == before - {gone}
    ensures multiset(after) + multiset{gone} == multiset(before)
  {
  }

  lemma RootInBag<V>(ts: seq<Tree<V>>, i: nat)
    requires i < |ts|
    ensures ts[i].id in Bags(ts)
  {
    BagsMember(ts, i);
  }

  lemma AmongOthers<V>(ts: seq<Tree<V>>, i: nat, j: nat)
    requires i < |ts| && j < |ts| && i != j
    ensures ts[j].id in Bags(ts[..i]) || ts[j].id in Bags(ts[i + 1..])
  {
    if j < i {
      RootInBag(ts[..i], j);
      assert ts[..i][j] == ts[j];
    } else {
      RootInBag(ts[i + 1..], j - i - 1);
      assert ts[i + 1..][j - i - 1] == ts[j];
    }
  }

  lemma ChildrenApart<V>(w: Tree<V>, i: nat, j: nat, slots: set<NodeId>)
    requires w.BranchT? && i < |w.children| && j < |w.children| && i != j && IdBag(w) <= multiset(slots)
    ensures w.children[i].id != w.children[j].id && w.children[i].id != w.id && w.children[i].id in slots
  {
    AmongOthers(w.children, i, j);
    PartsApart(w, i, multiset(slots));
    var u := w.children[i];
    assert u.id in IdBag(u) && u.id in multiset(slots);
  }

  /** A child that is not of the pair at `j` and `j + 1` takes no part in what happens to them. */
  lemma Bystander<V>(before: map<NodeId, Node<V>>, after: map<NodeId, Node<V>>, w: Tree<V>, j: nat, k: nat, gone: set<NodeId>)
    requires w.BranchT? && j + 1 < |w.children| && k < |w.children| && k != j && k != j + 1
    requires IdBag(w) <= multiset(before.Keys) && gone <= {w.children[j + 1].id}
    requires OnlyNodes(before - gone, after, {w.id, w.children[j].id, w.children[j + 1].id})
    ensures Kept(before, after, w.children[k].id)
  {
    ChildrenApart(w, k, j, before.Keys);
    ChildrenApart(w, k, j + 1, before.Keys);
  }

  lemma OneFewer<V>(before: map<NodeId, Node<V>>, after: map<NodeId, Node<V>>, gone: NodeId)
    requires gone in before && after.Keys == before.Keys - {gone}
    ensures |after| == |before| - 1
  {
    assert before.Keys == after.Keys + {gone};
  }

  lemma LeftRepairs<V>(before: map<NodeId, Node<V>>, after: map<NodeId, Node<V>>, w: Tree<V>, idx: nat, minKeys: nat)
    requires w.BranchT? && 0 < idx < |w.children| == |w.keys| + 1 && AllSiblings(w.children) && minKeys > 0
    requires Rep(before, w) && IdBag(w) <= multiset(before.Keys) && |w.children[idx - 1].keys| > minKeys
    requires PairWritten(before, after, w, idx - 1, ShiftRight(w.children[idx - 1], w.keys[idx - 1], w.children[idx]))
    ensures Grafted(before, after, w, One(Repaired(w, idx, minKeys)), Vicinity(w, idx))
  {
    BorrowGrafted(before, after, w, idx - 1, true, Vicinity(w, idx));
  }

  lemma RightRepairs<V>(before: map<NodeId, Node<V>>, after: map<NodeId, Node<V>>, w: Tree<V>, idx: nat, minKeys: nat)
    requires w.BranchT? && idx + 1 < |w.children| == |w.keys| + 1 && AllSiblings(w.children) && minKeys > 0
    requires Rep(before, w) && IdBag(w) <= multiset(before.Keys) && |w.children[idx + 1].keys| > minKeys
    requires idx > 0 ==> |w.children[idx - 1].keys| <= minKeys
    requires PairWritten(before, after, w, idx, ShiftLeft(w.children[idx], w.keys[idx], w.children[idx + 1]))
    ensures Grafted(before, after, w, One(Repaired(w, idx, minKeys)), Vicinity(w, idx))
  {
    BorrowGrafted(before, after, w, idx, false, Vicinity(w, idx));
  }

  /** The left neighbour lends: it gives away one key, and the right neighbour is not involved. */
  method RepairFromLeft<V>(store: InMemoryStore<V>, parent: NodeId, idx: nat, left: NodeId, child: NodeId, minKeys: nat,
                           ghost w: Tree<V>)
    requires store.Valid() && minKeys > 0
    requires parent == w.id && w.BranchT? && 0 < idx < |w.children| == |w.keys| + 1 && AllSiblings(w.children)
    requires Rep(store.nodes, w) && IdBag(w) <= multiset(store.nodes.Keys)
    requires left == w.children[idx - 1].id && child == w.children[idx].id && |w.children[idx - 1].keys| > minKeys
    modifies store
    ensures store.Valid() && store.peak == old(store.peak) && store.free == old(store.free)
    ensures Grafted(old(store.nodes), store.nodes, w, One(Repaired(w, idx, minKeys)), Vicinity(w, idx))
    ensures |store.nodes| == |old(store.nodes)| && left in store.nodes && child in store.nodes
    ensures KeysLen(store.nodes[left]) == |w.children[idx - 1].keys| - 1
    ensures KeysLen(store.nodes[child]) == |w.children[idx].keys| + 1
    ensures idx + 1 < |w.children| ==> Kept(old(store.nodes), store.nodes, w.children[idx + 1].id)
  {
    ghost var before := store.nodes;
    PairOf(before, w, idx - 1);
    BorrowFromLeft(store, parent, idx, left, child, w);
    if idx + 1 < |w.children| { Bystander(before, store.nodes, w, idx - 1, idx + 1, {}); }
    LeftRepairs(before, store.nodes, w, idx, minKeys);
  }

  /** The right neighbour lends: it gives away one key, and the left neighbour is not involved. */
  method RepairFromRight<V>(store: InMemoryStore<V>, parent: NodeId, idx: nat, child: NodeId, right: NodeId, minKeys: nat,
                            ghost w: Tree<V>)
    requires store.Valid() && minKeys > 0
    requires parent == w.id && w.BranchT? && idx + 1 < |w.children| == |w.keys| + 1 && AllSiblings(w.children)
    requires Rep(store.nodes, w) && IdBag(w) <= multiset(store.nodes.Keys)
    requires child == w.children[idx].id && right == w.children[idx + 1].id && |w.children[idx + 1].keys| > minKeys
    requires idx > 0 ==> |w.children[idx - 1].keys| <= minKeys
    modifies store
    ensures store.Valid() && store.peak == old(store.peak) && store.free == old(store.free)
    ensures Grafted(old(store.nodes), store.nodes, w, One(Repaired(w, idx, minKeys)), Vicinity(w, idx))
    ensures |store.nodes| == |old(store.nodes)| && right in store.nodes && child in store.nodes
    ensures KeysLen(store.nodes[right]) == |w.children[idx + 1].keys| - 1
    ensures KeysLen(store.nodes[child]) == |w.children[idx].keys| + 1
    ensures idx > 0 ==> Kept(old(store.nodes), store.nodes, w.children[idx - 1].id)
  {
    ghost var before := store.nodes;
    PairOf(before, w, idx);
    BorrowFromRight(store, parent, idx, child, right, w);
    if idx > 0 { Bystander(before, store.nodes, w, idx, idx - 1, {}); }
    RightRepairs(before, store.nodes, w, idx, minKeys);
  }

  lemma MergeRepairs<V>(before: map<NodeId, Node<V>>, after: map<NodeId, Node<V>>, w: Tree<V>, idx: nat, j: nat, minKeys: nat)
    requires w.BranchT? && idx < |w.children| == |w.keys| + 1 && AllSiblings(w.children) && minKeys > 0
    requires Rep(before, w) && IdBag(w) <= multiset(before.Keys) && |w.keys| > 0 && j == (if idx > 0 then idx - 1 else 0)
    requires idx > 0 ==> |w.children[idx - 1].keys| <= minKeys
    requires idx + 1 < |w.children| ==> |w.children[idx + 1].keys| <= minKeys
    requires JoinWritten(before, after, w, j, Join(w.children[j], w.keys[j], w.children[j + 1]))
    ensures Grafted(before, after, w, One(Repaired(w, idx, minKeys)), Vicinity(w, idx))
  {
    MergeGrafted(before, after, w, j, Vicinity(w, idx));
  }

  /** Nobody lends: the child and its left neighbour, or at the left end its right one, become one node. */
  method RepairByMerge<V>(store: InMemoryStore<V>, parent: NodeId, idx: nat, j: nat, left: NodeId, right: NodeId, minKeys: nat,
                          ghost w: Tree<V>)
    requires store.Valid() && minKeys > 0
    requires parent == w.id && w.BranchT? && idx < |w.children| == |w.keys| + 1 && AllSiblings(w.children)
    requires Rep(store.nodes, w) && IdBag(w) <= multiset(store.nodes.Keys)
    requires |w.keys| > 0 && j == (if idx > 0 then idx - 1 else 0)
    requires left == w.children[j].id && right == w.children[j + 1].id
    requires idx > 0 ==> |w.children[idx - 1].keys| <= minKeys
    requires idx + 1 < |w.children| ==> |w.children[idx + 1].keys| <= minKeys
    modifies store
    ensures store.Valid() && store.peak == old(store.peak) && store.free == old(store.free) + [right]
    ensures Grafted(old(store.nodes), store.nodes, w, One(Repaired(w, idx, minKeys)), Vicinity(w, idx))
    ensures |store.nodes| == |old(store.nodes)| - 1
    ensures 0 < idx < |w.children| - 1 ==> Kept(old(store.nodes), store.nodes, w.children[idx + 1].id)
  {
    ghost var before := store.nodes;
    PairOf(before, w, j);
    Merge(store, parent, j, left, right, w);
    if 0 < idx < |w.children| - 1 { Bystander(before, store.nodes, w, j, idx + 1, {right}); }
    MergeRepairs(before, store.nodes, w, idx, j, minKeys);
    OneFewer(before, store.nodes, right);
  }

  /**
    The branch is `Grafted` to `Repaired` of it, and nothing outside the vicinity of the child changes. A neighbour with
    more than `minKeys` keys lends one, the left before the right, and the other neighbour stays as it is. A node is
    freed exactly when neither has: the child, or at the left end its right neighbour.
   */
  method Rebalance<V>(store: InMemoryStore<V>, parent: NodeId, idx: nat, minKeys: nat, ghost w: Tree<V>)
    requires store.Valid() && minKeys > 0
    requires parent == w.id && w.BranchT? && idx < |w.children| == |w.keys| + 1 && AllSiblings(w.children)
    requires Rep(store.nodes, w) && IdBag(w) <= multiset(store.nodes.Keys)
    requires |w.keys| > 0
    modifies store
    ensures store.Valid() && store.peak == old(store.peak)
    ensures Grafted(old(store.nodes), store.nodes, w, One(Repaired(w, idx, minKeys)), Vicinity(w, idx))
    ensures var left := idx > 0 && |w.children[idx - 1].keys| > minKeys;
            var right := idx + 1 < |w.children| && |w.children[idx + 1].keys| > minKeys;
            && |store.nodes| + (if left || right then 0 else 1) == |old(store.nodes)|
            && store.free == old(store.free)
                             + (if left || right then [] else [w.children[if idx > 0 then idx else 1].id])
            && (left ==> Holds(store.nodes, w.children[idx - 1].id, |w.children[idx - 1].keys| - 1))
            && (!left && right ==> Holds(store.nodes, w.children[idx + 1].id, |w.children[idx + 1].keys| - 1))
            && (left || right ==> Holds(store.nodes, w.children[idx].id, |w.children[idx].keys| + 1))
            && (idx + 1 < |w.children| && (left || !right) && idx > 0 ==>
                  Kept(old(store.nodes), store.nodes, w.children[idx + 1].id))
            && (idx > 0 && !left && right ==> Kept(old(store.nodes), store.nodes, w.children[idx - 1].id))
  {
    ghost var before := store.nodes;
    match store.Get(parent)
    case Internal(_, children) =>
      var child := children[idx];
      if idx > 0 {
        PairOf(before, w, idx - 1);
        if KeysLen(store.Get(children[idx - 1])) > minKeys {
          RepairFromLeft(store, parent, idx, children[idx - 1], child, minKeys, w);
          return;
        }
      }
      if idx + 1 < |children| {
        PairOf(before, w, idx);
        if KeysLen(store.Get(children[idx + 1])) > minKeys {
          RepairFromRight(store, parent, idx, child, children[idx + 1], minKeys, w);
          return;
        }
      }
      if idx > 0 {
        RepairByMerge(store, parent, idx, idx - 1, children[idx - 1], child, minKeys, w);
      } else {
        RepairByMerge(store, parent, idx, 0, child, children[1], minKeys, w);
      }
    case Leaf(_, _) => assert false;
  }

  // ---- Removal from a subtree ----

  /** The ids a removal of `key` may touch: the search path and the neighbours of its nodes. */
  ghost function Near<V>(t: Tree<V>, key: Key): set<NodeId>
    requires Routable(t)
    decreases t
  {
    if t.LeafT? then {t.id} else Vicinity(t, ChildIndex(t.keys, key)) + Near(Next(t, key), key)
  }

  lemma VicinityInBag<V>(t: Tree<V>, i: nat)
    requires t.BranchT? && i < |t.children|
    ensures forall id :: id in Vicinity(t, i) ==> id in IdBag(t)
  {
    RootInBag(t.children, i);
    if i > 0 { RootInBag(t.children, i - 1); }
    if i + 1 < |t.children| { RootInBag(t.children, i + 1); }
  }

  lemma {:induction false} NearInBag<V>(t: Tree<V>, key: Key)
    requires Routable(t)
    ensures forall id :: id in Near(t, key) ==> id in IdBag(t)
    decreases t
  {
    if t.LeafT? {
    } else {
      var i := ChildIndex(t.keys, key);
      VicinityInBag(t, i);
      NearInBag(t.children[i], key);
      BagsMember(t.children, i);
    }
  }

  /** After the child's removal the store holds the branch with the new child in it. */
  lemma ChildRemoved<V>(before: map<NodeId, Node<V>>, between: map<NodeId, Node<V>>, t: Tree<V>, i: nat, c: Tree<V>,
                        touched: set<NodeId>)
    requires t.BranchT? && i < |t.children| == |t.keys| + 1 && c.id == t.children[i].id
    requires Rep(before, t) && IdBag(t) <= multiset(before.Keys)
    requires Grafted(before, between, t.children[i], One(c), touched)
    requires forall id :: id in touched ==> id in IdBag(t.children[i])
    ensures var w := BranchWith(t, i, One(c));
            && Rep(between, w) && IdBag(w) <= multiset(between.Keys)
            && Grafted(before, between, t, One(w), touched)
            && between[c.id] == NodeOf(c)
  {
    var w := BranchWith(t, i, One(c));
    AroundChild(before, between, t, i, One(c), touched);
    AroundChildBag(before, between, t, i, One(c));
    SameRoots(t.children, i, c);
  }

  lemma SameRoots<V>(ts: seq<Tree<V>>, i: nat, c: Tree<V>)
    requires i < |ts| && c.id == ts[i].id
    ensures RootIds(ts[i := c]) == RootIds(ts)
  {
  }

  /** Two changes of the same subtree, one after the other. */
  lemma GraftTwice<V>(before: map<NodeId, Node<V>>, between: map<NodeId, Node<V>>, after: map<NodeId, Node<V>>,
                      t: Tree<V>, w: Tree<V>, v: Tree<V>, a: set<NodeId>, b: set<NodeId>, all: set<NodeId>)
    requires Grafted(before, between, t, One(w), a) && Grafted(between, after, w, One(v), b)
    requires a <= all && b <= all
    ensures Grafted(before, after, t, One(v), all)
  {
    Chain(multiset(before.Keys), multiset(between.Keys), multiset(after.Keys), IdBag(t), IdBag(w), IdBag(v));
  }

  lemma VicinityKept<V>(t: Tree<V>, i: nat, c: Tree<V>)
    requires t.BranchT? && i < |t.children| == |t.keys| + 1 && c.id == t.children[i].id
    ensures Vicinity(BranchWith(t, i, One(c)), i) == Vicinity(t, i)
  {
  }

  /** The preconditions of the recursive call. */
  lemma EnterForRemoval<V>(nodes: map<NodeId, Node<V>>, t: Tree<V>, i: nat, u: Tree<V>, h: nat, order: nat, m: int, key: Key)
    requires order >= 3 && t.BranchT? && Rep(nodes, t) && IdBag(t) <= multiset(nodes.Keys) && m >= 1
    requires Balanced(t, h, order, m) && Routable(t)
    requires i == ChildIndex(t.keys, key) && i < |t.children| && u == t.children[i]
    ensures h >= 2 && |t.keys| >= 1 && u == Next(t, key)
    ensures Rep(nodes, u) && IdBag(u) <= multiset(nodes.Keys)
    ensures Balanced(u, h - 1, order, MinKeys(order)) && Routable(u)
    ensures Stored(t, key) == Stored(u, key)
  {
    PartsApart(t, i, multiset(nodes.Keys));
  }

  /** The child is short by at most one key, and its neighbours are of its kind. */
  lemma ShortByOne<V>(t: Tree<V>, i: nat, u: Tree<V>, key: Key, h: nat, order: nat, m: int)
    requires order >= 3 && h >= 2 && t.BranchT? && Balanced(t, h, order, m) && m >= 1
    requires i < |t.children| && u == t.children[i] && Routable(u) && Balanced(u, h - 1, order, MinKeys(order))
    ensures var c := Rem(u, key, MinKeys(order));
            |c.keys| < MinKeys(order) ==> AllSiblings(BranchWith(t, i, One(c)).children)
  {
    RemBalanced(u, key, h - 1, order, MinKeys(order));
    var c := Rem(u, key, MinKeys(order));
    Tighten(c, h - 1, order, |u.keys| - 1, MinKeys(order) - 1);
    ShortChild(t, i, c, h, order, m);
  }

  /** What mending the child after its removal relies on. */
  lemma ReadyToMend<V>(before: map<NodeId, Node<V>>, between: map<NodeId, Node<V>>, t: Tree<V>, i: nat, u: Tree<V>,
                       key: Key, h: nat, order: nat, m: int)
    requires order >= 3 && h >= 2 && t.BranchT? && Balanced(t, h, order, m) && m >= 1
    requires i < |t.children| && u == t.children[i] && Routable(u) && Balanced(u, h - 1, order, MinKeys(order))
    requires Rep(before, t) && IdBag(t) <= multiset(before.Keys)
    requires Grafted(before, between, u, One(Rem(u, key, MinKeys(order))), Near(u, key))
    requires forall id :: id in Near(u, key) ==> id in IdBag(u)
    ensures var c := Rem(u, key, MinKeys(order)); var w := BranchWith(t, i, One(c));
            && c.id == u.id && u.id in between && between[u.id] == NodeOf(c)
            && Rep(between, w) && IdBag(w) <= multiset(between.Keys)
            && Grafted(before, between, t, One(w), Near(u, key))
            && (|c.keys| < MinKeys(order) ==> AllSiblings(w.children))
  {
    ChildRemoved(before, between, t, i, Rem(u, key, MinKeys(order)), Near(u, key));
    ShortByOne(t, i, u, key, h, order, m);
  }

  lemma LeafRemoved<V>(before: map<NodeId, Node<V>>, t: Tree<V>, key: Key)
    requires t.LeafT? && Routable(t) && Rep(before, t)
    ensures var u := LeafWithout(t, key);
            && Grafted(before, before[t.id := NodeOf(u)], t, One(u), {t.id})
            && (Stored(t, key).None? ==> before[t.id := NodeOf(u)] == before && u == t)
  {
    var after := before[t.id := NodeOf(LeafWithout(t, key))];
    assert after.Keys == before.Keys;
  }

  /** `Rem` of an absent key is the tree itself. */
  lemma AbsentRemoved<V>(before: map<NodeId, Node<V>>, t: Tree<V>, key: Key, minKeys: nat, touched: set<NodeId>)
    requires Routable(t) && Rep(before, t) && Stored(t, key).None? && minKeys > 0
    ensures Rem(t, key, minKeys) == t && Grafted(before, before, t, One(t), touched)
  {
  }

  /** Restore the occupancy of the child at `idx` if it came out short. */
  method MendChild<V>(store: InMemoryStore<V>, id: NodeId, idx: nat, child: NodeId, minKeys: nat,
                      ghost t: Tree<V>, ghost c: Tree<V>)
    requires store.Valid() && minKeys > 0
    requires id == t.id && t.BranchT? && idx < |t.children| == |t.keys| + 1 && |t.keys| > 0
    requires c.id == t.children[idx].id == child && child in store.nodes && store.nodes[child] == NodeOf(c)
    requires Rep(store.nodes, BranchWith(t, idx, One(c))) && IdBag(BranchWith(t, idx, One(c))) <= multiset(store.nodes.Keys)
    requires |c.keys| < minKeys ==> AllSiblings(BranchWith(t, idx, One(c)).children)
    modifies store
    ensures store.Valid() && store.peak == old(store.peak)
    ensures Grafted(old(store.nodes), store.nodes, BranchWith(t, idx, One(c)), One(Mend(t, idx, c, minKeys)), Vicinity(t, idx))
    ensures |c.keys| >= minKeys ==> unchanged(store)
    ensures var left := idx > 0 && |t.children[idx - 1].keys| > minKeys;
            var right := idx + 1 < |t.children| && |t.children[idx + 1].keys| > minKeys;
            |store.nodes| + (if |c.keys| < minKeys && !left && !right then 1 else 0) == |old(store.nodes)|
  {
    VicinityKept(t, idx, c);
    if KeysLen(store.Get(child)) < minKeys {
      Rebalance(store, id, idx, minKeys, BranchWith(t, idx, One(c)));
    }
  }

  /** The subtree is `Grafted` to `Rem` of it; an absent key leaves the whole store object unchanged. */
  method RemoveFrom<V>(store: InMemoryStore<V>, id: NodeId, key: Key, minKeys: nat,
                       ghost t: Tree<V>, ghost h: nat, ghost order: nat, ghost m: int)
    returns (removed: Option<V>)
    requires store.Valid() && order >= 3 && minKeys == MinKeys(order)
    requires id == t.id && Rep(store.nodes, t) && IdBag(t) <= multiset(store.nodes.Keys)
    requires Balanced(t, h, order, m) && Routable(t) && (t.BranchT? ==> m >= 1)
    modifies store
    ensures store.Valid() && store.peak == old(store.peak)
    ensures removed == Stored(t, key)
    ensures Grafted(old(store.nodes), store.nodes, t, One(Rem(t, key, minKeys)), Near(t, key))
    ensures removed.None? ==> unchanged(store)
    ensures |LeafFor(t, key).keys| > minKeys ==> OnlyNodes(old(store.nodes), store.nodes, {LeafFor(t, key).id})
    decreases t, 1
  {
    assert store.nodes[id] == NodeOf(t);
    match store.Get(id)
    case Leaf(keys, vals) =>
      LeafRemoved(store.nodes, t, key);
      match BinarySearch(keys, key) {
        case Found(i) =>
          removed := Some(vals[i]);
          store.Set(id, Leaf(RemoveAt(keys, i), RemoveAt(vals, i)));
        case Missing(_) =>
          removed := None;
      }
    case Internal(keys, children) =>
      var idx := ChildIndex(keys, key);
      removed := RemoveBelow(store, id, idx, children[idx], key, minKeys, t, h, order, m);
  }

  lemma RemovedBelow<V>(before: map<NodeId, Node<V>>, between: map<NodeId, Node<V>>, after: map<NodeId, Node<V>>,
                        t: Tree<V>, i: nat, c: Tree<V>, key: Key, minKeys: nat)
    requires t.BranchT? && Routable(t) && minKeys > 0 && i == ChildIndex(t.keys, key) && Stored(t, key).Some?
    requires c == Rem(Next(t, key), key, minKeys)
    requires Grafted(before, between, t, One(BranchWith(t, i, One(c))), Near(Next(t, key), key))
    requires Grafted(between, after, BranchWith(t, i, One(c)), One(Mend(t, i, c, minKeys)), Vicinity(t, i))
    ensures Grafted(before, after, t, One(Rem(t, key, minKeys)), Near(t, key))
  {
    GraftTwice(before, between, after, t, BranchWith(t, i, One(c)), Mend(t, i, c, minKeys),
               Near(Next(t, key), key), Vicinity(t, i), Near(t, key));
  }

  /** A removal from a leaf with a key to spare leaves no node short. */
  lemma StaysFull<V>(t: Tree<V>, u: Tree<V>, key: Key, h: nat, order: nat)
    requires order >= 3 && h >= 2 && t.BranchT? && Routable(t) && u == Next(t, key) && Routable(u)
    requires Balanced(u, h - 1, order, MinKeys(order)) && |LeafFor(t, key).keys| > MinKeys(order)
    ensures |Rem(u, key, MinKeys(order)).keys| >= MinKeys(order)
  {
    RemCount(u, key, h - 1, order, MinKeys(order));
    DropsOnly(u, key, MinKeys(order));
  }

  /** From the child grafted to `Rem` of it to the branch grafted to `Rem` of the branch. */
  method MendBelow<V>(store: InMemoryStore<V>, id: NodeId, idx: nat, child: NodeId, minKeys: nat, removed: Option<V>,
                      ghost before: map<NodeId, Node<V>>, ghost t: Tree<V>, ghost key: Key, ghost h: nat, ghost order: nat,
                      ghost m: int)
    requires store.Valid() && order >= 3 && minKeys == MinKeys(order)
    requires id == t.id && Rep(before, t) && IdBag(t) <= multiset(before.Keys)
    requires Balanced(t, h, order, m) && Routable(t) && t.BranchT? && m >= 1
    requires removed == Stored(t, key) && (removed.None? ==> store.nodes == before)
    requires idx == ChildIndex(t.keys, key) && idx < |t.children| && child == t.children[idx].id
    requires Grafted(before, store.nodes, t.children[idx], One(Rem(t.children[idx], key, minKeys)), Near(t.children[idx], key))
    requires |LeafFor(t, key).keys| > minKeys ==> OnlyNodes(before, store.nodes, {LeafFor(t, key).id})
    modifies store
    ensures store.Valid() && store.peak == old(store.peak)
    ensures Grafted(before, store.nodes, t, One(Rem(t, key, minKeys)), Near(t, key))
    ensures removed.None? ==> unchanged(store)
    ensures |LeafFor(t, key).keys| > minKeys ==> OnlyNodes(before, store.nodes, {LeafFor(t, key).id})
  {
    if removed.None? {
      AbsentRemoved(before, t, key, minKeys, Near(t, key));
      return;
    }
    ghost var u, between := t.children[idx], store.nodes;
    ghost var c := Rem(u, key, minKeys);
    EnterForRemoval(before, t, idx, u, h, order, m, key);
    NearInBag(u, key);
    ReadyToMend(before, between, t, idx, u, key, h, order, m);
    if |LeafFor(t, key).keys| > minKeys { StaysFull(t, u, key, h, order); }
    MendChild(store, id, idx, child, minKeys, t, c);
    RemovedBelow(before, between, store.nodes, t, idx, c, key, minKeys);
  }

  /** The case of a branch: the contract of `RemoveFrom`, from the one for the child. */
  method RemoveBelow<V>(store: InMemoryStore<V>, id: NodeId, idx: nat, child: NodeId, key: Key, minKeys: nat,
                        ghost t: Tree<V>, ghost h: nat, ghost order: nat, ghost m: int)
    returns (removed: Option<V>)
    requires store.Valid() && order >= 3 && minKeys == MinKeys(order)
    requires id == t.id && Rep(store.nodes, t) && IdBag(t) <= multiset(store.nodes.Keys)
    requires Balanced(t, h, order, m) && Routable(t) && t.BranchT? && m >= 1
    requires idx == ChildIndex(t.keys, key) && idx < |t.children| && child == t.children[idx].id
    modifies store
    ensures store.Valid() && store.peak == old(store.peak)
    ensures removed == Stored(t, key)
    ensures Grafted(old(store.nodes), store.nodes, t, One(Rem(t, key, minKeys)), Near(t, key))
    ensures removed.None? ==> unchanged(store)
    ensures |LeafFor(t, key).keys| > minKeys ==> OnlyNodes(old(store.nodes), store.nodes, {LeafFor(t, key).id})
    decreases t, 0
  {
    ghost var before, u := store.nodes, t.children[idx];
    EnterForRemoval(before, t, idx, u, h, order, m, key);
    removed := RemoveFrom(store, child, key, minKeys, u, h - 1, order, minKeys);
    MendBelow(store, id, idx, child, minKeys, removed, before, t, key, h, order, m);
  }

  // ---- Removal from the tree ----

  lemma OnlyChild<V>(nodes: map<NodeId, Node<V>>, t: Tree<V>, h: nat, order: nat)
    requires order >= 3 && t.BranchT? && |t.children| == 1 && Rep(nodes, t) && IdBag(t) == multiset(nodes.Keys)
    requires Balanced(t, h, order, 0) && Ordered(t, None, None)
    ensures var u := t.children[0];
            && Rep(nodes - {t.id}, u) && IdBag(u) == multiset((nodes - {t.id}).Keys) && Entries(u) == Entries(t)
            && h >= 1 && Balanced(u, h - 1, order, RootMin(h - 1)) && Ordered(u, None, None)
  {
    var u := t.children[0];
    var rest := nodes - {t.id};
    assert t.children == [u];
    BagsOne(u);
    FlattenOne(u);
    assert t.id in IdBag(t);
    assert rest.Keys == nodes.Keys - {t.id};
    Uncover(t.id, IdBag(u), nodes.Keys, rest.Keys);
    RepFrame(nodes, rest, u);
    assert Ordered(u, LoAt(t.keys, None, 0), HiAt(t.keys, None, 0));
    Tighten(u, h - 1, order, MinKeys(order), RootMin(h - 1));
  }

  lemma Uncover(top: NodeId, b: multiset<NodeId>, slots: set<NodeId>, rest: set<NodeId>)
    requires multiset{top} + b == multiset(slots) && rest == slots - {top}
    ensures b == multiset(rest)
  {
    forall id
      ensures b[id] == multiset(rest)[id]
    {
      assert (multiset{top} + b)[id] == multiset(slots)[id];
    }
  }

  /** The tree and the store that a root leaves behind, whether `Sheds` is 1 or 0. */
  lemma Collapsed<V>(nodes: map<NodeId, Node<V>>, t: Tree<V>, h: nat, order: nat, m: int)
    returns (after: map<NodeId, Node<V>>, u: Tree<V>, k: nat)
    requires order >= 3 && Rep(nodes, t) && IdBag(t) == multiset(nodes.Keys)
    requires Balanced(t, h, order, m) && Ordered(t, None, None)
    ensures after == if Sheds(t) == 1 then nodes - {t.id} else nodes
    ensures u == Collapse(t)
    ensures IsIndex(after, u, k, order) && Entries(u) == Entries(t) && h == k + Sheds(t)
  {
    if Sheds(t) == 1 {
      after, u, k := nodes - {t.id}, t.children[0], h - 1;
      Tighten(t, h, order, m, 0);
      OnlyChild(nodes, t, h, order);
    } else {
      after, u, k := nodes, t, h;
      Tighten(t, h, order, m, RootMin(h));
    }
  }

  /** The index in the store is `t` without its root, one level lower, when `t` sheds it, and `t` as it was otherwise. */
  method CollapseRoot<V>(store: InMemoryStore<V>, root: NodeId, ghost t: Tree<V>, ghost h: nat, ghost order: nat, ghost m: int)
    returns (newRoot: NodeId, ghost u: Tree<V>, ghost k: nat)
    requires store.Valid() && order >= 3 && root == t.id && Rep(store.nodes, t) && IdBag(t) == multiset(store.nodes.Keys)
    requires Balanced(t, h, order, m) && Ordered(t, None, None)
    modifies store
    ensures store.Valid() && store.peak == old(store.peak)
    ensures newRoot == u.id && IsIndex(store.nodes, u, k, order) && Entries(u) == Entries(t)
    ensures |store.nodes| + Sheds(t) == |old(store.nodes)| && (Sheds(t) == 0 ==> unchanged(store))
    ensures u == Collapse(t) && h == k + Sheds(t) && newRoot == if Sheds(t) == 1 then t.children[0].id else root
    ensures forall id :: id in old(store.nodes) && id != root ==>
                           id in store.nodes && store.nodes[id] == old(store.nodes)[id]
  {
    assert store.nodes[root] == NodeOf(t);
    ghost var after;
    after, u, k := Collapsed(store.nodes, t, h, order, m);
    newRoot := root;
    match store.Get(root)
    case Internal(_, children) =>
      if |children| == 1 {
        newRoot := children[0];
        OneFewer(store.nodes, store.nodes - {root}, root);
        var _ := store.Reclaim(root);
      }
    case Leaf(_, _) =>
  }

  /** What a removal makes of the tree below the root. */
  lemma RemCorrect<V>(before: map<NodeId, Node<V>>, after: map<NodeId, Node<V>>, t: Tree<V>, key: Key, h: nat, order: nat)
    requires order >= 3 && Routable(t) && IsIndex(before, t, h, order)
    requires Grafted(before, after, t, One(Rem(t, key, MinKeys(order))), Near(t, key))
    ensures var u := Rem(t, key, MinKeys(order));
            && Rep(after, u) && IdBag(u) == multiset(after.Keys)
            && Balanced(u, h, order, |t.keys| - 1) && Ordered(u, None, None)
            && Entries(u) == Del(Entries(t), key)
  {
    var u := Rem(t, key, MinKeys(order));
    RemBalanced(t, key, h, order, RootMin(h));
    RemOrdered(t, key, MinKeys(order), None, None);
    RemEntries(t, key, MinKeys(order), None, None);
    Cancel(multiset(after.Keys), IdBag(t), IdBag(u));
  }

  /** By how much removing `key` lowers an index: 1 if its root is a branch with one separator and drops it. */
  ghost function Shrinks<V>(t: Tree<V>, key: Key, minKeys: nat): nat
    requires Routable(t)
  {
    if t.BranchT? && |t.keys| == 1 && Drops(t, key, minKeys) then 1 else 0
  }

  lemma RemCosts<V>(before: map<NodeId, Node<V>>, after: map<NodeId, Node<V>>, t: Tree<V>, key: Key, h: nat, order: nat)
    requires order >= 3 && Routable(t) && IsIndex(before, t, h, order)
    requires IdBag(Rem(t, key, MinKeys(order))) == multiset(after.Keys)
    ensures |after| + Merges(t, key, MinKeys(order)) == |before|
    ensures Sheds(Rem(t, key, MinKeys(order))) == Shrinks(t, key, MinKeys(order))
  {
    RemCount(t, key, h, order, RootMin(h));
    RemBalanced(t, key, h, order, RootMin(h));
    BagCount(before.Keys, IdBag(t));
    BagCount(after.Keys, IdBag(Rem(t, key, MinKeys(order))));
  }

  /**
    An index of `Del` of the entries. It is lower by `Shrinks`, has `Merges` nodes fewer besides a shed root, and changes
    in one leaf only if that can spare the entry; an absent key changes nothing.
   */
  method Remove<V>(store: InMemoryStore<V>, root: NodeId, key: Key, minKeys: nat,
                   ghost t: Tree<V>, ghost h: nat, ghost order: nat)
    returns (removed: Option<V>, newRoot: NodeId, ghost u: Tree<V>, ghost k: nat)
    requires store.Valid() && order >= 3 && minKeys == MinKeys(order) && root == t.id
    requires IsIndex(store.nodes, t, h, order) && Routable(t)
    modifies store
    ensures store.Valid() && store.peak == old(store.peak)
    ensures newRoot == u.id && IsIndex(store.nodes, u, k, order)
    ensures Entries(u) == Del(Entries(t), key) && Bare(u) == Removed(Bare(t), key, minKeys)
    ensures removed == Find(Entries(t), key)
    ensures h == k + Shrinks(t, key, minKeys) && (k == h ==> newRoot == root)
    ensures |store.nodes| + Merges(t, key, minKeys) + Shrinks(t, key, minKeys) == |old(store.nodes)|
    ensures |LeafFor(t, key).keys| > minKeys ==> OnlyNodes(old(store.nodes), store.nodes, {LeafFor(t, key).id})
    ensures removed.None? ==> unchanged(store) && newRoot == root
    ensures forall id :: id in old(store.nodes) && id !in Near(t, key) ==>
                           id in store.nodes && store.nodes[id] == old(store.nodes)[id]
  {
    ghost var before := store.nodes;
    StoredIsFind(t, key, None, None);
    DropsOnly(t, key, minKeys);
    RemovedShape(t, key, minKeys);
    removed := RemoveFrom(store, root, key, minKeys, t, h, order, RootMin(h));
    if removed.Some? {
      RemCorrect(before, store.nodes, t, key, h, order);
      RemCosts(before, store.nodes, t, key, h, order);
      newRoot, u, k := CollapseRoot(store, root, Rem(t, key, minKeys), h, order, |t.keys| - 1);
    } else {
      FindNoneDel(Entries(t), key);
      AbsentRemoved(before, t, key, minKeys, Near(t, key));
      newRoot, u, k := root, t, h;
    }
  }
}
