/** The shared reasoning about one changed subtree in a store: what it became, and what stayed. */
module Grafting {
  import opened Nodes
  import opened Multisets
  import opened Store
  import opened Trees
  import opened TreeInsert

  ghost predicate GrownRep<V>(nodes: map<NodeId, Node<V>>, g: Grown<V>) {
    match g
    case One(t) => Rep(nodes, t)
    case Two(l, _, r) => Rep(nodes, l) && Rep(nodes, r)
  }

  /** Nodes that were not touched are still there, unchanged. */
  ghost predicate Same<V>(before: map<NodeId, Node<V>>, after: map<NodeId, Node<V>>, touched: set<NodeId>) {
    forall id :: id in before && id !in touched ==> id in after && after[id] == before[id]
  }

  /** The same nodes are live, and only those in `written` may differ. */
  ghost predicate OnlyNodes<V>(before: map<NodeId, Node<V>>, after: map<NodeId, Node<V>>, written: set<NodeId>) {
    after.Keys == before.Keys && forall id :: id in before && id !in written ==> after[id] == before[id]
  }

  /** The node at `id` is live and has `n` keys. */
  ghost predicate Holds<V>(nodes: map<NodeId, Node<V>>, id: NodeId, n: int) {
    id in nodes && KeysLen(nodes[id]) == n
  }

  /** A node that is live before and after, and the same. */
  ghost predicate Kept<V>(before: map<NodeId, Node<V>>, after: map<NodeId, Node<V>>, id: NodeId) {
    id in before && id in after && after[id] == before[id]
  }

  /**
    The subtree `t` of the old store became `g` in the new one. The live slots are the old ones
    with those of `t` exchanged for those of `g`, and no other node than `touched` changed.
   */
  ghost predicate Grafted<V>(before: map<NodeId, Node<V>>, after: map<NodeId, Node<V>>, t: Tree<V>, g: Grown<V>,
                             touched: set<NodeId>)
  {
    match g
    case One(u) =>
      && Rep(after, u) && u.id == t.id
      && multiset(after.Keys) + IdBag(t) == multiset(before.Keys) + IdBag(u)
      && Same(before, after, touched)
    case Two(l, _, r) =>
      && Rep(after, l) && Rep(after, r) && l.id == t.id
      && multiset(after.Keys) + IdBag(t) == multiset(before.Keys) + (IdBag(l) + IdBag(r))
      && Same(before, after, touched)
  }

  // ---- The store around one level ----

  /** The store after one level of an insertion: the node at the same id, and the right half in a new slot. */
  ghost predicate Written<V>(before: map<NodeId, Node<V>>, after: map<NodeId, Node<V>>, g: Grown<V>, spare: NodeId) {
    match g
    case One(t) => after == before[t.id := NodeOf(t)]
    case Two(l, _, r) => spare == r.id && spare !in before && after == before[l.id := NodeOf(l)][spare := NodeOf(r)]
  }

  /** Writing a node that needs no split. */
  lemma WholeInStore<V>(before: map<NodeId, Node<V>>, after: map<NodeId, Node<V>>, w: Tree<V>)
    requires w.id in before && after == before[w.id := NodeOf(w)]
    requires w.BranchT? ==> RepAll(before, w.children) && w.id !in Bags(w.children)
    requires w.BranchT? ==> forall id :: id in Bags(w.children) ==> id in before
    ensures Rep(after, w) && after.Keys == before.Keys
    ensures forall id :: id in before && id != w.id ==> id in after && after[id] == before[id]
  {
    if w.BranchT? {
      RepAllFrame(before, after, w.children);
    }
  }

  /** Writing the two halves of a node. */
  lemma HalvesInStore<V>(before: map<NodeId, Node<V>>, after: map<NodeId, Node<V>>, w: Tree<V>, spare: NodeId)
    requires w.id in before && spare !in before && |w.keys| >= 2
    requires if w.LeafT? then |w.keys| == |w.vals| else |w.children| == |w.keys| + 1
    requires w.BranchT? ==> RepAll(before, w.children) && w.id !in Bags(w.children)
    requires w.BranchT? ==> forall id :: id in Bags(w.children) ==> id in before
    requires var g := Cut(w, spare); after == before[w.id := NodeOf(g.left)][spare := NodeOf(g.right)]
    ensures Rep(after, Cut(w, spare).left) && Rep(after, Cut(w, spare).right)
    ensures multiset(after.Keys) == multiset(before.Keys) + multiset{spare}
    ensures forall id :: id in before && id != w.id ==> id in after && after[id] == before[id]
  {
    var g := Cut(w, spare);
    if w.BranchT? {
      RepAllFrame(before, after, w.children);
      var mid := |w.keys| / 2;
      assert RepAll(after, w.children[..mid + 1]);
      assert RepAll(after, w.children[mid + 1..]);
    }
    var kept := before[w.id := NodeOf(g.left)];
    assert kept.Keys == before.Keys;
    KeysAfterInsert(kept, spare, NodeOf(g.right));
  }

  /** Writing a settled node gives its halves in the store, at the cost of one new slot if it split. */
  lemma SettleInStore<V>(before: map<NodeId, Node<V>>, after: map<NodeId, Node<V>>, w: Tree<V>, order: nat, spare: NodeId)
    requires order >= 3 && w.id in before
    requires if w.LeafT? then |w.keys| == |w.vals| else |w.children| == |w.keys| + 1
    requires w.BranchT? ==> RepAll(before, w.children) && w.id !in Bags(w.children)
    requires w.BranchT? ==> forall id :: id in Bags(w.children) ==> id in before
    requires Written(before, after, Settle(w, order, spare), spare)
    ensures GrownRep(after, Settle(w, order, spare)) && GrownId(Settle(w, order, spare)) == w.id
    ensures multiset(after.Keys) + IdBag(w) == multiset(before.Keys) + GrownBag(Settle(w, order, spare))
    ensures forall id :: id in before && id != w.id ==> id in after && after[id] == before[id]
  {
    if Settle(w, order, spare).One? {
      WholeInStore(before, after, w);
    } else {
      HalvesInStore(before, after, w, spare);
      CutEntries(w, spare);
    }
  }

  lemma PartsBag<V>(t: Tree<V>, i: nat)
    requires t.BranchT? && i < |t.children|
    ensures IdBag(t) == multiset{t.id} + (Bags(t.children[..i]) + IdBag(t.children[i]) + Bags(t.children[i + 1..]))
  {
    BagsAt(t.children, i);
  }

  /** The parts of a branch occupy different slots. */
  lemma PartsApart<V>(t: Tree<V>, i: nat, slots: multiset<NodeId>)
    requires t.BranchT? && i < |t.children|
    requires IdBag(t) <= slots && forall id :: slots[id] <= 1
    ensures t.id in slots && t.id !in Bags(t.children[..i]) && t.id !in Bags(t.children[i + 1..])
    ensures t.id !in IdBag(t.children[i]) && IdBag(t.children[i]) <= slots
    ensures forall id :: id in Bags(t.children[..i]) ==> id in slots && id !in IdBag(t.children[i])
    ensures forall id :: id in Bags(t.children[i + 1..]) ==> id in slots && id !in IdBag(t.children[i])
  {
    var a, c, b := Bags(t.children[..i]), IdBag(t.children[i]), Bags(t.children[i + 1..]);
    PartsBag(t, i);
    PartsDisjoint(t.id, a, c, b, slots);
  }

  lemma RepSplice<V>(nodes: map<NodeId, Node<V>>, t: Tree<V>, i: nat, c: Grown<V>)
    requires t.BranchT? && i < |t.children| == |t.keys| + 1
    requires RepAll(nodes, t.children[..i]) && RepAll(nodes, t.children[i + 1..]) && GrownRep(nodes, c)
    ensures RepAll(nodes, BranchWith(t, i, c).children)
  {
    var ts, us := t.children, BranchWith(t, i, c).children;
    forall j | 0 <= j < |us|
      ensures Rep(nodes, us[j])
    {
      if j < i {
        assert us[j] == ts[..i][j];
      } else if c.One? && j > i {
        assert us[j] == ts[i + 1..][j - i - 1];
      } else if c.Two? && j > i + 1 {
        assert us[j] == ts[i + 1..][j - i - 2];
      }
    }
  }

  /** A change below child `i` leaves the branch, its other children and all other nodes alone. */
  lemma AroundChild<V>(before: map<NodeId, Node<V>>, after: map<NodeId, Node<V>>, t: Tree<V>, i: nat, c: Grown<V>,
                       touched: set<NodeId>)
    requires t.BranchT? && i < |t.children| == |t.keys| + 1
    requires Rep(before, t) && IdBag(t) <= multiset(before.Keys)
    requires Grafted(before, after, t.children[i], c, touched)
    requires forall id :: id in touched ==> id in IdBag(t.children[i])
    ensures RepAll(after, BranchWith(t, i, c).children)
    ensures t.id in after && after[t.id] == NodeOf(t)
  {
    SiblingsApart(t, i, before.Keys, touched);
    RepSlices(before, t.children, i);
    Untouched(before, after, t.children[..i], touched);
    Untouched(before, after, t.children[i + 1..], touched);
    RepSplice(after, t, i, c);
  }

  lemma RepSlices<V>(nodes: map<NodeId, Node<V>>, ts: seq<Tree<V>>, i: nat)
    requires i < |ts| && RepAll(nodes, ts)
    ensures RepAll(nodes, ts[..i]) && RepAll(nodes, ts[i + 1..])
  {
  }

  /** A forest away from the touched nodes stays as it was. */
  lemma Untouched<V>(before: map<NodeId, Node<V>>, after: map<NodeId, Node<V>>, us: seq<Tree<V>>, touched: set<NodeId>)
    requires RepAll(before, us)
    requires forall id :: id in Bags(us) ==> id in before.Keys && id !in touched
    requires forall id :: id in before && id !in touched ==> id in after && after[id] == before[id]
    ensures RepAll(after, us)
  {
    RepAllFrame(before, after, us);
  }

  /** The root and the other children of a branch are apart from what was touched in child `i`. */
  lemma SiblingsApart<V>(t: Tree<V>, i: nat, slots: set<NodeId>, touched: set<NodeId>)
    requires t.BranchT? && i < |t.children| && IdBag(t) <= multiset(slots)
    requires forall id :: id in touched ==> id in IdBag(t.children[i])
    ensures t.id in slots && t.id !in touched
    ensures forall id :: id in Bags(t.children[..i]) ==> id in slots && id !in touched
    ensures forall id :: id in Bags(t.children[i + 1..]) ==> id in slots && id !in touched
  {
    var own, bag := IdBag(t.children[i]), multiset(slots);
    PartsApart(t, i, bag);
    AwayFrom(Bags(t.children[..i]), own, slots, touched);
    AwayFrom(Bags(t.children[i + 1..]), own, slots, touched);
    AwayFrom(multiset{t.id}, own, slots, touched);
    assert t.id in multiset{t.id};
  }

  lemma AwayFrom(part: multiset<NodeId>, own: multiset<NodeId>, slots: set<NodeId>, touched: set<NodeId>)
    requires forall id :: id in part ==> id in multiset(slots) && id !in own
    requires forall id :: id in touched ==> id in own
    ensures forall id :: id in part ==> id in slots && id !in touched
  {
    forall id | id in part
      ensures id in slots && id !in touched
    {
      assert id in multiset(slots) && id !in own;
    }
  }

  lemma AroundChildBag<V>(before: map<NodeId, Node<V>>, after: map<NodeId, Node<V>>, t: Tree<V>, i: nat, c: Grown<V>)
    requires t.BranchT? && i < |t.children| == |t.keys| + 1
    requires IdBag(t) <= multiset(before.Keys)
    requires multiset(after.Keys) + IdBag(t.children[i]) == multiset(before.Keys) + GrownBag(c)
    ensures t.id !in Bags(BranchWith(t, i, c).children)
    ensures multiset(after.Keys) + IdBag(t) == multiset(before.Keys) + IdBag(BranchWith(t, i, c))
    ensures IdBag(BranchWith(t, i, c)) <= multiset(after.Keys)
  {
    var was, now, part, grown := multiset(before.Keys), multiset(after.Keys), IdBag(t.children[i]), GrownBag(c);
    var a, b := Bags(t.children[..i]), Bags(t.children[i + 1..]);
    PartsApart(t, i, was);
    PartsBag(t, i);
    StaysOut(now, was, part, grown, t.id);
    ChildrenBag(t, i, c);
    Conserve(now, was, part, grown, multiset{t.id}, a, b);
    StaysWithin(now, was, IdBag(t), IdBag(BranchWith(t, i, c)));
  }

  lemma ChildrenBag<V>(t: Tree<V>, i: nat, c: Grown<V>)
    requires t.BranchT? && i < |t.children| == |t.keys| + 1
    ensures Bags(BranchWith(t, i, c).children) == Bags(t.children[..i]) + GrownBag(c) + Bags(t.children[i + 1..])
  {
    match c
    case One(c) => SpliceOne(t.children, i, c);
    case Two(l, _, r) => SpliceTwo(t.children, i, l, r);
  }
}
