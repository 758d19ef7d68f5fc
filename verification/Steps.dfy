/** How the single moves of a cursor change its place in key order, and what a walk costs. */
module Steps {
  import opened SortedEntries
  import opened Nodes
  import opened Trees
  import opened Paths

  /** How many entries come before the end of the subtree that a path leads to. */
  ghost function Ended<V>(t: Tree<V>, path: seq<Frame>): nat
    requires OnPath(t, path)
  {
    Before(t, path) + |Entries(At(t, path))|
  }

  /** How many internal nodes a forward walk has entered when it leaves that subtree. */
  ghost function Covered<V>(t: Tree<V>, path: seq<Frame>): nat
    requires OnPath(t, path)
  {
    Entered(t, path) + BranchCount(At(t, path))
  }

  ghost predicate Reached<V>(t: Tree<V>, path: seq<Frame>, id: NodeId) {
    OnPath(t, path) && At(t, path).id == id
  }

  /** What a cursor finds in the store at the end of a path. */
  lemma Here<V>(nodes: map<NodeId, Node<V>>, t: Tree<V>, h: nat, order: nat, path: seq<Frame>, id: NodeId)
    requires order >= 3 && IsIndex(nodes, t, h, order) && Reached(t, path, id)
    ensures |path| < h && id in nodes && nodes[id] == NodeOf(At(t, path))
    ensures At(t, path).BranchT? ==> |path| + 1 < h && |At(t, path).children| == |At(t, path).keys| + 1 >= 2
    ensures At(t, path).LeafT? ==> |path| == h - 1 && |At(t, path).keys| == |At(t, path).vals|
    ensures At(t, path).LeafT? && (path != [] || Entries(t) != []) ==> At(t, path).keys != []
    ensures At(t, path).LeafT? && At(t, path).keys == [] ==> path == [] && Entries(t) == []
  {
    AtSound(nodes, t, path, h, order);
  }

  // ---- One step ----

  /** A first child begins where its parent begins. */
  lemma FirstChild<V>(t: Tree<V>, up: seq<Frame>, f: Frame)
    requires Leads(t, up, f) && f.child == 0
    ensures var path := up + [f];
            && Reached(t, path, At(t, up).children[0].id) && At(t, path) == At(t, up).children[0]
            && Before(t, path) == Before(t, up) && Entered(t, path) == Entered(t, up) + 1
  {
    Down(t, up, f);
    assert At(t, up).children[..0] == [];
  }

  /** A last child ends where its parent ends. */
  lemma LastChild<V>(t: Tree<V>, up: seq<Frame>, f: Frame)
    requires Leads(t, up, f) && f.child + 1 == |At(t, up).children|
    ensures var path := up + [f];
            && Reached(t, path, At(t, up).children[f.child].id) && At(t, path) == At(t, up).children[f.child]
            && Ended(t, path) == Ended(t, up) && Covered(t, path) == Covered(t, up)
  {
    var ts := At(t, up).children;
    Down(t, up, f);
    OneMore(ts, f.child);
    assert ts[..f.child + 1] == ts;
  }

  /** A child begins where the one before it ends. */
  lemma NextChild<V>(t: Tree<V>, up: seq<Frame>, f: Frame)
    requires Leads(t, up, f) && f.child + 1 < |At(t, up).children|
    ensures var path, next := up + [f], up + [Frame(f.node, f.child + 1)];
            && Reached(t, path, At(t, up).children[f.child].id)
            && Reached(t, next, At(t, up).children[f.child + 1].id)
            && Before(t, next) == Ended(t, path) && Entered(t, next) == Covered(t, path)
  {
    Down(t, up, f);
    Down(t, up, Frame(f.node, f.child + 1));
    OneMore(At(t, up).children, f.child);
  }

  /** A position is an entry of the in-order sequence. */
  lemma PositionEntry<V>(t: Tree<V>, path: seq<Frame>, leaf: NodeId, idx: nat)
    requires Position(t, path, leaf, idx)
    ensures Rank(t, path, idx) < |Entries(t)|
    ensures Entries(t)[Rank(t, path, idx)] == Entry(At(t, path).keys[idx], At(t, path).vals[idx])
  {
    Part(t, path);
    var es := Entries(At(t, path));
    assert es[idx] == Entries(t)[Before(t, path) + idx];
  }

  // ---- What a walk costs ----

  lemma {:induction false} BranchesBound<V>(t: Tree<V>, h: nat, order: nat, m: int)
    requires order >= 3 && Balanced(t, h, order, m) && m >= 1
    ensures BranchCount(t) < |Entries(t)|
    decreases t, 1
  {
    if t.LeafT? {
    } else {
      ForestBranchesBound(t.children, h - 1, order);
    }
  }

  lemma {:induction false} ForestBranchesBound<V>(ts: seq<Tree<V>>, h: nat, order: nat)
    requires order >= 3 && BalancedAll(ts, h, order)
    ensures Branches(ts) + |ts| <= |Flatten(ts)|
    decreases ts, 0
  {
    if ts == [] {
    } else {
      BranchesBound(ts[0], h, order, MinKeys(order));
      assert BalancedAll(ts[1..], h, order);
      ForestBranchesBound(ts[1..], h, order);
    }
  }

  lemma ChildrenSound<V>(nodes: map<NodeId, Node<V>>, t: Tree<V>, path: seq<Frame>, h: nat, order: nat)
    requires order >= 3 && IsIndex(nodes, t, h, order) && OnPath(t, path) && At(t, path).BranchT?
    ensures |path| + 1 < h && BalancedAll(At(t, path).children, h - |path| - 1, order)
  {
    AtSound(nodes, t, path, h, order);
    BalancedChildren(At(t, path), h - |path|, order, if path == [] then RootMin(h) else MinKeys(order));
  }

  lemma BalancedChildren<V>(t: Tree<V>, h: nat, order: nat, m: int)
    requires order >= 3 && Balanced(t, h, order, m) && t.BranchT?
    ensures h >= 2 && BalancedAll(t.children, h - 1, order)
  {
  }

  /** Below its first `n` frames a path has passed at most as many internal nodes as entries, besides its own. */
  lemma {:induction false} EnteredBelow<V>(nodes: map<NodeId, Node<V>>, t: Tree<V>, h: nat, order: nat,
                                             path: seq<Frame>, n: nat)
    requires order >= 3 && IsIndex(nodes, t, h, order) && OnPath(t, path) && n <= |path|
    ensures OnPath(t, path[..n])
    ensures Entered(t, path) - Entered(t, path[..n]) <= Before(t, path) - Before(t, path[..n]) + |path| - n
    ensures Covered(t, path[..n]) - Covered(t, path) <= Ended(t, path[..n]) - Ended(t, path)
    decreases |path|
  {
    if n == |path| {
      assert path[..n] == path;
    } else {
      var up, i := path[..|path| - 1], path[|path| - 1].child;
      assert up[..n] == path[..n];
      EnteredBelow(nodes, t, h, order, up, n);
      ChildrenSound(nodes, t, up, h, order);
      BesidesBound(At(t, up).children, i, h - |up| - 1, order);
    }
  }

  lemma BesidesBound<V>(ts: seq<Tree<V>>, i: nat, h: nat, order: nat)
    requires order >= 3 && BalancedAll(ts, h, order) && i < |ts|
    ensures Branches(ts[..i]) <= |Flatten(ts[..i])|
    ensures Branches(ts) - Branches(ts[..i]) - BranchCount(ts[i])
         <= |Flatten(ts)| - |Flatten(ts[..i])| - |Entries(ts[i])|
  {
    var rest := ts[i + 1..];
    assert BalancedAll(ts[..i], h, order) && BalancedAll(rest, h, order);
    ForestBranchesBound(ts[..i], h, order);
    ForestBranchesBound(rest, h, order);
    FlattenAt(ts, i);
    assert ts == ts[..i + 1] + rest;
    BranchesConcat(ts[..i + 1], rest);
    OneMore(ts, i);
  }

  /** A walk enters a subtree before anything in it and has covered it after everything in it. */
  lemma {:induction false} NestedWalk<V>(t: Tree<V>, path: seq<Frame>, n: nat)
    requires OnPath(t, path) && n <= |path|
    ensures OnPath(t, path[..n])
    ensures Entered(t, path[..n]) <= Entered(t, path) && Covered(t, path) <= Covered(t, path[..n])
    decreases |path|
  {
    if n == |path| {
      assert path[..n] == path;
    } else {
      var up, i := path[..|path| - 1], path[|path| - 1].child;
      assert up[..n] == path[..n];
      NestedWalk(t, up, n);
      var ts := At(t, up).children;
      OneMore(ts, i);
      assert ts == ts[..i + 1] + ts[i + 1..];
      BranchesConcat(ts[..i + 1], ts[i + 1..]);
    }
  }

  lemma BetweenBound<V>(ts: seq<Tree<V>>, a: nat, b: nat, h: nat, order: nat)
    requires order >= 3 && BalancedAll(ts, h, order) && a < b < |ts|
    ensures 0 <= Branches(ts[..b]) - Branches(ts[..a]) - BranchCount(ts[a])
              <= |Flatten(ts[..b])| - |Flatten(ts[..a])| - |Entries(ts[a])|
  {
    assert BalancedAll(ts[a + 1..b], h, order);
    ForestBranchesBound(ts[a + 1..b], h, order);
    OneMore(ts, a);
    assert ts[..b] == ts[..a + 1] + ts[a + 1..b];
    BranchesConcat(ts[..a + 1], ts[a + 1..b]);
    FlattenConcat(ts[..a + 1], ts[a + 1..b]);
  }

  /** From the end of one child to another further right. */
  lemma ForkBetween<V>(t: Tree<V>, up: seq<Frame>, f: Frame, g: Frame, h: nat, order: nat)
    requires order >= 3 && Leads(t, up, f) && Leads(t, up, g) && f.child < g.child
    requires BalancedAll(At(t, up).children, h, order)
    ensures OnPath(t, up + [f]) && OnPath(t, up + [g])
    ensures 0 <= Entered(t, up + [g]) - Covered(t, up + [f]) <= Before(t, up + [g]) - Ended(t, up + [f])
  {
    Down(t, up, f);
    Down(t, up, g);
    BetweenBound(At(t, up).children, f.child, g.child, h, order);
  }

  /**
    From the end of one path to another further right, a walk enters few internal nodes:
    at most one for each entry between and one for each level.
   */
  lemma WalkBetween<V>(nodes: map<NodeId, Node<V>>, t: Tree<V>, h: nat, order: nat, p: seq<Frame>, q: seq<Frame>, k: nat)
    requires order >= 3 && IsIndex(nodes, t, h, order) && OnPath(t, p) && OnPath(t, q)
    requires k < |p| && k < |q| && p[..k] == q[..k] && p[k].child < q[k].child
    ensures 0 <= Entered(t, q) - Covered(t, p) <= Before(t, q) - Ended(t, p) + |q| - k - 1
  {
    Fork(t, p, k);
    Fork(t, q, k);
    ChildrenSound(nodes, t, p[..k], h, order);
    ForkBetween(t, p[..k], p[k], q[k], h - k - 1, order);
    WalkInside(nodes, t, h, order, p, k + 1);
    WalkInside(nodes, t, h, order, q, k + 1);
  }

  lemma WalkInside<V>(nodes: map<NodeId, Node<V>>, t: Tree<V>, h: nat, order: nat, path: seq<Frame>, n: nat)
    requires order >= 3 && IsIndex(nodes, t, h, order) && OnPath(t, path) && n <= |path|
    ensures OnPath(t, path[..n])
    ensures 0 <= Entered(t, path) - Entered(t, path[..n]) <= Before(t, path) - Before(t, path[..n]) + |path| - n
    ensures 0 <= Covered(t, path[..n]) - Covered(t, path) <= Ended(t, path[..n]) - Ended(t, path)
  {
    NestedWalk(t, path, n);
    EnteredBelow(nodes, t, h, order, path, n);
  }

  /** Between two positions in key order a walk enters at most one internal node per entry and one per level. */
  lemma PositionWalk<V>(nodes: map<NodeId, Node<V>>, t: Tree<V>, h: nat, order: nat,
                        p: seq<Frame>, l: NodeId, i: nat, q: seq<Frame>, m: NodeId, j: nat)
    requires order >= 3 && IsIndex(nodes, t, h, order)
    requires Position(t, p, l, i) && Position(t, q, m, j) && Rank(t, p, i) <= Rank(t, q, j)
    ensures 0 <= Entered(t, q) - Entered(t, p) <= Rank(t, q, j) - Rank(t, p, i) + h - 1
  {
    AtSound(nodes, t, p, h, order);
    AtSound(nodes, t, q, h, order);
    assert |p| == |q| == h - 1;
    if p != q {
      var k := FirstDifference(p, q);
      if p[k].child < q[k].child {
        WalkBetween(nodes, t, h, order, p, q, k);
      } else {
        SameNode(t, p, q, k);
        PartedOrder(t, q, p, k);
      }
    }
  }
}
