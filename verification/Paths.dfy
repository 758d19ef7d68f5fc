/** Positions in a tree: a path of child choices, and what comes before it in key order. */
module Paths {
  import opened SortedEntries
  import opened Nodes
  import opened Trees

  /** One turn of a path: from the branch with this id to this child of it. */
  datatype Frame = Frame(node: NodeId, child: nat)

  /** `path` is a genuine way down from the root of `t`. */
  ghost predicate OnPath<V>(t: Tree<V>, path: seq<Frame>)
    decreases |path|, 0
  {
    path == [] ||
    var up, f := path[..|path| - 1], path[|path| - 1];
    && OnPath(t, up)
    && At(t, up).BranchT? && At(t, up).id == f.node && f.child < |At(t, up).children|
  }

  /** The subtree at the end of a path. */
  ghost function At<V>(t: Tree<V>, path: seq<Frame>): Tree<V>
    requires OnPath(t, path)
    decreases |path|, 1
  {
    if path == [] then t
    else At(t, path[..|path| - 1]).children[path[|path| - 1].child]
  }

  /** How many entries come before the subtree at the end of a path. */
  ghost function Before<V>(t: Tree<V>, path: seq<Frame>): nat
    requires OnPath(t, path)
    decreases |path|
  {
    if path == [] then 0
    else
      var up := path[..|path| - 1];
      Before(t, up) + |Flatten(At(t, up).children[..path[|path| - 1].child])|
  }

  /** How many internal nodes a forward walk has entered when it is at the end of a path. */
  ghost function Entered<V>(t: Tree<V>, path: seq<Frame>): nat
    requires OnPath(t, path)
    decreases |path|
  {
    if path == [] then 0
    else
      var up := path[..|path| - 1];
      Entered(t, up) + 1 + Branches(At(t, up).children[..path[|path| - 1].child])
  }

  /** The number of internal nodes of a tree. */
  ghost function BranchCount<V>(t: Tree<V>): nat
    decreases t
  {
    match t
    case LeafT(_, _, _) => 0
    case BranchT(_, _, children) => 1 + Branches(children)
  }

  ghost function Branches<V>(ts: seq<Tree<V>>): nat
    decreases ts
  {
    if ts == [] then 0 else BranchCount(ts[0]) + Branches(ts[1..])
  }

  lemma {:induction false} BranchesConcat<V>(a: seq<Tree<V>>, b: seq<Tree<V>>)
    ensures Branches(a + b) == Branches(a) + Branches(b)
  {
    if a == [] {
      assert a + b == b;
    } else {
      var c := a + b;
      assert c[0] == a[0] && c[1..] == a[1..] + b;
      BranchesConcat(a[1..], b);
      assert Branches(c) == BranchCount(c[0]) + Branches(c[1..]);
    }
  }

  /** The first `i + 1` trees of a forest are the first `i` and one more. */
  lemma OneMore<V>(ts: seq<Tree<V>>, i: nat)
    requires i < |ts|
    ensures Flatten(ts[..i + 1]) == Flatten(ts[..i]) + Entries(ts[i])
    ensures Branches(ts[..i + 1]) == Branches(ts[..i]) + BranchCount(ts[i])
  {
    assert ts[..i + 1] == ts[..i] + [ts[i]];
    FlattenConcat(ts[..i], [ts[i]]);
    FlattenOne(ts[i]);
    BranchesConcat(ts[..i], [ts[i]]);
    assert Branches([ts[i]]) == BranchCount(ts[i]);
  }

  lemma FlattenPrefix<V>(ts: seq<Tree<V>>, i: nat, j: nat)
    requires i <= j <= |ts|
    ensures |Flatten(ts[..i])| <= |Flatten(ts[..j])| <= |Flatten(ts)|
  {
    assert ts[..j] == ts[..i] + ts[i..j];
    FlattenConcat(ts[..i], ts[i..j]);
    assert ts == ts[..j] + ts[j..];
    FlattenConcat(ts[..j], ts[j..]);
  }

  /** The frame leads on from the end of the path. */
  ghost predicate Leads<V>(t: Tree<V>, path: seq<Frame>, f: Frame) {
    && OnPath(t, path)
    && At(t, path).BranchT? && At(t, path).id == f.node && f.child < |At(t, path).children|
  }

  lemma LastFrame<V>(t: Tree<V>, path: seq<Frame>)
    requires OnPath(t, path) && path != []
    ensures var up, f := path[..|path| - 1], path[|path| - 1]; path == up + [f] && Leads(t, up, f)
  {
  }

  /** Going one step down: the parts of the longer path. */
  lemma Down<V>(t: Tree<V>, path: seq<Frame>, f: Frame)
    requires Leads(t, path, f)
    ensures var longer := path + [f];
            && OnPath(t, longer) && At(t, longer) == At(t, path).children[f.child]
            && Before(t, longer) == Before(t, path) + |Flatten(At(t, path).children[..f.child])|
            && Entered(t, longer) == Entered(t, path) + 1 + Branches(At(t, path).children[..f.child])
  {
    var longer := path + [f];
    assert longer[..|longer| - 1] == path && longer[|longer| - 1] == f;
  }

  /** `es` stands in `all` at offset `from`. */
  ghost predicate Stands<V>(all: seq<Entry<V>>, from: nat, es: seq<Entry<V>>) {
    from + |es| <= |all| && forall k :: 0 <= k < |es| ==> es[k] == all[from + k]
  }

  lemma StandsWithin<V>(all: seq<Entry<V>>, from: nat, es: seq<Entry<V>>, a: seq<Entry<V>>, c: seq<Entry<V>>, b: seq<Entry<V>>)
    requires Stands(all, from, es) && es == a + c + b
    ensures Stands(all, from + |a|, c)
  {
    forall k | 0 <= k < |c|
      ensures c[k] == all[from + |a| + k]
    {
      assert c[k] == es[|a| + k];
    }
  }

  /** The subtree at the end of a path is a contiguous part of the in-order sequence. */
  lemma {:induction false} Part<V>(t: Tree<V>, path: seq<Frame>)
    requires OnPath(t, path)
    ensures Stands(Entries(t), Before(t, path), Entries(At(t, path)))
    decreases |path|
  {
    if path == [] {
    } else {
      var up, i := path[..|path| - 1], path[|path| - 1].child;
      var ts := At(t, up).children;
      Part(t, up);
      FlattenAt(ts, i);
      StandsWithin(Entries(t), Before(t, up), Flatten(ts), Flatten(ts[..i]), Entries(ts[i]), Flatten(ts[i + 1..]));
    }
  }

  /** Every subtree on a path is balanced, and in the store if the whole tree is. */
  lemma {:induction false} AtSound<V>(nodes: map<NodeId, Node<V>>, t: Tree<V>, path: seq<Frame>, h: nat, order: nat)
    requires order >= 3 && Balanced(t, h, order, RootMin(h)) && Rep(nodes, t) && OnPath(t, path)
    ensures |path| < h && Rep(nodes, At(t, path))
    ensures Balanced(At(t, path), h - |path|, order, if path == [] then RootMin(h) else MinKeys(order))
    decreases |path|
  {
    if path == [] {
    } else {
      AtSound(nodes, t, path[..|path| - 1], h, order);
    }
  }

  /** The subtrees on a path contain the one at its end. */
  lemma {:induction false} Nested<V>(t: Tree<V>, path: seq<Frame>, n: nat)
    requires OnPath(t, path) && n <= |path|
    ensures OnPath(t, path[..n])
    ensures IdBag(At(t, path)) <= IdBag(At(t, path[..n]))
    ensures Before(t, path[..n]) <= Before(t, path)
    ensures Before(t, path) + |Entries(At(t, path))| <= Before(t, path[..n]) + |Entries(At(t, path[..n]))|
    decreases |path|
  {
    if n == |path| {
      assert path[..n] == path;
    } else {
      var up, i := path[..|path| - 1], path[|path| - 1].child;
      assert up[..n] == path[..n];
      Nested(t, up, n);
      var ts := At(t, up).children;
      BagsMember(ts, i);
      FlattenAt(ts, i);
    }
  }

  /** A position: the end of a path is a leaf, and the index one of its entries. */
  ghost predicate Position<V>(t: Tree<V>, path: seq<Frame>, leaf: NodeId, idx: nat) {
    OnPath(t, path) && IsEntry(At(t, path), leaf, idx)
  }

  ghost predicate IsEntry<V>(t: Tree<V>, leaf: NodeId, idx: nat) {
    match t
    case LeafT(id, keys, vals) => id == leaf && |keys| == |vals| && idx < |keys|
    case BranchT(_, _, _) => false
  }

  /** A position as an index of `Entries(t)`. */
  ghost function Rank<V>(t: Tree<V>, path: seq<Frame>, idx: nat): nat
    requires OnPath(t, path)
  {
    Before(t, path) + idx
  }

  lemma {:induction false} FirstDifference(p: seq<Frame>, q: seq<Frame>) returns (k: nat)
    requires |p| == |q| && p != q
    ensures k < |p| && p[..k] == q[..k] && p[k] != q[k]
    decreases |p|
  {
    var n := |p| - 1;
    if p[..n] == q[..n] {
      k := n;
      assert p == p[..n] + [p[n]] && q == q[..n] + [q[n]];
    } else {
      k := FirstDifference(p[..n], q[..n]);
      assert p[..n][..k] == p[..k] && q[..n][..k] == q[..k];
    }
  }

  /** Cut at any depth, a path is one that leads on by the frame at that depth. */
  lemma Fork<V>(t: Tree<V>, p: seq<Frame>, k: nat)
    requires OnPath(t, p) && k < |p|
    ensures Leads(t, p[..k], p[k]) && p[..k + 1] == p[..k] + [p[k]] && OnPath(t, p[..k + 1])
  {
    Nested(t, p, k + 1);
    assert p[..k + 1][..k] == p[..k];
  }

  /** The one further left ends wholly before the other. */
  lemma PartedOrder<V>(t: Tree<V>, p: seq<Frame>, q: seq<Frame>, k: nat)
    requires OnPath(t, p) && OnPath(t, q) && k < |p| && k < |q| && p[..k] == q[..k] && p[k].child < q[k].child
    ensures Before(t, p) + |Entries(At(t, p))| <= Before(t, q)
  {
    Fork(t, p, k);
    Fork(t, q, k);
    Down(t, p[..k], p[k]);
    Down(t, p[..k], q[k]);
    Nested(t, p, k + 1);
    Nested(t, q, k + 1);
    LeftOf(At(t, p[..k]).children, p[k].child, q[k].child);
  }

  lemma LeftOf<V>(ts: seq<Tree<V>>, a: nat, b: nat)
    requires a < b < |ts|
    ensures |Flatten(ts[..a])| + |Entries(ts[a])| <= |Flatten(ts[..b])|
  {
    OneMore(ts, a);
    FlattenPrefix(ts, a + 1, b);
  }

  /** They end in different nodes. */
  lemma PartedIds<V>(t: Tree<V>, p: seq<Frame>, q: seq<Frame>, k: nat, slots: set<NodeId>)
    requires OnPath(t, p) && OnPath(t, q) && k < |p| && k < |q| && p[..k] == q[..k] && p[k].child < q[k].child
    requires IdBag(t) <= multiset(slots)
    ensures At(t, p).id != At(t, q).id
  {
    Fork(t, p, k);
    Fork(t, q, k);
    Down(t, p[..k], p[k]);
    Down(t, p[..k], q[k]);
    IdInside(t, p, k + 1);
    IdInside(t, q, k + 1);
    BranchWithin(t, p[..k], slots);
    ChildrenApart(At(t, p[..k]).children, p[k].child, q[k].child, At(t, p).id, slots);
  }

  lemma IdInside<V>(t: Tree<V>, p: seq<Frame>, n: nat)
    requires OnPath(t, p) && n <= |p|
    ensures OnPath(t, p[..n]) && At(t, p).id in IdBag(At(t, p[..n]))
  {
    Nested(t, p, n);
    assert At(t, p).id in IdBag(At(t, p));
  }

  lemma BranchWithin<V>(t: Tree<V>, p: seq<Frame>, slots: set<NodeId>)
    requires OnPath(t, p) && At(t, p).BranchT? && IdBag(t) <= multiset(slots)
    ensures Bags(At(t, p).children) <= multiset(slots)
  {
    Nested(t, p, 0);
    assert p[..0] == [];
    assert Bags(At(t, p).children) <= IdBag(At(t, p));
  }

  lemma ChildrenApart<V>(ts: seq<Tree<V>>, a: nat, b: nat, id: NodeId, slots: set<NodeId>)
    requires a < b < |ts| && Bags(ts) <= multiset(slots)
    ensures !(id in IdBag(ts[a]) && id in IdBag(ts[b]))
  {
    var rest := ts[a + 1..];
    BagsAt(ts, a);
    LaterChild(ts, a, b);
    OnceOnly(Bags(ts[..a]), IdBag(ts[a]), Bags(rest), IdBag(ts[b]), Bags(ts), id, slots);
  }

  lemma LaterChild<V>(ts: seq<Tree<V>>, a: nat, b: nat)
    requires a < b < |ts|
    ensures IdBag(ts[b]) <= Bags(ts[a + 1..])
  {
    var rest := ts[a + 1..];
    assert rest[b - a - 1] == ts[b];
    BagsMember(rest, b - a - 1);
  }

  lemma OnceOnly(x: multiset<NodeId>, y: multiset<NodeId>, z: multiset<NodeId>, w: multiset<NodeId>,
                 all: multiset<NodeId>, id: NodeId, slots: set<NodeId>)
    requires all == x + y + z && all <= multiset(slots) && w <= z
    ensures !(id in y && id in w)
  {
    assert all[id] <= multiset(slots)[id] <= 1;
    assert all[id] == x[id] + y[id] + z[id];
  }

  /**
    Two positions are the same exactly when they are in the same leaf at the same index, and exactly when their
    ranks agree.
   */
  lemma PositionUnique<V>(nodes: map<NodeId, Node<V>>, t: Tree<V>, h: nat, order: nat,
                          p: seq<Frame>, l: NodeId, i: nat, q: seq<Frame>, m: NodeId, j: nat)
    requires order >= 3 && Balanced(t, h, order, RootMin(h)) && Rep(nodes, t) && IdBag(t) <= multiset(nodes.Keys)
    requires Position(t, p, l, i) && Position(t, q, m, j)
    ensures Rank(t, p, i) == Rank(t, q, j) <==> l == m && i == j
    ensures Rank(t, p, i) == Rank(t, q, j) ==> p == q
  {
    AtSound(nodes, t, p, h, order);
    AtSound(nodes, t, q, h, order);
    assert |p| == |q| == h - 1;
    if p != q {
      var k := FirstDifference(p, q);
      SameNode(t, p, q, k);
      if p[k].child < q[k].child {
        PartedOrder(t, p, q, k);
        PartedIds(t, p, q, k, nodes.Keys);
      } else {
        PartedOrder(t, q, p, k);
        PartedIds(t, q, p, k, nodes.Keys);
      }
    }
  }

  lemma SameNode<V>(t: Tree<V>, p: seq<Frame>, q: seq<Frame>, k: nat)
    requires OnPath(t, p) && OnPath(t, q) && k < |p| && k < |q| && p[..k] == q[..k]
    ensures p[k].node == q[k].node
  {
    Fork(t, p, k);
    Fork(t, q, k);
  }
}
