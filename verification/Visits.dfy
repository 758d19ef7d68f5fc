/** How often a walk has entered one given internal node: the counts of `Paths` and `Steps`, for a single id. */
module Visits {
  import opened Nodes
  import opened Trees
  import opened Paths
  import opened Steps

  function One(b: bool): nat {
    if b then 1 else 0
  }

  /** How many internal nodes of a tree have the id `x`. */
  ghost function Times<V>(t: Tree<V>, x: NodeId): nat
    decreases t
  {
    match t
    case LeafT(_, _, _) => 0
    case BranchT(id, _, children) => One(id == x) + ForestTimes(children, x)
  }

  ghost function ForestTimes<V>(ts: seq<Tree<V>>, x: NodeId): nat
    decreases ts
  {
    if ts == [] then 0 else Times(ts[0], x) + ForestTimes(ts[1..], x)
  }

  /** How often `x` is on a path. */
  ghost function On(path: seq<Frame>, x: NodeId): nat
    decreases |path|
  {
    if path == [] then 0 else On(path[..|path| - 1], x) + One(path[|path| - 1].node == x)
  }

  /** How often a forward walk has entered `x` when it is at the end of a path. */
  ghost function EnteredAt<V>(t: Tree<V>, path: seq<Frame>, x: NodeId): nat
    requires OnPath(t, path)
    decreases |path|
  {
    if path == [] then 0
    else
      var up, f := path[..|path| - 1], path[|path| - 1];
      EnteredAt(t, up, x) + One(f.node == x) + ForestTimes(At(t, up).children[..f.child], x)
  }

  /** How often it has entered `x` when it leaves the subtree at the end of the path. */
  ghost function CoveredAt<V>(t: Tree<V>, path: seq<Frame>, x: NodeId): nat
    requires OnPath(t, path)
  {
    EnteredAt(t, path, x) + Times(At(t, path), x)
  }

  lemma {:induction false} ForestTimesConcat<V>(a: seq<Tree<V>>, b: seq<Tree<V>>, x: NodeId)
    ensures ForestTimes(a + b, x) == ForestTimes(a, x) + ForestTimes(b, x)
  {
    if a == [] {
      assert a + b == b;
    } else {
      var c := a + b;
      assert c[0] == a[0] && c[1..] == a[1..] + b;
      ForestTimesConcat(a[1..], b, x);
      assert ForestTimes(c, x) == Times(c[0], x) + ForestTimes(c[1..], x);
    }
  }

  lemma OneMoreTimes<V>(ts: seq<Tree<V>>, i: nat, x: NodeId)
    requires i < |ts|
    ensures ForestTimes(ts[..i + 1], x) == ForestTimes(ts[..i], x) + Times(ts[i], x)
  {
    assert ts[..i + 1] == ts[..i] + [ts[i]];
    ForestTimesConcat(ts[..i], [ts[i]], x);
    assert ForestTimes([ts[i]], x) == Times(ts[i], x);
  }

  // ---- One step ----

  lemma DownAt<V>(t: Tree<V>, up: seq<Frame>, f: Frame, x: NodeId)
    requires Leads(t, up, f)
    ensures var path := up + [f];
            && OnPath(t, path) && At(t, path) == At(t, up).children[f.child]
            && On(path, x) == On(up, x) + One(f.node == x)
            && EnteredAt(t, path, x)
               == EnteredAt(t, up, x) + One(f.node == x) + ForestTimes(At(t, up).children[..f.child], x)
  {
    var path := up + [f];
    assert path[..|path| - 1] == up && path[|path| - 1] == f;
  }

  /** Entering a first child enters its parent, and nothing else. */
  lemma FirstChildAt<V>(t: Tree<V>, up: seq<Frame>, f: Frame, x: NodeId)
    requires Leads(t, up, f) && f.child == 0
    ensures var path := up + [f];
            && OnPath(t, path) && On(path, x) == On(up, x) + One(f.node == x)
            && EnteredAt(t, path, x) == EnteredAt(t, up, x) + One(f.node == x)
  {
    DownAt(t, up, f, x);
    assert At(t, up).children[..0] == [];
  }

  /** Leaving a last child leaves its parent. */
  lemma LastChildAt<V>(t: Tree<V>, up: seq<Frame>, f: Frame, x: NodeId)
    requires Leads(t, up, f) && f.child + 1 == |At(t, up).children|
    ensures var path := up + [f];
            && OnPath(t, path) && On(path, x) == On(up, x) + One(f.node == x)
            && CoveredAt(t, path, x) == CoveredAt(t, up, x)
  {
    var ts := At(t, up).children;
    DownAt(t, up, f, x);
    OneMoreTimes(ts, f.child, x);
    assert ts[..f.child + 1] == ts;
  }

  /** Entering a child is leaving the one before it. */
  lemma NextChildAt<V>(t: Tree<V>, up: seq<Frame>, f: Frame, x: NodeId)
    requires Leads(t, up, f) && f.child + 1 < |At(t, up).children|
    ensures var path, next := up + [f], up + [Frame(f.node, f.child + 1)];
            && OnPath(t, path) && OnPath(t, next) && On(next, x) == On(path, x)
            && EnteredAt(t, next, x) == CoveredAt(t, path, x)
  {
    DownAt(t, up, f, x);
    DownAt(t, up, Frame(f.node, f.child + 1), x);
    OneMoreTimes(At(t, up).children, f.child, x);
  }

  // ---- Both ends of a walk ----

  lemma {:induction false} TimesBound<V>(t: Tree<V>, x: NodeId)
    ensures Times(t, x) <= BranchCount(t)
    decreases t, 1
  {
    match t
    case LeafT(_, _, _) =>
    case BranchT(_, _, children) => ForestTimesBound(children, x);
  }

  lemma {:induction false} ForestTimesBound<V>(ts: seq<Tree<V>>, x: NodeId)
    ensures ForestTimes(ts, x) <= Branches(ts)
    decreases ts, 0
  {
    if ts == [] {
    } else {
      TimesBound(ts[0], x);
      ForestTimesBound(ts[1..], x);
    }
  }

  /** Of the nodes entered besides those on the path, and of those not covered yet, `x` is at most as many as there are. */
  lemma {:induction false} WalkEnds<V>(t: Tree<V>, path: seq<Frame>, x: NodeId)
    requires OnPath(t, path)
    ensures 0 <= EnteredAt(t, path, x) - On(path, x) <= Entered(t, path) - |path|
    ensures 0 <= Times(t, x) - CoveredAt(t, path, x) <= BranchCount(t) - Covered(t, path)
    decreases |path|
  {
    if path == [] {
    } else {
      var up, f := path[..|path| - 1], path[|path| - 1];
      var ts := At(t, up).children;
      WalkEnds(t, up, x);
      ForestTimesBound(ts[..f.child], x);
      OthersTimes(ts, f.child, x);
    }
  }

  lemma OthersTimes<V>(ts: seq<Tree<V>>, i: nat, x: NodeId)
    requires i < |ts|
    ensures 0 <= ForestTimes(ts, x) - ForestTimes(ts[..i], x) - Times(ts[i], x)
              <= Branches(ts) - Branches(ts[..i]) - BranchCount(ts[i])
  {
    assert ts == ts[..i + 1] + ts[i + 1..];
    OneMoreTimes(ts, i, x);
    OneMore(ts, i);
    ForestTimesConcat(ts[..i + 1], ts[i + 1..], x);
    BranchesConcat(ts[..i + 1], ts[i + 1..]);
    ForestTimesBound(ts[i + 1..], x);
  }

  // ---- In an index every internal node is one ----

  lemma {:induction false} TimesInBag<V>(nodes: map<NodeId, Node<V>>, t: Tree<V>, x: NodeId)
    requires Rep(nodes, t)
    ensures Times(t, x) == if x in nodes && nodes[x].Internal? then IdBag(t)[x] else 0
    decreases t, 1
  {
    match t
    case LeafT(_, _, _) =>
    case BranchT(_, _, children) => ForestTimesInBag(nodes, children, x);
  }

  lemma {:induction false} ForestTimesInBag<V>(nodes: map<NodeId, Node<V>>, ts: seq<Tree<V>>, x: NodeId)
    requires RepAll(nodes, ts)
    ensures ForestTimes(ts, x) == if x in nodes && nodes[x].Internal? then Bags(ts)[x] else 0
    decreases ts, 0
  {
    if ts == [] {
    } else {
      TimesInBag(nodes, ts[0], x);
      ForestTimesInBag(nodes, ts[1..], x);
    }
  }

  /** An internal node occurs once in its index, anything else not at all. */
  lemma TimesOnce<V>(nodes: map<NodeId, Node<V>>, t: Tree<V>, h: nat, order: nat, x: NodeId)
    requires order >= 3 && IsIndex(nodes, t, h, order)
    ensures Times(t, x) == One(x in nodes && nodes[x].Internal?)
  {
    TimesInBag(nodes, t, x);
    assert multiset(nodes.Keys)[x] == One(x in nodes);
  }
}
