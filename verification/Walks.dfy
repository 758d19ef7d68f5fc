/** What whole scans cost, in frames pushed on and popped off a cursor's path. */
module Walks {
  import opened SortedEntries
  import opened Store
  import opened Nodes
  import opened Trees
  import opened Paths
  import opened Steps
  import opened Visits
  import opened Cursors

  /** A tree has fewer internal nodes than entries. */
  lemma FewBranches<V>(t: Tree<V>, h: nat, order: nat)
    requires order >= 3 && Balanced(t, h, order, RootMin(h))
    ensures BranchCount(t) <= |Entries(t)|
  {
    if t.BranchT? { BranchesBound(t, h, order, 1); }
  }

  /** At an entry, what a walk has entered is what it has covered. */
  lemma AtLeaf<V>(c: Cursor<V>)
    requires c.AtEntry()
    ensures Covered(c.tree, c.path) == c.Passed() && CoveredAt(c.tree, c.path, c.watched) == c.Met()
    ensures 0 <= c.Met() - On(c.path, c.watched) <= c.Passed() - |c.path|
    ensures 0 <= Times(c.tree, c.watched) - c.Met() <= BranchCount(c.tree) - c.Passed()
  {
    WalkEnds(c.tree, c.path, c.watched);
  }

  /** A forward scan is at an entry, and has yielded those before it. */
  ghost predicate Ongoing<V>(c: Cursor<V>, out: seq<Entry<V>>)
    reads c
  {
    c.AtEntry() && c.Rank() == |out| && c.Passed() == c.pushed && c.Met() == c.seen && out <= Entries(c.tree)
  }

  /** A forward scan is over. */
  ghost predicate Over<V>(c: Cursor<V>, out: seq<Entry<V>>)
    reads c
  {
    c.Counted() && c.path == [] && c.pushed == BranchCount(c.tree) && c.seen == Times(c.tree, c.watched)
    && out == Entries(c.tree)
  }

  method TakeForward<V>(c: Cursor<V>, out: seq<Entry<V>>) returns (grown: seq<Entry<V>>, moved: bool)
    requires c.Valid() && Ongoing(c, out)
    modifies c
    ensures c.watched == old(c.watched) && |grown| == |out| + 1
    ensures if moved then Ongoing(c, grown) else Over(c, grown)
  {
    AtLeaf(c);
    grown := out + [c.Current()];
    moved := c.StepForward();
  }

  /**
    A full forward scan yields all entries in order. It pushes the frame of every internal node `x` exactly once and
    pops it exactly once, and no other frames.
   */
  method ScanForward<V>(store: InMemoryStore<V>, root: NodeId, ghost x: NodeId,
                        ghost tree: Tree<V>, ghost height: nat, ghost order: nat)
    returns (out: seq<Entry<V>>, ghost pushes: nat, ghost pops: nat, ghost pushesOfX: nat, ghost popsOfX: nat)
    requires order >= 3 && store.Valid() && IsIndex(store.nodes, tree, height, order) && root == tree.id
    ensures out == Entries(tree)
    ensures pushes == pops == BranchCount(tree) <= |out|
    ensures pushesOfX == popsOfX == One(x in store.nodes && store.nodes[x].Internal?)
  {
    out, pushes, pops, pushesOfX, popsOfX := [], 0, 0, 0, 0;
    FewBranches(tree, height, order);
    TimesOnce(store.nodes, tree, height, order, x);
    TimesBound(tree, x);
    var start := Cursor.First(store, root, tree, height, order);
    if start.None? {
      return;
    }
    var c := start.value;
    c.Loaded();
    c.Watch(x);
    AtLeaf(c);
    var moved := true;
    while moved
      invariant fresh(c) && c.Subject() == (store, tree, height, order) && c.watched == x
      invariant if moved then Ongoing(c, out) else Over(c, out)
      invariant |out| <= |Entries(tree)|
      decreases |Entries(tree)| - |out|, moved
    {
      out, moved := TakeForward(c, out);
    }
    pushes, pops, pushesOfX, popsOfX := c.pushed, c.popped, c.seen, c.left;
  }

  /** `out` lists the last entries of `es`, backwards. */
  ghost predicate Backwards<V>(out: seq<Entry<V>>, es: seq<Entry<V>>) {
    |out| <= |es| && forall k :: 0 <= k < |out| ==> out[k] == es[|es| - 1 - k]
  }

  /** A backward scan is at an entry, and has yielded those after it. */
  ghost predicate OngoingBack<V>(c: Cursor<V>, out: seq<Entry<V>>)
    reads c
  {
    && c.AtEntry() && |out| < |Entries(c.tree)| && c.Rank() == |Entries(c.tree)| - 1 - |out|
    && c.Passed() + c.pushed == BranchCount(c.tree) + c.height - 1
    && c.Met() + c.seen == Times(c.tree, c.watched) + On(c.path, c.watched)
    && Backwards(out, Entries(c.tree))
  }

  /** A backward scan is over. */
  ghost predicate OverBack<V>(c: Cursor<V>, out: seq<Entry<V>>)
    reads c
  {
    && c.Counted() && c.path == [] && c.pushed == BranchCount(c.tree) && c.seen == Times(c.tree, c.watched)
    && |out| == |Entries(c.tree)| && Backwards(out, Entries(c.tree))
  }

  method TakeBackward<V>(c: Cursor<V>, out: seq<Entry<V>>) returns (grown: seq<Entry<V>>, moved: bool)
    requires c.Valid() && OngoingBack(c, out)
    modifies c
    ensures c.watched == old(c.watched) && |grown| == |out| + 1
    ensures if moved then OngoingBack(c, grown) else OverBack(c, grown)
  {
    c.Loaded();
    AtLeaf(c);
    grown := out + [c.Current()];
    moved := c.StepBackward();
  }

  /** The same for a backward scan, in reverse order. */
  method ScanBackward<V>(store: InMemoryStore<V>, root: NodeId, ghost x: NodeId,
                         ghost tree: Tree<V>, ghost height: nat, ghost order: nat)
    returns (out: seq<Entry<V>>, ghost pushes: nat, ghost pops: nat, ghost pushesOfX: nat, ghost popsOfX: nat)
    requires order >= 3 && store.Valid() && IsIndex(store.nodes, tree, height, order) && root == tree.id
    ensures |out| == |Entries(tree)| && Backwards(out, Entries(tree))
    ensures pushes == pops == BranchCount(tree) <= |out|
    ensures pushesOfX == popsOfX == One(x in store.nodes && store.nodes[x].Internal?)
  {
    out, pushes, pops, pushesOfX, popsOfX := [], 0, 0, 0, 0;
    FewBranches(tree, height, order);
    TimesOnce(store.nodes, tree, height, order, x);
    TimesBound(tree, x);
    var start := Cursor.Last(store, root, tree, height, order);
    if start.None? {
      return;
    }
    var c := start.value;
    c.Loaded();
    c.Watch(x);
    AtLeaf(c);
    var moved := true;
    while moved
      invariant fresh(c) && c.Subject() == (store, tree, height, order) && c.watched == x
      invariant if moved then OngoingBack(c, out) else OverBack(c, out)
      invariant |out| <= |Entries(tree)|
      decreases |Entries(tree)| - |out|, moved
    {
      out, moved := TakeBackward(c, out);
    }
    pushes, pops, pushesOfX, popsOfX := c.pushed, c.popped, c.seen, c.left;
  }

  /** A step and a step the other way lead back to the same place, path and all. */
  method ForthAndBack<V>(c: Cursor<V>) returns (moved: bool)
    requires c.Valid()
    modifies c
    ensures moved <==> old(c.Rank()) + 1 < |Entries(c.tree)|
    ensures moved ==> c.path == old(c.path) && c.leaf == old(c.leaf) && c.idx == old(c.idx)
  {
    ghost var path, leaf, idx := c.path, c.leaf, c.idx;
    moved := c.StepForward();
    if moved {
      var back := c.StepBackward();
      PositionUnique(c.store.nodes, c.tree, c.height, c.order, path, leaf, idx, c.path, c.leaf, c.idx);
    }
  }

  method BackAndForth<V>(c: Cursor<V>) returns (moved: bool)
    requires c.Valid()
    modifies c
    ensures moved <==> old(c.Rank()) > 0
    ensures moved ==> c.path == old(c.path) && c.leaf == old(c.leaf) && c.idx == old(c.idx)
  {
    ghost var path, leaf, idx := c.path, c.leaf, c.idx;
    c.Loaded();
    moved := c.StepBackward();
    if moved {
      var forth := c.StepForward();
      PositionUnique(c.store.nodes, c.tree, c.height, c.order, path, leaf, idx, c.path, c.leaf, c.idx);
    }
  }
}
