/** Cursors (src/iter.rs:25-276): what each of their moves does to their rank, an index of the in-order sequence. */
module Cursors {
  import opened Wrappers
  import opened SortedEntries
  import opened Nodes
  import opened Store
  import opened Trees
  import opened Paths
  import opened Steps
  import opened Visits
  import opened Seeks

  /**
    The path leads to a leaf that `Surrounds` the probe: what precedes it in the sequence is smaller, what follows
    is larger.
   */
  method DescendTo<V>(store: InMemoryStore<V>, root: NodeId, probe: Key,
                      ghost tree: Tree<V>, ghost height: nat, ghost order: nat)
    returns (path: seq<Frame>, leaf: NodeId)
    requires order >= 3 && store.Valid() && IsIndex(store.nodes, tree, height, order) && root == tree.id
    ensures Reached(tree, path, leaf) && At(tree, path).LeafT? && Surrounds(tree, path, probe)
    ensures AscendingKeys(At(tree, path).keys)
  {
    path := [];
    var id := root;
    ghost var lo: Option<Key>, hi: Option<Key> := None, None;
    while true
      invariant Reached(tree, path, id) && Surrounds(tree, path, probe)
      invariant Ordered(At(tree, path), lo, hi) && AtLeast(lo, probe) && Below(probe, hi)
      decreases height - |path|
    {
      Here(store.nodes, tree, height, order, path, id);
      match store.Get(id)
      case Internal(keys, children) =>
        StepTo(tree, path, lo, hi, probe);
        var i := ChildIndex(keys, probe);
        lo, hi := LoAt(keys, lo, i), HiAt(keys, hi, i);
        path, id := path + [Frame(id, i)], children[i];
      case Leaf(_, _) => return path, id;
    }
  }

  /** Extend a path by first children down to a leaf. The frames added are the internal nodes that this enters. */
  method LeftEdge<V>(store: InMemoryStore<V>, start: seq<Frame>, node: NodeId, ghost x: NodeId,
                     ghost tree: Tree<V>, ghost height: nat, ghost order: nat)
    returns (path: seq<Frame>, leaf: NodeId)
    requires order >= 3 && store.Valid() && IsIndex(store.nodes, tree, height, order) && Reached(tree, start, node)
    ensures Reached(tree, path, leaf) && At(tree, path).LeafT? && |path| >= |start| && On(path, x) >= On(start, x)
    ensures Before(tree, path) == Before(tree, start)
    ensures Entered(tree, path) - Entered(tree, start) == |path| - |start|
    ensures EnteredAt(tree, path, x) - EnteredAt(tree, start, x) == On(path, x) - On(start, x)
  {
    path := start;
    var id := node;
    while true
      invariant Reached(tree, path, id) && |path| >= |start| && On(path, x) >= On(start, x)
      invariant Before(tree, path) == Before(tree, start)
      invariant Entered(tree, path) - Entered(tree, start) == |path| - |start|
      invariant EnteredAt(tree, path, x) - EnteredAt(tree, start, x) == On(path, x) - On(start, x)
      decreases height - |path|
    {
      Here(store.nodes, tree, height, order, path, id);
      match store.Get(id)
      case Internal(_, children) =>
        FirstChild(tree, path, Frame(id, 0));
        FirstChildAt(tree, path, Frame(id, 0), x);
        path, id := path + [Frame(id, 0)], children[0];
      case Leaf(_, _) => return path, id;
    }
  }

  /** Extend a path by last children down to a leaf, which ends where the start ends. */
  method RightEdge<V>(store: InMemoryStore<V>, start: seq<Frame>, node: NodeId, ghost x: NodeId,
                      ghost tree: Tree<V>, ghost height: nat, ghost order: nat)
    returns (path: seq<Frame>, leaf: NodeId)
    requires order >= 3 && store.Valid() && IsIndex(store.nodes, tree, height, order) && Reached(tree, start, node)
    ensures Reached(tree, path, leaf) && At(tree, path).LeafT? && |path| >= |start| && On(path, x) >= On(start, x)
    ensures Ended(tree, path) == Ended(tree, start) && Covered(tree, path) == Covered(tree, start)
    ensures CoveredAt(tree, path, x) == CoveredAt(tree, start, x)
  {
    path := start;
    var id := node;
    while true
      invariant Reached(tree, path, id) && |path| >= |start| && On(path, x) >= On(start, x)
      invariant Ended(tree, path) == Ended(tree, start) && Covered(tree, path) == Covered(tree, start)
      invariant CoveredAt(tree, path, x) == CoveredAt(tree, start, x)
      decreases height - |path|
    {
      Here(store.nodes, tree, height, order, path, id);
      match store.Get(id)
      case Internal(_, children) =>
        var last := Frame(id, |children| - 1);
        LastChild(tree, path, last);
        LastChildAt(tree, path, last, x);
        path, id := path + [last], children[|children| - 1];
      case Leaf(_, _) => return path, id;
    }
  }

  /** Climb to the subtree that begins where the one at `path` ends, unless that is the end of the tree. */
  method TurnRight<V>(store: InMemoryStore<V>, path: seq<Frame>, ghost x: NodeId,
                      ghost tree: Tree<V>, ghost height: nat, ghost order: nat)
    returns (turned: bool, next: seq<Frame>, node: NodeId)
    requires order >= 3 && store.Valid() && IsIndex(store.nodes, tree, height, order) && OnPath(tree, path)
    ensures |next| <= |path| && On(next, x) <= On(path, x) && turned == (next != [])
    ensures turned ==> Reached(tree, next, node) && Before(tree, next) == Ended(tree, path)
    ensures turned ==> Entered(tree, next) == Covered(tree, path) && EnteredAt(tree, next, x) == CoveredAt(tree, path, x)
    ensures !turned ==> Ended(tree, path) == |Entries(tree)| && Covered(tree, path) == BranchCount(tree)
  {
    var up := path;
    while up != []
      invariant OnPath(tree, up) && |up| <= |path| && On(up, x) <= On(path, x)
      invariant Ended(tree, up) == Ended(tree, path) && Covered(tree, up) == Covered(tree, path)
      invariant CoveredAt(tree, up, x) == CoveredAt(tree, path, x)
      decreases |up|
    {
      var rest, frame := up[..|up| - 1], up[|up| - 1];
      LastFrame(tree, up);
      Here(store.nodes, tree, height, order, rest, frame.node);
      var siblings := store.Get(frame.node).children;
      if frame.child + 1 < |siblings| {
        NextChild(tree, rest, frame);
        NextChildAt(tree, rest, frame, x);
        return true, rest + [Frame(frame.node, frame.child + 1)], siblings[frame.child + 1];
      }
      LastChild(tree, rest, frame);
      LastChildAt(tree, rest, frame, x);
      up := rest;
    }
    return false, [], 0;
  }

  /** Climb to the subtree that ends where the one at `path` begins, unless that is the beginning of the tree. */
  method TurnLeft<V>(store: InMemoryStore<V>, path: seq<Frame>, ghost x: NodeId,
                     ghost tree: Tree<V>, ghost height: nat, ghost order: nat)
    returns (turned: bool, next: seq<Frame>, node: NodeId)
    requires order >= 3 && store.Valid() && IsIndex(store.nodes, tree, height, order) && OnPath(tree, path)
    ensures |next| <= |path| && On(next, x) <= On(path, x) && turned == (next != [])
    ensures turned ==> Reached(tree, next, node) && Ended(tree, next) == Before(tree, path)
    ensures turned ==> Covered(tree, next) + |path| - |next| == Entered(tree, path)
    ensures turned ==> CoveredAt(tree, next, x) + On(path, x) - On(next, x) == EnteredAt(tree, path, x)
    ensures !turned ==> Before(tree, path) == 0 && Entered(tree, path) == |path|
  {
    var up := path;
    while up != []
      invariant OnPath(tree, up) && |up| <= |path| && On(up, x) <= On(path, x)
      invariant Before(tree, up) == Before(tree, path) && Entered(tree, up) + |path| - |up| == Entered(tree, path)
      invariant EnteredAt(tree, up, x) + On(path, x) - On(up, x) == EnteredAt(tree, path, x)
      decreases |up|
    {
      var rest, frame := up[..|up| - 1], up[|up| - 1];
      LastFrame(tree, up);
      Here(store.nodes, tree, height, order, rest, frame.node);
      var siblings := store.Get(frame.node).children;
      if frame.child > 0 {
        var previous := Frame(frame.node, frame.child - 1);
        NextChild(tree, rest, previous);
        NextChildAt(tree, rest, previous, x);
        return true, rest + [previous], siblings[frame.child - 1];
      }
      FirstChild(tree, rest, frame);
      FirstChildAt(tree, rest, frame, x);
      up := rest;
    }
    return false, [], 0;
  }

  class Cursor<V> {
    const store: InMemoryStore<V>
    // A path of the tree, as `OnPath` demands.
    var path: seq<Frame>
    var leaf: NodeId
    var idx: nat

    // The tree that is walked; it does not change while the cursor is in use.
    ghost const tree: Tree<V>
    ghost const height: nat
    ghost const order: nat
    // How often a frame was pushed on and popped off the path.
    ghost var pushed: nat
    ghost var popped: nat
    // One node of interest, and how often its frame was pushed and popped.
    ghost var watched: NodeId
    ghost var seen: nat
    ghost var left: nat

    /** The store holds the tree that is walked. No cursor method changes the store, so this carries over every step. */
    ghost predicate Intact()
      reads store
    {
      order >= 3 && store.Valid() && IsIndex(store.nodes, tree, height, order)
    }

    ghost predicate Counted()
      reads this
    {
      pushed == popped + |path| && seen == left + On(path, watched)
    }

    ghost predicate AtEntry()
      reads this
    {
      Position(tree, path, leaf, idx) && Counted()
    }

    /** The cursor is at an entry of its tree. */
    ghost predicate Valid()
      reads this, store
    {
      Intact() && AtEntry()
    }

    /** The index of the current entry in `Entries(tree)`. */
    ghost function Rank(): nat
      requires OnPath(tree, path)
      reads this
    {
      Paths.Rank(tree, path, idx)
    }

    /** How many internal nodes a forward walk from the first entry enters on its way here. */
    ghost function Passed(): nat
      requires OnPath(tree, path)
      reads this
    {
      Entered(tree, path)
    }

    /** How often it enters the watched node. */
    ghost function Met(): nat
      requires OnPath(tree, path)
      reads this
    {
      EnteredAt(tree, path, watched)
    }

    /** What the cursor walks. */
    ghost function Subject(): (InMemoryStore<V>, Tree<V>, nat, nat) {
      (store, tree, height, order)
    }

    constructor (store: InMemoryStore<V>, path: seq<Frame>, leaf: NodeId, idx: nat,
                 ghost tree: Tree<V>, ghost height: nat, ghost order: nat)
      requires order >= 3 && store.Valid() && IsIndex(store.nodes, tree, height, order)
      requires Position(tree, path, leaf, idx)
      ensures Valid() && this.path == path && this.leaf == leaf && this.idx == idx
      ensures Subject() == (store, tree, height, order)
      ensures pushed == |path| == height - 1
    {
      this.store, this.path, this.leaf, this.idx := store, path, leaf, idx;
      this.tree, this.height, this.order := tree, height, order;
      pushed, popped := |path|, 0;
      watched, seen, left := 0, On(path, 0), 0;
      new;
      Here(store.nodes, tree, height, order, path, leaf);
    }

    /** Watch another node, counting from the current path on. */
    ghost method Watch(x: NodeId)
      requires AtEntry()
      modifies `watched, `seen, `left
      ensures AtEntry() && watched == x && seen == On(path, x)
    {
      watched, seen, left := x, On(path, x), 0;
    }

    /** The current leaf is in the store, and the current entry in the sequence. */
    lemma Loaded()
      requires Valid()
      ensures leaf in store.nodes && store.nodes[leaf] == NodeOf(At(tree, path)) && |path| == height - 1
      ensures Rank() < |Entries(tree)|
      ensures Entries(tree)[Rank()] == Entry(At(tree, path).keys[idx], At(tree, path).vals[idx])
    {
      Here(store.nodes, tree, height, order, path, leaf);
      PositionEntry(tree, path, leaf, idx);
    }

    function Current(): (e: Entry<V>)
      requires Valid()
      reads this, store
      ensures Rank() < |Entries(tree)| && e == Entries(tree)[Rank()]
    {
      Loaded();
      Entry(store.Get(leaf).keys[idx], store.Get(leaf).vals[idx])
    }

    /** Leaf and index agree if and only if the ranks do. */
    predicate SamePosition(other: Cursor<V>)
      requires Valid() && other.Valid() && Subject() == other.Subject()
      reads this, other, store
      ensures SamePosition(other) <==> Rank() == other.Rank()
    {
      PositionUnique(store.nodes, tree, height, order, path, leaf, idx, other.path, other.leaf, other.idx);
      leaf == other.leaf && idx == other.idx
    }

    static method First(store: InMemoryStore<V>, root: NodeId, ghost tree: Tree<V>, ghost height: nat, ghost order: nat)
      returns (c: Option<Cursor<V>>)
      requires order >= 3 && store.Valid() && IsIndex(store.nodes, tree, height, order) && root == tree.id
      ensures c.None? <==> Entries(tree) == []
      ensures c.Some? ==> fresh(c.value) && c.value.Valid() && c.value.Subject() == (store, tree, height, order)
      ensures c.Some? ==> c.value.Rank() == 0 && c.value.Passed() == c.value.pushed == height - 1
    {
      var path, leaf := LeftEdge(store, [], root, 0, tree, height, order);
      Here(store.nodes, tree, height, order, path, leaf);
      if |store.Get(leaf).keys| == 0 {
        return None;
      }
      var cursor := new Cursor(store, path, leaf, 0, tree, height, order);
      cursor.Loaded();
      return Some(cursor);
    }

    static method Last(store: InMemoryStore<V>, root: NodeId, ghost tree: Tree<V>, ghost height: nat, ghost order: nat)
      returns (c: Option<Cursor<V>>)
      requires order >= 3 && store.Valid() && IsIndex(store.nodes, tree, height, order) && root == tree.id
      ensures c.None? <==> Entries(tree) == []
      ensures c.Some? ==> fresh(c.value) && c.value.Valid() && c.value.Subject() == (store, tree, height, order)
      ensures c.Some? ==> c.value.Rank() + 1 == |Entries(tree)| && c.value.Passed() == BranchCount(tree)
      ensures c.Some? ==> c.value.pushed == height - 1
    {
      var path, leaf := RightEdge(store, [], root, 0, tree, height, order);
      Here(store.nodes, tree, height, order, path, leaf);
      var keys := store.Get(leaf).keys;
      if |keys| == 0 {
        return None;
      }
      var cursor := new Cursor(store, path, leaf, |keys| - 1, tree, height, order);
      cursor.Loaded();
      return Some(cursor);
    }

    /** The rank of the cursor is the `LowerCut`; without a cursor the cut is the end of the sequence. */
    static method LowerBound(store: InMemoryStore<V>, root: NodeId, bound: Bound,
                             ghost tree: Tree<V>, ghost height: nat, ghost order: nat)
      returns (c: Option<Cursor<V>>)
      requires order >= 3 && store.Valid() && IsIndex(store.nodes, tree, height, order) && root == tree.id
      ensures c.Some? ==> fresh(c.value) && c.value.Valid() && c.value.Subject() == (store, tree, height, order)
      ensures LowerCut(Entries(tree), bound, if c.Some? then c.value.Rank() else |Entries(tree)|)
      ensures c.Some? ==> c.value.Rank() < |Entries(tree)| && c.value.pushed < 2 * height
      ensures bound.Unbounded? && Entries(tree) != [] ==> c.Some? && c.value.Rank() == 0
    {
      if bound.Unbounded? {
        c := First(store, root, tree, height, order);
        return;
      }
      var path, leaf := DescendTo(store, root, bound.key, tree, height, order);
      Here(store.nodes, tree, height, order, path, leaf);
      var keys := store.Get(leaf).keys;
      if |keys| == 0 {
        return None;
      }
      var found := BinarySearch(keys, bound.key);
      var idx := found.index + if found.Found? && bound.Excluded? then 1 else 0;
      LowerInLeaf(tree, path, bound, keys, found);
      c := AtOrAfter(store, path, leaf, idx, |keys|, tree, height, order);
    }

    /** The rank is that of index `idx` of the leaf, also when `idx` is its length; no cursor results exactly at the end. */
    static method AtOrAfter(store: InMemoryStore<V>, path: seq<Frame>, leaf: NodeId, idx: nat, n: nat,
                            ghost tree: Tree<V>, ghost height: nat, ghost order: nat)
      returns (c: Option<Cursor<V>>)
      requires order >= 3 && store.Valid() && IsIndex(store.nodes, tree, height, order)
      requires Reached(tree, path, leaf) && At(tree, path).LeafT? && n == |At(tree, path).keys| && idx <= n && n > 0
      ensures c.Some? ==> fresh(c.value) && c.value.Valid() && c.value.Subject() == (store, tree, height, order)
      ensures c.Some? ==> c.value.Rank() == Before(tree, path) + idx && c.value.pushed < 2 * height
      ensures c.Some? <==> Before(tree, path) + idx < |Entries(tree)|
    {
      Here(store.nodes, tree, height, order, path, leaf);
      var cursor := new Cursor(store, path, leaf, n - 1, tree, height, order);
      cursor.Loaded();
      if idx < n {
        cursor.idx := idx;
        cursor.Loaded();
      } else {
        var moved := cursor.StepForward();
        if !moved {
          return None;
        }
      }
      return Some(cursor);
    }

    /** One past the rank of the cursor is the `UpperCut`; without a cursor the cut is 0. */
    static method UpperBound(store: InMemoryStore<V>, root: NodeId, bound: Bound,
                             ghost tree: Tree<V>, ghost height: nat, ghost order: nat)
      returns (c: Option<Cursor<V>>)
      requires order >= 3 && store.Valid() && IsIndex(store.nodes, tree, height, order) && root == tree.id
      ensures c.Some? ==> fresh(c.value) && c.value.Valid() && c.value.Subject() == (store, tree, height, order)
      ensures UpperCut(Entries(tree), bound, if c.Some? then c.value.Rank() + 1 else 0)
      ensures c.Some? ==> c.value.pushed < 2 * height
      ensures bound.Unbounded? && Entries(tree) != [] ==> c.Some? && c.value.Rank() == |Entries(tree)| - 1
    {
      if bound.Unbounded? {
        c := Last(store, root, tree, height, order);
        return;
      }
      var path, leaf := DescendTo(store, root, bound.key, tree, height, order);
      Here(store.nodes, tree, height, order, path, leaf);
      var keys := store.Get(leaf).keys;
      if |keys| == 0 {
        return None;
      }
      var found := BinarySearch(keys, bound.key);
      var met := found.index + if found.Found? && bound.Included? then 1 else 0;
      UpperInLeaf(tree, path, bound, keys, found);
      c := JustBefore(store, path, leaf, met, tree, height, order);
    }

    /** The rank is one less than that of index `idx` of the leaf; no cursor results exactly when that is rank 0. */
    static method JustBefore(store: InMemoryStore<V>, path: seq<Frame>, leaf: NodeId, idx: nat,
                             ghost tree: Tree<V>, ghost height: nat, ghost order: nat)
      returns (c: Option<Cursor<V>>)
      requires order >= 3 && store.Valid() && IsIndex(store.nodes, tree, height, order)
      requires Reached(tree, path, leaf) && At(tree, path).LeafT? && idx <= |At(tree, path).keys| && At(tree, path).keys != []
      ensures c.Some? ==> fresh(c.value) && c.value.Valid() && c.value.Subject() == (store, tree, height, order)
      ensures c.Some? ==> c.value.Rank() + 1 == Before(tree, path) + idx && c.value.pushed < 2 * height
      ensures c.Some? <==> Before(tree, path) + idx > 0
    {
      Here(store.nodes, tree, height, order, path, leaf);
      var cursor := new Cursor(store, path, leaf, 0, tree, height, order);
      if idx > 0 {
        cursor.idx := idx - 1;
      } else {
        var moved := cursor.StepBackward();
        if !moved {
          return None;
        }
      }
      return Some(cursor);
    }

    /** The rank grows by one; at the greatest rank the answer is false and the path is used up. */
    method StepForward() returns (moved: bool)
      requires Valid()
      modifies this
      ensures Counted() && watched == old(watched) && moved == (old(Rank()) + 1 < |Entries(tree)|)
      ensures moved ==> AtEntry() && Rank() == old(Rank()) + 1 && pushed - old(pushed) == Passed() - old(Passed())
      ensures moved ==> seen - old(seen) == Met() - old(Met())
      ensures !moved ==> path == [] && leaf == old(leaf) && idx == old(idx) && pushed == old(pushed) && seen == old(seen)
      ensures !moved ==> old(Passed()) == BranchCount(tree)
      ensures pushed - old(pushed) < height
    {
      Loaded();
      if idx + 1 < KeysLen(store.Get(leaf)) {
        idx := idx + 1;
        Loaded();
        return true;
      }
      var node, next;
      moved, next, node := TurnRight(store, path, watched, tree, height, order);
      Cut(next);
      if moved {
        DescendLeftmost(node);
        Loaded();
      }
    }

    /** The rank falls by one; at rank 0 the answer is false and the path is used up. */
    method StepBackward() returns (moved: bool)
      requires Valid()
      modifies this
      ensures Counted() && watched == old(watched) && moved == (old(Rank()) > 0)
      ensures moved ==> AtEntry() && Rank() == old(Rank()) - 1 && pushed - old(pushed) == old(Passed()) - Passed()
      ensures moved ==> seen - old(seen) + Met() - On(path, watched) == old(Met()) - old(On(path, watched))
      ensures !moved ==> path == [] && leaf == old(leaf) && idx == old(idx) && pushed == old(pushed) && seen == old(seen)
      ensures !moved ==> old(Passed()) == height - 1
      ensures pushed - old(pushed) < height
    {
      Loaded();
      if idx > 0 {
        idx := idx - 1;
        return true;
      }
      var node, next;
      moved, next, node := TurnLeft(store, path, watched, tree, height, order);
      Cut(next);
      if moved {
        DescendRightmost(node);
      }
    }

    /** Replace the path by what is left of it after popping, with its last frame turned. */
    method Cut(next: seq<Frame>)
      requires Counted() && |next| <= |path| && On(next, watched) <= On(path, watched)
      modifies `path, `popped, `left
      ensures Counted() && path == next
    {
      popped, left := popped + |path| - |next|, left + On(path, watched) - On(next, watched);
      path := next;
    }

    /** From the node at the end of the path, go down to its first entry. */
    method DescendLeftmost(node: NodeId)
      requires Intact() && Counted() && Reached(tree, path, node) && path != []
      modifies this
      ensures AtEntry() && idx == 0 && watched == old(watched) && |path| == height - 1
      ensures Before(tree, path) == old(Before(tree, path))
      ensures Entered(tree, path) - old(Entered(tree, path)) == pushed - old(pushed) < height
      ensures Met() - old(Met()) == seen - old(seen)
    {
      ghost var depth, met := |path|, On(path, watched);
      path, leaf := LeftEdge(store, path, node, watched, tree, height, order);
      Here(store.nodes, tree, height, order, path, leaf);
      idx, pushed, seen := 0, pushed + |path| - depth, seen + On(path, watched) - met;
    }

    /** From the node at the end of the path, go down to its last entry. */
    method DescendRightmost(node: NodeId)
      requires Intact() && Counted() && Reached(tree, path, node) && path != []
      modifies this
      ensures AtEntry() && watched == old(watched) && |path| == height - 1
      ensures Rank() + 1 == old(Ended(tree, path)) && Entered(tree, path) == old(Covered(tree, path))
      ensures pushed - old(pushed) == |path| - |old(path)|
      ensures Met() == old(CoveredAt(tree, path, watched))
      ensures seen - old(seen) == On(path, watched) - old(On(path, watched))
    {
      ghost var depth, met := |path|, On(path, watched);
      path, leaf := RightEdge(store, path, node, watched, tree, height, order);
      Here(store.nodes, tree, height, order, path, leaf);
      idx, pushed, seen := KeysLen(store.Get(leaf)) - 1, pushed + |path| - depth, seen + On(path, watched) - met;
    }
  }
}
