/** Whole runs of an index against a finite map that is updated in lockstep. */
module Runs {
  import opened Wrappers
  import opened SortedEntries
  import opened Store
  import opened Bounds
  import opened Trees
  import opened BulkLoad
  import opened Determinism
  import opened Shapes
  import opened Seeks
  import opened Scans
  import opened PublicIndex

  datatype Op<V> =
    | Insert(key: Key, val: V)
    | Remove(key: Key)
    | Clear
    | Get(key: Key)
    | ContainsKey(key: Key)
    | Len
    | IsEmpty
    | Height
    | Iterate(ends: seq<End>)
    | Range(lower: Bound, upper: Bound, ends: seq<End>)

  datatype Reply<V> =
    | Done
    | Value(value: Option<V>)
    | Truth(truth: bool)
    | Number(number: nat)
    | Yielded(outs: seq<Option<Entry<V>>>)

  // How an index comes to be: empty, or from a sequence of entries.
  datatype Origin<V> = New | FromSorted(entries: seq<Entry<V>>)

  ghost function Initial<V>(origin: Origin<V>): map<Key, V> {
    match origin
    case New => map[]
    case FromSorted(entries) => ToMap(entries)
  }

  /** The one ascending sequence that has `m` as its map. */
  ghost function Listing<V>(m: map<Key, V>): (es: seq<Entry<V>>)
    ensures Ascending(es) && ToMap(es) == m
    decreases |m.Keys|
  {
    if exists k :: k in m then
      var k :| k in m;
      var rest := m - {k};
      assert rest.Keys == m.Keys - {k} && rest[k := m[k]] == m;
      PutMap(Listing(rest), k, m[k]);
      Put(Listing(rest), k, m[k])
    else []
  }

  /** What an operation does to the map. */
  ghost function After<V>(m: map<Key, V>, op: Op<V>): map<Key, V> {
    match op
    case Insert(k, v) => m[k := v]
    case Remove(k) => m - {k}
    case Clear => map[]
    case _ => m
  }

  /** The map after the first `n` operations of a run. */
  ghost function State<V>(m: map<Key, V>, ops: seq<Op<V>>, n: nat): map<Key, V>
    requires n <= |ops|
  {
    if n == 0 then m else After(State(m, ops, n - 1), ops[n - 1])
  }

  /** What an operation does to the shape of the tree, whatever its nodes are called. */
  ghost function Reshaped<V>(s: Tree<V>, order: nat, op: Op<V>): Tree<V>
    requires order >= 3
  {
    match op
    case Insert(k, v) => Inserted(s, k, v, order)
    case Remove(k) => Removed(s, k, MinKeys(order))
    case Clear => EmptyShape()
    case _ => s
  }

  /** The shape after the first `n` operations of a run. */
  ghost function Shape<V>(s: Tree<V>, order: nat, ops: seq<Op<V>>, n: nat): Tree<V>
    requires order >= 3 && n <= |ops|
  {
    if n == 0 then s else Reshaped(Shape(s, order, ops, n - 1), order, ops[n - 1])
  }

  /** What an operation must answer when the map is `m` and the shape of the tree `s`. */
  ghost predicate Answers<V>(m: map<Key, V>, s: Tree<V>, order: nat, op: Op<V>, reply: Reply<V>)
    requires order >= 3
  {
    match op
    case Insert(k, _) => reply == Value(Lookup(m, k))
    case Remove(k) => reply == Value(Lookup(m, k))
    case Clear => reply == Done
    case Get(k) => reply == Value(Lookup(m, k))
    case ContainsKey(k) => reply == Truth(k in m)
    case Len => reply == Number(|m|)
    case IsEmpty => reply == Truth(m == map[])
    case Height => reply == Number(Levels(s)) && HeightFits(order, Levels(s), |m|)
    case Iterate(ends) => reply == Yielded(Drawn(Listing(m), ends))
    case Range(lower, upper, ends) => reply == Yielded(Drawn(InRange(Listing(m), lower, upper), ends))
  }

  /** The heights that `n` entries allow. */
  ghost predicate HeightFits(order: nat, height: nat, n: nat)
    requires order >= 3
  {
    height >= 1 && n <= Most(order, height) && (height >= 2 ==> 2 * Least(order, height - 1) <= n)
  }

  /** Every reply of a run is what the map at that point demands. */
  ghost predicate Lockstep<V>(m: map<Key, V>, s: Tree<V>, order: nat, ops: seq<Op<V>>, replies: seq<Reply<V>>)
    requires order >= 3
  {
    |replies| == |ops| && Agrees(m, s, order, ops, replies)
  }

  ghost predicate AgreesAt<V>(m: map<Key, V>, s: Tree<V>, order: nat, ops: seq<Op<V>>, replies: seq<Reply<V>>, i: nat)
    requires order >= 3 && i < |replies| <= |ops|
  {
    Answers(State(m, ops, i), Shape(s, order, ops, i), order, ops[i], replies[i])
  }

  /** The replies so far are right. */
  ghost predicate Agrees<V>(m: map<Key, V>, s: Tree<V>, order: nat, ops: seq<Op<V>>, replies: seq<Reply<V>>)
    requires order >= 3 && |replies| <= |ops|
  {
    forall i :: 0 <= i < |replies| ==> AgreesAt(m, s, order, ops, replies, i)
  }

  /** No tree of one entry more than the map has can exhaust the 32-bit ids, where an operation adds an entry. */
  ghost predicate Roomy<V>(m: map<Key, V>, order: nat, op: Op<V>)
    requires order >= 3
  {
    op.Insert? && op.key !in m ==> NodeBound(|m| + 1, order) <= ID_LIMIT
  }

  ghost predicate Fits<V>(m: map<Key, V>, order: nat, ops: seq<Op<V>>)
    requires order >= 3
  {
    forall i :: 0 <= i < |ops| ==> Roomy(State(m, ops, i), order, ops[i])
  }

  /** The ids suffice for the first entries. */
  ghost predicate Startable<V>(origin: Origin<V>, order: nat)
    requires order >= 3
  {
    match origin
    case New => true
    case FromSorted(entries) =>
      if Ascending(entries) then LoadedNodes(|entries|, order) <= ID_LIMIT
      else NodeBound(|ToMap(entries)|, order) <= ID_LIMIT
  }

  /** An index lists the entries of its map. */
  lemma ContentsListing<V>(tree: BPlusTree<V>)
    requires tree.Valid()
    ensures tree.Contents() == Listing(tree.Map())
  {
    tree.OrderFacts();
    SameMapSameEntries(tree.Contents(), Listing(tree.Map()));
  }

  method Scan<V>(tree: BPlusTree<V>, whole: bool, lower: Bound, upper: Bound, ends: seq<End>)
    returns (outs: seq<Option<Entry<V>>>)
    requires tree.Valid()
    ensures outs == Drawn(if whole then tree.Contents() else InRange(tree.Contents(), lower, upper), ends)
  {
    if whole {
      var it := tree.Iterate();
      outs := Drive(it, ends);
    } else {
      var it := tree.Range(lower, upper);
      outs := Drive(it, ends);
    }
  }

  method AskHeight<V>(tree: BPlusTree<V>) returns (height: nat)
    requires tree.Valid()
    ensures height == Levels(Bare(tree.tree)) && HeightFits(tree.order, height, |tree.Map()|)
  {
    height := tree.Height();
    tree.OrderFacts();
    tree.ShapeFacts();
    LevelsOfBalanced(tree.tree, tree.levels, tree.order, RootMin(tree.levels));
  }

  /** A scan, by both ends of an iterator. */
  method AskScan<V>(tree: BPlusTree<V>, op: Op<V>) returns (reply: Reply<V>)
    requires tree.Valid() && (op.Iterate? || op.Range?)
    ensures Answers(tree.Map(), Bare(tree.tree), tree.order, op, reply)
  {
    ContentsListing(tree);
    var outs;
    if op.Iterate? {
      outs := Scan(tree, true, Unbounded, Unbounded, op.ends);
    } else {
      outs := Scan(tree, false, op.lower, op.upper, op.ends);
    }
    reply := Yielded(outs);
  }

  /** An operation that only reads. */
  method Ask<V>(tree: BPlusTree<V>, op: Op<V>) returns (reply: Reply<V>)
    requires tree.Valid() && !op.Insert? && !op.Remove? && !op.Clear?
    ensures Answers(tree.Map(), Bare(tree.tree), tree.order, op, reply)
  {
    match op
    case Get(k) =>
      var found := tree.Get(k);
      reply := Value(found);
    case ContainsKey(k) =>
      var present := tree.ContainsKey(k);
      reply := Truth(present);
    case Len => reply := Number(tree.Len());
    case IsEmpty => reply := Truth(tree.IsEmpty());
    case Height =>
      var height := AskHeight(tree);
      reply := Number(height);
    case _ =>
      reply := AskScan(tree, op);
  }

  /** An operation that changes the map. */
  method Change<V>(tree: BPlusTree<V>, op: Op<V>) returns (reply: Reply<V>)
    requires tree.Valid() && (op.Insert? || op.Remove? || op.Clear?) && Roomy(tree.Map(), tree.order, op)
    modifies tree, tree.store
    ensures tree.Valid() && tree.Map() == After(old(tree.Map()), op)
    ensures Bare(tree.tree) == Reshaped(old(Bare(tree.tree)), tree.order, op)
    ensures Answers(old(tree.Map()), old(Bare(tree.tree)), tree.order, op, reply)
  {
    match op
    case Insert(k, v) =>
      tree.OrderFacts();
      tree.RoomToGrow(k, v);
      var displaced := tree.Insert(k, v);
      reply := Value(displaced);
    case Remove(k) =>
      var removed := tree.Remove(k);
      reply := Value(removed);
    case Clear =>
      tree.Clear();
      reply := Done;
  }

  method Perform<V>(tree: BPlusTree<V>, op: Op<V>) returns (reply: Reply<V>)
    requires tree.Valid() && Roomy(tree.Map(), tree.order, op)
    modifies tree, tree.store
    ensures tree.Valid() && tree.Map() == After(old(tree.Map()), op)
    ensures Bare(tree.tree) == Reshaped(old(Bare(tree.tree)), tree.order, op)
    ensures Answers(old(tree.Map()), old(Bare(tree.tree)), tree.order, op, reply)
  {
    if op.Insert? || op.Remove? || op.Clear? {
      reply := Change(tree, op);
    } else {
      reply := Ask(tree, op);
    }
  }

  lemma AgreesStep<V>(m: map<Key, V>, s: Tree<V>, order: nat, ops: seq<Op<V>>, replies: seq<Reply<V>>, now: map<Key, V>,
                      shape: Tree<V>, op: Op<V>, reply: Reply<V>)
    requires order >= 3 && |replies| < |ops| && Agrees(m, s, order, ops, replies)
    requires now == State(m, ops, |replies|) && shape == Shape(s, order, ops, |replies|)
    requires op == ops[|replies|] && Answers(now, shape, order, op, reply)
    ensures Agrees(m, s, order, ops, replies + [reply])
    ensures State(m, ops, |replies| + 1) == After(now, op)
    ensures Shape(s, order, ops, |replies| + 1) == Reshaped(shape, order, op)
  {
    var more := replies + [reply];
    forall i | 0 <= i < |more|
      ensures AgreesAt(m, s, order, ops, more, i)
    {
      if i < |replies| {
        assert AgreesAt(m, s, order, ops, replies, i) && more[i] == replies[i];
      } else {
        assert more[i] == reply;
      }
    }
  }

  /** What a fresh index is like: its shape, or for a bulk load the number of parts of every node. */
  ghost predicate Fresh<V>(origin: Origin<V>, order: nat, t: Tree<V>, h: nat)
    requires order >= 3
  {
    match origin
    case New => Bare(t) == EmptyShape()
    case FromSorted(entries) =>
      if !Ascending(entries) then Bare(t) == Model(entries, order)
      else
        && Balanced(t, h, order, RootMin(h)) && Entries(t) == entries && Exact(t) && Filled([t], h, |entries|, order)
        && (h > 1 ==> |entries| > Most(order, h - 1))
  }

  lemma OneReply<V>(m: map<Key, V>, s: Tree<V>, order: nat, op: Op<V>, a: Reply<V>, b: Reply<V>)
    requires order >= 3 && Answers(m, s, order, op, a) && Answers(m, s, order, op, b)
    ensures a == b
  {
  }

  /** Origin, order and operations determine every reply, heights included: there is one possible history. */
  lemma OneHistory<V>(origin: Origin<V>, order: nat, ops: seq<Op<V>>, t: Tree<V>, h: nat, replies: seq<Reply<V>>,
                      u: Tree<V>, k: nat, others: seq<Reply<V>>)
    requires order >= 3 && Fresh(origin, order, t, h) && Fresh(origin, order, u, k)
    requires Lockstep(Initial(origin), Bare(t), order, ops, replies)
    requires Lockstep(Initial(origin), Bare(u), order, ops, others)
    ensures Bare(t) == Bare(u) && replies == others
  {
    if origin.FromSorted? && Ascending(origin.entries) {
      LoadUnique(t, h, u, k, origin.entries, order);
    }
    var m, s := Initial(origin), Bare(t);
    forall i | 0 <= i < |ops|
      ensures replies[i] == others[i]
    {
      assert AgreesAt(m, s, order, ops, replies, i) && AgreesAt(m, s, order, ops, others, i);
      OneReply(State(m, ops, i), Shape(s, order, ops, i), order, ops[i], replies[i], others[i]);
    }
  }

  method Create<V>(origin: Origin<V>, order: nat) returns (tree: BPlusTree<V>)
    requires Startable(origin, Clamped(order))
    ensures fresh(tree) && fresh(tree.store) && tree.Valid()
    ensures tree.order == Clamped(order) && tree.Map() == Initial(origin)
    ensures Fresh(origin, tree.order, tree.tree, tree.levels)
    ensures (order >= 3 ==> tree.order == order) && (order < 3 ==> tree.order == 3)
  {
    if origin.New? {
      tree := new BPlusTree.WithOrder(order);
    } else {
      tree := new BPlusTree.FromSorted(origin.entries, order);
    }
  }

  /** Perform the next operation of a run. */
  method Step<V>(tree: BPlusTree<V>, ghost m: map<Key, V>, ghost s: Tree<V>, ops: seq<Op<V>>, replies: seq<Reply<V>>)
    returns (more: seq<Reply<V>>)
    requires tree.Valid() && |replies| < |ops| && tree.Map() == State(m, ops, |replies|)
    requires Bare(tree.tree) == Shape(s, tree.order, ops, |replies|)
    requires Roomy(tree.Map(), tree.order, ops[|replies|]) && Agrees(m, s, tree.order, ops, replies)
    modifies tree, tree.store
    ensures |more| == |replies| + 1 && tree.Valid() && tree.Map() == State(m, ops, |more|)
    ensures Bare(tree.tree) == Shape(s, tree.order, ops, |more|)
    ensures Agrees(m, s, tree.order, ops, more)
  {
    ghost var now, shape := tree.Map(), Bare(tree.tree);
    var op := ops[|replies|];
    var reply := Perform(tree, op);
    AgreesStep(m, s, tree.order, ops, replies, now, shape, op, reply);
    more := replies + [reply];
  }

  /**
    Run operations on a fresh index. Every reply agrees with a map and a shape that are kept in lockstep: neither knows
    of slots, ids or the free list.
   */
  method Run<V>(origin: Origin<V>, order: nat, ops: seq<Op<V>>)
    returns (replies: seq<Reply<V>>, ghost start: Tree<V>, ghost height: nat)
    requires Startable(origin, Clamped(order)) && Fits(Initial(origin), Clamped(order), ops)
    ensures Fresh(origin, Clamped(order), start, height)
    ensures Lockstep(Initial(origin), Bare(start), Clamped(order), ops, replies)
  {
    ghost var m := Initial(origin);
    var tree := Create(origin, order);
    start, height := tree.tree, tree.levels;
    ghost var s := Bare(start);
    replies := [];
    for i := 0 to |ops|
      invariant fresh(tree) && fresh(tree.store) && tree.Valid() && tree.order == Clamped(order)
      invariant tree.Map() == State(m, ops, i) && Bare(tree.tree) == Shape(s, Clamped(order), ops, i)
      invariant |replies| == i && Agrees(m, s, Clamped(order), ops, replies)
    {
      assert Roomy(State(m, ops, i), Clamped(order), ops[i]);
      replies := Step(tree, m, s, ops, replies);
    }
  }
}
