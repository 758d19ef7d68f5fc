/** Double-ended iteration (src/iter.rs:302-371): two cursors that approach each other. */
module Iters {
  import opened Wrappers
  import opened SortedEntries
  import opened Nodes
  import opened Store
  import opened Trees
  import opened Paths
  import opened Steps
  import opened Seeks
  import opened Cursors

  // Two cursors; `Remaining` is the stretch of the sequence between their ranks.
  datatype Span<V> = Span(front: Cursor<V>, back: Cursor<V>)

  /** The elements from the `i`-th to the `j`-th. */
  ghost function Stretch<T>(s: seq<T>, i: nat, j: nat): seq<T>
    requires j < |s|
  {
    if i <= j then s[i..j + 1] else []
  }

  /** Taking the first element off a slice moves its start by one. */
  lemma FirstOff<T>(s: seq<T>, from: nat, to: nat) returns (r: seq<T>)
    requires from <= to < |s|
    ensures r == s[from..to + 1] && r != [] && r[0] == s[from]
    ensures r[1..] == if from == to then [] else s[from + 1..to + 1]
  {
    r := s[from..to + 1];
  }

  /** Taking the last element off a slice moves its end by one. */
  lemma LastOff<T>(s: seq<T>, from: nat, to: nat) returns (r: seq<T>)
    requires from <= to < |s|
    ensures r == s[from..to + 1] && r != [] && r[|r| - 1] == s[to]
    ensures r[..|r| - 1] == if from == to then [] else s[from..to]
  {
    r := s[from..to + 1];
  }

  class Iter<V> {
    var span: Option<Span<V>>

    // What is iterated over; it does not change while the iterator is in use.
    ghost const store: InMemoryStore<V>
    ghost const tree: Tree<V>
    ghost const height: nat
    ghost const order: nat
    // How many frames the cursors of the iterator pushed in all.
    ghost var spent: nat

    ghost function Parts(): set<object>
      reads this
    {
      match span
      case None => {}
      case Some(s) => {s.front, s.back}
    }

    ghost predicate Walks(c: Cursor<V>) {
      c.Subject() == (store, tree, height, order)
    }

    ghost predicate Intact()
      reads store
    {
      order >= 3 && store.Valid() && IsIndex(store.nodes, tree, height, order)
    }

    ghost predicate Valid()
      reads this, Parts(), store
    {
      Intact() && Spanning()
    }

    /** The cursors are in order, at entries of the tree. */
    ghost predicate Spanning()
      reads this, Parts()
    {
      match span
      case None => true
      case Some(Span(front, back)) =>
        && front != back && Walks(front) && Walks(back)
        && front.AtEntry() && back.AtEntry() && front.Rank() <= back.Rank() < |Entries(tree)|
        && spent == front.pushed + back.pushed
    }

    /** The entries that are still to be yielded, in key order. */
    ghost function Remaining(): seq<Entry<V>>
      requires Spanning()
      reads this, Parts()
    {
      match span
      case None => []
      case Some(Span(front, back)) => Entries(tree)[front.Rank()..back.Rank() + 1]
    }

    /** How many internal nodes lie ahead between the two cursors. */
    ghost function Gap(): int
      requires Spanning()
      reads this, Parts()
    {
      match span
      case None => 0
      case Some(Span(front, back)) => back.Passed() - front.Passed()
    }

    /** There are few: at most one for each remaining entry and one for each level. */
    lemma GapBound()
      requires Valid()
      ensures 0 <= Gap() <= |Remaining()| + height
    {
      if span.Some? {
        var f, b := span.value.front, span.value.back;
        PositionWalk(store.nodes, tree, height, order, f.path, f.leaf, f.idx, b.path, b.leaf, b.idx);
      }
    }

    constructor (span: Option<Span<V>>, ghost store: InMemoryStore<V>,
                 ghost tree: Tree<V>, ghost height: nat, ghost order: nat)
      requires order >= 3 && store.Valid() && IsIndex(store.nodes, tree, height, order)
      requires span.Some? ==>
                 var Span(front, back) := span.value;
                 && front != back && front.Valid() && back.Valid()
                 && front.Subject() == back.Subject() == (store, tree, height, order)
                 && front.Rank() <= back.Rank()
      ensures Valid() && this.span == span
      ensures span.None? ==> Parts() == {} && Remaining() == []
      ensures span.Some? ==>
                var Span(front, back) := span.value;
                Parts() == {front, back} && Remaining() == Entries(tree)[front.Rank()..back.Rank() + 1]
      ensures this.store == store && this.tree == tree && this.height == height && this.order == order
      ensures spent == if span.Some? then span.value.front.pushed + span.value.back.pushed else 0
    {
      this.span := span;
      this.store, this.tree, this.height, this.order := store, tree, height, order;
      spent := if span.Some? then span.value.front.pushed + span.value.back.pushed else 0;
      if span.Some? {
        span.value.back.Loaded();
      }
    }

    /** All of `Entries(tree)` remains; frames pushed and frames ahead are fewer than internal nodes and levels together. */
    static method Full(store: InMemoryStore<V>, root: NodeId, ghost tree: Tree<V>, ghost height: nat, ghost order: nat)
      returns (it: Iter<V>)
      requires order >= 3 && store.Valid() && IsIndex(store.nodes, tree, height, order) && root == tree.id
      ensures fresh(it) && fresh(it.Parts()) && it.Valid()
      ensures it.store == store && it.tree == tree && it.height == height && it.order == order
      ensures it.Remaining() == Entries(tree)
      ensures it.spent + it.Gap() < BranchCount(tree) + height
    {
      var front := Cursor.First(store, root, tree, height, order);
      var back := Cursor.Last(store, root, tree, height, order);
      var span := match (front, back)
        case (Some(f), Some(b)) => Some(Span(f, b))
        case (_, _) => None;
      it := new Iter(span, store, tree, height, order);
    }

    /** `InRange` is the stretch between the ranks of the two cursors, and their keys are ordered as their ranks are. */
    static method Ends(store: InMemoryStore<V>, root: NodeId, lower: Bound, upper: Bound,
                       ghost tree: Tree<V>, ghost height: nat, ghost order: nat)
      returns (front: Option<Cursor<V>>, back: Option<Cursor<V>>)
      requires order >= 3 && store.Valid() && IsIndex(store.nodes, tree, height, order) && root == tree.id
      ensures front.Some? ==> fresh(front.value) && front.value.Valid() && front.value.pushed < 2 * height
      ensures front.Some? ==> front.value.Subject() == (store, tree, height, order)
      ensures back.Some? ==> fresh(back.value) && back.value.Valid() && back.value.pushed < 2 * height
      ensures back.Some? ==> back.value.Subject() == (store, tree, height, order)
      ensures front.Some? && back.Some? ==>
                var f, b, es := front.value, back.value, Entries(tree);
                && f != b && f.Rank() < |es| && b.Rank() < |es|
                && (es[f.Rank()].key <= es[b.Rank()].key <==> f.Rank() <= b.Rank())
                && InRange(es, lower, upper) == Stretch(es, f.Rank(), b.Rank())
      ensures front.None? || back.None? ==> InRange(Entries(tree), lower, upper) == []
    {
      front := Cursor.LowerBound(store, root, lower, tree, height, order);
      back := Cursor.UpperBound(store, root, upper, tree, height, order);
      OrderedEntries(tree, None, None);
      RangeByEnds(Entries(tree), lower, upper,
                  if front.Some? then front.value.Rank() else |Entries(tree)|,
                  if back.Some? then back.value.Rank() + 1 else 0);
      if back.Some? {
        back.value.Loaded();
      }
    }

    /** Two cursors that enclose the entries within two bounds, if there are any; neither pushed many frames. */
    static method Enclose(store: InMemoryStore<V>, root: NodeId, lower: Bound, upper: Bound,
                          ghost tree: Tree<V>, ghost height: nat, ghost order: nat)
      returns (span: Option<Span<V>>)
      requires order >= 3 && store.Valid() && IsIndex(store.nodes, tree, height, order) && root == tree.id
      ensures span.None? ==> InRange(Entries(tree), lower, upper) == []
      ensures span.Some? ==>
                var Span(f, b) := span.value;
                && f != b && fresh(f) && fresh(b) && f.Valid() && b.Valid()
                && f.Subject() == b.Subject() == (store, tree, height, order)
                && f.pushed < 2 * height && b.pushed < 2 * height
                && f.Rank() <= b.Rank() < |Entries(tree)|
                && InRange(Entries(tree), lower, upper) == Stretch(Entries(tree), f.Rank(), b.Rank())
    {
      var front, back := Ends(store, root, lower, upper, tree, height, order);
      if front.None? || back.None? {
        return None;
      }
      var first, last := front.value.Current(), back.value.Current();
      span := if first.key <= last.key then Some(Span(front.value, back.value)) else None;
    }

    /** Exactly `InRange` remains, in whatever relation the bounds are. */
    static method Range(store: InMemoryStore<V>, root: NodeId, lower: Bound, upper: Bound,
                        ghost tree: Tree<V>, ghost height: nat, ghost order: nat)
      returns (it: Iter<V>)
      requires order >= 3 && store.Valid() && IsIndex(store.nodes, tree, height, order) && root == tree.id
      ensures fresh(it) && fresh(it.Parts()) && it.Valid()
      ensures it.store == store && it.tree == tree && it.height == height && it.order == order
      ensures it.Remaining() == InRange(Entries(tree), lower, upper)
      ensures it.spent + it.Gap() <= |it.Remaining()| + 5 * height
    {
      var span := Enclose(store, root, lower, upper, tree, height, order);
      it := new Iter(span, store, tree, height, order);
      it.GapBound();
    }

    /** The iterator ends: its span is gone, and with it the frames that lay ahead. */
    method Close()
      requires Valid()
      modifies this
      ensures Valid() && Parts() == {} && Remaining() == []
      ensures spent + Gap() <= old(spent + Gap())
    {
      GapBound();
      span := None;
    }

    /** The front cursor moves on by one entry. */
    method Advance()
      requires Valid() && span.Some? && span.value.front.Rank() < span.value.back.Rank()
      modifies this, span.value.front
      ensures Valid() && span == old(span)
      ensures Remaining() == Entries(tree)[old(span.value.front.Rank()) + 1..old(span.value.back.Rank()) + 1]
      ensures spent + Gap() <= old(spent + Gap())
    {
      var _ := span.value.front.StepForward();
      spent := span.value.front.pushed + span.value.back.pushed;
    }

    /** The back cursor moves back by one entry. */
    method Retreat()
      requires Valid() && span.Some? && span.value.front.Rank() < span.value.back.Rank()
      modifies this, span.value.back
      ensures Valid() && span == old(span)
      ensures Remaining() == Entries(tree)[old(span.value.front.Rank())..old(span.value.back.Rank())]
      ensures spent + Gap() <= old(spent + Gap())
    {
      var _ := span.value.back.StepBackward();
      spent := span.value.front.pushed + span.value.back.pushed;
    }

    /** Yield the first remaining entry. */
    method Next() returns (out: Option<Entry<V>>)
      requires Valid()
      modifies this, Parts()
      ensures Valid() && Parts() <= old(Parts())
      ensures var was := old(Remaining());
              if was == [] then out == None && Remaining() == []
              else out == Some(was[0]) && Remaining() == was[1..]
      ensures spent + Gap() <= old(spent + Gap())
    {
      if span.None? {
        return None;
      }
      var Span(front, back) := span.value;
      ghost var r := FirstOff(Entries(tree), front.Rank(), back.Rank());
      assert r == Remaining();
      out := Some(front.Current());
      if front.SamePosition(back) {
        Close();
      } else {
        Advance();
      }
    }

    /** Yield the last remaining entry. */
    method NextBack() returns (out: Option<Entry<V>>)
      requires Valid()
      modifies this, Parts()
      ensures Valid() && Parts() <= old(Parts())
      ensures var was := old(Remaining());
              if was == [] then out == None && Remaining() == []
              else out == Some(was[|was| - 1]) && Remaining() == was[..|was| - 1]
      ensures spent + Gap() <= old(spent + Gap())
    {
      if span.None? {
        return None;
      }
      var Span(front, back) := span.value;
      ghost var r := LastOff(Entries(tree), front.Rank(), back.Rank());
      assert r == Remaining();
      out := Some(back.Current());
      if front.SamePosition(back) {
        Close();
      } else {
        Retreat();
      }
    }
  }
}
