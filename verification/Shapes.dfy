/** Trees without their ids: what an operation makes of them does not depend on the slots it is given. */
module Shapes {
  import opened SortedEntries
  import opened Nodes
  import opened Trees
  import opened TreeInsert
  import opened TreeRemove

  /** `t` with all ids replaced by 0: what is left to compare when slots do not count. */
  ghost function Bare<V>(t: Tree<V>): (b: Tree<V>)
    ensures b.LeafT? == t.LeafT? && b.keys == t.keys && b.id == 0
    decreases t
  {
    match t
    case LeafT(_, keys, vals) => LeafT(0, keys, vals)
    case BranchT(_, keys, children) => BranchT(0, keys, BareAll(children))
  }

  ghost function BareAll<V>(ts: seq<Tree<V>>): (bs: seq<Tree<V>>)
    ensures |bs| == |ts| && forall i :: 0 <= i < |ts| ==> bs[i] == Bare(ts[i])
    decreases ts
  {
    seq(|ts|, i requires 0 <= i < |ts| => Bare(ts[i]))
  }

  ghost function BareGrown<V>(g: Grown<V>): Grown<V> {
    match g
    case One(t) => One(Bare(t))
    case Two(l, s, r) => Two(Bare(l), s, Bare(r))
  }

  // ---- What a shape still tells ----

  /** The levels of a tree, counted along the first children. */
  ghost function Levels<V>(t: Tree<V>): nat
    decreases t
  {
    if t.LeafT? || t.children == [] then 1 else 1 + Levels(t.children[0])
  }

  lemma {:induction false} LevelsOfBalanced<V>(t: Tree<V>, h: nat, order: nat, m: int)
    requires order >= 3 && Balanced(t, h, order, m)
    ensures Levels(Bare(t)) == Levels(t) == h
    decreases t
  {
    if t.LeafT? {
    } else {
      LevelsOfBalanced(t.children[0], h - 1, order, MinKeys(order));
    }
  }

  lemma {:induction false} BareRoutable<V>(t: Tree<V>)
    requires Routable(t)
    ensures Routable(Bare(t))
    decreases t
  {
    if t.LeafT? {
    } else {
      forall i | 0 <= i < |t.children|
        ensures Routable(BareAll(t.children)[i])
      {
        BareRoutable(t.children[i]);
      }
    }
  }

  lemma BareNext<V>(t: Tree<V>, key: Key)
    requires t.BranchT? && Routable(t) && Routable(Bare(t))
    ensures Next(Bare(t), key) == Bare(Next(t, key))
  {
  }

  /** A search finds the same in a shape as in the tree. */
  lemma {:induction false} BareSearch<V>(t: Tree<V>, key: Key, order: nat)
    requires Routable(t) && Routable(Bare(t))
    ensures Stored(Bare(t), key) == Stored(t, key) && Overflows(Bare(t), key, order) == Overflows(t, key, order)
    decreases t
  {
    if t.LeafT? {
    } else {
      BareNext(t, key);
      BareRoutable(Next(t, key));
      BareSearch(Next(t, key), key, order);
    }
  }

  // ---- Insertion ----

  lemma BareParts<V>(ts: seq<Tree<V>>, m: nat)
    requires m <= |ts|
    ensures BareAll(ts[..m]) == BareAll(ts)[..m] && BareAll(ts[m..]) == BareAll(ts)[m..]
  {
  }

  lemma BareConcat<V>(a: seq<Tree<V>>, b: seq<Tree<V>>)
    ensures BareAll(a + b) == BareAll(a) + BareAll(b)
  {
  }

  lemma BareCut<V>(t: Tree<V>, spare: NodeId)
    requires |t.keys| >= 2
    requires if t.LeafT? then |t.keys| == |t.vals| else |t.children| == |t.keys| + 1
    ensures BareGrown(Cut(t, spare)) == Cut(Bare(t), 0)
  {
    match t
    case LeafT(_, _, _) =>
    case BranchT(_, keys, children) =>
      var mid := |keys| / 2;
      BareParts(children, mid + 1);
      assert Bare(Cut(t, spare).left) == BranchT(0, keys[..mid], BareAll(children[..mid + 1]));
      assert Bare(Cut(t, spare).right) == BranchT(0, keys[mid + 1..], BareAll(children[mid + 1..]));
  }

  lemma BareSettle<V>(t: Tree<V>, order: nat, spare: NodeId)
    requires order >= 3
    requires if t.LeafT? then |t.keys| == |t.vals| else |t.children| == |t.keys| + 1
    ensures BareGrown(Settle(t, order, spare)) == Settle(Bare(t), order, 0)
  {
    if |t.keys| >= order { BareCut(t, spare); }
  }

  lemma BareUpdate<V>(ts: seq<Tree<V>>, i: nat, t: Tree<V>)
    requires i < |ts|
    ensures BareAll(ts[i := t]) == BareAll(ts)[i := Bare(t)]
  {
  }

  lemma BareInsert<V>(ts: seq<Tree<V>>, i: nat, t: Tree<V>)
    requires i <= |ts|
    ensures BareAll(InsertAt(ts, i, t)) == InsertAt(BareAll(ts), i, Bare(t))
  {
  }

  lemma BareWith<V>(t: Tree<V>, i: nat, g: Grown<V>)
    requires t.BranchT? && i < |t.children| == |t.keys| + 1
    ensures Bare(BranchWith(t, i, g)) == BranchWith(Bare(t), i, BareGrown(g))
  {
    match g
    case One(c) => BareUpdate(t.children, i, c);
    case Two(l, _, r) =>
      BareUpdate(t.children, i, l);
      BareInsert(t.children[i := l], i + 1, r);
  }

  /** The shape after an insertion depends on the shape before alone. */
  lemma {:induction false} BareIns<V>(t: Tree<V>, key: Key, val: V, order: nat, spares: seq<NodeId>)
    requires order >= 3 && Routable(t) && Routable(Bare(t))
    ensures BareGrown(Ins(t, key, val, order, spares)) == Ins(Bare(t), key, val, order, [])
    decreases t
  {
    var own := OwnSpare(t, key, order, spares);
    if t.LeafT? {
      BareSettle(LeafWith(t, key, val), order, own);
    } else {
      var rest := ChildSpares(t, key, order, spares);
      var u, i := Next(t, key), ChildIndex(t.keys, key);
      BareNext(t, key);
      BareRoutable(u);
      BareIns(u, key, val, order, rest);
      BareWith(t, i, Ins(u, key, val, order, rest));
      BareSettle(BranchWith(t, i, Ins(u, key, val, order, rest)), order, own);
    }
  }

  lemma BareRooted<V>(g: Grown<V>, top: NodeId)
    ensures Bare(Rooted(g, top)) == Rooted(BareGrown(g), 0)
  {
    if g.Two? { assert BareAll([g.left, g.right]) == [Bare(g.left), Bare(g.right)]; }
  }

  /** The shape of an index after inserting into one of shape `b`. */
  ghost function Inserted<V>(b: Tree<V>, key: Key, val: V, order: nat): Tree<V>
    requires order >= 3
  {
    if Routable(b) then Rooted(Ins(b, key, val, order, []), 0) else b
  }

  /** It does not depend on the slots the insertion was given. */
  lemma InsertedShape<V>(t: Tree<V>, key: Key, val: V, order: nat, spares: seq<NodeId>, top: NodeId)
    requires order >= 3 && Routable(t)
    ensures Bare(Rooted(Ins(t, key, val, order, spares), top)) == Inserted(Bare(t), key, val, order)
  {
    BareRoutable(t);
    BareIns(t, key, val, order, spares);
    BareRooted(Ins(t, key, val, order, spares), top);
  }

  /** One leaf without entries. */
  ghost function EmptyShape<V>(): Tree<V> {
    LeafT(0, [], [])
  }

  /** The shape of an index that entries were inserted into one after the other, the first one first. */
  ghost function Model<V>(entries: seq<Entry<V>>, order: nat): Tree<V>
    requires order >= 3
  {
    if entries == [] then EmptyShape()
    else
      var n := |entries| - 1;
      Inserted(Model(entries[..n], order), entries[n].key, entries[n].val, order)
  }

  // ---- Removal ----

  lemma BareShiftRight<V>(l: Tree<V>, s: Key, r: Tree<V>)
    requires Siblings(l, r) && |l.keys| > 0
    ensures Siblings(Bare(l), Bare(r)) && BareGrown(ShiftRight(l, s, r)) == ShiftRight(Bare(l), s, Bare(r))
  {
    if l.BranchT? {
      BareParts(l.children, |l.keys|);
      BareConcat([l.children[|l.keys|]], r.children);
    }
  }

  lemma BareShiftLeft<V>(l: Tree<V>, s: Key, r: Tree<V>)
    requires Siblings(l, r) && |r.keys| > 1
    ensures Siblings(Bare(l), Bare(r)) && BareGrown(ShiftLeft(l, s, r)) == ShiftLeft(Bare(l), s, Bare(r))
  {
    if l.BranchT? {
      BareParts(r.children, 1);
      BareConcat(l.children, [r.children[0]]);
    }
  }

  lemma BareJoin<V>(l: Tree<V>, s: Key, r: Tree<V>)
    requires Siblings(l, r)
    ensures Siblings(Bare(l), Bare(r)) && Bare(Join(l, s, r)) == Join(Bare(l), s, Bare(r))
  {
    if l.BranchT? { BareConcat(l.children, r.children); }
  }

  lemma BarePair<V>(t: Tree<V>, j: nat, p: Grown<V>)
    requires t.BranchT? && j < |t.keys| && |t.children| == |t.keys| + 1 && p.Two?
    ensures Bare(WithPair(t, j, p)) == WithPair(Bare(t), j, BareGrown(p))
  {
    BareUpdate(t.children, j, p.left);
    BareUpdate(t.children[j := p.left], j + 1, p.right);
  }

  lemma BareJoined<V>(t: Tree<V>, j: nat, u: Tree<V>)
    requires t.BranchT? && j < |t.keys| && |t.children| == |t.keys| + 1
    ensures Bare(WithJoined(t, j, u)) == WithJoined(Bare(t), j, Bare(u))
  {
    assert Bare(WithJoined(t, j, u)).children == WithJoined(Bare(t), j, Bare(u)).children;
  }

  lemma BareSiblings<V>(ts: seq<Tree<V>>)
    ensures AllSiblings(BareAll(ts)) == AllSiblings(ts)
  {
    forall j | 0 <= j < |ts| - 1
      ensures Siblings(BareAll(ts)[j], BareAll(ts)[j + 1]) == Siblings(ts[j], ts[j + 1])
    {
    }
  }

  lemma BareRepaired<V>(t: Tree<V>, i: nat, minKeys: nat)
    requires t.BranchT? && i < |t.children| == |t.keys| + 1 && minKeys > 0
    ensures Bare(Repaired(t, i, minKeys)) == Repaired(Bare(t), i, minKeys)
  {
    BareSiblings(t.children);
    if AllSiblings(t.children) {
      match RepairOf(t, i, minKeys)
      case FromLeft => BareFromLeft(t, i, minKeys);
      case FromRight => BareFromRight(t, i, minKeys);
      case MergeLeft => BareMergeLeft(t, i, minKeys);
      case MergeRight => BareMergeRight(t, i, minKeys);
      case Nothing => SameRepair(t, i, minKeys);
    }
  }

  /** Repairs are chosen by numbers of keys, which a shape keeps. */
  lemma SameRepair<V>(t: Tree<V>, i: nat, minKeys: nat)
    requires t.BranchT? && i < |t.children| == |t.keys| + 1 && minKeys > 0 && AllSiblings(t.children)
    ensures AllSiblings(Bare(t).children) && RepairOf(Bare(t), i, minKeys) == RepairOf(t, i, minKeys)
  {
    BareSiblings(t.children);
    var bs := BareAll(t.children);
    assert i > 0 ==> bs[i - 1].keys == t.children[i - 1].keys;
    assert i + 1 < |bs| ==> bs[i + 1].keys == t.children[i + 1].keys;
  }

  lemma BareFromLeft<V>(t: Tree<V>, i: nat, minKeys: nat)
    requires t.BranchT? && i < |t.children| == |t.keys| + 1 && minKeys > 0 && AllSiblings(t.children)
    requires RepairOf(t, i, minKeys) == FromLeft
    ensures Bare(Repaired(t, i, minKeys)) == Repaired(Bare(t), i, minKeys)
  {
    var b := Bare(t);
    SameRepair(t, i, minKeys);
    var j := i - 1;
    BareBorrow(t, j, true);
    assert b.children[j] == Bare(t.children[j]) && b.children[i] == Bare(t.children[i]) && b.keys == t.keys;
  }

  lemma BareFromRight<V>(t: Tree<V>, i: nat, minKeys: nat)
    requires t.BranchT? && i < |t.children| == |t.keys| + 1 && minKeys > 0 && AllSiblings(t.children)
    requires RepairOf(t, i, minKeys) == FromRight
    ensures Bare(Repaired(t, i, minKeys)) == Repaired(Bare(t), i, minKeys)
  {
    var b := Bare(t);
    SameRepair(t, i, minKeys);
    BareBorrow(t, i, false);
    assert b.children[i] == Bare(t.children[i]) && b.children[i + 1] == Bare(t.children[i + 1]) && b.keys == t.keys;
  }

  lemma BareMergeLeft<V>(t: Tree<V>, i: nat, minKeys: nat)
    requires t.BranchT? && i < |t.children| == |t.keys| + 1 && minKeys > 0 && AllSiblings(t.children)
    requires RepairOf(t, i, minKeys) == MergeLeft
    ensures Bare(Repaired(t, i, minKeys)) == Repaired(Bare(t), i, minKeys)
  {
    var b := Bare(t);
    SameRepair(t, i, minKeys);
    var j := i - 1;
    BareMerge(t, j);
    assert b.children[j] == Bare(t.children[j]) && b.children[i] == Bare(t.children[i]) && b.keys == t.keys;
  }

  lemma BareMergeRight<V>(t: Tree<V>, i: nat, minKeys: nat)
    requires t.BranchT? && i < |t.children| == |t.keys| + 1 && minKeys > 0 && AllSiblings(t.children)
    requires RepairOf(t, i, minKeys) == MergeRight
    ensures Bare(Repaired(t, i, minKeys)) == Repaired(Bare(t), i, minKeys)
  {
    var b := Bare(t);
    SameRepair(t, i, minKeys);
    BareMerge(t, i);
    assert b.children[i] == Bare(t.children[i]) && b.children[i + 1] == Bare(t.children[i + 1]) && b.keys == t.keys;
  }

  lemma BareBorrow<V>(t: Tree<V>, j: nat, toRight: bool)
    requires t.BranchT? && j < |t.keys| && |t.children| == |t.keys| + 1 && Siblings(t.children[j], t.children[j + 1])
    requires if toRight then |t.children[j].keys| > 0 else |t.children[j + 1].keys| > 1
    ensures var l, s, r := t.children[j], t.keys[j], t.children[j + 1];
            && Siblings(Bare(l), Bare(r))
            && Bare(WithPair(t, j, if toRight then ShiftRight(l, s, r) else ShiftLeft(l, s, r)))
            == WithPair(Bare(t), j, if toRight then ShiftRight(Bare(l), s, Bare(r)) else ShiftLeft(Bare(l), s, Bare(r)))
  {
    var l, s, r := t.children[j], t.keys[j], t.children[j + 1];
    if toRight { BareShiftRight(l, s, r); } else { BareShiftLeft(l, s, r); }
    BarePair(t, j, if toRight then ShiftRight(l, s, r) else ShiftLeft(l, s, r));
  }

  lemma BareMerge<V>(t: Tree<V>, j: nat)
    requires t.BranchT? && j < |t.keys| && |t.children| == |t.keys| + 1 && Siblings(t.children[j], t.children[j + 1])
    ensures var l, s, r := t.children[j], t.keys[j], t.children[j + 1];
            && Siblings(Bare(l), Bare(r))
            && Bare(WithJoined(t, j, Join(l, s, r))) == WithJoined(Bare(t), j, Join(Bare(l), s, Bare(r)))
  {
    var l, s, r := t.children[j], t.keys[j], t.children[j + 1];
    BareJoin(l, s, r);
    BareJoined(t, j, Join(l, s, r));
  }

  lemma BareMend<V>(t: Tree<V>, i: nat, c: Tree<V>, minKeys: nat)
    requires t.BranchT? && i < |t.children| == |t.keys| + 1 && minKeys > 0
    ensures Bare(Mend(t, i, c, minKeys)) == Mend(Bare(t), i, Bare(c), minKeys)
  {
    BareWith(t, i, One(c));
    if |c.keys| < minKeys { BareRepaired(BranchWith(t, i, One(c)), i, minKeys); }
  }

  /** The shape after a removal depends on the shape before alone. */
  lemma {:induction false} BareRem<V>(t: Tree<V>, key: Key, minKeys: nat)
    requires Routable(t) && Routable(Bare(t)) && minKeys > 0
    ensures Bare(Rem(t, key, minKeys)) == Rem(Bare(t), key, minKeys)
    decreases t
  {
    BareSearch(t, key, 3);
    if t.LeafT? {
    } else if Stored(t, key).Some? {
      var u, i := Next(t, key), ChildIndex(t.keys, key);
      BareNext(t, key);
      BareRoutable(u);
      BareRem(u, key, minKeys);
      BareMend(t, i, Rem(u, key, minKeys), minKeys);
    }
  }

  /** What is left of a tree whose root is shed if it has a single child. */
  ghost function Collapse<V>(t: Tree<V>): Tree<V> {
    if Sheds(t) == 1 then t.children[0] else t
  }

  /** The shape of an index after removing from one of shape `b`. */
  ghost function Removed<V>(b: Tree<V>, key: Key, minKeys: nat): Tree<V> {
    if minKeys > 0 && Routable(b) then Collapse(Rem(b, key, minKeys)) else b
  }

  lemma RemovedShape<V>(t: Tree<V>, key: Key, minKeys: nat)
    requires minKeys > 0 && Routable(t)
    ensures Bare(Collapse(Rem(t, key, minKeys))) == Removed(Bare(t), key, minKeys)
  {
    BareRoutable(t);
    BareRem(t, key, minKeys);
  }
}
