/**
  The structural check that the test suite runs after every operation (src/tree.rs:434-521). It compares
  separators with the least and greatest keys of subtrees; the proofs here use inherited bounds instead.
  The two say the same about every tree that has entries.
 */
module Checks {
  import opened Wrappers
  import opened SortedEntries
  import opened Nodes
  import opened Trees
  import opened Steps

  // What the check reports to the parent.
  datatype Summary = Summary(min: Key, max: Key, height: nat)

  /** The check; `None` where an assertion fails. */
  ghost function Check<V>(t: Tree<V>, order: nat, minKeys: nat, isRoot: bool): Option<Summary>
    decreases t, 1
  {
    if t.keys != [] && |t.keys| < order && (isRoot || |t.keys| >= minKeys) && AscendingKeys(t.keys) then
      match t
      case LeafT(_, keys, vals) =>
        if |keys| == |vals| then Some(Summary(keys[0], keys[|keys| - 1], 1)) else None
      case BranchT(_, keys, children) =>
        if |children| == |keys| + 1 then CheckChildren(children, keys, order, minKeys) else None
    else None
  }

  /** Children pass, are equally tall, and each separator lies above the left and not above the right of it. */
  ghost function CheckChildren<V>(ts: seq<Tree<V>>, keys: seq<Key>, order: nat, minKeys: nat): Option<Summary>
    requires |ts| == |keys| + 1
    decreases ts, 0
  {
    match Check(ts[0], order, minKeys, false)
    case None => None
    case Some(Summary(min, max, height)) =>
      if keys == [] then Some(Summary(min, max, height + 1))
      else match CheckChildren(ts[1..], keys[1..], order, minKeys)
        case None => None
        case Some(Summary(nextMin, lastMax, next)) =>
          if next == height + 1 && max < keys[0] <= nextMin then Some(Summary(min, lastMax, next)) else None
  }

  /** What the check must report about entries of a tree of height `h`. */
  ghost function Span<V>(es: seq<Entry<V>>, h: nat): Option<Summary> {
    if es == [] then None else Some(Summary(es[0].key, es[|es| - 1].key, h))
  }

  // ---- The invariant implies the check ----

  lemma {:induction false} CheckPasses<V>(t: Tree<V>, h: nat, order: nat, m: int, isRoot: bool,
                                            lo: Option<Key>, hi: Option<Key>)
    requires order >= 3 && Balanced(t, h, order, m) && Ordered(t, lo, hi)
    requires if isRoot then Entries(t) != [] && (h >= 2 ==> m >= 1) else m == MinKeys(order)
    ensures Entries(t) != [] && Check(t, order, MinKeys(order), isRoot) == Span(Entries(t), h)
    decreases t, 1
  {
    if t.LeafT? {
    } else {
      ChildrenPass(t.children, t.keys, h - 1, order, lo, hi);
    }
  }

  lemma {:induction false} ChildrenPass<V>(ts: seq<Tree<V>>, keys: seq<Key>, h: nat, order: nat,
                                             lo: Option<Key>, hi: Option<Key>)
    requires order >= 3 && BalancedAll(ts, h, order) && OrderedForest(ts, keys, lo, hi)
    ensures Flatten(ts) != [] && CheckChildren(ts, keys, order, MinKeys(order)) == Span(Flatten(ts), h + 1)
    decreases ts, 0
  {
    assert Ordered(ts[0], LoAt(keys, lo, 0), HiAt(keys, hi, 0));
    CheckPasses(ts[0], h, order, MinKeys(order), false, LoAt(keys, lo, 0), HiAt(keys, hi, 0));
    assert Flatten(ts) == Entries(ts[0]) + Flatten(ts[1..]);
    if keys == [] {
      assert ts[1..] == [];
    } else {
      OrderedEntries(ts[0], lo, Some(keys[0]));
      ForestCut(ts, keys, lo, hi, 0);
      ForestEntries(ts[1..], keys[1..], Some(keys[0]), hi);
      assert BalancedAll(ts[1..], h, order);
      ChildrenPass(ts[1..], keys[1..], h, order, Some(keys[0]), hi);
    }
  }

  // ---- The check implies the invariant ----

  /** The occupancy that the check demands. */
  ghost function Demanded(isRoot: bool, h: nat, order: nat): nat
    requires order >= 3
  {
    if isRoot then RootMin(h) else MinKeys(order)
  }

  lemma {:induction false} CheckSound<V>(t: Tree<V>, order: nat, isRoot: bool, s: Summary, lo: Option<Key>, hi: Option<Key>)
    requires order >= 3 && Check(t, order, MinKeys(order), isRoot) == Some(s)
    requires AtLeast(lo, s.min) && Below(s.max, hi)
    ensures s.min <= s.max && Ordered(t, lo, hi)
    ensures Balanced(t, s.height, order, Demanded(isRoot, s.height, order))
    decreases t, 1
  {
    match t
    case LeafT(_, keys, vals) =>
    case BranchT(_, keys, children) => SubtreesSound(children, keys, order, s, lo, hi);
  }

  lemma {:induction false} SubtreesSound<V>(ts: seq<Tree<V>>, keys: seq<Key>, order: nat, s: Summary,
                                              lo: Option<Key>, hi: Option<Key>)
    requires order >= 3 && |ts| == |keys| + 1 && CheckChildren(ts, keys, order, MinKeys(order)) == Some(s)
    requires AtLeast(lo, s.min) && Below(s.max, hi)
    ensures s.min <= s.max && s.height >= 2 && OrderedForest(ts, keys, lo, hi) && BalancedAll(ts, s.height - 1, order)
    decreases ts, 0
  {
    var first := Check(ts[0], order, MinKeys(order), false).value;
    if keys == [] {
      CheckSound(ts[0], order, false, first, lo, hi);
      assert ts == [ts[0]];
      ForestOne(ts[0], lo, hi);
    } else {
      var rest := CheckChildren(ts[1..], keys[1..], order, MinKeys(order)).value;
      CheckSound(ts[0], order, false, first, lo, Some(keys[0]));
      SubtreesSound(ts[1..], keys[1..], order, rest, Some(keys[0]), hi);
      ForestOne(ts[0], lo, Some(keys[0]));
      ForestJoin([ts[0]], [], ts[1..], keys[1..], lo, keys[0], hi);
      assert [ts[0]] + ts[1..] == ts && [] + [keys[0]] + keys[1..] == keys;
    }
  }

  /** The check accepts exactly the trees with entries that satisfy the invariant, and it reports their height. */
  lemma CheckIsInvariant<V>(t: Tree<V>, order: nat, h: nat)
    requires order >= 3
    ensures (Check(t, order, MinKeys(order), true).Some? && Check(t, order, MinKeys(order), true).value.height == h)
       <==> (Entries(t) != [] && Balanced(t, h, order, RootMin(h)) && Ordered(t, None, None))
  {
    if Entries(t) != [] && Balanced(t, h, order, RootMin(h)) && Ordered(t, None, None) {
      CheckPasses(t, h, order, RootMin(h), true, None, None);
    }
    match Check(t, order, MinKeys(order), true)
    case None =>
    case Some(s) =>
      CheckSound(t, order, true, s, None, None);
      BranchesBound(t, s.height, order, 1);
  }
}
