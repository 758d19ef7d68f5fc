/** Removal as a function on trees: borrowing, merging and the promise they keep (src/ops.rs:198-463). */
module TreeRemove {
  import opened Wrappers
  import opened SortedEntries
  import opened Nodes
  import opened Trees
  import opened TreeInsert

  // ---- Two siblings and the separator between them ----

  /** Two siblings of one kind with their parallel arrays in step. */
  ghost predicate Siblings<V>(l: Tree<V>, r: Tree<V>) {
    if l.LeafT? then r.LeafT? && |l.keys| == |l.vals| && |r.keys| == |r.vals|
    else r.BranchT? && |l.children| == |l.keys| + 1 && |r.children| == |r.keys| + 1
  }

  /** The pair with the last entry, or the last child, of `l` in front of those of `r`. */
  ghost function ShiftRight<V>(l: Tree<V>, s: Key, r: Tree<V>): (p: Grown<V>)
    requires Siblings(l, r) && |l.keys| > 0
    ensures p.Two? && p.left.id == l.id && p.right.id == r.id && Siblings(p.left, p.right)
    ensures |p.left.keys| == |l.keys| - 1 && |p.right.keys| == |r.keys| + 1
  {
    var n := |l.keys| - 1;
    if l.LeafT? then
      Two(LeafT(l.id, l.keys[..n], l.vals[..n]), l.keys[n], LeafT(r.id, [l.keys[n]] + r.keys, [l.vals[n]] + r.vals))
    else
      Two(BranchT(l.id, l.keys[..n], l.children[..n + 1]), l.keys[n],
          BranchT(r.id, [s] + r.keys, [l.children[n + 1]] + r.children))
  }

  /** The pair with the first entry, or the first child, of `r` behind those of `l`. */
  ghost function ShiftLeft<V>(l: Tree<V>, s: Key, r: Tree<V>): (p: Grown<V>)
    requires Siblings(l, r) && |r.keys| > 1
    ensures p.Two? && p.left.id == l.id && p.right.id == r.id && Siblings(p.left, p.right)
    ensures |p.left.keys| == |l.keys| + 1 && |p.right.keys| == |r.keys| - 1
  {
    if l.LeafT? then
      Two(LeafT(l.id, l.keys + [r.keys[0]], l.vals + [r.vals[0]]), r.keys[1], LeafT(r.id, r.keys[1..], r.vals[1..]))
    else
      Two(BranchT(l.id, l.keys + [s], l.children + [r.children[0]]), r.keys[0],
          BranchT(r.id, r.keys[1..], r.children[1..]))
  }

  /** One node in place of the pair; between branches `s` becomes one of its separators. */
  ghost function Join<V>(l: Tree<V>, s: Key, r: Tree<V>): (t: Tree<V>)
    requires Siblings(l, r)
    ensures t.id == l.id && |t.keys| == |l.keys| + |r.keys| + (if l.LeafT? then 0 else 1)
  {
    if l.LeafT? then LeafT(l.id, l.keys + r.keys, l.vals + r.vals)
    else BranchT(l.id, l.keys + [s] + r.keys, l.children + r.children)
  }

  /** The three moves only redistribute what the two siblings hold. */
  ghost predicate SameContent<V>(l: Tree<V>, r: Tree<V>, u: Tree<V>, v: Tree<V>) {
    && Siblings(l, r) && Siblings(u, v) && u.id == l.id && v.id == r.id
    && Under(u) + Under(v) == Under(l) + Under(r)
    && (l.LeafT? <==> u.LeafT?)
    && (l.LeafT? ==> u.keys + v.keys == l.keys + r.keys && u.vals + v.vals == l.vals + r.vals)
  }

  lemma ShiftRightContent<V>(l: Tree<V>, s: Key, r: Tree<V>)
    requires Siblings(l, r) && |l.keys| > 0
    ensures SameContent(l, r, ShiftRight(l, s, r).left, ShiftRight(l, s, r).right)
  {
  }

  lemma ShiftLeftContent<V>(l: Tree<V>, s: Key, r: Tree<V>)
    requires Siblings(l, r) && |r.keys| > 1
    ensures SameContent(l, r, ShiftLeft(l, s, r).left, ShiftLeft(l, s, r).right)
  {
  }

  lemma ZipConcat<V>(ka: seq<Key>, va: seq<V>, kb: seq<Key>, vb: seq<V>)
    requires |ka| == |va| && |kb| == |vb|
    ensures Zip(ka + kb, va + vb) == Zip(ka, va) + Zip(kb, vb)
  {
  }

  /** Redistribution keeps the in-order sequence and the slots of the pair. */
  lemma ContentKept<V>(l: Tree<V>, r: Tree<V>, u: Tree<V>, v: Tree<V>)
    requires SameContent(l, r, u, v)
    ensures Entries(u) + Entries(v) == Entries(l) + Entries(r)
    ensures IdBag(u) + IdBag(v) == IdBag(l) + IdBag(r)
  {
    PairBag(l, r);
    PairBag(u, v);
    if l.LeafT? {
      ZipConcat(l.keys, l.vals, r.keys, r.vals);
      ZipConcat(u.keys, u.vals, v.keys, v.vals);
    } else {
      FlattenConcat(l.children, r.children);
      FlattenConcat(u.children, v.children);
    }
  }

  lemma PairBag<V>(l: Tree<V>, r: Tree<V>)
    ensures IdBag(l) + IdBag(r) == multiset{l.id} + multiset{r.id} + Bags(Under(l) + Under(r))
  {
    BagsConcat(Under(l), Under(r));
  }

  lemma JoinEntries<V>(l: Tree<V>, s: Key, r: Tree<V>)
    requires Siblings(l, r)
    ensures Entries(Join(l, s, r)) == Entries(l) + Entries(r)
    ensures IdBag(Join(l, s, r)) + multiset{r.id} == IdBag(l) + IdBag(r)
  {
    PairBag(l, r);
    if l.LeafT? {
      ZipConcat(l.keys, l.vals, r.keys, r.vals);
    } else {
      FlattenConcat(l.children, r.children);
    }
  }

  // ---- Order within the pair ----

  /** Two ordered siblings on both sides of a separator strictly inside the bounds. */
  ghost predicate OrderedPair<V>(l: Tree<V>, s: Key, r: Tree<V>, lo: Option<Key>, hi: Option<Key>) {
    Ordered(l, lo, Some(s)) && Ordered(r, Some(s), hi) && Above(lo, s) && Below(s, hi)
  }

  lemma ShiftRightOrdered<V>(l: Tree<V>, s: Key, r: Tree<V>, lo: Option<Key>, hi: Option<Key>)
    requires Siblings(l, r) && OrderedPair(l, s, r, lo, hi) && |l.keys| > 1
    ensures var p := ShiftRight(l, s, r); OrderedPair(p.left, p.sep, p.right, lo, hi)
  {
    var n := |l.keys| - 1;
    if l.LeafT? {
      assert l.keys[0] < l.keys[n];
    } else {
      ForestCut(l.children, l.keys, lo, Some(s), n);
      assert l.keys[n + 1..] == [] && l.children[n + 1..] == [l.children[n + 1]];
      ForestJoin([l.children[n + 1]], [], r.children, r.keys, Some(l.keys[n]), s, hi);
      assert [] + [s] + r.keys == [s] + r.keys;
    }
  }

  lemma ShiftLeftOrdered<V>(l: Tree<V>, s: Key, r: Tree<V>, lo: Option<Key>, hi: Option<Key>)
    requires Siblings(l, r) && OrderedPair(l, s, r, lo, hi) && |r.keys| > 1
    ensures var p := ShiftLeft(l, s, r); OrderedPair(p.left, p.sep, p.right, lo, hi)
  {
    if l.LeafT? {
      assert r.keys[0] < r.keys[1];
    } else {
      ForestCut(r.children, r.keys, Some(s), hi, 0);
      assert r.keys[..0] == [] && r.children[..1] == [r.children[0]];
      ForestJoin(l.children, l.keys, [r.children[0]], [], lo, s, Some(r.keys[0]));
      assert l.keys + [s] + [] == l.keys + [s];
    }
  }

  lemma JoinOrdered<V>(l: Tree<V>, s: Key, r: Tree<V>, lo: Option<Key>, hi: Option<Key>)
    requires Siblings(l, r) && OrderedPair(l, s, r, lo, hi)
    ensures Ordered(Join(l, s, r), lo, hi)
  {
    if l.BranchT? {
      ForestJoin(l.children, l.keys, r.children, r.keys, lo, s, hi);
    }
  }

  // ---- Restoring the occupancy of a child ----

  /** `w` with the pair `p` at `j` and `j + 1`. */
  ghost function WithPair<V>(t: Tree<V>, j: nat, p: Grown<V>): (w: Tree<V>)
    requires t.BranchT? && j < |t.keys| && |t.children| == |t.keys| + 1 && p.Two?
    ensures w.BranchT? && w.id == t.id && |w.keys| == |t.keys| && |w.children| == |t.children|
  {
    BranchT(t.id, t.keys[j := p.sep], t.children[j := p.left][j + 1 := p.right])
  }

  /** `w` with `u` alone at `j`, and one separator less. */
  ghost function WithJoined<V>(t: Tree<V>, j: nat, u: Tree<V>): (w: Tree<V>)
    requires t.BranchT? && j < |t.keys| && |t.children| == |t.keys| + 1
    ensures w.BranchT? && w.id == t.id && |w.keys| == |t.keys| - 1 && |w.children| == |t.children| - 1
  {
    BranchT(t.id, RemoveAt(t.keys, j), RemoveAt(t.children[j := u], j + 1))
  }

  lemma WithPairOrdered<V>(t: Tree<V>, j: nat, p: Grown<V>, lo: Option<Key>, hi: Option<Key>)
    requires t.BranchT? && Ordered(t, lo, hi) && j < |t.keys| && |t.children| == |t.keys| + 1
    requires p.Two? && OrderedPair(p.left, p.sep, p.right, LoAt(t.keys, lo, j), HiAt(t.keys, hi, j + 1))
    ensures Ordered(WithPair(t, j, p), lo, hi)
  {
    var w := WithPair(t, j, p);
    SeparatorReplace(t.keys, lo, hi, j, p.sep);
    forall i | 0 <= i < |w.children|
      ensures Ordered(w.children[i], LoAt(w.keys, lo, i), HiAt(w.keys, hi, i))
    {
      if i != j && i != j + 1 {
        assert Ordered(t.children[i], LoAt(t.keys, lo, i), HiAt(t.keys, hi, i));
      }
    }
  }

  lemma SeparatorReplace(keys: seq<Key>, lo: Option<Key>, hi: Option<Key>, j: nat, s: Key)
    requires Separators(keys, lo, hi) && j < |keys|
    requires Above(LoAt(keys, lo, j), s) && Below(s, HiAt(keys, hi, j + 1))
    ensures Separators(keys[j := s], lo, hi)
  {
    forall i | 0 <= i < |keys|
      ensures i < j ==> keys[i] < s
      ensures i > j ==> s < keys[i]
    {
      if i < j - 1 { assert keys[i] < keys[j - 1]; }
      if i > j + 1 { assert keys[j + 1] < keys[i]; }
    }
    assert Above(lo, s) by {
      if j > 0 { assert Above(lo, keys[j - 1]); }
    }
    assert Below(s, hi) by {
      if j + 1 < |keys| { assert Below(keys[j + 1], hi); }
    }
  }

  lemma SeparatorsWithout(keys: seq<Key>, j: nat, lo: Option<Key>, hi: Option<Key>)
    requires Separators(keys, lo, hi) && j < |keys|
    ensures Separators(RemoveAt(keys, j), lo, hi)
  {
    var rest := RemoveAt(keys, j);
    assert forall i :: 0 <= i < |rest| ==> rest[i] == keys[if i < j then i else i + 1];
  }

  lemma WithJoinedOrdered<V>(t: Tree<V>, j: nat, u: Tree<V>, lo: Option<Key>, hi: Option<Key>)
    requires t.BranchT? && Ordered(t, lo, hi) && j < |t.keys| && |t.children| == |t.keys| + 1
    requires Ordered(u, LoAt(t.keys, lo, j), HiAt(t.keys, hi, j + 1))
    ensures Ordered(WithJoined(t, j, u), lo, hi)
  {
    var w := WithJoined(t, j, u);
    SeparatorsWithout(t.keys, j, lo, hi);
    forall i | 0 <= i < |w.children|
      ensures Ordered(w.children[i], LoAt(w.keys, lo, i), HiAt(w.keys, hi, i))
    {
      if i < j {
        assert Ordered(t.children[i], LoAt(t.keys, lo, i), HiAt(t.keys, hi, i));
      } else if i > j {
        assert Ordered(t.children[i + 1], LoAt(t.keys, lo, i + 1), HiAt(t.keys, hi, i + 1));
      }
    }
  }

  /** A forest around two neighbours. */
  lemma AroundPair<V>(ts: seq<Tree<V>>, j: nat)
    requires j + 1 < |ts|
    ensures Flatten(ts) == Flatten(ts[..j]) + (Entries(ts[j]) + Entries(ts[j + 1])) + Flatten(ts[j + 2..])
    ensures Bags(ts) == Bags(ts[..j]) + (IdBag(ts[j]) + IdBag(ts[j + 1])) + Bags(ts[j + 2..])
  {
    var rest := ts[j + 1..];
    FlattenAt(ts, j);
    BagsAt(ts, j);
    assert rest[0] == ts[j + 1] && rest[1..] == ts[j + 2..];
    assert Flatten(rest) == Entries(ts[j + 1]) + Flatten(ts[j + 2..]);
    Regroup(Flatten(ts[..j]), Entries(ts[j]), Entries(ts[j + 1]), Flatten(ts[j + 2..]));
  }

  lemma WithPairEntries<V>(t: Tree<V>, j: nat, p: Grown<V>)
    requires t.BranchT? && j < |t.keys| && |t.children| == |t.keys| + 1 && p.Two?
    requires SameContent(t.children[j], t.children[j + 1], p.left, p.right)
    ensures Entries(WithPair(t, j, p)) == Entries(t) && IdBag(WithPair(t, j, p)) == IdBag(t)
  {
    var ts, us := t.children, WithPair(t, j, p).children;
    assert us[..j] == ts[..j] && us[j + 2..] == ts[j + 2..];
    AroundPair(ts, j);
    AroundPair(us, j);
    ContentKept(ts[j], ts[j + 1], p.left, p.right);
  }

  lemma WithJoinedEntries<V>(t: Tree<V>, j: nat)
    requires t.BranchT? && j < |t.keys| && |t.children| == |t.keys| + 1
    requires Siblings(t.children[j], t.children[j + 1])
    ensures var w := WithJoined(t, j, Join(t.children[j], t.keys[j], t.children[j + 1]));
            Entries(w) == Entries(t) && IdBag(w) + multiset{t.children[j + 1].id} == IdBag(t)
  {
    var ts := t.children;
    var u := Join(ts[j], t.keys[j], ts[j + 1]);
    var us := WithJoined(t, j, u).children;
    assert us[..j] == ts[..j] && us[j] == u && us[j + 1..] == ts[j + 2..];
    AroundPair(ts, j);
    FlattenAt(us, j);
    BagsAt(us, j);
    JoinEntries(ts[j], t.keys[j], ts[j + 1]);
  }

  /** What restoring the occupancy of child `i` does: borrow from the left, from the right, or merge. */
  datatype Repair = FromLeft | FromRight | MergeLeft | MergeRight | Nothing

  ghost function RepairOf<V>(t: Tree<V>, i: nat, minKeys: nat): Repair
    requires t.BranchT? && i < |t.children|
  {
    var ts := t.children;
    if i > 0 && |ts[i - 1].keys| > minKeys then FromLeft
    else if i + 1 < |ts| && |ts[i + 1].keys| > minKeys then FromRight
    else if i > 0 then MergeLeft
    else if i + 1 < |ts| then MergeRight
    else Nothing
  }

  /** Neighbours are of one kind, which equal depth gives. */
  ghost predicate AllSiblings<V>(ts: seq<Tree<V>>) {
    forall j :: 0 <= j < |ts| - 1 ==> Siblings(ts[j], ts[j + 1])
  }

  ghost function Repaired<V>(t: Tree<V>, i: nat, minKeys: nat): (w: Tree<V>)
    requires t.BranchT? && i < |t.children| == |t.keys| + 1 && minKeys > 0
    ensures w.BranchT? && w.id == t.id && |w.children| == |w.keys| + 1
  {
    var ts, keys := t.children, t.keys;
    if !AllSiblings(ts) then t else
    match RepairOf(t, i, minKeys)
    case FromLeft => WithPair(t, i - 1, ShiftRight(ts[i - 1], keys[i - 1], ts[i]))
    case FromRight => WithPair(t, i, ShiftLeft(ts[i], keys[i], ts[i + 1]))
    case MergeLeft => WithJoined(t, i - 1, Join(ts[i - 1], keys[i - 1], ts[i]))
    case MergeRight => WithJoined(t, i, Join(ts[i], keys[i], ts[i + 1]))
    case Nothing => t
  }

  /** One level of a balanced tree in which only child `i` may be short of its minimum, by one key. */
  ghost predicate ShortAt<V>(t: Tree<V>, i: nat, h: nat, order: nat)
    requires order >= 3
  {
    && t.BranchT? && i < |t.children| == |t.keys| + 1 && h >= 1
    && 1 <= |t.keys| < order
    && Balanced(t.children[i], h, order, MinKeys(order) - 1)
    && forall j :: 0 <= j < |t.children| && j != i ==> Balanced(t.children[j], h, order, MinKeys(order))
  }

  lemma SameKind<V>(l: Tree<V>, r: Tree<V>, h: nat, order: nat, m: int, n: int)
    requires order >= 3 && Balanced(l, h, order, m) && Balanced(r, h, order, n)
    ensures Siblings(l, r)
  {
  }

  lemma ShortSiblings<V>(t: Tree<V>, i: nat, h: nat, order: nat)
    requires order >= 3 && ShortAt(t, i, h, order)
    ensures AllSiblings(t.children)
  {
    forall j | 0 <= j < |t.children| - 1
      ensures Siblings(t.children[j], t.children[j + 1])
    {
      SameKind(t.children[j], t.children[j + 1], h, order, MinKeys(order) - 1, MinKeys(order) - 1)
        by { Relax(t.children[j], h, order); Relax(t.children[j + 1], h, order); }
    }
  }

  lemma Relax<V>(t: Tree<V>, h: nat, order: nat)
    requires order >= 3
    ensures Balanced(t, h, order, MinKeys(order)) ==> Balanced(t, h, order, MinKeys(order) - 1)
  {
  }

  /** The bounds a pair of neighbours inherits, and its place in the order. */
  lemma PairOrdered<V>(t: Tree<V>, j: nat, lo: Option<Key>, hi: Option<Key>)
    requires t.BranchT? && Ordered(t, lo, hi) && j < |t.keys| && |t.children| == |t.keys| + 1
    ensures OrderedPair(t.children[j], t.keys[j], t.children[j + 1], LoAt(t.keys, lo, j), HiAt(t.keys, hi, j + 1))
  {
    assert Ordered(t.children[j], LoAt(t.keys, lo, j), HiAt(t.keys, hi, j));
    assert Ordered(t.children[j + 1], LoAt(t.keys, lo, j + 1), HiAt(t.keys, hi, j + 1));
    if j > 0 { assert t.keys[j - 1] < t.keys[j]; }
    if j + 1 < |t.keys| { assert t.keys[j] < t.keys[j + 1]; }
  }

  /** A repair keeps the order of the keys. */
  lemma RepairedOrdered<V>(t: Tree<V>, i: nat, minKeys: nat, lo: Option<Key>, hi: Option<Key>)
    requires t.BranchT? && i < |t.children| == |t.keys| + 1 && minKeys > 0 && Ordered(t, lo, hi)
    ensures Ordered(Repaired(t, i, minKeys), lo, hi)
  {
    var ts, keys := t.children, t.keys;
    if AllSiblings(ts) {
      match RepairOf(t, i, minKeys)
      case FromLeft =>
        PairOrdered(t, i - 1, lo, hi);
        ShiftRightOrdered(ts[i - 1], keys[i - 1], ts[i], LoAt(keys, lo, i - 1), HiAt(keys, hi, i));
        WithPairOrdered(t, i - 1, ShiftRight(ts[i - 1], keys[i - 1], ts[i]), lo, hi);
      case FromRight =>
        PairOrdered(t, i, lo, hi);
        ShiftLeftOrdered(ts[i], keys[i], ts[i + 1], LoAt(keys, lo, i), HiAt(keys, hi, i + 1));
        WithPairOrdered(t, i, ShiftLeft(ts[i], keys[i], ts[i + 1]), lo, hi);
      case MergeLeft =>
        PairOrdered(t, i - 1, lo, hi);
        JoinOrdered(ts[i - 1], keys[i - 1], ts[i], LoAt(keys, lo, i - 1), HiAt(keys, hi, i));
        WithJoinedOrdered(t, i - 1, Join(ts[i - 1], keys[i - 1], ts[i]), lo, hi);
      case MergeRight =>
        PairOrdered(t, i, lo, hi);
        JoinOrdered(ts[i], keys[i], ts[i + 1], LoAt(keys, lo, i), HiAt(keys, hi, i + 1));
        WithJoinedOrdered(t, i, Join(ts[i], keys[i], ts[i + 1]), lo, hi);
      case Nothing =>
    }
  }

  /** The ids a repair gives back to the store. */
  ghost function Released<V>(t: Tree<V>, i: nat, minKeys: nat): multiset<NodeId>
    requires t.BranchT? && i < |t.children| == |t.keys| + 1
  {
    if !AllSiblings(t.children) then multiset{} else
    match RepairOf(t, i, minKeys)
    case MergeLeft => multiset{t.children[i].id}
    case MergeRight => multiset{t.children[i + 1].id}
    case _ => multiset{}
  }

  /** A repair moves entries between neighbours and loses none of them. */
  lemma RepairedEntries<V>(t: Tree<V>, i: nat, minKeys: nat)
    requires t.BranchT? && i < |t.children| == |t.keys| + 1 && minKeys > 0
    ensures Entries(Repaired(t, i, minKeys)) == Entries(t)
    ensures IdBag(Repaired(t, i, minKeys)) + Released(t, i, minKeys) == IdBag(t)
  {
    var w, gone := Repaired(t, i, minKeys), Released(t, i, minKeys);
    if AllSiblings(t.children) {
      match RepairOf(t, i, minKeys)
      case FromLeft =>
        BorrowKeeps(t, i - 1, true);
        assert gone == multiset{};
      case FromRight =>
        BorrowKeeps(t, i, false);
        assert gone == multiset{};
      case MergeLeft =>
        WithJoinedEntries(t, i - 1);
        assert gone == multiset{t.children[i].id};
      case MergeRight =>
        WithJoinedEntries(t, i);
        assert gone == multiset{t.children[i + 1].id};
      case Nothing => assert w == t;
    }
  }

  lemma BorrowKeeps<V>(t: Tree<V>, j: nat, toRight: bool)
    requires t.BranchT? && j < |t.keys| && |t.children| == |t.keys| + 1
    requires Siblings(t.children[j], t.children[j + 1])
    requires if toRight then |t.children[j].keys| > 1 else |t.children[j + 1].keys| > 1
    ensures var l, s, r := t.children[j], t.keys[j], t.children[j + 1];
            var w := WithPair(t, j, if toRight then ShiftRight(l, s, r) else ShiftLeft(l, s, r));
            Entries(w) == Entries(t) && IdBag(w) == IdBag(t)
  {
    var l, s, r := t.children[j], t.keys[j], t.children[j + 1];
    if toRight {
      ShiftRightContent(l, s, r);
      WithPairEntries(t, j, ShiftRight(l, s, r));
    } else {
      ShiftLeftContent(l, s, r);
      WithPairEntries(t, j, ShiftLeft(l, s, r));
    }
  }

  /** Two siblings of one level, the right one short by one key: after a shift both are full members. */
  lemma ShiftRightBalanced<V>(l: Tree<V>, s: Key, r: Tree<V>, h: nat, order: nat)
    requires order >= 3 && Balanced(l, h, order, MinKeys(order) + 1) && Balanced(r, h, order, MinKeys(order) - 1)
    requires |r.keys| < MinKeys(order) && Siblings(l, r)
    ensures var p := ShiftRight(l, s, r);
            Balanced(p.left, h, order, MinKeys(order)) && Balanced(p.right, h, order, MinKeys(order))
  {
    if l.BranchT? {
      var p, n := ShiftRight(l, s, r), |l.keys| - 1;
      assert BalancedAll(p.left.children, h - 1, order);
      assert BalancedAll(p.right.children, h - 1, order);
    }
  }

  lemma ShiftLeftBalanced<V>(l: Tree<V>, s: Key, r: Tree<V>, h: nat, order: nat)
    requires order >= 3 && Balanced(l, h, order, MinKeys(order) - 1) && Balanced(r, h, order, MinKeys(order) + 1)
    requires |l.keys| < MinKeys(order) && Siblings(l, r)
    ensures var p := ShiftLeft(l, s, r);
            Balanced(p.left, h, order, MinKeys(order)) && Balanced(p.right, h, order, MinKeys(order))
  {
    if l.BranchT? {
      var p := ShiftLeft(l, s, r);
      assert BalancedAll(p.left.children, h - 1, order);
      assert BalancedAll(p.right.children, h - 1, order);
    }
  }

  /** A sibling without a key to spare and a short one fit into one node. */
  lemma JoinBalanced<V>(l: Tree<V>, s: Key, r: Tree<V>, h: nat, order: nat)
    requires order >= 3 && Balanced(l, h, order, MinKeys(order) - 1) && Balanced(r, h, order, MinKeys(order) - 1)
    requires MinKeys(order) * 2 - 1 == |l.keys| + |r.keys| && Siblings(l, r)
    ensures Balanced(Join(l, s, r), h, order, MinKeys(order))
  {
    if l.BranchT? {
      assert BalancedAll(Join(l, s, r).children, h - 1, order);
    }
  }

  lemma WithPairBalanced<V>(t: Tree<V>, i: nat, j: nat, p: Grown<V>, h: nat, order: nat)
    requires order >= 3 && ShortAt(t, i, h, order) && (j == i || j + 1 == i) && j < |t.keys| && p.Two?
    requires Balanced(p.left, h, order, MinKeys(order)) && Balanced(p.right, h, order, MinKeys(order))
    ensures BalancedAll(WithPair(t, j, p).children, h, order)
  {
  }

  lemma WithJoinedBalanced<V>(t: Tree<V>, i: nat, j: nat, u: Tree<V>, h: nat, order: nat)
    requires order >= 3 && ShortAt(t, i, h, order) && (j == i || j + 1 == i) && j < |t.keys|
    requires Balanced(u, h, order, MinKeys(order))
    ensures BalancedAll(WithJoined(t, j, u).children, h, order)
  {
    var w := WithJoined(t, j, u);
    forall k | 0 <= k < |w.children|
      ensures Balanced(w.children[k], h, order, MinKeys(order))
    {
      if k < j { assert w.children[k] == t.children[k]; }
      if k > j { assert w.children[k] == t.children[k + 1]; }
    }
  }

  lemma Tighten<V>(t: Tree<V>, h: nat, order: nat, m: int, n: int)
    requires order >= 3 && Balanced(t, h, order, m) && n <= |t.keys|
    ensures Balanced(t, h, order, n)
  {
  }

  /** One repair makes every child of the level a full member again, at the cost of at most one separator. */
  lemma RepairedBalanced<V>(t: Tree<V>, i: nat, h: nat, order: nat)
    requires order >= 3 && ShortAt(t, i, h, order) && |t.children[i].keys| < MinKeys(order)
    ensures var w := Repaired(t, i, MinKeys(order));
            Balanced(w, h + 1, order, |t.keys| - 1) && |w.keys| <= |t.keys|
  {
    var ts, keys, least := t.children, t.keys, MinKeys(order);
    ShortSiblings(t, i, h, order);
    match RepairOf(t, i, least)
    case FromLeft =>
      Tighten(ts[i - 1], h, order, least, least + 1);
      ShiftRightBalanced(ts[i - 1], keys[i - 1], ts[i], h, order);
      WithPairBalanced(t, i, i - 1, ShiftRight(ts[i - 1], keys[i - 1], ts[i]), h, order);
    case FromRight =>
      Tighten(ts[i + 1], h, order, least, least + 1);
      ShiftLeftBalanced(ts[i], keys[i], ts[i + 1], h, order);
      WithPairBalanced(t, i, i, ShiftLeft(ts[i], keys[i], ts[i + 1]), h, order);
    case MergeLeft =>
      Tighten(ts[i - 1], h, order, least, least - 1);
      JoinBalanced(ts[i - 1], keys[i - 1], ts[i], h, order);
      WithJoinedBalanced(t, i, i - 1, Join(ts[i - 1], keys[i - 1], ts[i]), h, order);
    case MergeRight =>
      Tighten(ts[i + 1], h, order, least, least - 1);
      JoinBalanced(ts[i], keys[i], ts[i + 1], h, order);
      WithJoinedBalanced(t, i, i, Join(ts[i], keys[i], ts[i + 1]), h, order);
  }

  // ---- The whole removal ----

  ghost function LeafWithout<V>(t: Tree<V>, key: Key): (r: Tree<V>)
    requires t.LeafT? && Routable(t)
    ensures r.LeafT? && r.id == t.id && |r.keys| == |r.vals|
  {
    match BinarySearch(t.keys, key)
    case Found(i) => LeafT(t.id, RemoveAt(t.keys, i), RemoveAt(t.vals, i))
    case Missing(_) => t
  }

  /** Put the child after its removal in place, and repair it if it is short. */
  ghost function Mend<V>(t: Tree<V>, i: nat, c: Tree<V>, minKeys: nat): (w: Tree<V>)
    requires t.BranchT? && i < |t.children| == |t.keys| + 1 && minKeys > 0
    ensures w.BranchT? && w.id == t.id
  {
    var w := BranchWith(t, i, One(c));
    if |c.keys| < minKeys then Repaired(w, i, minKeys) else w
  }

  /** The tree after removing `key`; repairs go from the leaf upwards. */
  ghost function Rem<V>(t: Tree<V>, key: Key, minKeys: nat): (u: Tree<V>)
    requires Routable(t) && minKeys > 0
    ensures u.id == t.id
    decreases t
  {
    if t.LeafT? then LeafWithout(t, key)
    else if Stored(t, key).None? then t
    else Mend(t, ChildIndex(t.keys, key), Rem(Next(t, key), key, minKeys), minKeys)
  }

  /** A root is shed exactly when it is a branch with one child left. */
  ghost function Sheds<V>(t: Tree<V>): nat {
    if t.BranchT? && |t.children| == 1 then 1 else 0
  }

  // ---- What a removal costs ----

  /** Whether a neighbour of child `i` has a key to spare. */
  ghost predicate Lends<V>(t: Tree<V>, i: nat, minKeys: nat)
    requires t.BranchT? && i < |t.children|
  {
    (i > 0 && |t.children[i - 1].keys| > minKeys) || (i + 1 < |t.children| && |t.children[i + 1].keys| > minKeys)
  }

  /** Whether removing `key` costs the root of `t` a key: a leaf its entry, a branch the separator of a merge below it. */
  ghost predicate Drops<V>(t: Tree<V>, key: Key, minKeys: nat)
    requires Routable(t)
    decreases t
  {
    if t.LeafT? then BinarySearch(t.keys, key).Found?
    else Drops(Next(t, key), key, minKeys) && |Next(t, key).keys| <= minKeys && !Lends(t, ChildIndex(t.keys, key), minKeys)
  }

  /** How many nodes of `t` are merged away: one below every branch that drops a key. */
  ghost function Merges<V>(t: Tree<V>, key: Key, minKeys: nat): nat
    requires Routable(t)
    decreases t
  {
    if t.LeafT? then 0 else Merges(Next(t, key), key, minKeys) + (if Drops(t, key, minKeys) then 1 else 0)
  }

  /** A repair costs a key and a node exactly when nobody lends. */
  lemma RepairedCount<V>(t: Tree<V>, i: nat, minKeys: nat)
    requires t.BranchT? && i < |t.children| == |t.keys| + 1 && |t.keys| > 0 && minKeys > 0 && AllSiblings(t.children)
    ensures var w, lost := Repaired(t, i, minKeys), if Lends(t, i, minKeys) then 0 else 1;
            |w.keys| + lost == |t.keys| && |IdBag(w)| + lost == |IdBag(t)|
  {
    RepairedEntries(t, i, minKeys);
  }

  /** Only a removed entry costs anything, and none that leaves its leaf with the minimum. */
  lemma {:induction false} DropsOnly<V>(t: Tree<V>, key: Key, minKeys: nat)
    requires Routable(t)
    ensures Stored(t, key).None? ==> !Drops(t, key, minKeys) && Merges(t, key, minKeys) == 0
    ensures t.BranchT? && |LeafFor(t, key).keys| > minKeys ==> !Drops(t, key, minKeys) && Merges(t, key, minKeys) == 0
    decreases t
  {
    if t.LeafT? {
    } else {
      DropsOnly(Next(t, key), key, minKeys);
    }
  }

  /** A removal costs the root a key exactly if it `Drops` one, and as many nodes as it `Merges`. */
  lemma {:induction false} RemCount<V>(t: Tree<V>, key: Key, h: nat, order: nat, m: int)
    requires order >= 3 && Routable(t) && Balanced(t, h, order, m) && (h >= 2 ==> m >= 1)
    ensures var u, minKeys := Rem(t, key, MinKeys(order)), MinKeys(order);
            && |u.keys| + (if Drops(t, key, minKeys) then 1 else 0) == |t.keys|
            && |IdBag(u)| + Merges(t, key, minKeys) == |IdBag(t)|
    decreases t
  {
    var minKeys := MinKeys(order);
    DropsOnly(t, key, minKeys);
    if t.LeafT? {
    } else if Stored(t, key).Some? {
      var u := Next(t, key);
      RemCount(u, key, h - 1, order, minKeys);
      RemBalanced(u, key, h - 1, order, minKeys);
      RemCountStep(t, u, Rem(u, key, minKeys), key, h, order, m, minKeys);
    }
  }

  lemma RemCountStep<V>(t: Tree<V>, u: Tree<V>, c: Tree<V>, key: Key, h: nat, order: nat, m: int, minKeys: nat)
    requires order >= 3 && h >= 2 && t.BranchT? && Routable(t) && Balanced(t, h, order, m) && m >= 1
    requires minKeys == MinKeys(order) && u == Next(t, key) && Balanced(c, h - 1, order, |u.keys| - 1)
    requires |c.keys| + (if Drops(u, key, minKeys) then 1 else 0) == |u.keys|
    requires |IdBag(c)| + Merges(u, key, minKeys) == |IdBag(u)|
    ensures var w, lost := Mend(t, ChildIndex(t.keys, key), c, minKeys), if Drops(t, key, minKeys) then 1 else 0;
            |w.keys| + lost == |t.keys| && |IdBag(w)| + Merges(t, key, minKeys) == |IdBag(t)|
  {
    var i := ChildIndex(t.keys, key);
    assert Balanced(t.children[i], h - 1, order, minKeys);
    Tighten(c, h - 1, order, |u.keys| - 1, minKeys - 1);
    MendCount(t, i, u, c, h, order, m, minKeys, Lends(t, i, minKeys));
  }

  lemma MendCount<V>(t: Tree<V>, i: nat, u: Tree<V>, c: Tree<V>, h: nat, order: nat, m: int, minKeys: nat, lends: bool)
    requires order >= 3 && h >= 2 && t.BranchT? && i < |t.children| && m >= 1 && minKeys == MinKeys(order)
    requires Balanced(t, h, order, m) && Balanced(c, h - 1, order, minKeys - 1)
    requires u == t.children[i] && lends == Lends(t, i, minKeys)
    ensures var w, lost := Mend(t, i, c, minKeys), if |c.keys| < minKeys && !lends then 1 else 0;
            |w.keys| + lost == |t.keys| && |IdBag(w)| + lost + |IdBag(u)| == |IdBag(t)| + |IdBag(c)|
  {
    var w := BranchWith(t, i, One(c));
    BranchWithCount(t, i, One(c));
    if |c.keys| < minKeys {
      ShortChild(t, i, c, h, order, m);
      LendsKept(t, i, c, minKeys);
      RepairedCount(w, i, minKeys);
    }
  }

  /** A child put in place has siblings on both sides. */
  lemma ShortChild<V>(t: Tree<V>, i: nat, c: Tree<V>, h: nat, order: nat, m: int)
    requires order >= 3 && h >= 2 && t.BranchT? && i < |t.children| && m >= 1
    requires Balanced(t, h, order, m) && Balanced(c, h - 1, order, MinKeys(order) - 1)
    ensures |c.keys| < MinKeys(order) ==> AllSiblings(BranchWith(t, i, One(c)).children)
  {
    MendBalanced(t, i, c, h, order, m);
    if |c.keys| < MinKeys(order) { ShortSiblings(BranchWith(t, i, One(c)), i, h - 1, order); }
  }

  lemma LendsKept<V>(t: Tree<V>, i: nat, c: Tree<V>, minKeys: nat)
    requires t.BranchT? && i < |t.children| == |t.keys| + 1
    ensures Lends(BranchWith(t, i, One(c)), i, minKeys) == Lends(t, i, minKeys)
  {
  }

  lemma LeafWithoutCorrect<V>(t: Tree<V>, key: Key, lo: Option<Key>, hi: Option<Key>)
    requires t.LeafT? && Routable(t) && Ordered(t, lo, hi)
    ensures Ordered(LeafWithout(t, key), lo, hi)
    ensures Entries(LeafWithout(t, key)) == Del(Entries(t), key)
  {
    LeafDel(t.keys, t.vals, key);
  }

  lemma MendBalanced<V>(t: Tree<V>, i: nat, c: Tree<V>, h: nat, order: nat, m: int)
    requires order >= 3 && h >= 2 && t.BranchT? && i < |t.children| && m >= 1
    requires Balanced(t, h, order, m) && Balanced(c, h - 1, order, MinKeys(order) - 1)
    ensures Balanced(Mend(t, i, c, MinKeys(order)), h, order, |t.keys| - 1)
    ensures |c.keys| < MinKeys(order) ==> ShortAt(BranchWith(t, i, One(c)), i, h - 1, order)
  {
    var w := BranchWith(t, i, One(c));
    if |c.keys| < MinKeys(order) {
      assert ShortAt(w, i, h - 1, order);
      RepairedBalanced(w, i, h - 1, order);
    } else {
      Tighten(c, h - 1, order, MinKeys(order) - 1, MinKeys(order));
      assert BalancedAll(w.children, h - 1, order);
    }
  }

  /** Removal keeps the depth of all leaves and leaves the root of a subtree short by at most one key. */
  lemma {:induction false} RemBalanced<V>(t: Tree<V>, key: Key, h: nat, order: nat, m: int)
    requires order >= 3 && Routable(t) && Balanced(t, h, order, m) && (h >= 2 ==> m >= 1)
    ensures Balanced(Rem(t, key, MinKeys(order)), h, order, |t.keys| - 1)
    decreases t
  {
    if t.LeafT? {
    } else if Stored(t, key).None? {
      Tighten(t, h, order, m, |t.keys| - 1);
    } else {
      var i := ChildIndex(t.keys, key);
      RemBalanced(t.children[i], key, h - 1, order, MinKeys(order));
      var c := Rem(t.children[i], key, MinKeys(order));
      Tighten(c, h - 1, order, |t.children[i].keys| - 1, MinKeys(order) - 1);
      MendBalanced(t, i, c, h, order, m);
    }
  }

  /** Removal keeps the order of the keys and the separator bounds. */
  lemma {:induction false} RemOrdered<V>(t: Tree<V>, key: Key, minKeys: nat, lo: Option<Key>, hi: Option<Key>)
    requires Routable(t) && Ordered(t, lo, hi) && minKeys > 0
    requires AtLeast(lo, key) && Below(key, hi)
    ensures Ordered(Rem(t, key, minKeys), lo, hi)
    decreases t
  {
    if t.LeafT? {
      LeafWithoutCorrect(t, key, lo, hi);
    } else if Stored(t, key).Some? {
      var i := ChildIndex(t.keys, key);
      DescendRange(t, lo, hi, key);
      RemOrdered(t.children[i], key, minKeys, LoAt(t.keys, lo, i), HiAt(t.keys, hi, i));
      var c := Rem(t.children[i], key, minKeys);
      ForestReplace(t.children, t.keys, lo, hi, i, c);
      if |c.keys| < minKeys { RepairedOrdered(BranchWith(t, i, One(c)), i, minKeys, lo, hi); }
    }
  }

  /** The in-order sequence after a removal is `Del` of the sequence before. */
  lemma {:induction false} RemEntries<V>(t: Tree<V>, key: Key, minKeys: nat, lo: Option<Key>, hi: Option<Key>)
    requires Routable(t) && Ordered(t, lo, hi) && minKeys > 0
    requires AtLeast(lo, key) && Below(key, hi)
    ensures Entries(Rem(t, key, minKeys)) == Del(Entries(t), key)
    decreases t
  {
    if t.LeafT? {
      LeafWithoutCorrect(t, key, lo, hi);
    } else if Stored(t, key).None? {
      StoredIsFind(t, key, lo, hi);
      FindNoneDel(Entries(t), key);
    } else {
      var i := ChildIndex(t.keys, key);
      DescendRange(t, lo, hi, key);
      RemEntries(t.children[i], key, minKeys, LoAt(t.keys, lo, i), HiAt(t.keys, hi, i));
      MendEntries(t, i, Rem(t.children[i], key, minKeys), key, minKeys, lo, hi);
    }
  }

  lemma MendEntries<V>(t: Tree<V>, i: nat, c: Tree<V>, key: Key, minKeys: nat, lo: Option<Key>, hi: Option<Key>)
    requires t.BranchT? && Ordered(t, lo, hi) && AtLeast(lo, key) && Below(key, hi) && AscendingKeys(t.keys)
    requires i == ChildIndex(t.keys, key) < |t.children| == |t.keys| + 1 && minKeys > 0
    requires Entries(c) == Del(Entries(t.children[i]), key)
    ensures Entries(Mend(t, i, c, minKeys)) == Del(Entries(t), key)
  {
    var a, b := Flatten(t.children[..i]), Flatten(t.children[i + 1..]);
    Descend(t, lo, hi, key);
    DelMiddle(a, Entries(t.children[i]), b, key);
    BranchWithEntries(t, i, One(c));
    if |c.keys| < minKeys { RepairedEntries(BranchWith(t, i, One(c)), i, minKeys); }
  }

  lemma {:induction false} FindNoneDel<V>(es: seq<Entry<V>>, key: Key)
    requires Find(es, key) == None
    ensures Del(es, key) == es
  {
    if es == [] {
    } else {
      FindNoneDel(es[1..], key);
    }
  }
}
