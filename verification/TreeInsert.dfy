/** Insertion as a function on trees: splits, separators and the promise they keep (src/ops.rs:45-196). */
module TreeInsert {
  import opened Wrappers
  import opened SortedEntries
  import opened Nodes
  import opened Trees

  /** What became of a subtree: still one tree, or two with a separator between them. */
  datatype Grown<V> =
    | One(tree: Tree<V>)
    | Two(left: Tree<V>, sep: Key, right: Tree<V>)

  ghost function GrownEntries<V>(g: Grown<V>): seq<Entry<V>> {
    match g
    case One(t) => Entries(t)
    case Two(l, _, r) => Entries(l) + Entries(r)
  }

  ghost function GrownBag<V>(g: Grown<V>): multiset<NodeId> {
    match g
    case One(t) => IdBag(t)
    case Two(l, _, r) => IdBag(l) + IdBag(r)
  }

  /** The invariant of the result: one tree of at least `m` root keys, or two full members of their level. */
  ghost predicate Fits<V>(g: Grown<V>, h: nat, order: nat, m: int, lo: Option<Key>, hi: Option<Key>)
    requires order >= 3
  {
    match g
    case One(t) => Balanced(t, h, order, m) && Ordered(t, lo, hi)
    case Two(l, s, r) =>
      && Balanced(l, h, order, MinKeys(order)) && Ordered(l, lo, Some(s))
      && Balanced(r, h, order, MinKeys(order)) && Ordered(r, Some(s), hi)
      && Above(lo, s) && Below(s, hi)
  }

  // ---- One level of the insertion, on trees ----

  /** A node of more than `order - 1` keys is cut in the middle; a leaf copies its middle key up, a branch moves it up. */
  ghost function Cut<V>(t: Tree<V>, spare: NodeId): Grown<V>
    requires |t.keys| >= 2
    requires if t.LeafT? then |t.keys| == |t.vals| else |t.children| == |t.keys| + 1
  {
    var mid := |t.keys| / 2;
    match t
    case LeafT(id, keys, vals) =>
      Two(LeafT(id, keys[..mid], vals[..mid]), keys[mid], LeafT(spare, keys[mid..], vals[mid..]))
    case BranchT(id, keys, children) =>
      Two(BranchT(id, keys[..mid], children[..mid + 1]), keys[mid],
          BranchT(spare, keys[mid + 1..], children[mid + 1..]))
  }

  ghost function Settle<V>(t: Tree<V>, order: nat, spare: NodeId): Grown<V>
    requires order >= 3
    requires if t.LeafT? then |t.keys| == |t.vals| else |t.children| == |t.keys| + 1
  {
    if |t.keys| < order then One(t) else Cut(t, spare)
  }

  /** Store an entry in a leaf, which may then be too wide. */
  ghost function LeafWith<V>(t: Tree<V>, key: Key, val: V): (r: Tree<V>)
    requires t.LeafT? && AscendingKeys(t.keys) && |t.keys| == |t.vals|
    ensures r.LeafT? && r.id == t.id && |r.keys| == |r.vals|
  {
    match BinarySearch(t.keys, key)
    case Found(i) => LeafT(t.id, t.keys, t.vals[i := val])
    case Missing(i) => LeafT(t.id, InsertAt(t.keys, i, key), InsertAt(t.vals, i, val))
  }

  /** Put what became of child `i` in its place; the branch may then be too wide. */
  ghost function BranchWith<V>(t: Tree<V>, i: nat, g: Grown<V>): (r: Tree<V>)
    requires t.BranchT? && i < |t.children| == |t.keys| + 1
    ensures r.BranchT? && r.id == t.id && |r.children| == |r.keys| + 1
  {
    match g
    case One(c) => BranchT(t.id, t.keys, t.children[i := c])
    case Two(l, s, r) => BranchT(t.id, InsertAt(t.keys, i, s), InsertAt(t.children[i := l], i + 1, r))
  }

  lemma ZipCut<V>(keys: seq<Key>, vals: seq<V>, m: nat)
    requires m <= |keys| == |vals|
    ensures Zip(keys, vals) == Zip(keys[..m], vals[..m]) + Zip(keys[m..], vals[m..])
  {
  }

  /** Splitting a node moves no entry and no node; it only adds the spare one. */
  lemma CutEntries<V>(t: Tree<V>, spare: NodeId)
    requires |t.keys| >= 2
    requires if t.LeafT? then |t.keys| == |t.vals| else |t.children| == |t.keys| + 1
    ensures GrownEntries(Cut(t, spare)) == Entries(t)
    ensures GrownBag(Cut(t, spare)) == IdBag(t) + multiset{spare}
  {
    var mid := |t.keys| / 2;
    if t.LeafT? {
      ZipCut(t.keys, t.vals, mid);
    } else {
      var a, b := t.children[..mid + 1], t.children[mid + 1..];
      assert t.children == a + b;
      FlattenConcat(a, b);
      BagsConcat(a, b);
    }
  }

  /** Both halves of a node with exactly `order` keys are within the occupancy limits. */
  lemma CutFits<V>(t: Tree<V>, spare: NodeId, h: nat, order: nat, m: int, lo: Option<Key>, hi: Option<Key>)
    requires order >= 3 && |t.keys| == order
    requires if t.LeafT? then h == 1 && |t.keys| == |t.vals|
             else h >= 2 && |t.children| == |t.keys| + 1 && BalancedAll(t.children, h - 1, order)
    requires Ordered(t, lo, hi)
    ensures Fits(Cut(t, spare), h, order, m, lo, hi)
  {
    if t.LeafT? {
      CutLeafOrdered(t, spare, lo, hi);
    } else {
      CutBranchOrdered(t, spare, lo, hi);
      CutBalanced(t.children, h - 1, order, |t.keys| / 2 + 1);
    }
  }

  lemma CutLeafOrdered<V>(t: Tree<V>, spare: NodeId, lo: Option<Key>, hi: Option<Key>)
    requires t.LeafT? && |t.keys| >= 2 && Ordered(t, lo, hi)
    ensures var g := Cut(t, spare);
            && Ordered(g.left, lo, Some(g.sep)) && Ordered(g.right, Some(g.sep), hi)
            && Above(lo, g.sep) && Below(g.sep, hi)
  {
    assert t.keys[0] < t.keys[|t.keys| / 2];
  }

  lemma CutBranchOrdered<V>(t: Tree<V>, spare: NodeId, lo: Option<Key>, hi: Option<Key>)
    requires t.BranchT? && |t.keys| >= 2 && |t.children| == |t.keys| + 1 && Ordered(t, lo, hi)
    ensures var g := Cut(t, spare);
            && Ordered(g.left, lo, Some(g.sep)) && Ordered(g.right, Some(g.sep), hi)
            && Above(lo, g.sep) && Below(g.sep, hi)
  {
    ForestCut(t.children, t.keys, lo, hi, |t.keys| / 2);
  }

  lemma CutBalanced<V>(ts: seq<Tree<V>>, h: nat, order: nat, m: nat)
    requires order >= 3 && m <= |ts| && BalancedAll(ts, h, order)
    ensures BalancedAll(ts[..m], h, order) && BalancedAll(ts[m..], h, order)
  {
  }

  lemma LeafWithEntries<V>(t: Tree<V>, key: Key, val: V)
    requires t.LeafT? && AscendingKeys(t.keys) && |t.keys| == |t.vals|
    ensures Entries(LeafWith(t, key, val)) == Put(Entries(t), key, val)
  {
    LeafPut(t.keys, t.vals, key, val);
  }

  lemma LeafWithOrdered<V>(t: Tree<V>, key: Key, val: V, lo: Option<Key>, hi: Option<Key>)
    requires t.LeafT? && Ordered(t, lo, hi) && AtLeast(lo, key) && Below(key, hi)
    ensures Ordered(LeafWith(t, key, val), lo, hi)
  {
  }

  /** Exchanging one tree of a forest for another that keeps to its range. */
  lemma ForestReplace<V>(ts: seq<Tree<V>>, keys: seq<Key>, lo: Option<Key>, hi: Option<Key>, i: nat, t: Tree<V>)
    requires OrderedForest(ts, keys, lo, hi) && i < |ts|
    requires Ordered(t, LoAt(keys, lo, i), HiAt(keys, hi, i))
    ensures OrderedForest(ts[i := t], keys, lo, hi)
  {
  }

  /** Exchanging one tree of a forest for two with a separator between them. */
  lemma ForestSplit<V>(ts: seq<Tree<V>>, keys: seq<Key>, lo: Option<Key>, hi: Option<Key>,
                       i: nat, l: Tree<V>, s: Key, r: Tree<V>)
    requires OrderedForest(ts, keys, lo, hi) && i < |ts|
    requires Ordered(l, LoAt(keys, lo, i), Some(s)) && Ordered(r, Some(s), HiAt(keys, hi, i))
    requires Above(LoAt(keys, lo, i), s) && Below(s, HiAt(keys, hi, i))
    ensures OrderedForest(InsertAt(ts[i := l], i + 1, r), InsertAt(keys, i, s), lo, hi)
  {
    var us, ks := InsertAt(ts[i := l], i + 1, r), InsertAt(keys, i, s);
    SeparatorInsert(keys, lo, hi, i, s);
    forall j | 0 <= j < |us|
      ensures Ordered(us[j], LoAt(ks, lo, j), HiAt(ks, hi, j))
    {
      if j < i {
        assert Ordered(ts[j], LoAt(keys, lo, j), HiAt(keys, hi, j));
      } else if j > i + 1 {
        assert Ordered(ts[j - 1], LoAt(keys, lo, j - 1), HiAt(keys, hi, j - 1));
      }
    }
  }

  lemma SeparatorInsert(keys: seq<Key>, lo: Option<Key>, hi: Option<Key>, i: nat, s: Key)
    requires Separators(keys, lo, hi) && i <= |keys|
    requires Above(LoAt(keys, lo, i), s) && Below(s, HiAt(keys, hi, i))
    ensures Separators(InsertAt(keys, i, s), lo, hi)
  {
    var ks := InsertAt(keys, i, s);
    forall j | 0 <= j < |keys|
      ensures j < i ==> keys[j] < s
      ensures j >= i ==> s < keys[j]
    {
      if j < i - 1 { assert keys[j] < keys[i - 1]; }
      if j > i { assert keys[i] < keys[j]; }
    }
    assert Above(lo, s) by {
      if i > 0 { assert Above(lo, keys[i - 1]); }
    }
    assert Below(s, hi) by {
      if i < |keys| { assert Below(keys[i], hi); }
    }
  }

  lemma BranchWithOrdered<V>(t: Tree<V>, i: nat, g: Grown<V>, order: nat, h: nat, lo: Option<Key>, hi: Option<Key>)
    requires order >= 3 && t.BranchT? && i < |t.children| == |t.keys| + 1 && Ordered(t, lo, hi)
    requires Fits(g, h, order, MinKeys(order), LoAt(t.keys, lo, i), HiAt(t.keys, hi, i))
    ensures Ordered(BranchWith(t, i, g), lo, hi)
  {
    if g.One? {
      ForestReplace(t.children, t.keys, lo, hi, i, g.tree);
    } else {
      ForestSplit(t.children, t.keys, lo, hi, i, g.left, g.sep, g.right);
    }
  }

  lemma BranchWithBalanced<V>(t: Tree<V>, i: nat, g: Grown<V>, order: nat, h: nat, lo: Option<Key>, hi: Option<Key>)
    requires order >= 3 && t.BranchT? && i < |t.children| == |t.keys| + 1
    requires BalancedAll(t.children, h, order) && Fits(g, h, order, MinKeys(order), lo, hi)
    ensures BalancedAll(BranchWith(t, i, g).children, h, order)
  {
  }

  lemma SpliceOne<V>(ts: seq<Tree<V>>, i: nat, c: Tree<V>)
    requires i < |ts|
    ensures Flatten(ts[i := c]) == Flatten(ts[..i]) + Entries(c) + Flatten(ts[i + 1..])
    ensures Bags(ts[i := c]) == Bags(ts[..i]) + IdBag(c) + Bags(ts[i + 1..])
  {
    var us := ts[i := c];
    assert us[..i] == ts[..i] && us[i + 1..] == ts[i + 1..];
    FlattenAt(us, i);
    BagsAt(us, i);
  }

  lemma SpliceTwo<V>(ts: seq<Tree<V>>, i: nat, l: Tree<V>, r: Tree<V>)
    requires i < |ts|
    ensures var us := InsertAt(ts[i := l], i + 1, r);
            && Flatten(us) == Flatten(ts[..i]) + (Entries(l) + Entries(r)) + Flatten(ts[i + 1..])
            && Bags(us) == Bags(ts[..i]) + (IdBag(l) + IdBag(r)) + Bags(ts[i + 1..])
  {
    var us := InsertAt(ts[i := l], i + 1, r);
    assert us == ts[..i] + [l] + ([r] + ts[i + 1..]);
    FlattenConcat(ts[..i] + [l], [r] + ts[i + 1..]);
    FlattenConcat(ts[..i], [l]);
    FlattenConcat([r], ts[i + 1..]);
    FlattenOne(l);
    FlattenOne(r);
    BagsConcat(ts[..i] + [l], [r] + ts[i + 1..]);
    BagsConcat(ts[..i], [l]);
    BagsConcat([r], ts[i + 1..]);
    BagsOne(l);
    BagsOne(r);
    Regroup(Flatten(ts[..i]), Entries(l), Entries(r), Flatten(ts[i + 1..]));
  }

  lemma Regroup<T>(a: seq<T>, b: seq<T>, c: seq<T>, d: seq<T>)
    ensures (a + b) + (c + d) == a + (b + c) + d
  {
  }

  lemma BranchWithEntries<V>(t: Tree<V>, i: nat, g: Grown<V>)
    requires t.BranchT? && i < |t.children| == |t.keys| + 1
    ensures var r := BranchWith(t, i, g);
            && Entries(r) == Flatten(t.children[..i]) + GrownEntries(g) + Flatten(t.children[i + 1..])
            && IdBag(r) == multiset{t.id} + (Bags(t.children[..i]) + GrownBag(g) + Bags(t.children[i + 1..]))
  {
    match g
    case One(c) => SpliceOne(t.children, i, c);
    case Two(l, _, r) => SpliceTwo(t.children, i, l, r);
  }

  // ---- How many nodes an insertion needs ----

  /** Whether inserting `key` splits the root of `t`. */
  ghost predicate Overflows<V>(t: Tree<V>, key: Key, order: nat)
    requires Routable(t)
    decreases t
  {
    && |t.keys| + 1 >= order
    && if t.LeafT? then BinarySearch(t.keys, key).Missing? else Overflows(Next(t, key), key, order)
  }

  /** How many nodes of `t` inserting `key` splits. */
  ghost function Splits<V>(t: Tree<V>, key: Key, order: nat): nat
    requires Routable(t)
    decreases t
  {
    (if t.BranchT? then Splits(Next(t, key), key, order) else 0) + (if Overflows(t, key, order) then 1 else 0)
  }

  // ---- The whole insertion ----

  /** The slots left for the split nodes below the root of `t`. */
  ghost function ChildSpares<V>(t: Tree<V>, key: Key, order: nat, spares: seq<NodeId>): seq<NodeId>
    requires Routable(t)
  {
    if Overflows(t, key, order) && spares != [] then spares[..|spares| - 1] else spares
  }

  /** The slot for the right half of the root of `t`, if that splits. */
  ghost function OwnSpare<V>(t: Tree<V>, key: Key, order: nat, spares: seq<NodeId>): NodeId
    requires Routable(t)
  {
    if Overflows(t, key, order) && spares != [] then spares[|spares| - 1] else 0
  }

  /**
    The tree after inserting `key`: splits go from the leaf upwards and take their new slots from `spares` in that
    order.
   */
  ghost function Ins<V>(t: Tree<V>, key: Key, val: V, order: nat, spares: seq<NodeId>): Grown<V>
    requires order >= 3 && Routable(t)
    decreases t
  {
    var own := OwnSpare(t, key, order, spares);
    if t.LeafT? then Settle(LeafWith(t, key, val), order, own)
    else
      var c := Ins(Next(t, key), key, val, order, ChildSpares(t, key, order, spares));
      Settle(BranchWith(t, ChildIndex(t.keys, key), c), order, own)
  }

  /** The tree after an insertion: a split root gets a new root with one separator above its halves. */
  ghost function Rooted<V>(g: Grown<V>, top: NodeId): Tree<V> {
    match g
    case One(t) => t
    case Two(l, s, r) => BranchT(top, [s], [l, r])
  }

  /** A subtree splits exactly when it overflows, and its left half keeps its id. */
  lemma {:induction false} InsShape<V>(t: Tree<V>, key: Key, val: V, order: nat, spares: seq<NodeId>, h: nat, m: int)
    requires order >= 3 && Routable(t) && Balanced(t, h, order, m)
    ensures Ins(t, key, val, order, spares).Two? <==> Overflows(t, key, order)
    ensures GrownId(Ins(t, key, val, order, spares)) == t.id
    decreases t
  {
    if t.LeafT? {
    } else {
      InsShape(Next(t, key), key, val, order, ChildSpares(t, key, order, spares), h - 1, MinKeys(order));
    }
  }

  /** Of a node of `n` keys, `n / 2` stay left; a leaf copies its middle key up, a branch gives it away. */
  lemma CutHalves<V>(t: Tree<V>, spare: NodeId, n: nat)
    requires |t.keys| == n >= 2 && if t.LeafT? then |t.keys| == |t.vals| else |t.children| == |t.keys| + 1
    ensures var g := Cut(t, spare);
            && |g.left.keys| == n / 2 && |g.right.keys| == n - n / 2 - (if t.LeafT? then 0 else 1)
            && g.sep == t.keys[n / 2] && (t.LeafT? ==> g.sep == g.right.keys[0])
  {
  }

  /** A node that splits has exactly `order` keys at that moment, whose halves are pinned down by that number. */
  lemma InsHalves<V>(t: Tree<V>, key: Key, val: V, order: nat, spares: seq<NodeId>, g: Grown<V>, h: nat, m: int)
    requires order >= 3 && Routable(t) && Balanced(t, h, order, m) && g == Ins(t, key, val, order, spares)
    ensures g.Two? ==> |g.left.keys| == order / 2 && |g.right.keys| == order - order / 2 - (if t.LeafT? then 0 else 1)
    ensures g.Two? && t.LeafT? ==> g.sep == g.right.keys[0]
  {
    if g.Two? {
      var own := OwnSpare(t, key, order, spares);
      if t.LeafT? {
        CutHalves(LeafWith(t, key, val), own, order);
      } else {
        var c := Ins(Next(t, key), key, val, order, ChildSpares(t, key, order, spares));
        CutHalves(BranchWith(t, ChildIndex(t.keys, key), c), own, order);
      }
    }
  }

  ghost function GrownId<V>(g: Grown<V>): NodeId {
    if g.One? then g.tree.id else g.left.id
  }

  lemma BranchSettles<V>(t: Tree<V>, i: nat, c: Grown<V>, order: nat, spare: NodeId, h: nat, m: int,
                         lo: Option<Key>, hi: Option<Key>)
    requires order >= 3 && h >= 2 && t.BranchT? && i < |t.children|
    requires Balanced(t, h, order, m) && Ordered(t, lo, hi)
    requires Fits(c, h - 1, order, MinKeys(order), LoAt(t.keys, lo, i), HiAt(t.keys, hi, i))
    ensures Fits(Settle(BranchWith(t, i, c), order, spare), h, order, m, lo, hi)
  {
    BranchWithOrdered(t, i, c, order, h - 1, lo, hi);
    BranchWithBalanced(t, i, c, order, h - 1, LoAt(t.keys, lo, i), HiAt(t.keys, hi, i));
    var w := BranchWith(t, i, c);
    if |w.keys| >= order { CutFits(w, spare, h, order, m, lo, hi); }
  }

  lemma LeafSettles<V>(t: Tree<V>, key: Key, val: V, order: nat, spare: NodeId, h: nat, m: int,
                       lo: Option<Key>, hi: Option<Key>)
    requires order >= 3 && t.LeafT? && Balanced(t, h, order, m) && Ordered(t, lo, hi)
    requires AtLeast(lo, key) && Below(key, hi)
    ensures Fits(Settle(LeafWith(t, key, val), order, spare), h, order, m, lo, hi)
  {
    LeafWithOrdered(t, key, val, lo, hi);
    var w := LeafWith(t, key, val);
    if |w.keys| >= order { CutFits(w, spare, h, order, m, lo, hi); }
  }

  /** Insertion keeps balance, occupancy and order; when the root splits, both halves are full members of their level. */
  lemma {:induction false} InsFits<V>(t: Tree<V>, key: Key, val: V, order: nat, spares: seq<NodeId>, h: nat, m: int,
                                      lo: Option<Key>, hi: Option<Key>)
    requires order >= 3 && Routable(t) && Balanced(t, h, order, m) && Ordered(t, lo, hi)
    requires AtLeast(lo, key) && Below(key, hi)
    ensures Fits(Ins(t, key, val, order, spares), h, order, m, lo, hi)
    decreases t
  {
    var own := OwnSpare(t, key, order, spares);
    if t.LeafT? {
      LeafSettles(t, key, val, order, own, h, m, lo, hi);
    } else {
      var i, rest := ChildIndex(t.keys, key), ChildSpares(t, key, order, spares);
      DescendRange(t, lo, hi, key);
      InsFits(t.children[i], key, val, order, rest, h - 1, MinKeys(order), LoAt(t.keys, lo, i), HiAt(t.keys, hi, i));
      BranchSettles(t, i, Ins(t.children[i], key, val, order, rest), order, own, h, m, lo, hi);
    }
  }

  /** The in-order sequence after an insertion is `Put` of the sequence before. */
  lemma {:induction false} InsEntries<V>(t: Tree<V>, key: Key, val: V, order: nat, spares: seq<NodeId>,
                                         lo: Option<Key>, hi: Option<Key>)
    requires order >= 3 && Routable(t) && Ordered(t, lo, hi)
    requires AtLeast(lo, key) && Below(key, hi)
    ensures GrownEntries(Ins(t, key, val, order, spares)) == Put(Entries(t), key, val)
    decreases t
  {
    var own := OwnSpare(t, key, order, spares);
    if t.LeafT? {
      LeafWithEntries(t, key, val);
      SettleEntries(LeafWith(t, key, val), order, own);
    } else {
      var i, rest := ChildIndex(t.keys, key), ChildSpares(t, key, order, spares);
      DescendRange(t, lo, hi, key);
      InsEntries(t.children[i], key, val, order, rest, LoAt(t.keys, lo, i), HiAt(t.keys, hi, i));
      PutBelow(t, i, Ins(t.children[i], key, val, order, rest), key, val, lo, hi);
      SettleEntries(BranchWith(t, i, Ins(t.children[i], key, val, order, rest)), order, own);
    }
  }

  lemma PutBelow<V>(t: Tree<V>, i: nat, c: Grown<V>, key: Key, val: V, lo: Option<Key>, hi: Option<Key>)
    requires t.BranchT? && Ordered(t, lo, hi) && AtLeast(lo, key) && Below(key, hi) && AscendingKeys(t.keys)
    requires i == ChildIndex(t.keys, key) < |t.children| == |t.keys| + 1
    requires GrownEntries(c) == Put(Entries(t.children[i]), key, val)
    ensures Entries(BranchWith(t, i, c)) == Put(Entries(t), key, val)
  {
    var a, b := Flatten(t.children[..i]), Flatten(t.children[i + 1..]);
    Descend(t, lo, hi, key);
    PutMiddle(a, Entries(t.children[i]), b, key, val);
    BranchWithEntries(t, i, c);
  }

  lemma SettleEntries<V>(w: Tree<V>, order: nat, spare: NodeId)
    requires order >= 3
    requires if w.LeafT? then |w.keys| == |w.vals| else |w.children| == |w.keys| + 1
    ensures GrownEntries(Settle(w, order, spare)) == Entries(w)
  {
    if |w.keys| >= order { CutEntries(w, spare); }
  }

  lemma SettleCount<V>(w: Tree<V>, order: nat, spare: NodeId)
    requires order >= 3
    requires if w.LeafT? then |w.keys| == |w.vals| else |w.children| == |w.keys| + 1
    ensures |GrownBag(Settle(w, order, spare))| == |IdBag(w)| + if |w.keys| >= order then 1 else 0
  {
    if |w.keys| >= order {
      CutEntries(w, spare);
      assert |IdBag(w) + multiset{spare}| == |IdBag(w)| + 1;
    }
  }

  lemma BranchWithCount<V>(t: Tree<V>, i: nat, c: Grown<V>)
    requires t.BranchT? && i < |t.children| == |t.keys| + 1
    ensures |IdBag(BranchWith(t, i, c))| + |IdBag(t.children[i])| == |IdBag(t)| + |GrownBag(c)|
  {
    BranchWithEntries(t, i, c);
    BagsAt(t.children, i);
  }

  /** An insertion adds one node for every split. */
  lemma {:induction false} InsCount<V>(t: Tree<V>, key: Key, val: V, order: nat, spares: seq<NodeId>, h: nat, m: int)
    requires order >= 3 && Routable(t) && Balanced(t, h, order, m)
    ensures |GrownBag(Ins(t, key, val, order, spares))| == |IdBag(t)| + Splits(t, key, order)
    decreases t
  {
    var own := OwnSpare(t, key, order, spares);
    if t.LeafT? {
      SettleCount(LeafWith(t, key, val), order, own);
    } else {
      var i, rest := ChildIndex(t.keys, key), ChildSpares(t, key, order, spares);
      var c := Ins(t.children[i], key, val, order, rest);
      InsShape(t.children[i], key, val, order, rest, h - 1, MinKeys(order));
      InsCount(t.children[i], key, val, order, rest, h - 1, MinKeys(order));
      BranchWithCount(t, i, c);
      SettleCount(BranchWith(t, i, c), order, own);
    }
  }
}
