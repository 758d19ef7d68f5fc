/** What balance implies for height, size and node count (src/tree.rs:15-18, 190-218, 399-404). */
module Bounds {
  import opened SortedEntries
  import opened Nodes
  import opened Trees
  import opened TreeInsert

  // The fan-out of the public constructors.
  const DEFAULT_ORDER: nat := 64

  function Pow(b: nat, e: nat): nat {
    if e == 0 then 1 else b * Pow(b, e - 1)
  }

  /** The fewest entries below a full member of level `h`: every node at its minimum. */
  function Least(order: nat, h: nat): nat
    requires order >= 3
  {
    if h <= 1 then MinKeys(order) else (MinKeys(order) + 1) * Least(order, h - 1)
  }

  /** The most entries below a node of level `h`: every node full. */
  function Most(order: nat, h: nat): nat
    requires order >= 3
  {
    if h <= 1 then order - 1 else order * Most(order, h - 1)
  }

  lemma {:induction false} LeastIsPow(order: nat, h: nat)
    requires order >= 3 && h >= 1
    ensures Least(order, h) == MinKeys(order) * Pow(MinKeys(order) + 1, h - 1)
  {
    if h == 1 {
    } else {
      LeastIsPow(order, h - 1);
      var t, m, p := MinKeys(order) + 1, MinKeys(order), Pow(MinKeys(order) + 1, h - 2);
      Swap(t, m, p);
    }
  }

  lemma {:induction false} MostIsPow(order: nat, h: nat)
    requires order >= 3 && h >= 1
    ensures Most(order, h) == (order - 1) * Pow(order, h - 1)
  {
    if h == 1 {
    } else {
      MostIsPow(order, h - 1);
      Swap(order, order - 1, Pow(order, h - 2));
    }
  }

  lemma Swap(a: nat, b: nat, c: nat)
    ensures a * (b * c) == b * (a * c)
  {
  }

  lemma TimesStep(n: nat, x: nat)
    requires n > 0
    ensures n * x == x + (n - 1) * x
  {
  }

  lemma TimesMonotone(a: nat, b: nat, x: nat)
    requires a <= b
    ensures a * x <= b * x && x * a <= x * b
  {
  }

  // ---- Entries and nodes of a balanced tree ----

  /** A balanced tree has at most twice as many nodes as entries, and its size fits its height. */
  lemma {:induction false} SizeBounds<V>(t: Tree<V>, h: nat, order: nat, m: nat)
    requires order >= 3 && Balanced(t, h, order, m) && (h >= 2 ==> m >= 1)
    ensures |Entries(t)| <= Most(order, h)
    ensures h >= 2 ==> (m + 1) * Least(order, h - 1) <= |Entries(t)|
    ensures h == 1 ==> m <= |Entries(t)|
    ensures |Entries(t)| >= 1 ==> |IdBag(t)| <= 2 * |Entries(t)| - 1
    ensures h >= 2 ==> |Entries(t)| >= 1
    decreases t, 1
  {
    if t.LeafT? {
    } else {
      ForestBounds(t.children, h - 1, order);
      TimesMonotone(m + 1, |t.children|, Least(order, h - 1));
      TimesMonotone(|t.children|, order, Most(order, h - 1));
      assert |IdBag(t)| == 1 + |Bags(t.children)|;
    }
  }

  lemma {:induction false} ForestBounds<V>(ts: seq<Tree<V>>, h: nat, order: nat)
    requires order >= 3 && h >= 1 && BalancedAll(ts, h, order)
    ensures |ts| * Least(order, h) <= |Flatten(ts)| <= |ts| * Most(order, h)
    ensures |Bags(ts)| + |ts| <= 2 * |Flatten(ts)| && |ts| <= |Flatten(ts)|
    decreases ts, 0
  {
    if ts == [] {
    } else {
      SizeBounds(ts[0], h, order, MinKeys(order));
      LeastStep(order, h);
      assert BalancedAll(ts[1..], h, order);
      ForestBounds(ts[1..], h, order);
      TimesStep(|ts|, Least(order, h));
      TimesStep(|ts|, Most(order, h));
    }
  }

  lemma LeastStep(order: nat, h: nat)
    requires order >= 3 && h >= 1
    ensures h >= 2 ==> Least(order, h) == (MinKeys(order) + 1) * Least(order, h - 1)
    ensures h == 1 ==> Least(order, h) == MinKeys(order)
  {
  }

  // ---- Height ----

  /**
    With `t = ceil(order / 2)`: a tree of height `h >= 2` holds from `2 (t-1) t^(h-2)` to `(order-1) order^(h-1)`
    entries.
   */
  lemma HeightBounds<V>(t: Tree<V>, h: nat, order: nat)
    requires order >= 3 && Balanced(t, h, order, RootMin(h))
    ensures h >= 1 && |Entries(t)| <= (order - 1) * Pow(order, h - 1)
    ensures h >= 2 ==> 2 * (MinKeys(order) * Pow(MinKeys(order) + 1, h - 2)) <= |Entries(t)|
  {
    SizeBounds(t, h, order, RootMin(h));
    MostIsPow(order, h);
    if h >= 2 { LeastIsPow(order, h - 1); }
  }

  /** Every root-to-leaf walk, whatever child it takes at each step, visits as many nodes as the tree has levels. */
  lemma {:induction false} EveryPathHasHeight<V>(t: Tree<V>, h: nat, order: nat, m: int, turns: seq<nat>)
    requires order >= 3 && Balanced(t, h, order, m)
    ensures h >= 1
    ensures Walks(t, turns) ==> |turns| + 1 == h
    decreases t
  {
    if t.LeafT? {
    } else if Walks(t, turns) {
      EveryPathHasHeight(t.children[turns[0]], h - 1, order, MinKeys(order), turns[1..]);
    }
  }

  /** `turns` are the child indices on a way from the root of `t` to a leaf. */
  ghost predicate Walks<V>(t: Tree<V>, turns: seq<nat>)
    decreases t
  {
    match t
    case LeafT(_, _, _) => turns == []
    case BranchT(_, _, children) => turns != [] && turns[0] < |children| && Walks(children[turns[0]], turns[1..])
  }

  lemma {:induction false} PowMonotone(b: nat, d: nat, e: nat)
    requires b >= 1 && d <= e
    ensures 1 <= Pow(b, d) <= Pow(b, e)
  {
    if d < e {
      PowMonotone(b, d, e - 1);
      TimesMonotone(1, b, Pow(b, e - 1));
    } else if d > 0 {
      PowMonotone(b, d - 1, e - 1);
      TimesMonotone(1, b, Pow(b, e - 1));
    }
  }

  /** A tree of the default order with a million keys stands exactly four levels tall, however it was built. */
  lemma MillionKeys<V>(t: Tree<V>, h: nat)
    requires Balanced(t, h, DEFAULT_ORDER, RootMin(h)) && |Entries(t)| == 1_000_000
    ensures h == 4
  {
    HeightBounds(t, h, 64);
    assert Pow(64, 0) == 1 && Pow(64, 1) == 64 && Pow(64, 2) == 4096;
    assert Pow(32, 0) == 1 && Pow(32, 1) == 32 && Pow(32, 2) == 1024 && Pow(32, 3) == 32768;
    if h <= 3 { PowMonotone(64, h - 1, 2); }
    if h >= 5 { PowMonotone(32, 3, h - 2); }
  }

  /**
    docs/API.md:698-699 promises that a lookup visits at most log_order(n) levels. No tree keeps to that: one of
    `h` levels holds `n < order^h` entries, so for every n >= 1, where the logarithm is defined, `h` exceeds it.
   */
  lemma MoreLevelsThanLogarithm<V>(t: Tree<V>, h: nat, order: nat)
    requires order >= 3 && Balanced(t, h, order, RootMin(h))
    ensures |Entries(t)| < Pow(order, h)
  {
    HeightBounds(t, h, order);
    PowMonotone(order, 0, h - 1);
    TimesStep(order, Pow(order, h - 1));
  }

  // ---- Node count ----

  /**
    The most nodes a tree of `n` entries can have. Every leaf but a lone one holds at least
    `m = MinKeys(order)` entries and every branch but the root has at least `m + 1` children.
   */
  function NodeBound(n: nat, order: nat): (most: nat)
    requires order >= 3
    ensures most >= 1
  {
    var m := MinKeys(order);
    if n < 2 * m then 1
    else
      AtLeastOneNode(n, m);
      (n * (m + 1) + m * m - 2 * m) / (m * m)
  }

  lemma AtLeastOneNode(n: nat, m: nat)
    requires m >= 1 && n >= 2 * m
    ensures m * m > 0 && n * (m + 1) + m * m - 2 * m >= m * m
  {
    TimesMonotone(1, m + 1, n);
    TimesMonotone(1, m, m);
  }

  lemma DivideBound(a: nat, d: nat, x: nat)
    requires d > 0
    ensures a <= x / d <==> a * d <= x
  {
    var q := x / d;
    assert q * d <= x < (q + 1) * d by {
      assert x == d * q + x % d;
    }
    if a <= q {
      TimesMonotone(a, q, d);
    } else {
      TimesMonotone(q + 1, a, d);
    }
  }

  /** A node count weighed by the minimum occupancy, for the subtrees of a node. */
  lemma {:induction false} TreeWeight<V>(t: Tree<V>, h: nat, order: nat)
    requires order >= 3 && Balanced(t, h, order, MinKeys(order))
    ensures var m := MinKeys(order); |IdBag(t)| * (m * m) + m <= |Entries(t)| * (m + 1)
    decreases t, 1
  {
    var m := MinKeys(order);
    match t
    case LeafT(_, _, _) =>
      TimesMonotone(m, |Entries(t)|, m + 1);
      TimesStep(m + 1, m);
    case BranchT(_, _, children) =>
      ForestWeight(children, h - 1, order);
      assert |IdBag(t)| == 1 + |Bags(children)|;
      TimesStep(1 + |Bags(children)|, m * m);
      TimesMonotone(m + 1, |children|, m);
      TimesStep(m + 1, m);
  }

  lemma {:induction false} ForestWeight<V>(ts: seq<Tree<V>>, h: nat, order: nat)
    requires order >= 3 && BalancedAll(ts, h, order)
    ensures var m := MinKeys(order); |Bags(ts)| * (m * m) + |ts| * m <= |Flatten(ts)| * (m + 1)
    decreases ts, 0
  {
    if ts == [] {
    } else {
      var m := MinKeys(order);
      TreeWeight(ts[0], h, order);
      assert BalancedAll(ts[1..], h, order);
      ForestWeight(ts[1..], h, order);
      TimesSum(|IdBag(ts[0])|, |Bags(ts[1..])|, m * m);
      TimesSum(|Entries(ts[0])|, |Flatten(ts[1..])|, m + 1);
      TimesStep(|ts|, m);
      assert |Bags(ts)| == |IdBag(ts[0])| + |Bags(ts[1..])|;
      assert |Flatten(ts)| == |Entries(ts[0])| + |Flatten(ts[1..])|;
    }
  }

  lemma TimesSum(a: nat, b: nat, c: nat)
    ensures (a + b) * c == a * c + b * c
  {
  }

  /** An index of `n` entries has at most `NodeBound(n, order)` nodes, and never more than `max(1, 2n - 1)`. */
  lemma Population<V>(t: Tree<V>, h: nat, order: nat)
    requires order >= 3 && Balanced(t, h, order, RootMin(h))
    ensures |IdBag(t)| <= NodeBound(|Entries(t)|, order)
    ensures |IdBag(t)| <= if |Entries(t)| == 0 then 1 else 2 * |Entries(t)| - 1
  {
    NodeBoundTwice(|Entries(t)|, order);
    match t
    case LeafT(_, _, _) =>
    case BranchT(_, _, _) =>
      var n, m := |Entries(t)|, MinKeys(order);
      BranchPopulation(t, h, order);
      DivideBound(|IdBag(t)|, m * m, n * (m + 1) + m * m - 2 * m);
  }

  lemma BranchPopulation<V>(t: Tree<V>, h: nat, order: nat)
    requires order >= 3 && t.BranchT? && Balanced(t, h, order, 1)
    ensures var n, m := |Entries(t)|, MinKeys(order);
            && n >= 2 * m && n * (m + 1) + m * m - 2 * m >= m * m > 0
            && |IdBag(t)| * (m * m) <= n * (m + 1) + m * m - 2 * m
  {
    var n, m := |Entries(t)|, MinKeys(order);
    SizeBounds(t, h, order, 1);
    LeastAtLeast(order, h - 1);
    AtLeastOneNode(n, m);
    ForestWeight(t.children, h - 1, order);
    RootWeight(|Bags(t.children)|, |t.children|, n, m);
    assert |IdBag(t)| == 1 + |Bags(t.children)|;
  }

  lemma RootWeight(below: nat, children: nat, n: nat, m: nat)
    requires m >= 1 && children >= 2 && n >= 2 * m && below * (m * m) + children * m <= n * (m + 1)
    ensures (1 + below) * (m * m) <= n * (m + 1) + m * m - 2 * m
  {
    TimesStep(1 + below, m * m);
    TimesMonotone(2, children, m);
  }

  lemma {:induction false} LeastAtLeast(order: nat, h: nat)
    requires order >= 3 && h >= 1
    ensures Least(order, h) >= MinKeys(order)
  {
    if h == 1 {
    } else {
      LeastAtLeast(order, h - 1);
      TimesMonotone(1, MinKeys(order) + 1, Least(order, h - 1));
    }
  }

  lemma NodeBoundMonotone(a: nat, b: nat, order: nat)
    requires order >= 3 && a <= b
    ensures NodeBound(a, order) <= NodeBound(b, order)
  {
    var m := MinKeys(order);
    if a >= 2 * m {
      AtLeastOneNode(a, m);
      AtLeastOneNode(b, m);
      TimesMonotone(a, b, m + 1);
      DivideMonotone(a * (m + 1) + m * m - 2 * m, b * (m + 1) + m * m - 2 * m, m * m);
    }
  }

  lemma DivideMonotone(x: nat, y: nat, d: nat)
    requires d > 0 && x <= y
    ensures x / d <= y / d
  {
    DivideBound(x / d, d, x);
    DivideBound(x / d, d, y);
  }

  /** For every order the bound is at most `max(1, 2n - 1)`, its value for orders 3 and 4. */
  lemma NodeBoundTwice(n: nat, order: nat)
    requires order >= 3
    ensures NodeBound(n, order) <= if n == 0 then 1 else 2 * n - 1
  {
    var m := MinKeys(order);
    if n >= 2 * m {
      AtLeastOneNode(n, m);
      BelowTwice(n, m);
      DivideBound(2 * n, m * m, n * (m + 1) + m * m - 2 * m);
    }
  }

  lemma BelowTwice(n: nat, m: nat)
    requires m >= 1 && n >= 1
    ensures n * (m + 1) + m * m - 2 * m < (2 * n) * (m * m)
  {
    var d := m * m;
    TimesMonotone(1, m, m);
    var c := 2 * d - (m + 1);
    TimesMonotone(1, n, c);
    TimesSum(m + 1, c, n);
    assert (2 * n) * d == (2 * d) * n;
  }

  lemma BagCount(slots: set<NodeId>, b: multiset<NodeId>)
    requires b == multiset(slots)
    ensures |b| == |slots|
  {
  }

  /** A present key splits nothing. */
  lemma {:induction false} PresentSplitsNothing<V>(t: Tree<V>, key: Key, order: nat)
    requires Routable(t) && Stored(t, key).Some?
    ensures Splits(t, key, order) == 0 && !Overflows(t, key, order)
    decreases t
  {
    if t.LeafT? {
    } else {
      assert Stored(t, key) == Stored(Next(t, key), key);
      PresentSplitsNothing(Next(t, key), key, order);
    }
  }
}
