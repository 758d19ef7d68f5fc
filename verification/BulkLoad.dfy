/** Bottom-up loading of sorted entries (src/ops.rs:465-547). */
module BulkLoad {
  import opened Wrappers
  import opened SortedEntries
  import opened Nodes
  import opened Multisets
  import opened Store
  import opened Trees
  import opened Bounds

  // ---- Even chunks ----

  function Sum(s: seq<nat>): nat {
    if s == [] then 0 else s[0] + Sum(s[1..])
  }

  lemma {:induction false} SumConcat(a: seq<nat>, b: seq<nat>)
    ensures Sum(a + b) == Sum(a) + Sum(b)
  {
    if a == [] {
      assert a + b == b;
    } else {
      var c := a + b;
      assert c[0] == a[0] && c[1..] == a[1..] + b;
      SumConcat(a[1..], b);
      assert Sum(c) == c[0] + Sum(c[1..]);
    }
  }

  lemma SumTo(s: seq<nat>, i: nat)
    requires i < |s|
    ensures Sum(s[..i + 1]) == Sum(s[..i]) + s[i]
    ensures Sum(s[..i + 1]) <= Sum(s)
  {
    assert s[..i + 1] == s[..i] + [s[i]];
    SumConcat(s[..i], [s[i]]);
    assert s == s[..i + 1] + s[i + 1..];
    SumConcat(s[..i + 1], s[i + 1..]);
  }

  /** Sizes between 1 and `max` that add up to `total`, as few as possible and pairwise at most one apart. */
  ghost predicate EvenSplit(sizes: seq<nat>, total: nat, max: nat)
    requires max > 0
  {
    && Sum(sizes) == total
    && |sizes| == CeilDiv(total, max)
    && (forall i :: 0 <= i < |sizes| ==> 1 <= sizes[i] <= max)
    && (forall i, j :: 0 <= i < |sizes| && 0 <= j < |sizes| ==> sizes[i] <= sizes[j] + 1)
  }

  /** The sizes are an `EvenSplit`, with the larger ones in front: each share is spelled out. */
  method EvenChunks(total: nat, max: nat) returns (sizes: seq<nat>)
    requires max > 0
    ensures EvenSplit(sizes, total, max)
    ensures forall i, j :: 0 <= i < j < |sizes| ==> sizes[j] <= sizes[i]
    ensures forall i :: 0 <= i < |sizes| ==>
              sizes[i] == total / |sizes| + (if i < total % |sizes| then 1 else 0)
  {
    if total == 0 {
      return [];
    }
    var chunks := CeilDiv(total, max);
    var base := total / chunks;
    var remainder := total % chunks;
    ChunkBounds(total, max, chunks, base, remainder);
    sizes := [];
    for i := 0 to chunks
      invariant |sizes| == i
      invariant forall k :: 0 <= k < i ==> sizes[k] == if k < remainder then base + 1 else base
    {
      sizes := sizes + [if i < remainder then base + 1 else base];
    }
    EvenlySplit(sizes, total, max, base, remainder);
  }

  lemma EvenlySplit(sizes: seq<nat>, total: nat, max: nat, base: nat, remainder: nat)
    requires max > 0 && |sizes| == CeilDiv(total, max) && total == |sizes| * base + remainder && remainder <= |sizes|
    requires 1 <= base <= max && (remainder > 0 ==> base + 1 <= max)
    requires forall k :: 0 <= k < |sizes| ==> sizes[k] == if k < remainder then base + 1 else base
    ensures EvenSplit(sizes, total, max)
  {
    EvenSum(sizes, base, remainder);
  }

  lemma ChunkBounds(total: nat, max: nat, chunks: nat, base: nat, remainder: nat)
    requires total > 0 && max > 0 && chunks == CeilDiv(total, max)
    requires chunks > 0 && base == total / chunks && remainder == total % chunks
    ensures total == chunks * base + remainder && remainder < chunks
    ensures 1 <= base <= max && (remainder > 0 ==> base + 1 <= max)
  {
    assert total == chunks * base + remainder;
    CeilDivBounds(total, max);
    TimesMonotone(1, max, chunks - 1);
    CancelTimes(chunks, 0, base + 1);
    assert chunks <= total;
    AtLeastOne(total, chunks, base, remainder);
    NoMore(chunks, base, remainder, max);
  }

  lemma AtLeastOne(total: nat, chunks: nat, base: nat, remainder: nat)
    requires chunks <= total && total == chunks * base + remainder && remainder < chunks
    ensures base >= 1
  {
  }

  lemma NoMore(chunks: nat, base: nat, remainder: nat, max: nat)
    requires chunks > 0 && chunks * base + remainder <= chunks * max
    ensures base <= max && (remainder > 0 ==> base + 1 <= max)
  {
    CancelTimes(chunks, base, max + 1);
    if remainder > 0 { CancelTimes(chunks, base, max); }
  }

  /** A common factor can be dropped from an inequality. */
  lemma CancelTimes(c: nat, a: nat, b: nat)
    ensures c * a < c * b ==> a < b
  {
    if b <= a { TimesMonotone(b, a, c); }
  }

  lemma {:induction false} EvenSum(sizes: seq<nat>, base: nat, remainder: nat)
    requires forall k :: 0 <= k < |sizes| ==> sizes[k] == if k < remainder then base + 1 else base
    ensures Sum(sizes) == |sizes| * base + (if |sizes| < remainder then |sizes| else remainder)
  {
    if sizes == [] {
    } else {
      var n := |sizes| - 1;
      SumTo(sizes, n);
      assert sizes[..n + 1] == sizes;
      EvenSum(sizes[..n], base, remainder);
      TimesStep(|sizes|, base);
    }
  }

  lemma {:induction false} SumAtMost(sizes: seq<nat>, bound: nat)
    requires forall k :: 0 <= k < |sizes| ==> sizes[k] <= bound
    ensures Sum(sizes) <= |sizes| * bound
  {
    if sizes == [] {
    } else {
      SumAtMost(sizes[1..], bound);
      TimesStep(|sizes|, bound);
    }
  }

  /** If one chunk has `s` items and none has more than `s + 1`, the total is below `(s + 1)` per chunk. */
  lemma SumBelow(sizes: seq<nat>, i: nat)
    requires i < |sizes| && forall k :: 0 <= k < |sizes| ==> sizes[k] <= sizes[i] + 1
    ensures Sum(sizes) + 1 <= |sizes| * (sizes[i] + 1)
  {
    SumTo(sizes, i);
    assert sizes == sizes[..i + 1] + sizes[i + 1..];
    SumConcat(sizes[..i + 1], sizes[i + 1..]);
    SumAtMost(sizes[..i], sizes[i] + 1);
    SumAtMost(sizes[i + 1..], sizes[i] + 1);
    Distribute(i, |sizes| - i - 1, sizes[i] + 1);
  }

  lemma Distribute(a: nat, b: nat, x: nat)
    ensures (a + 1 + b) * x == a * x + x + b * x
  {
  }

  /** Chunks of at most `max` items, no more of them than needed, hold half of `max` each. */
  lemma Roomy(q: nat, m: nat, max: nat, s: nat, total: nat)
    requires max > 0 && q >= 2 && q == CeilDiv(total, max) && m >= 1 && max >= 2 * m && total + 1 <= q * (s + 1)
    ensures m <= s
  {
    CeilDivBounds(total, max);
    TimesMonotone(2 * m, max, q - 1);
    HalfRoom(q, m);
    CancelTimes(q, m, s + 1);
  }

  lemma RoomyBranch(q: nat, m: nat, max: nat, s: nat, total: nat)
    requires max > 0 && q >= 2 && q == CeilDiv(total, max) && m >= 1 && max >= 2 * m + 1 && total + 1 <= q * (s + 1)
    ensures m <= s - 1
  {
    CeilDivBounds(total, max);
    TimesMonotone(2 * m + 1, max, q - 1);
    HalfRoom(q, m);
    TimesDistribute(q - 1, 2 * m, 1);
    TimesDistribute(q, m, 1);
    CancelTimes(q, m + 1, s + 1);
  }

  lemma HalfRoom(q: nat, m: nat)
    requires q >= 2
    ensures (q - 1) * (2 * m) >= q * m
  {
    TimesMonotone(q, 2 * (q - 1), m);
  }

  lemma TimesDistribute(a: nat, b: nat, c: nat)
    ensures a * (b + c) == a * b + a * c
  {
  }

  /** With two or more chunks of at most `order - 1` entries, every leaf meets the minimum. */
  lemma LeafOccupancy(sizes: seq<nat>, total: nat, order: nat, i: nat)
    requires order >= 3 && EvenSplit(sizes, total, order - 1) && |sizes| >= 2 && i < |sizes|
    ensures sizes[i] >= MinKeys(order)
  {
    SumBelow(sizes, i);
    Roomy(|sizes|, MinKeys(order), order - 1, sizes[i], total);
  }

  /** With two or more chunks of at most `order` children, every branch meets the minimum. */
  lemma BranchOccupancy(sizes: seq<nat>, total: nat, order: nat, i: nat)
    requires order >= 3 && EvenSplit(sizes, total, order) && |sizes| >= 2 && i < |sizes|
    ensures sizes[i] - 1 >= MinKeys(order)
  {
    SumBelow(sizes, i);
    RoomyBranch(|sizes|, MinKeys(order), order, sizes[i], total);
  }

  // ---- Exact separators ----

  /** Every separator is the first key below the child to its right, as in a freshly loaded tree. */
  ghost predicate Exact<V>(t: Tree<V>)
    decreases t
  {
    match t
    case LeafT(_, keys, vals) => |keys| == |vals|
    case BranchT(_, keys, children) =>
      && |children| == |keys| + 1
      && (forall i :: 0 <= i < |children| ==> Exact(children[i]))
      && Separated(children, keys)
  }

  ghost predicate Separated<V>(ts: seq<Tree<V>>, keys: seq<Key>) {
    && (forall i :: 0 <= i < |ts| ==> Entries(ts[i]) != [])
    && forall i :: 0 <= i < |keys| && i + 1 < |ts| ==> keys[i] == Entries(ts[i + 1])[0].key
  }

  /** In an ascending sequence, what lies in an earlier tree is below what lies in a later one. */
  lemma Spread<V>(ts: seq<Tree<V>>, i: nat, j: nat, a: nat, b: nat)
    requires i < j < |ts| && Ascending(Flatten(ts)) && a < |Entries(ts[i])| && b < |Entries(ts[j])|
    ensures Entries(ts[i])[a].key < Entries(ts[j])[b].key
  {
    EntryAt(ts, i, a);
    EntryAt(ts, j, b);
    FlattenAt(ts[..j], i);
    assert ts[..j][..i] == ts[..i];
  }

  lemma EntryAt<V>(ts: seq<Tree<V>>, i: nat, a: nat)
    requires i < |ts| && a < |Entries(ts[i])|
    ensures |Flatten(ts[..i])| + a < |Flatten(ts)|
    ensures Flatten(ts)[|Flatten(ts[..i])| + a] == Entries(ts[i])[a]
  {
    FlattenAt(ts, i);
    InMiddle(Flatten(ts[..i]), Entries(ts[i]), Flatten(ts[i + 1..]), a);
  }

  lemma InMiddle<T>(a: seq<T>, c: seq<T>, b: seq<T>, k: nat)
    requires k < |c|
    ensures (a + c + b)[|a| + k] == c[k]
  {
  }

  lemma PartWithin<V>(ts: seq<Tree<V>>, i: nat, lo: Option<Key>, hi: Option<Key>)
    requires i < |ts| && Within(Flatten(ts), lo, hi)
    ensures Within(Entries(ts[i]), lo, hi)
  {
    FlattenAt(ts, i);
    MiddleWithin(Flatten(ts[..i]), Entries(ts[i]), Flatten(ts[i + 1..]), lo, hi);
  }

  lemma MiddleWithin<V>(a: seq<Entry<V>>, c: seq<Entry<V>>, b: seq<Entry<V>>, lo: Option<Key>, hi: Option<Key>)
    requires Within(a + c + b, lo, hi)
    ensures Within(c, lo, hi)
  {
    var s := a + c + b;
    assert forall k :: 0 <= k < |c| ==> s[|a| + k] == c[k];
  }

  lemma ExactSeparators<V>(ts: seq<Tree<V>>, keys: seq<Key>, lo: Option<Key>, hi: Option<Key>)
    requires |ts| == |keys| + 1 && Separated(ts, keys) && Within(Flatten(ts), lo, hi)
    ensures Separators(keys, lo, hi)
  {
    forall i | 0 <= i < |keys|
      ensures Above(lo, keys[i]) && Below(keys[i], hi)
    {
      PartWithin(ts, 0, lo, hi);
      PartWithin(ts, i + 1, lo, hi);
      Spread(ts, 0, i + 1, 0, 0);
    }
    forall i, j | 0 <= i < j < |keys|
      ensures keys[i] < keys[j]
    {
      Spread(ts, i + 1, j + 1, 0, 0);
    }
  }

  /** A child lies between the separators around it. */
  lemma ExactChild<V>(ts: seq<Tree<V>>, keys: seq<Key>, lo: Option<Key>, hi: Option<Key>, i: nat)
    requires |ts| == |keys| + 1 && Separated(ts, keys) && Within(Flatten(ts), lo, hi) && i < |ts|
    ensures Within(Entries(ts[i]), LoAt(keys, lo, i), HiAt(keys, hi, i))
  {
    PartWithin(ts, i, lo, hi);
    var es := Entries(ts[i]);
    forall k | 0 <= k < |es|
      ensures AtLeast(LoAt(keys, lo, i), es[k].key) && Below(es[k].key, HiAt(keys, hi, i))
    {
      if k > 0 { assert es[0].key < es[k].key; }
      if i < |keys| { Spread(ts, i, i + 1, k, 0); }
    }
  }

  /** A balanced tree with exact separators over an ascending sequence is ordered. */
  lemma {:induction false} ExactOrdered<V>(t: Tree<V>, lo: Option<Key>, hi: Option<Key>)
    requires Exact(t) && Within(Entries(t), lo, hi)
    ensures Ordered(t, lo, hi)
    decreases t
  {
    if t.LeafT? {
      var es := Entries(t);
      assert forall i :: 0 <= i < |t.keys| ==> es[i].key == t.keys[i];
    } else {
      ExactSeparators(t.children, t.keys, lo, hi);
      forall i | 0 <= i < |t.children|
        ensures Ordered(t.children[i], LoAt(t.keys, lo, i), HiAt(t.keys, hi, i))
      {
        ExactChild(t.children, t.keys, lo, hi, i);
        ExactOrdered(t.children[i], LoAt(t.keys, lo, i), HiAt(t.keys, hi, i));
      }
    }
  }

  // ---- One level of nodes ----

  /** A finished node of the current level and the least key below it. */
  datatype Child = Child(id: NodeId, min: Key)

  /** The `i`-th node of a level is the root of a tree of height `h` with exact separators, and tagged as such. */
  ghost predicate MemberAt<V>(level: seq<Child>, ts: seq<Tree<V>>, i: nat, h: nat, order: nat, m: int)
    requires order >= 3 && i < |ts| == |level|
  {
    && Balanced(ts[i], h, order, m) && Exact(ts[i])
    && Entries(ts[i]) != [] && level[i] == Child(ts[i].id, Entries(ts[i])[0].key)
  }

  ghost predicate Members<V>(level: seq<Child>, ts: seq<Tree<V>>, h: nat, order: nat, m: int)
    requires order >= 3
  {
    |level| == |ts| && forall i :: 0 <= i < |ts| ==> MemberAt(level, ts, i, h, order, m)
  }

  ghost predicate HeldAt<V>(nodes: map<NodeId, Node<V>>, ts: seq<Tree<V>>, i: nat)
    requires i < |ts|
  {
    Rep(nodes, ts[i])
  }

  /** `RepAll`, tree by tree. */
  ghost predicate Held<V>(nodes: map<NodeId, Node<V>>, ts: seq<Tree<V>>) {
    forall i :: 0 <= i < |ts| ==> HeldAt(nodes, ts, i)
  }

  lemma HeldIsRep<V>(nodes: map<NodeId, Node<V>>, ts: seq<Tree<V>>)
    ensures Held(nodes, ts) <==> RepAll(nodes, ts)
  {
    if Held(nodes, ts) {
      assert forall i :: 0 <= i < |ts| ==> HeldAt(nodes, ts, i) ==> Rep(nodes, ts[i]);
    }
  }

  // ---- How the parts of a level are shared out ----

  /** What a node is made of: entries for a leaf, children for a branch. */
  ghost function Width<V>(t: Tree<V>): nat {
    if t.LeafT? then |t.keys| else |t.children|
  }

  ghost predicate SizedAt<V>(ts: seq<Tree<V>>, sizes: seq<nat>, i: nat)
    requires i < |ts| <= |sizes|
  {
    Width(ts[i]) == sizes[i]
  }

  /** The nodes so far have the intended sizes, in this order. */
  ghost predicate Sized<V>(ts: seq<Tree<V>>, sizes: seq<nat>) {
    |ts| <= |sizes| && forall i :: 0 <= i < |ts| ==> SizedAt(ts, sizes, i)
  }

  lemma SizedAdded<V>(ts: seq<Tree<V>>, sizes: seq<nat>, t: Tree<V>)
    requires Sized(ts, sizes) && |ts| < |sizes| && Width(t) == sizes[|ts|]
    ensures Sized(ts + [t], sizes)
  {
    var us := ts + [t];
    forall i | 0 <= i < |us|
      ensures SizedAt(us, sizes, i)
    {
      if i < |ts| { assert SizedAt(ts, sizes, i); }
    }
  }

  ghost predicate EvenAt<V>(ts: seq<Tree<V>>, n: nat, i: nat)
    requires i < |ts|
  {
    Width(ts[i]) == n / |ts| + (if i < n % |ts| then 1 else 0)
  }

  /** `n` parts are shared out evenly, and the first nodes have the larger shares. */
  ghost predicate Evenly<V>(ts: seq<Tree<V>>, n: nat) {
    forall i :: 0 <= i < |ts| ==> EvenAt(ts, n, i)
  }

  ghost predicate ShareAt(sizes: seq<nat>, n: nat, i: nat)
    requires i < |sizes|
  {
    sizes[i] == n / |sizes| + (if i < n % |sizes| then 1 else 0)
  }

  ghost predicate Shares(sizes: seq<nat>, n: nat) {
    forall i :: 0 <= i < |sizes| ==> ShareAt(sizes, n, i)
  }

  lemma SharesReach<V>(ts: seq<Tree<V>>, sizes: seq<nat>, n: nat)
    requires Sized(ts, sizes) && |ts| == |sizes| && Shares(sizes, n)
    ensures Evenly(ts, n)
  {
    forall i | 0 <= i < |ts|
      ensures EvenAt(ts, n, i)
    {
      assert SizedAt(ts, sizes, i) && ShareAt(sizes, n, i);
    }
  }

  lemma EvenlyMeans<V>(ts: seq<Tree<V>>, n: nat)
    requires Evenly(ts, n)
    ensures forall i :: 0 <= i < |ts| ==> Width(ts[i]) == n / |ts| + (if i < n % |ts| then 1 else 0)
  {
    forall i | 0 <= i < |ts|
      ensures Width(ts[i]) == n / |ts| + (if i < n % |ts| then 1 else 0)
    {
      assert EvenAt(ts, n, i);
    }
  }

  /** The children of a level, from left to right. */
  ghost function Kids<V>(ts: seq<Tree<V>>): seq<Tree<V>> {
    if ts == [] then [] else Under(ts[0]) + Kids(ts[1..])
  }

  lemma {:induction false} KidsAdded<V>(ts: seq<Tree<V>>, t: Tree<V>)
    ensures Kids(ts + [t]) == Kids(ts) + Under(t)
  {
    if ts == [] {
      assert ts + [t] == [t];
    } else {
      assert (ts + [t])[1..] == ts[1..] + [t];
      KidsAdded(ts[1..], t);
    }
  }

  /** The nodes of a tree at depth `d`, from left to right. */
  ghost function Layer<V>(t: Tree<V>, d: nat): seq<Tree<V>> {
    if d == 0 then [t] else Kids(Layer(t, d - 1))
  }

  /**
    On every level from `ts` down to the leaves there are `LevelCount` nodes, and the parts are shared out evenly:
    children, and at the bottom all `n` entries.
   */
  ghost predicate Filled<V>(ts: seq<Tree<V>>, h: nat, n: nat, order: nat)
    requires order >= 3
    decreases h
  {
    && h >= 1 && (n > 0 ==> |ts| == LevelCount(n, h, order))
    && if h == 1 then Evenly(ts, n) else Evenly(ts, |Kids(ts)|) && Filled(Kids(ts), h - 1, n, order)
  }

  lemma {:induction false} FilledLayer<V>(t: Tree<V>, h: nat, n: nat, order: nat, d: nat)
    requires order >= 3 && Filled([t], h, n, order) && d < h
    ensures Filled(Layer(t, d), h - d, n, order)
    ensures Evenly(Layer(t, d), if d + 1 == h then n else |Layer(t, d + 1)|)
    ensures n > 0 ==> |Layer(t, d)| == LevelCount(n, h - d, order)
  {
    if d == 0 {
    } else {
      FilledLayer(t, h, n, order, d - 1);
    }
  }

  lemma FilledShares<V>(t: Tree<V>, h: nat, n: nat, order: nat)
    requires order >= 3 && Filled([t], h, n, order)
    ensures n > 0 ==> forall d :: 0 <= d < h ==> |Layer(t, d)| == LevelCount(n, h - d, order)
    ensures forall d, i :: 0 <= d < h && 0 <= i < |Layer(t, d)| ==>
              var k, m := |Layer(t, d)|, if d + 1 == h then n else |Layer(t, d + 1)|;
              Width(Layer(t, d)[i]) == m / k + (if i < m % k then 1 else 0)
  {
    forall d | 0 <= d < h
      ensures n > 0 ==> |Layer(t, d)| == LevelCount(n, h - d, order)
    {
      FilledLayer(t, h, n, order, d);
    }
    forall d, i | 0 <= d < h && 0 <= i < |Layer(t, d)|
      ensures var k, m := |Layer(t, d)|, if d + 1 == h then n else |Layer(t, d + 1)|;
              Width(Layer(t, d)[i]) == m / k + (if i < m % k then 1 else 0)
    {
      FilledLayer(t, h, n, order, d);
      assert EvenAt(Layer(t, d), if d + 1 == h then n else |Layer(t, d + 1)|, i);
    }
  }

  /** A level under construction: its finished nodes with their tags, and the unused nodes of the level below. */
  datatype Stage<V> = Stage(level: seq<Child>, done: seq<Tree<V>>, rest: seq<Tree<V>>)

  /** The finished and the unused nodes are in the store, fill it, and are as they should be. */
  ghost predicate Loading<V>(nodes: map<NodeId, Node<V>>, st: Stage<V>, h: nat, order: nat, m: int)
    requires order >= 3
  {
    && Held(nodes, st.done) && Held(nodes, st.rest)
    && Bags(st.done) + Bags(st.rest) == multiset(nodes.Keys)
    && Members(st.level, st.done, h, order, m)
  }

  lemma RepAdded<V>(nodes: map<NodeId, Node<V>>, done: seq<Tree<V>>, rest: seq<Tree<V>>, size: nat, t: Tree<V>)
    requires Held(nodes, done) && Held(nodes, rest) && t.id !in nodes
    requires Bags(done) + Bags(rest) == multiset(nodes.Keys)
    requires size <= |rest| && Under(t) == rest[..size]
    ensures Held(nodes[t.id := NodeOf(t)], done + [t])
    ensures Held(nodes[t.id := NodeOf(t)], rest[size..])
  {
    var grown := nodes[t.id := NodeOf(t)];
    HeldIsRep(nodes, done);
    HeldIsRep(nodes, rest);
    NewNodeKeeps(nodes, done, t.id, NodeOf(t));
    NewNodeKeeps(nodes, rest, t.id, NodeOf(t));
    RepFrom(grown, t);
    HeldIsRep(grown, done + [t]);
    HeldIsRep(grown, rest[size..]);
  }

  lemma BagsAdded<V>(nodes: map<NodeId, Node<V>>, done: seq<Tree<V>>, rest: seq<Tree<V>>, size: nat, t: Tree<V>)
    requires t.id !in nodes && size <= |rest| && Under(t) == rest[..size]
    requires Bags(done) + Bags(rest) == multiset(nodes.Keys)
    ensures Bags(done + [t]) + Bags(rest[size..]) == multiset(nodes[t.id := NodeOf(t)].Keys)
  {
    KeysAfterInsert(nodes, t.id, NodeOf(t));
    BagsConcat(done, [t]);
    BagsOne(t);
    assert rest == rest[..size] + rest[size..];
    BagsConcat(rest[..size], rest[size..]);
    assert IdBag(t) == multiset{t.id} + Bags(Under(t));
    Gather(Bags(done), Bags(Under(t)), Bags(rest[size..]), t.id, multiset(nodes.Keys),
           multiset(nodes[t.id := NodeOf(t)].Keys));
  }

  lemma MemberAdded<V>(level: seq<Child>, done: seq<Tree<V>>, t: Tree<V>, h: nat, order: nat, m: int)
    requires order >= 3 && Members(level, done, h, order, m)
    requires Balanced(t, h, order, m) && Exact(t) && Entries(t) != []
    ensures Members(level + [Child(t.id, Entries(t)[0].key)], done + [t], h, order, m)
  {
    var tags, ts := level + [Child(t.id, Entries(t)[0].key)], done + [t];
    forall i | 0 <= i < |ts|
      ensures MemberAt(tags, ts, i, h, order, m)
    {
      if i < |done| { assert MemberAt(level, done, i, h, order, m); }
    }
  }

  /** A new node above the first `size` unused ones joins its level. */
  lemma NodeAdded<V>(nodes: map<NodeId, Node<V>>, st: Stage<V>, size: nat, t: Tree<V>, h: nat, order: nat, m: int)
    returns (next: Stage<V>)
    requires order >= 3 && Loading(nodes, st, h, order, m)
    requires t.id !in nodes && size <= |st.rest| && Under(t) == st.rest[..size]
    requires Balanced(t, h, order, m) && Exact(t) && Entries(t) != []
    ensures Loading(nodes[t.id := NodeOf(t)], next, h, order, m)
    ensures next.level == st.level + [Child(t.id, Entries(t)[0].key)]
    ensures next.done == st.done + [t] && next.rest == st.rest[size..]
    ensures Flatten(next.done) == Flatten(st.done) + Entries(t)
  {
    RepAdded(nodes, st.done, st.rest, size, t);
    BagsAdded(nodes, st.done, st.rest, size, t);
    MemberAdded(st.level, st.done, t, h, order, m);
    FlattenConcat(st.done, [t]);
    FlattenOne(t);
    next := Stage(st.level + [Child(t.id, Entries(t)[0].key)], st.done + [t], st.rest[size..]);
  }

  /** The minimum of a node on a level of `count` nodes: the root's when it stands alone. */
  ghost function LevelMin(count: nat, h: nat, order: nat): nat
    requires order >= 3
  {
    if count >= 2 then MinKeys(order) else RootMin(h)
  }

  // ---- The leaf level ----

  /** The next `size` entries, as the two arrays of a leaf. */
  method TakeEntries<V>(entries: seq<Entry<V>>, pos: nat, size: nat) returns (keys: seq<Key>, vals: seq<V>)
    requires pos + size <= |entries|
    ensures |keys| == |vals| == size && Zip(keys, vals) == entries[pos..pos + size]
  {
    keys, vals := [], [];
    for i := 0 to size
      invariant |keys| == |vals| == i
      invariant forall k :: 0 <= k < i ==> keys[k] == entries[pos + k].key && vals[k] == entries[pos + k].val
    {
      keys := keys + [entries[pos + i].key];
      vals := vals + [entries[pos + i].val];
    }
  }

  /** No more chunks than items. */
  lemma FewChunks(sizes: seq<nat>, total: nat, max: nat)
    requires max > 0 && EvenSplit(sizes, total, max)
    ensures |sizes| <= total && (total > 0 ==> |sizes| > 0)
  {
    CeilDivBounds(total, max);
    if |sizes| > 0 { TimesMonotone(1, max, |sizes| - 1); }
  }

  /** The store is `Loading` a finished stage of height 1 whose trees list `entries`, in as few leaves as can hold them. */
  method LoadLeaves<V>(store: InMemoryStore<V>, entries: seq<Entry<V>>, order: nat)
    returns (level: seq<Child>, ghost st: Stage<V>)
    requires store.Valid() && store.nodes == map[] && order >= 3 && |entries| > 0
    requires CeilDiv(|entries|, order - 1) <= ID_LIMIT
    modifies store
    ensures store.Valid() && level == st.level && st.rest == []
    ensures |store.nodes| == |level| && Raised(old(store.peak), |store.nodes|, store.peak)
    ensures Loading(store.nodes, st, 1, order, LevelMin(|level|, 1, order))
    ensures Flatten(st.done) == entries
    ensures |level| == CeilDiv(|entries|, order - 1) && |level| > 0
    ensures Filled(st.done, 1, |entries|, order)
    ensures |st.done| == |level| && forall i :: 0 <= i < |level| ==>
              Width(st.done[i]) == |entries| / |level| + (if i < |entries| % |level| then 1 else 0)
  {
    var sizes := EvenChunks(|entries|, order - 1);
    assert Shares(sizes, |entries|);
    FewChunks(sizes, |entries|, order - 1);
    level, st := LeavesOf(store, entries, order, sizes);
    EvenlyMeans(st.done, |entries|);
  }

  /** One leaf for each chunk. */
  method LeavesOf<V>(store: InMemoryStore<V>, entries: seq<Entry<V>>, order: nat, sizes: seq<nat>)
    returns (level: seq<Child>, ghost st: Stage<V>)
    requires store.Valid() && store.nodes == map[] && order >= 3 && |sizes| <= ID_LIMIT
    requires EvenSplit(sizes, |entries|, order - 1) && Shares(sizes, |entries|)
    modifies store
    ensures store.Valid() && level == st.level && st.rest == [] && |level| == |st.done| == |sizes|
    ensures |store.nodes| == |level| && Raised(old(store.peak), |store.nodes|, store.peak)
    ensures Loading(store.nodes, st, 1, order, LevelMin(|sizes|, 1, order))
    ensures Flatten(st.done) == entries && Evenly(st.done, |entries|)
  {
    ghost var m := LevelMin(|sizes|, 1, order);
    level, st := [], Stage([], [], []);
    var pos := 0;
    for i := 0 to |sizes|
      invariant store.Valid() && |store.nodes| == i == |level|
      invariant Raised(old(store.peak), |store.nodes|, store.peak)
      invariant pos == Sum(sizes[..i]) && pos <= |entries|
      invariant level == st.level && st.rest == []
      invariant Loading(store.nodes, st, 1, order, m)
      invariant Flatten(st.done) == entries[..pos]
      invariant Sized(st.done, sizes) && |st.done| == i
    {
      level, pos, st := LoadLeaf(store, entries, order, level, pos, sizes, i, st, m);
    }
    WholeSum(sizes);
    assert entries[..pos] == entries;
    SharesReach(st.done, sizes, |entries|);
  }

  lemma WholeSum(sizes: seq<nat>)
    ensures Sum(sizes[..|sizes|]) == Sum(sizes)
  {
    assert sizes[..|sizes|] == sizes;
  }

  /** One iteration of `LoadLeaves`: the stage grows by one leaf, over the entries from `pos` to `end`. */
  method LoadLeaf<V>(store: InMemoryStore<V>, entries: seq<Entry<V>>, order: nat, level: seq<Child>, pos: nat,
                     sizes: seq<nat>, i: nat, ghost st: Stage<V>, ghost m: int)
    returns (grown: seq<Child>, end: nat, ghost next: Stage<V>)
    requires store.Valid() && order >= 3 && |store.nodes| < ID_LIMIT
    requires EvenSplit(sizes, |entries|, order - 1) && i < |sizes| && pos == Sum(sizes[..i])
    requires level == st.level && st.rest == [] && m == LevelMin(|sizes|, 1, order)
    requires Loading(store.nodes, st, 1, order, m) && pos <= |entries| && Flatten(st.done) == entries[..pos]
    requires Sized(st.done, sizes) && |st.done| == i
    modifies store
    ensures store.Valid() && |store.nodes| == |old(store.nodes)| + 1
    ensures Raised(old(store.peak), |store.nodes|, store.peak)
    ensures end == pos + sizes[i] == Sum(sizes[..i + 1]) <= |entries|
    ensures grown == next.level && next.rest == [] && |grown| == |level| + 1
    ensures Loading(store.nodes, next, 1, order, m)
    ensures Flatten(next.done) == entries[..end]
    ensures Sized(next.done, sizes) && |next.done| == i + 1
  {
    ghost var before := store.nodes;
    SumTo(sizes, i);
    if |sizes| >= 2 { LeafOccupancy(sizes, |entries|, order, i); }
    end := pos + sizes[i];
    assert entries[..end] == entries[..pos] + entries[pos..end];
    var keys, vals := TakeEntries(entries, pos, sizes[i]);
    var id := store.Alloc(Leaf(keys, vals));
    ghost var t := LeafT(id, keys, vals);
    assert Entries(t) == entries[pos..end] && Entries(t)[0].key == keys[0];
    SizedAdded(st.done, sizes, t);
    next := NodeAdded(before, st, 0, t, 1, order, m);
    grown := level + [Child(id, keys[0])];
  }

  // ---- The internal levels ----

  /** The next `size` nodes as the children of one parent: their ids, the separators between them and the least key. */
  method TakeChildren(level: seq<Child>, pos: nat, size: nat)
    returns (ids: seq<NodeId>, keys: seq<Key>, min: Option<Key>)
    requires pos + size <= |level| && size > 0
    ensures |ids| == size && |keys| == size - 1 && min == Some(level[pos].min)
    ensures forall k :: 0 <= k < size ==> ids[k] == level[pos + k].id
    ensures forall k :: 0 <= k < size - 1 ==> keys[k] == level[pos + k + 1].min
  {
    ids, keys, min := [], [], None;
    for i := 0 to size
      invariant |ids| == i && |keys| == if i == 0 then 0 else i - 1
      invariant min == if i == 0 then None else Some(level[pos].min)
      invariant forall k :: 0 <= k < i ==> ids[k] == level[pos + k].id
      invariant forall k :: 0 <= k < i - 1 ==> keys[k] == level[pos + k + 1].min
    {
      if min.None? {
        min := Some(level[pos + i].min);
      } else {
        keys := keys + [level[pos + i].min];
      }
      ids := ids + [level[pos + i].id];
    }
  }

  /** A parent above full members of a level, with their least keys as separators, is one on the next level. */
  lemma ParentFits<V>(t: Tree<V>, level: seq<Child>, forest: seq<Tree<V>>, pos: nat, size: nat, h: nat, order: nat, m: int)
    requires order >= 3 && h >= 1 && Members(level, forest, h, order, MinKeys(order))
    requires pos + size <= |forest| && size > 0 && t.BranchT? && t.children == forest[pos..pos + size]
    requires |t.keys| == size - 1 && forall k :: 0 <= k < size - 1 ==> t.keys[k] == level[pos + k + 1].min
    requires m <= size - 1 < order
    ensures Balanced(t, h + 1, order, m) && Exact(t) && Entries(t) != []
    ensures Entries(t)[0].key == level[pos].min
  {
    var ts := t.children;
    forall k | 0 <= k < size
      ensures Balanced(ts[k], h, order, MinKeys(order)) && Exact(ts[k])
      ensures Entries(ts[k]) != [] && level[pos + k].min == Entries(ts[k])[0].key
    {
      assert MemberAt(level, forest, pos + k, h, order, MinKeys(order));
    }
    assert BalancedAll(ts, h, order);
    assert Separated(ts, t.keys);
    assert Entries(t) == Entries(ts[0]) + Flatten(ts[1..]);
  }

  /** How far the parents of `forest` have got: the first `pos` of its trees are below them. */
  ghost predicate Halfway<V>(st: Stage<V>, forest: seq<Tree<V>>, pos: nat) {
    match st
    case Stage(_, done, rest) =>
      pos <= |forest| && rest == forest[pos..] && Kids(done) == forest[..pos] && Flatten(done) == Flatten(forest[..pos])
  }

  /** One iteration of `LoadLevel`: the stage grows by one branch, over the nodes from `pos` to `end`. */
  method LoadParent<V>(store: InMemoryStore<V>, order: nat, level: seq<Child>, parents: seq<Child>, pos: nat,
                       sizes: seq<nat>, i: nat, ghost forest: seq<Tree<V>>, ghost h: nat, ghost st: Stage<V>, ghost m: int)
    returns (grown: seq<Child>, end: nat, ghost next: Stage<V>)
    requires store.Valid() && order >= 3 && h >= 1
    requires EvenSplit(sizes, |level|, order) && i < |sizes| && pos == Sum(sizes[..i]) && |level| >= 2
    requires Members(level, forest, h, order, MinKeys(order)) && |store.nodes| < ID_LIMIT
    requires m == LevelMin(|sizes|, h + 1, order) && |st.done| == i == |parents| && parents == st.level
    requires Halfway(st, forest, pos) && Loading(store.nodes, st, h + 1, order, m) && Sized(st.done, sizes)
    modifies store
    ensures store.Valid() && end == pos + sizes[i] == Sum(sizes[..i + 1]) <= |level|
    ensures |store.nodes| == |old(store.nodes)| + 1 && Raised(old(store.peak), |store.nodes|, store.peak)
    ensures grown == next.level && |next.done| == i + 1 == |grown|
    ensures Halfway(next, forest, end) && Loading(store.nodes, next, h + 1, order, m) && Sized(next.done, sizes)
  {
    ghost var before := store.nodes;
    var size := sizes[i];
    end := pos + size;
    SumTo(sizes, i);
    ParentSize(sizes, |level|, order, i, h);
    var ids, keys, min := TakeChildren(level, pos, size);
    var id := store.Alloc(Internal(keys, ids));
    ghost var t := BranchT(id, keys, forest[pos..pos + size]);
    ChildIds(level, forest, pos, size, ids, h, order);
    SizedAdded(st.done, sizes, t);
    next := ParentAdded(before, st, t, level, forest, pos, size, h, order, m);
    grown := parents + [Child(id, min.value)];
  }

  lemma ChildIds<V>(level: seq<Child>, forest: seq<Tree<V>>, pos: nat, size: nat, ids: seq<NodeId>, h: nat, order: nat)
    requires order >= 3 && Members(level, forest, h, order, MinKeys(order)) && pos + size <= |forest| && |ids| == size
    requires forall k :: 0 <= k < size ==> ids[k] == level[pos + k].id
    ensures ids == RootIds(forest[pos..pos + size])
  {
    forall k | 0 <= k < size
      ensures ids[k] == forest[pos + k].id
    {
      assert MemberAt(level, forest, pos + k, h, order, MinKeys(order));
    }
  }

  lemma ParentAdded<V>(nodes: map<NodeId, Node<V>>, st: Stage<V>, t: Tree<V>, level: seq<Child>, forest: seq<Tree<V>>,
                       pos: nat, size: nat, h: nat, order: nat, m: int)
    returns (next: Stage<V>)
    requires order >= 3 && h >= 1 && Members(level, forest, h, order, MinKeys(order))
    requires pos + size <= |forest| && size > 0 && t.BranchT? && t.children == forest[pos..pos + size]
    requires |t.keys| == size - 1 && forall k :: 0 <= k < size - 1 ==> t.keys[k] == level[pos + k + 1].min
    requires m <= size - 1 < order
    requires t.id !in nodes && Halfway(st, forest, pos) && Loading(nodes, st, h + 1, order, m)
    ensures Loading(nodes[t.id := NodeOf(t)], next, h + 1, order, m) && Halfway(next, forest, pos + size)
    ensures next.level == st.level + [Child(t.id, level[pos].min)] && next.done == st.done + [t]
  {
    ParentFits(t, level, forest, pos, size, h, order, m);
    assert st.rest[..size] == forest[pos..pos + size];
    next := NodeAdded(nodes, st, size, t, h + 1, order, m);
    HalfwayStep(forest, pos, size);
    KidsAdded(st.done, t);
  }

  lemma HalfwayStep<V>(forest: seq<Tree<V>>, pos: nat, size: nat)
    requires pos + size <= |forest|
    ensures Flatten(forest[..pos + size]) == Flatten(forest[..pos]) + Flatten(forest[pos..pos + size])
    ensures forest[..pos + size] == forest[..pos] + forest[pos..pos + size]
    ensures forest[pos..][size..] == forest[pos + size..]
  {
    assert forest[..pos + size] == forest[..pos] + forest[pos..pos + size];
    FlattenConcat(forest[..pos], forest[pos..pos + size]);
  }

  lemma ParentSize(sizes: seq<nat>, count: nat, order: nat, i: nat, h: nat)
    requires order >= 3 && h >= 1 && EvenSplit(sizes, count, order) && i < |sizes| && count >= 2
    ensures sizes[i] > 0 && LevelMin(|sizes|, h + 1, order) <= sizes[i] - 1 < order
  {
    if |sizes| >= 2 {
      BranchOccupancy(sizes, count, order, i);
    } else {
      assert sizes == [sizes[0]];
      assert Sum(sizes) == sizes[0] + Sum(sizes[1..]);
    }
  }

  /** From a finished stage of height `h` to one of height `h + 1` over the same entries, with strictly fewer nodes. */
  method LoadLevel<V>(store: InMemoryStore<V>, order: nat, level: seq<Child>, ghost st: Stage<V>, ghost h: nat)
    returns (parents: seq<Child>, ghost next: Stage<V>)
    requires store.Valid() && order >= 3 && h >= 1 && |level| >= 2 && level == st.level && st.rest == []
    requires Loading(store.nodes, st, h, order, MinKeys(order)) && |store.nodes| + CeilDiv(|level|, order) <= ID_LIMIT
    modifies store
    ensures store.Valid() && parents == next.level && next.rest == []
    ensures |store.nodes| == |old(store.nodes)| + |parents| && Raised(old(store.peak), |store.nodes|, store.peak)
    ensures Loading(store.nodes, next, h + 1, order, LevelMin(|parents|, h + 1, order))
    ensures Flatten(next.done) == Flatten(st.done)
    ensures |parents| == CeilDiv(|level|, order) && 0 < |parents| < |level|
    ensures Kids(next.done) == st.done && Evenly(next.done, |level|)
    ensures |next.done| == |parents| && forall i :: 0 <= i < |parents| ==>
              Width(next.done[i]) == |level| / |parents| + (if i < |level| % |parents| then 1 else 0)
  {
    var sizes := EvenChunks(|level|, order);
    assert Shares(sizes, |level|);
    parents, next := ParentsOf(store, order, level, sizes, st, h);
    Complete(next, st.done, sizes, Sum(sizes[..|sizes|]), order);
    Shrinks(|level|, order);
    EvenlyMeans(next.done, |level|);
  }

  /** One parent for each chunk. */
  method ParentsOf<V>(store: InMemoryStore<V>, order: nat, level: seq<Child>, sizes: seq<nat>, ghost st: Stage<V>, ghost h: nat)
    returns (parents: seq<Child>, ghost next: Stage<V>)
    requires store.Valid() && order >= 3 && h >= 1 && |level| >= 2 && level == st.level && st.rest == []
    requires Loading(store.nodes, st, h, order, MinKeys(order)) && |store.nodes| + |sizes| <= ID_LIMIT
    requires EvenSplit(sizes, |level|, order) && Shares(sizes, |level|)
    modifies store
    ensures store.Valid() && parents == next.level && |parents| == |next.done| == |sizes|
    ensures |store.nodes| == |old(store.nodes)| + |parents| && Raised(old(store.peak), |store.nodes|, store.peak)
    ensures Loading(store.nodes, next, h + 1, order, LevelMin(|sizes|, h + 1, order))
    ensures Halfway(next, st.done, Sum(sizes[..|sizes|])) && Sized(next.done, sizes)
  {
    ghost var forest, m := st.done, LevelMin(|sizes|, h + 1, order);
    parents, next := [], Stage([], [], forest);
    var pos := 0;
    Beginning(next, forest);
    for i := 0 to |sizes|
      invariant store.Valid() && pos == Sum(sizes[..i]) && pos <= |level|
      invariant |store.nodes| == |old(store.nodes)| + i && Raised(old(store.peak), |store.nodes|, store.peak)
      invariant parents == next.level && |next.done| == i == |parents|
      invariant Halfway(next, forest, pos) && Loading(store.nodes, next, h + 1, order, m) && Sized(next.done, sizes)
    {
      parents, pos, next := LoadParent(store, order, level, parents, pos, sizes, i, forest, h, next, m);
    }
  }

  lemma Beginning<V>(st: Stage<V>, forest: seq<Tree<V>>)
    requires st == Stage([], [], forest)
    ensures Halfway(st, forest, 0)
  {
    assert forest[0..] == forest;
  }

  lemma Complete<V>(st: Stage<V>, forest: seq<Tree<V>>, sizes: seq<nat>, pos: nat, order: nat)
    requires Halfway(st, forest, pos) && pos == Sum(sizes[..|sizes|]) && order >= 3
    requires EvenSplit(sizes, |forest|, order) && Shares(sizes, |forest|) && Sized(st.done, sizes) && |st.done| == |sizes|
    ensures st.rest == [] && Kids(st.done) == forest && Flatten(st.done) == Flatten(forest)
    ensures Evenly(st.done, |forest|)
  {
    WholeSum(sizes);
    assert forest[..pos] == forest;
    SharesReach(st.done, sizes, |forest|);
  }

  /** A level above two or more nodes is shorter. */
  lemma Shrinks(count: nat, order: nat)
    requires order >= 3 && count >= 2
    ensures 0 < CeilDiv(count, order) < count
  {
    var c := CeilDiv(count, order);
    CeilDivBounds(count, order);
    TimesMonotone(2, order, c - 1);
  }

  // ---- The whole load ----

  /** The nodes on the levels above one of `count` nodes. */
  function NodesAbove(count: nat, order: nat): nat
    requires order >= 3
    decreases count
  {
    if count <= 1 then 0
    else
      Shrinks(count, order);
      CeilDiv(count, order) + NodesAbove(CeilDiv(count, order), order)
  }

  /** The nodes that a load of `n` entries makes. */
  function LoadedNodes(n: nat, order: nat): nat
    requires order >= 3
  {
    if n == 0 then 1 else CeilDiv(n, order - 1) + NodesAbove(CeilDiv(n, order - 1), order)
  }

  /** Counting nodes level by level is counting capacity: nested ceilings collapse. */
  lemma NestedCeilings(n: nat, count: nat, cap: nat, order: nat)
    requires order > 0 && count > 0 && (count - 1) * cap < n <= count * cap
    ensures var c := CeilDiv(count, order); c > 0 && (c - 1) * (order * cap) < n <= c * (order * cap)
  {
    var c := CeilDiv(count, order);
    CeilDivBounds(count, order);
    var low, high := (c - 1) * order, c * order;
    TimesMonotone(low, count - 1, cap);
    TimesMonotone(count, high, cap);
    TimesAssociate(c - 1, order, cap);
    TimesAssociate(c, order, cap);
  }

  lemma TimesAssociate(a: nat, b: nat, c: nat)
    ensures a * (b * c) == (a * b) * c
  {
  }

  /** How many nodes a load of `n` entries makes on level `h`. */
  function LevelCount(n: nat, h: nat, order: nat): nat
    requires order >= 3 && h >= 1
  {
    if h == 1 then CeilDiv(n, order - 1) else CeilDiv(LevelCount(n, h - 1, order), order)
  }

  /** They are as few as their capacity allows. */
  lemma {:induction false} LevelCapacity(n: nat, h: nat, order: nat)
    requires order >= 3 && h >= 1 && n > 0
    ensures var c := LevelCount(n, h, order); c > 0 && (c - 1) * Most(order, h) < n <= c * Most(order, h)
  {
    if h == 1 {
      CeilDivBounds(n, order - 1);
    } else {
      LevelCapacity(n, h - 1, order);
      NestedCeilings(n, LevelCount(n, h - 1, order), Most(order, h - 1), order);
    }
  }

  lemma SecondNodeNeeded(n: nat, h: nat, order: nat)
    requires order >= 3 && h >= 1 && n > 0 && LevelCount(n, h, order) > 1
    ensures n > Most(order, h)
  {
    LevelCapacity(n, h, order);
    TimesMonotone(1, LevelCount(n, h, order) - 1, Most(order, h));
  }

  /** With `made` nodes made, the load of `n` entries has reached level `h`, which has `count` nodes. */
  ghost predicate Reached(n: nat, order: nat, h: nat, count: nat, made: nat)
    requires order >= 3
  {
    && h >= 1 && count == LevelCount(n, h, order) && made + NodesAbove(count, order) == LoadedNodes(n, order)
    && (h > 1 ==> LevelCount(n, h - 1, order) > 1)
  }

  lemma ReachedNext(n: nat, order: nat, h: nat, count: nat, made: nat)
    requires order >= 3 && Reached(n, order, h, count, made) && count > 1
    ensures made + CeilDiv(count, order) <= LoadedNodes(n, order)
    ensures Reached(n, order, h + 1, CeilDiv(count, order), made + CeilDiv(count, order))
  {
    assert NodesAbove(count, order) == CeilDiv(count, order) + NodesAbove(CeilDiv(count, order), order);
  }

  lemma ReachedTop(n: nat, order: nat, h: nat, made: nat)
    requires order >= 3 && n > 0 && Reached(n, order, h, 1, made)
    ensures made == LoadedNodes(n, order) && (h > 1 ==> n > Most(order, h - 1))
  {
    if h > 1 { SecondNodeNeeded(n, h - 1, order); }
  }

  /** The last node of the levels is the root of an index. */
  lemma Finished<V>(nodes: map<NodeId, Node<V>>, st: Stage<V>, entries: seq<Entry<V>>, h: nat, order: nat)
    returns (t: Tree<V>)
    requires order >= 3 && Loading(nodes, st, h, order, RootMin(h)) && |st.level| == 1 && st.rest == []
    requires Flatten(st.done) == entries && Ascending(entries) && Filled(st.done, h, |entries|, order)
    ensures IsIndex(nodes, t, h, order) && t.id == st.level[0].id && Entries(t) == entries && Exact(t)
    ensures Filled([t], h, |entries|, order)
  {
    t := st.done[0];
    assert MemberAt(st.level, st.done, 0, h, order, RootMin(h)) && HeldAt(nodes, st.done, 0);
    assert st.done == [t];
    FlattenOne(t);
    BagsOne(t);
    ExactOrdered(t, None, None);
  }

  /** One round of `LoadLevels`: what the load has reached on level `h` it reaches on the next, over the same entries. */
  method NextLevel<V>(store: InMemoryStore<V>, order: nat, level: seq<Child>, ghost st: Stage<V>, ghost h: nat, ghost n: nat)
    returns (parents: seq<Child>, ghost next: Stage<V>)
    requires store.Valid() && order >= 3 && |level| > 1 && level == st.level && st.rest == []
    requires LoadedNodes(n, order) <= ID_LIMIT && Reached(n, order, h, |level|, |store.nodes|)
    requires Loading(store.nodes, st, h, order, LevelMin(|level|, h, order)) && Filled(st.done, h, n, order)
    modifies store
    ensures store.Valid() && parents == next.level && next.rest == [] && 0 < |parents| < |level|
    ensures Reached(n, order, h + 1, |parents|, |store.nodes|) && Raised(old(store.peak), |store.nodes|, store.peak)
    ensures Loading(store.nodes, next, h + 1, order, LevelMin(|parents|, h + 1, order))
    ensures Flatten(next.done) == Flatten(st.done) && Filled(next.done, h + 1, n, order)
  {
    ReachedNext(n, order, h, |level|, |store.nodes|);
    parents, next := LoadLevel(store, order, level, st, h);
  }

  /** Level upon level, until there is only one node. */
  method LoadUpward<V>(store: InMemoryStore<V>, order: nat, leaves: seq<Child>, ghost first: Stage<V>, ghost n: nat)
    returns (level: seq<Child>, ghost st: Stage<V>, ghost h: nat)
    requires store.Valid() && order >= 3 && |leaves| > 0 && leaves == first.level && first.rest == []
    requires LoadedNodes(n, order) <= ID_LIMIT && Reached(n, order, 1, |leaves|, |store.nodes|)
    requires Loading(store.nodes, first, 1, order, LevelMin(|leaves|, 1, order)) && Filled(first.done, 1, n, order)
    modifies store
    ensures store.Valid() && |level| == 1 && level == st.level && st.rest == [] && h >= 1
    ensures Reached(n, order, h, 1, |store.nodes|) && Raised(old(store.peak), |store.nodes|, store.peak)
    ensures Loading(store.nodes, st, h, order, RootMin(h))
    ensures Flatten(st.done) == Flatten(first.done) && Filled(st.done, h, n, order)
  {
    level, st, h := leaves, first, 1;
    while |level| > 1
      invariant store.Valid() && h >= 1 && level == st.level && st.rest == [] && |level| > 0
      invariant Loading(store.nodes, st, h, order, LevelMin(|level|, h, order))
      invariant Flatten(st.done) == Flatten(first.done) && Filled(st.done, h, n, order)
      invariant Reached(n, order, h, |level|, |store.nodes|)
      invariant Raised(old(store.peak), |store.nodes|, store.peak)
      decreases |level|
    {
      level, st := NextLevel(store, order, level, st, h, n);
      h := h + 1;
    }
  }

  /** `Load` for at least one entry. */
  method LoadLevels<V>(store: InMemoryStore<V>, entries: seq<Entry<V>>, order: nat)
    returns (root: NodeId, ghost t: Tree<V>, ghost h: nat)
    requires store.Valid() && store.nodes == map[] && order >= 3
    requires Ascending(entries) && |entries| > 0 && LoadedNodes(|entries|, order) <= ID_LIMIT
    modifies store
    ensures |store.nodes| == LoadedNodes(|entries|, order) && Raised(old(store.peak), |store.nodes|, store.peak)
    ensures store.Valid() && root == t.id && IsIndex(store.nodes, t, h, order)
    ensures Entries(t) == entries && Exact(t) && Filled([t], h, |entries|, order)
    ensures h > 1 ==> |entries| > Most(order, h - 1)
  {
    var leaves, level;
    ghost var first, st;
    leaves, first := LoadLeaves(store, entries, order);
    level, st, h := LoadUpward(store, order, leaves, first, |entries|);
    ReachedTop(|entries|, order, h, |store.nodes|);
    t := Finished(store.nodes, st, entries, h, order);
    root := level[0].id;
  }

  lemma EmptyLoad<V>(nodes: map<NodeId, Node<V>>, t: Tree<V>, order: nat)
    requires order >= 3 && t == LeafT(t.id, [], []) && nodes == map[][t.id := EmptyLeaf()]
    ensures IsIndex(nodes, t, 1, order) && Exact(t) && Entries(t) == [] && |nodes| == 1 && Filled([t], 1, 0, order)
  {
    assert nodes == map[t.id := EmptyLeaf()];
    EmptyIndex<V>(t.id, order);
  }

  /** The store, empty before, holds an index over `entries` with exact separators that is as low and as small as stated. */
  method Load<V>(store: InMemoryStore<V>, entries: seq<Entry<V>>, order: nat)
    returns (root: NodeId, len: nat, ghost t: Tree<V>, ghost h: nat)
    requires store.Valid() && store.nodes == map[] && order >= 3
    requires Ascending(entries) && LoadedNodes(|entries|, order) <= ID_LIMIT
    modifies store
    ensures |store.nodes| == LoadedNodes(|entries|, order) && Raised(old(store.peak), |store.nodes|, store.peak)
    ensures store.Valid() && root == t.id && IsIndex(store.nodes, t, h, order)
    ensures Entries(t) == entries && len == |entries|
    ensures Exact(t) && Filled([t], h, |entries|, order)
    ensures h > 1 ==> |entries| > Most(order, h - 1)
    ensures |entries| > 0 ==> forall d :: 0 <= d < h ==> |Layer(t, d)| == LevelCount(|entries|, h - d, order)
    ensures forall d, i :: 0 <= d < h && 0 <= i < |Layer(t, d)| ==>
              var k, n := |Layer(t, d)|, if d + 1 == h then |entries| else |Layer(t, d + 1)|;
              Width(Layer(t, d)[i]) == n / k + (if i < n % k then 1 else 0)
  {
    len := |entries|;
    if len == 0 {
      root := store.Alloc(EmptyLeaf());
      t, h := LeafT(root, [], []), 1;
      EmptyLoad(store.nodes, t, order);
    } else {
      root, t, h := LoadLevels(store, entries, order);
    }
    FilledShares(t, h, |entries|, order);
  }

  /** A loaded tree is as low as any tree of the order with its entries can be. */
  lemma LoadedIsLowest<V>(n: nat, h: nat, order: nat, u: Tree<V>, k: nat)
    requires order >= 3 && h >= 1 && (h > 1 ==> n > Most(order, h - 1))
    requires Balanced(u, k, order, RootMin(k)) && |Entries(u)| == n
    ensures h <= k
  {
    SizeBounds(u, k, order, RootMin(k));
    if k < h { MostMonotone(order, k, h - 1); }
  }

  lemma {:induction false} MostMonotone(order: nat, k: nat, h: nat)
    requires order >= 3 && 1 <= k <= h
    ensures Most(order, k) <= Most(order, h)
  {
    if k == h {
    } else {
      MostMonotone(order, k, h - 1);
      TimesMonotone(1, order, Most(order, h - 1));
    }
  }
}
