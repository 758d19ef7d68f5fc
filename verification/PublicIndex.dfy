/** The public type (src/tree.rs): an index owns its store, root id, fan-out and entry count. */
module PublicIndex {
  import opened Wrappers
  import opened SortedEntries
  import opened Nodes
  import opened Store
  import opened Trees
  import opened TreeInsert
  import opened Bounds
  import opened BulkLoad
  import opened Shapes
  import opened Seeks
  import opened Iters
  import Insertion
  import Removal
  import Lookups

  // The least `order`; `Clamped` raises smaller ones to it.
  const MIN_ORDER: nat := 3

  function Clamped(order: nat): nat {
    if order < MIN_ORDER then MIN_ORDER else order
  }

  /** An update of the sequence is an update of the map, and changes its size by what it finds. */
  lemma PutFacts<V>(es: seq<Entry<V>>, key: Key, val: V)
    requires Ascending(es)
    ensures Find(es, key) == Lookup(ToMap(es), key)
    ensures ToMap(Put(es, key, val)) == ToMap(es)[key := val]
    ensures |Put(es, key, val)| == |es| + if Find(es, key).None? then 1 else 0
  {
    FindMap(es, key);
    PutMap(es, key, val);
    CountMap(es);
    CountMap(Put(es, key, val));
    var m := ToMap(es);
    if key in m {
      assert m[key := val].Keys == m.Keys;
    } else {
      assert m[key := val].Keys == m.Keys + {key};
    }
  }

  lemma DelFacts<V>(es: seq<Entry<V>>, key: Key)
    requires Ascending(es)
    ensures Find(es, key) == Lookup(ToMap(es), key)
    ensures ToMap(Del(es, key)) == ToMap(es) - {key}
    ensures |Del(es, key)| + (if Find(es, key).Some? then 1 else 0) == |es|
  {
    FindMap(es, key);
    DelMap(es, key);
    CountMap(es);
    CountMap(Del(es, key));
    CountWithout(ToMap(es), key);
  }

  lemma CountWithout<V>(m: map<Key, V>, key: Key)
    ensures |m - {key}| + (if key in m then 1 else 0) == |m|
  {
    if key in m {
      assert m.Keys == (m - {key}).Keys + {key};
    } else {
      assert m - {key} == m;
    }
  }

  class BPlusTree<V> {
    const store: InMemoryStore<V>
    const order: nat
    var root: NodeId
    var len: nat

    // The tree below the root, and its height.
    ghost var tree: Tree<V>
    ghost var levels: nat

    // The greatest number of entries since the index was last empty by construction or `Clear`.
    ghost var most: nat

    ghost predicate Valid()
      reads this, store
    {
      && order >= 3 && store.Valid() && root == tree.id && IsIndex(store.nodes, tree, levels, order)
      && len == |Entries(tree)| && Measured()
    }

    /** The slab is no longer than the ids are wide and than the greatest number of entries explains. */
    ghost predicate Measured()
      requires order >= 3
      reads this, store
    {
      len <= most && store.peak <= NodeBound(most, order) && store.peak <= ID_LIMIT
    }

    /** The ids suffice for the nodes that an insertion of `key` adds; `Insertion.RoomIsNeeded` is the converse. */
    ghost predicate HasRoom(key: Key)
      requires Valid()
      reads this, store
    {
      OrderedRoutable(tree, None, None);
      |store.nodes| + Splits(tree, key, order) + Insertion.Grows(tree, key, order) <= ID_LIMIT
    }

    /** By how much inserting `key` raises `levels`: 1 if every node on its search path overflows, otherwise 0. */
    ghost function Gains(key: Key): nat
      requires Valid()
      reads this, store
    {
      OrderedRoutable(tree, None, None);
      Insertion.Grows(tree, key, order)
    }

    /** There is room to overwrite, and as long as no tree of one entry more can exhaust the ids. */
    lemma RoomToGrow(key: Key, val: V)
      requires Valid() && (key in Map() || NodeBound(len + 1, order) <= ID_LIMIT)
      ensures HasRoom(key)
    {
      OrderedEntries(tree, None, None);
      OrderedRoutable(tree, None, None);
      StoredIsFind(tree, key, None, None);
      PutFacts(Contents(), key, val);
      if key in Map() {
        PresentSplitsNothing(tree, key, order);
        Census(store.slab, store.free, store.nodes);
      } else {
        Insertion.NodesAfter(tree, key, val, levels, order);
        BagCount(store.nodes.Keys, IdBag(tree));
      }
    }

    lemma RoomBelow(key: Key, val: V, n: nat)
      requires Valid() && NodeBound(n, order) <= ID_LIMIT && (key in Map() || |Map()| < n)
      ensures HasRoom(key)
    {
      OrderFacts();
      if key !in Map() {
        NodeBoundMonotone(len + 1, n, order);
      }
      RoomToGrow(key, val);
    }

    /** What the tree holds, as the sequence that `SortedEntries` specifies. */
    ghost function Contents(): seq<Entry<V>>
      reads this
    {
      Entries(tree)
    }

    /** `ToMap` of the entries: the abstract value of the index. */
    ghost function Map(): map<Key, V>
      reads this
    {
      ToMap(Entries(tree))
    }

    /** The entries do not fit into fewer levels. */
    ghost predicate Lowest()
      requires order >= 3
      reads this
    {
      levels > 1 ==> len > Most(order, levels - 1)
    }

    lemma OrderFacts()
      requires Valid()
      ensures Ascending(Contents()) && len == |Map()|
    {
      OrderedEntries(tree, None, None);
      CountMap(Contents());
    }

    lemma ShapeFacts()
      requires Valid()
      ensures levels >= 1 && len <= Most(order, levels) && (levels >= 2 ==> 2 * Least(order, levels - 1) <= len)
    {
      SizeBounds(tree, levels, order, RootMin(levels));
    }

    lemma SlabFacts()
      requires Valid()
      ensures |store.nodes| <= NodeBound(len, order) && |store.nodes| <= if len == 0 then 1 else 2 * len - 1
      ensures |store.nodes| + |store.free| == |store.slab| == store.peak
      ensures |store.slab| <= NodeBound(most, order) && |store.slab| <= if most == 0 then 1 else 2 * most - 1
    {
      Population(tree, levels, order);
      BagCount(store.nodes.Keys, IdBag(tree));
      Census(store.slab, store.free, store.nodes);
      NodeBoundTwice(most, order);
    }

    /** An index without entries is a single empty leaf. */
    lemma EmptyIsLeaf()
      requires Valid() && Map() == map[]
      ensures Bare(tree) == EmptyShape()
    {
      OrderFacts();
      SizeBounds(tree, levels, order, RootMin(levels));
      assert tree.LeafT?;
    }

    /** In every state: keys ascend, `len` counts the map, and the height, the live nodes and the slab are bounded. */
    lemma Facts()
      requires Valid()
      ensures Ascending(Contents()) && len == |Map()|
      ensures levels >= 1 && len <= Most(order, levels) && (levels >= 2 ==> 2 * Least(order, levels - 1) <= len)
      ensures |store.nodes| <= NodeBound(len, order) && |store.nodes| <= if len == 0 then 1 else 2 * len - 1
      ensures |store.nodes| + |store.free| == |store.slab| == store.peak
      ensures |store.slab| <= NodeBound(most, order) && |store.slab| <= if most == 0 then 1 else 2 * most - 1
    {
      OrderFacts();
      ShapeFacts();
      SlabFacts();
    }

    constructor WithOrder(order: nat)
      ensures Valid() && fresh(store) && Map() == map[] && Contents() == [] && this.order == Clamped(order)
      ensures (order >= 3 ==> this.order == order) && (order < 3 ==> this.order == 3)
      ensures most == 0 && Bare(tree) == EmptyShape()
    {
      this.order := if order < MIN_ORDER then MIN_ORDER else order;
      store := new InMemoryStore();
      len := 0;
      new;
      Start();
    }

    /** The public constructor of an empty index. */
    static method New() returns (tree: BPlusTree<V>)
      ensures fresh(tree) && fresh(tree.store) && tree.Valid() && tree.Map() == map[] && tree.order == 64
    {
      tree := new BPlusTree.WithOrder(DEFAULT_ORDER);
    }

    /** The public constructor of an index over a sequence of entries. */
    static method FromEntries(entries: seq<Entry<V>>) returns (tree: BPlusTree<V>)
      requires if Ascending(entries) then LoadedNodes(|entries|, 64) <= ID_LIMIT
               else NodeBound(|ToMap(entries)|, 64) <= ID_LIMIT
      ensures fresh(tree) && fresh(tree.store) && tree.Valid() && tree.Map() == ToMap(entries) && tree.order == 64
    {
      tree := new BPlusTree.FromSorted(entries, DEFAULT_ORDER);
    }

    /** Put an empty leaf into the empty store as the root. */
    method Start()
      requires order >= 3 && store.Valid() && store.nodes == map[] && store.peak == 0 && len == 0
      modifies `root, `tree, `levels, `most, store
      ensures Valid() && Contents() == [] && most == 0 && Bare(tree) == EmptyShape()
    {
      root := store.Alloc(EmptyLeaf());
      tree, levels, most := LeafT(root, [], []), 1, 0;
      EmptyIndex<V>(root, order);
    }

    function Len(): (n: nat)
      requires Valid()
      reads this, store
      ensures n == |Map()|
    {
      OrderFacts();
      len
    }

    predicate IsEmpty()
      requires Valid()
      reads this, store
      ensures IsEmpty() <==> Map() == map[]
    {
      OrderFacts();
      len == 0
    }

    /** Load ascending entries into the empty store. */
    method Fill(entries: seq<Entry<V>>)
      requires order >= 3 && store.Valid() && store.nodes == map[] && store.peak == 0 && Ascending(entries)
      requires LoadedNodes(|entries|, order) <= ID_LIMIT
      modifies this, store
      ensures Valid() && Contents() == entries && Exact(tree) && most == len
      ensures Map() == ToMap(entries) && Lowest() && Filled([tree], levels, |entries|, order)
    {
      root, len, tree, levels := BulkLoad.Load(store, entries, order);
      most := len;
      Population(tree, levels, order);
      BagCount(store.nodes.Keys, IdBag(tree));
    }

    method Height() returns (height: nat)
      requires Valid()
      ensures height == levels
    {
      height := 1;
      var id := root;
      ghost var s, m := tree, RootMin(levels);
      while store.Get(id).Internal?
        invariant s.id == id && Rep(store.nodes, s) && id in store.nodes
        invariant height <= levels && Balanced(s, levels + 1 - height, order, m)
        decreases s
      {
        height := height + 1;
        id := store.Get(id).children[0];
        s, m := s.children[0], MinKeys(order);
      }
    }

    method Clear()
      requires Valid()
      modifies this, store
      ensures Valid() && Contents() == [] && Map() == map[] && len == 0 && most == 0 && Bare(tree) == EmptyShape()
      ensures store.slab == [EmptyLeaf()] && store.free == []
    {
      root := store.Reset();
      len := 0;
      tree, levels, most := LeafT(root, [], []), 1, 0;
      EmptyIndex<V>(root, order);
    }

    method Get(key: Key) returns (found: Option<V>)
      requires Valid()
      ensures found == Lookup(Map(), key)
      ensures (found.Some? <==> key in Map()) && (found.Some? ==> found.value == Map()[key])
    {
      ghost var visits;
      found, visits := Lookups.Get(store, root, key, tree, levels, order);
      OrderedEntries(tree, None, None);
      FindMap(Contents(), key);
    }

    method ContainsKey(key: Key) returns (present: bool)
      requires Valid()
      ensures present <==> key in Map()
    {
      var found := Get(key);
      present := found.Some?;
    }

    method Iterate() returns (it: Iter<V>)
      requires Valid()
      ensures fresh(it) && fresh(it.Parts()) && it.Valid() && it.store == store
      ensures it.Remaining() == Contents()
    {
      it := Iter.Full(store, root, tree, levels, order);
    }

    method Range(lower: Bound, upper: Bound) returns (it: Iter<V>)
      requires Valid()
      ensures fresh(it) && fresh(it.Parts()) && it.Valid() && it.store == store
      ensures it.Remaining() == InRange(Contents(), lower, upper)
    {
      it := Iter.Range(store, root, lower, upper, tree, levels, order);
    }

    /** The map is updated at `key`, and the index is one level taller exactly when `Gains` says so. */
    method Insert(key: Key, val: V) returns (displaced: Option<V>)
      requires Valid() && HasRoom(key)
      modifies this, store
      ensures Valid()
      ensures Map() == old(Map())[key := val] && displaced == Lookup(old(Map()), key)
      ensures levels == old(levels) + old(Gains(key))
      ensures most == if len > old(most) then len else old(most)
      ensures Bare(tree) == Inserted(old(Bare(tree)), key, val, order)
    {
      ghost var es := Contents();
      OrderFacts();
      PutFacts(es, key, val);
      displaced := Place(key, val);
      if displaced.None? {
        len := len + 1;
      }
      Remeasure(old(store.peak), old(most));
      most := if len > most then len else most;
    }

    /** The change of the tree and its store. */
    method Place(key: Key, val: V) returns (displaced: Option<V>)
      requires Valid() && HasRoom(key)
      modifies `root, `tree, `levels, store
      ensures store.Valid() && root == tree.id && IsIndex(store.nodes, tree, levels, order)
      ensures Contents() == Put(old(Contents()), key, val) && displaced == Find(old(Contents()), key)
      ensures levels == old(levels) + old(Gains(key))
      ensures Raised(old(store.peak), |store.nodes|, store.peak) && |store.nodes| <= ID_LIMIT
      ensures Bare(tree) == Inserted(old(Bare(tree)), key, val, order)
    {
      OrderedRoutable(tree, None, None);
      displaced, root, tree, levels := Insertion.Insert(store, root, key, val, order, tree, levels);
    }

    /** After nodes were added the slab is still explained by the greatest number of entries. */
    lemma Remeasure(peak: nat, before: nat)
      requires order >= 3 && IsIndex(store.nodes, tree, levels, order) && len == |Entries(tree)|
      requires Raised(peak, |store.nodes|, store.peak) && peak <= NodeBound(before, order)
      ensures store.peak <= NodeBound(if len > before then len else before, order)
    {
      Population(tree, levels, order);
      BagCount(store.nodes.Keys, IdBag(tree));
      NodeBoundMonotone(len, if len > before then len else before, order);
      NodeBoundMonotone(before, if len > before then len else before, order);
    }

    /** By how much removing `key` lowers `levels`: 1 if the last separator of the root goes with it, otherwise 0. */
    ghost function Loses(key: Key): nat
      requires Valid()
      reads this, store
    {
      OrderedRoutable(tree, None, None);
      Removal.Shrinks(tree, key, MinKeys(order))
    }

    method Remove(key: Key) returns (removed: Option<V>)
      requires Valid()
      modifies this, store
      ensures Valid()
      ensures Map() == old(Map()) - {key} && removed == Lookup(old(Map()), key)
      ensures old(levels) == levels + old(Loses(key)) && most == old(most)
      ensures |store.slab| == |old(store.slab)|
      ensures Bare(tree) == Removed(old(Bare(tree)), key, MinKeys(order))
      ensures removed.None? ==> unchanged(store) && unchanged(`root) && unchanged(`len)
    {
      removed := Take(key);
      if removed.Some? {
        len := len - 1;
      }
    }

    /** The change of the tree and its store. */
    method Take(key: Key) returns (removed: Option<V>)
      requires Valid()
      modifies `root, `tree, `levels, store
      ensures store.Valid() && root == tree.id && IsIndex(store.nodes, tree, levels, order)
      ensures Map() == old(Map()) - {key} && removed == Lookup(old(Map()), key)
      ensures |Contents()| + (if removed.Some? then 1 else 0) == old(|Contents()|)
      ensures old(levels) == levels + old(Loses(key)) && store.peak == old(store.peak)
      ensures removed.None? ==> unchanged(store) && root == old(root)
      ensures Bare(tree) == Removed(old(Bare(tree)), key, MinKeys(order))
    {
      OrderFacts();
      OrderedRoutable(tree, None, None);
      DelFacts(Contents(), key);
      removed, root, tree, levels := Removal.Remove(store, root, key, MinKeys(order), tree, levels, order);
    }

    /**
      The map is `ToMap` of the input, duplicates included; ascending input is listed unchanged, on the fewest
      levels possible.
     */
    constructor FromSorted(entries: seq<Entry<V>>, order: nat)
      requires if Ascending(entries) then LoadedNodes(|entries|, Clamped(order)) <= ID_LIMIT
               else NodeBound(|ToMap(entries)|, Clamped(order)) <= ID_LIMIT
      ensures Valid() && fresh(store) && this.order == Clamped(order)
      ensures (order >= 3 ==> this.order == order) && (order < 3 ==> this.order == 3)
      ensures Map() == ToMap(entries)
      ensures Ascending(entries) ==> Contents() == entries && Exact(tree)
      ensures !Ascending(entries) ==> Bare(tree) == Model(entries, this.order)
      ensures Ascending(entries) ==> Lowest() && Filled([tree], levels, |entries|, this.order)
    {
      this.order := if order < MIN_ORDER then MIN_ORDER else order;
      store := new InMemoryStore();
      len := 0;
      new;
      var ascending := IsAscending(entries);
      if ascending {
        Fill(entries);
      } else {
        Start();
        InsertAll(entries);
      }
    }

    /** Insert entries one after the other into an empty index. */
    method InsertAll(entries: seq<Entry<V>>)
      requires Valid() && Map() == map[] && NodeBound(|ToMap(entries)|, order) <= ID_LIMIT
      modifies this, store
      ensures Valid() && Map() == ToMap(entries) && Bare(tree) == Model(entries, order)
    {
      EmptyIsLeaf();
      ghost var done: seq<Entry<V>> := [];
      for i := 0 to |entries|
        invariant Valid() && done == entries[..i] && Map() == ToMap(done) && Bare(tree) == Model(done, order)
      {
        ghost var more := PrefixStep(entries, done, i);
        RoomBelow(entries[i].key, entries[i].val, |ToMap(entries)|);
        var _ := Insert(entries[i].key, entries[i].val);
        done := more;
      }
      assert done == entries;
    }
  }

  lemma PrefixStep<V>(entries: seq<Entry<V>>, done: seq<Entry<V>>, i: nat) returns (more: seq<Entry<V>>)
    requires i < |entries| && done == entries[..i]
    ensures more == entries[..i + 1]
    ensures ToMap(more) == ToMap(done)[entries[i].key := entries[i].val]
    ensures more != [] && more[..|more| - 1] == done && more[|more| - 1] == entries[i]
    ensures entries[i].key !in ToMap(done) ==> |ToMap(done)| < |ToMap(entries)|
  {
    more := entries[..i + 1];
    ghost var rest := entries[i + 1..];
    assert more == done + [entries[i]] && entries == more + rest;
    PrefixFits(entries, more, done, entries[i], rest);
  }

  /** One more entry updates the map of a prefix; a new key leaves the prefix smaller than the whole. */
  lemma PrefixFits<V>(all: seq<Entry<V>>, some: seq<Entry<V>>, a: seq<Entry<V>>, e: Entry<V>, b: seq<Entry<V>>)
    requires some == a + [e] && all == some + b
    ensures ToMap(some) == ToMap(a)[e.key := e.val]
    ensures e.key !in ToMap(a) ==> |ToMap(a)| < |ToMap(all)|
  {
    MapOfSnoc(a, e);
    ToMapConcat(some, b);
    if e.key !in ToMap(a) {
      MoreKeys(ToMap(a), e.key, e.val, ToMap(b));
    }
  }

  lemma MapOfSnoc<V>(a: seq<Entry<V>>, e: Entry<V>)
    ensures ToMap(a + [e]) == ToMap(a)[e.key := e.val]
  {
    ToMapConcat(a, [e]);
    MapOfOne(e);
  }

  lemma MapOfOne<V>(e: Entry<V>)
    ensures ToMap([e]) == map[e.key := e.val]
  {
  }

  lemma MoreKeys<K, T>(m: map<K, T>, k: K, v: T, rest: map<K, T>)
    requires k !in m
    ensures |m| < |m[k := v] + rest|
  {
    SubsetCount(m[k := v].Keys, (m[k := v] + rest).Keys);
    assert m[k := v].Keys == m.Keys + {k};
  }

  /** With the fan-out of the public constructors the ids suffice for any tree of up to about 2^36.9 entries. */
  lemma DefaultCapacity(n: nat)
    ensures NodeBound(n, DEFAULT_ORDER) <= ID_LIMIT <==> n <= 128_983_236_609
  {
    assert MinKeys(DEFAULT_ORDER) == 31;
    if n >= 62 {
      DivideBound(ID_LIMIT + 1, 961, n * 32 + 961 - 62);
    }
  }

  /** Indexes of the same map list the same entries in the same order, however each was built. */
  lemma SameMapSameListing<V>(a: BPlusTree<V>, b: BPlusTree<V>)
    requires a.Valid() && b.Valid() && a.Map() == b.Map()
    ensures a.Contents() == b.Contents() && a.len == b.len
  {
    a.OrderFacts();
    b.OrderFacts();
    SameMapSameEntries(a.Contents(), b.Contents());
  }

  /** Comparing neighbours suffices to tell whether all keys ascend strictly. */
  method IsAscending<V>(entries: seq<Entry<V>>) returns (ascending: bool)
    ensures ascending <==> Ascending(entries)
  {
    if |entries| == 0 {
      return true;
    }
    for i := 1 to |entries|
      invariant Ascending(entries[..i])
    {
      if entries[i - 1].key >= entries[i].key {
        return false;
      }
      assert entries[..i][i - 1] == entries[i - 1];
    }
    assert entries == entries[..|entries|];
    return true;
  }
}
