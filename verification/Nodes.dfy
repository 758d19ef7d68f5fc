/** B+tree nodes and the searches inside one node (src/node.rs). */
module Nodes {
  import opened Wrappers
  import opened SortedEntries

  // A key of the abstract map of live nodes.
  type NodeId = nat

  // A leaf keeps keys and values in parallel arrays; an internal node keeps
  // separators and one more child id than separators.
  datatype Node<V> =
    | Leaf(keys: seq<Key>, vals: seq<V>)
    | Internal(keys: seq<Key>, children: seq<NodeId>)

  function EmptyLeaf<V>(): Node<V> {
    Leaf([], [])
  }

  /** The occupancy that `minKeys` and `order` bound, for both kinds of node. */
  function KeysLen<V>(node: Node<V>): nat {
    |node.keys|
  }

  ghost predicate AscendingKeys(keys: seq<Key>) {
    forall i, j :: 0 <= i < j < |keys| ==> keys[i] < keys[j]
  }

  datatype SearchResult = Found(index: nat) | Missing(index: nat)

  /** What a binary search promises: the key's index, or the only place where it can be inserted. */
  ghost predicate Locates(keys: seq<Key>, key: Key, r: SearchResult) {
    match r
    case Found(i) => i < |keys| && keys[i] == key
    case Missing(i) =>
      && i <= |keys|
      && (forall j :: 0 <= j < i ==> keys[j] < key)
      && (forall j :: i <= j < |keys| ==> key < keys[j])
  }

  function BinarySearch(keys: seq<Key>, key: Key): (r: SearchResult)
    requires AscendingKeys(keys)
    ensures Locates(keys, key, r)
  {
    SearchBetween(keys, key, 0, |keys|)
  }

  function SearchBetween(keys: seq<Key>, key: Key, lo: nat, hi: nat): (r: SearchResult)
    requires AscendingKeys(keys) && lo <= hi <= |keys|
    requires forall j :: 0 <= j < lo ==> keys[j] < key
    requires forall j :: hi <= j < |keys| ==> key < keys[j]
    ensures Locates(keys, key, r)
    decreases hi - lo
  {
    if lo == hi then Missing(lo)
    else
      var mid := (lo + hi) / 2;
      if keys[mid] == key then Found(mid)
      else if keys[mid] < key then SearchBetween(keys, key, mid + 1, hi)
      else SearchBetween(keys, key, lo, mid)
  }

  /** The search result is determined by its contract. */
  lemma LocatesUnique(keys: seq<Key>, key: Key, r: SearchResult, s: SearchResult)
    requires AscendingKeys(keys) && Locates(keys, key, r) && Locates(keys, key, s)
    ensures r == s
  {
    assert r.index < |keys| ==> keys[r.index] >= key;
    assert s.index < |keys| ==> keys[s.index] >= key;
  }

  /** `key` lies between the separators around the result: not below the left one, and below the right one. */
  function ChildIndex(keys: seq<Key>, key: Key): (i: nat)
    requires AscendingKeys(keys)
    ensures i <= |keys|
    ensures forall j :: 0 <= j < i ==> keys[j] <= key
    ensures forall j :: i <= j < |keys| ==> key < keys[j]
  {
    match BinarySearch(keys, key)
    case Found(i) => i + 1
    case Missing(i) => i
  }

  function InsertAt<T>(s: seq<T>, i: nat, x: T): (r: seq<T>)
    requires i <= |s|
    ensures |r| == |s| + 1 && r[i] == x
  {
    s[..i] + [x] + s[i..]
  }

  function RemoveAt<T>(s: seq<T>, i: nat): (r: seq<T>)
    requires i < |s|
    ensures |r| == |s| - 1
  {
    s[..i] + s[i + 1..]
  }

  lemma Around<T>(s: seq<T>, i: nat)
    requires i < |s|
    ensures s == s[..i] + [s[i]] + s[i + 1..]
  {
  }

  lemma Associative<T>(a: seq<T>, b: seq<T>, c: seq<T>)
    ensures a + (b + c) == a + b + c
  {
  }

  /** The entries a pair of parallel arrays stands for. */
  ghost function Zip<V>(keys: seq<Key>, vals: seq<V>): (es: seq<Entry<V>>)
    requires |keys| == |vals|
    ensures |es| == |keys|
    ensures forall i :: 0 <= i < |es| ==> es[i] == Entry(keys[i], vals[i])
  {
    seq(|keys|, i requires 0 <= i < |keys| => Entry(keys[i], vals[i]))
  }

  /** Look `key` up in a leaf. */
  function LeafGet<V>(keys: seq<Key>, vals: seq<V>, key: Key): (r: Option<V>)
    requires AscendingKeys(keys) && |keys| == |vals|
    ensures r == Find(Zip(keys, vals), key)
  {
    LeafSearch(keys, vals, key);
    match BinarySearch(keys, key)
    case Found(i) => Some(vals[i])
    case Missing(_) => None
  }

  /** How the search index splits a leaf's entries around `key`. */
  lemma LeafSearch<V>(keys: seq<Key>, vals: seq<V>, key: Key)
    requires AscendingKeys(keys) && |keys| == |vals|
    ensures var es, r := Zip(keys, vals), BinarySearch(keys, key);
            r.Found? ==>
              && es == es[..r.index] + [Entry(key, vals[r.index])] + es[r.index + 1..]
              && AllBelow(es[..r.index], key) && AllAbove(es[r.index + 1..], key)
              && Find(es, key) == Some(vals[r.index])
    ensures var es, r := Zip(keys, vals), BinarySearch(keys, key);
            r.Missing? ==>
              && es == es[..r.index] + [] + es[r.index..]
              && AllBelow(es[..r.index], key) && AllAbove(es[r.index..], key)
              && Find(es, key) == None
  {
    var es, i := Zip(keys, vals), BinarySearch(keys, key).index;
    if BinarySearch(keys, key).Found? {
      var c := [Entry(key, vals[i])];
      assert es == es[..i] + c + es[i + 1..];
      FindMiddle(es[..i], c, es[i + 1..], key);
    } else {
      assert es == es[..i] + [] + es[i..];
      FindMiddle(es[..i], [], es[i..], key);
    }
  }

  lemma ZipRemoveAt<V>(keys: seq<Key>, vals: seq<V>, i: nat)
    requires i < |keys| == |vals|
    ensures Zip(RemoveAt(keys, i), RemoveAt(vals, i)) == Zip(keys, vals)[..i] + [] + Zip(keys, vals)[i + 1..]
  {
  }

  lemma ZipInsertAt<V>(keys: seq<Key>, vals: seq<V>, i: nat, key: Key, val: V)
    requires i <= |keys| == |vals|
    ensures Zip(InsertAt(keys, i, key), InsertAt(vals, i, val))
         == Zip(keys, vals)[..i] + [Entry(key, val)] + Zip(keys, vals)[i..]
  {
  }

  lemma ZipReplace<V>(keys: seq<Key>, vals: seq<V>, i: nat, val: V)
    requires i < |keys| == |vals|
    ensures Zip(keys, vals[i := val]) == Zip(keys, vals)[..i] + [Entry(keys[i], val)] + Zip(keys, vals)[i + 1..]
  {
  }

  /** Overwriting and inserting at the searched index is `Put` on the entries. */
  lemma LeafPut<V>(keys: seq<Key>, vals: seq<V>, key: Key, val: V)
    requires AscendingKeys(keys) && |keys| == |vals|
    ensures BinarySearch(keys, key).Found? ==>
              Zip(keys, vals[BinarySearch(keys, key).index := val]) == Put(Zip(keys, vals), key, val)
    ensures BinarySearch(keys, key).Missing? ==>
              var i := BinarySearch(keys, key).index;
              Zip(InsertAt(keys, i, key), InsertAt(vals, i, val)) == Put(Zip(keys, vals), key, val)
  {
    LeafSearch(keys, vals, key);
    var es, i := Zip(keys, vals), BinarySearch(keys, key).index;
    if BinarySearch(keys, key).Found? {
      PutMiddle(es[..i], [Entry(key, vals[i])], es[i + 1..], key, val);
      ZipReplace(keys, vals, i, val);
    } else {
      PutMiddle(es[..i], [], es[i..], key, val);
      ZipInsertAt(keys, vals, i, key, val);
    }
  }

  /** Removing at the searched index is `Del` on the entries. */
  lemma LeafDel<V>(keys: seq<Key>, vals: seq<V>, key: Key)
    requires AscendingKeys(keys) && |keys| == |vals|
    ensures BinarySearch(keys, key).Found? ==>
              var i := BinarySearch(keys, key).index;
              Zip(RemoveAt(keys, i), RemoveAt(vals, i)) == Del(Zip(keys, vals), key)
    ensures BinarySearch(keys, key).Missing? ==> Del(Zip(keys, vals), key) == Zip(keys, vals)
  {
    LeafSearch(keys, vals, key);
    var es, i := Zip(keys, vals), BinarySearch(keys, key).index;
    if BinarySearch(keys, key).Found? {
      DelMiddle(es[..i], [Entry(key, vals[i])], es[i + 1..], key);
      ZipRemoveAt(keys, vals, i);
    } else {
      DelAbsent(es, key);
    }
  }
}
