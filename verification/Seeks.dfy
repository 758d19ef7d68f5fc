/** Range bounds, and where they cut the in-order sequence. */
module Seeks {
  import opened Wrappers
  import opened SortedEntries
  import opened Nodes
  import opened Trees
  import opened Paths
  import opened Steps

  datatype Bound = Included(key: Key) | Excluded(key: Key) | Unbounded

  predicate MeetsLower(b: Bound, k: Key) {
    match b
    case Included(x) => x <= k
    case Excluded(x) => x < k
    case Unbounded => true
  }

  predicate MeetsUpper(b: Bound, k: Key) {
    match b
    case Included(x) => k <= x
    case Excluded(x) => k < x
    case Unbounded => true
  }

  /** Exactly the entries from index `cut` on meet the lower bound. */
  ghost predicate LowerCut<V>(es: seq<Entry<V>>, b: Bound, cut: nat) {
    && cut <= |es|
    && (forall r :: 0 <= r < cut ==> !MeetsLower(b, es[r].key))
    && (forall r :: cut <= r < |es| ==> MeetsLower(b, es[r].key))
  }

  /** Exactly the first `cut` entries meet the upper bound. */
  ghost predicate UpperCut<V>(es: seq<Entry<V>>, b: Bound, cut: nat) {
    && cut <= |es|
    && (forall r :: 0 <= r < cut ==> MeetsUpper(b, es[r].key))
    && (forall r :: cut <= r < |es| ==> !MeetsUpper(b, es[r].key))
  }

  /** The entries that satisfy both bounds, in order: what a range scan is for. */
  ghost function InRange<V>(es: seq<Entry<V>>, lower: Bound, upper: Bound): seq<Entry<V>> {
    if es == [] then []
    else
      (if MeetsLower(lower, es[0].key) && MeetsUpper(upper, es[0].key) then [es[0]] else [])
      + InRange(es[1..], lower, upper)
  }

  /** Without bounds the range is everything. */
  lemma {:induction false} InRangeOfAll<V>(es: seq<Entry<V>>)
    ensures InRange(es, Unbounded, Unbounded) == es
  {
    if es == [] {
    } else {
      InRangeOfAll(es[1..]);
    }
  }

  /** What is in range, spelled out for every kind of bound. */
  lemma {:induction false} InRangeMember<V>(es: seq<Entry<V>>, lower: Bound, upper: Bound, e: Entry<V>)
    ensures e in InRange(es, lower, upper) <==>
            && e in es
            && (lower.Included? ==> lower.key <= e.key) && (lower.Excluded? ==> lower.key < e.key)
            && (upper.Included? ==> e.key <= upper.key) && (upper.Excluded? ==> e.key < upper.key)
  {
    if es == [] {
    } else {
      InRangeMember(es[1..], lower, upper, e);
      assert e in es <==> e == es[0] || e in es[1..];
    }
  }

  /** Ascending entries stay in order, so that membership determines the range. */
  lemma {:induction false} InRangeAscending<V>(es: seq<Entry<V>>, lower: Bound, upper: Bound)
    requires Ascending(es)
    ensures Ascending(InRange(es, lower, upper))
  {
    if es == [] {
    } else {
      var rest := InRange(es[1..], lower, upper);
      InRangeAscending(es[1..], lower, upper);
      forall r | 0 <= r < |rest|
        ensures es[0].key < rest[r].key
      {
        InRangeMember(es[1..], lower, upper, rest[r]);
      }
    }
  }

  /** Where a lower bound cuts, spelled out: an unbounded one before the first entry. */
  lemma LowerCutMeans<V>(es: seq<Entry<V>>, b: Bound, cut: nat)
    ensures LowerCut(es, b, cut) <==>
            && cut <= |es|
            && forall r :: 0 <= r < |es| ==>
                 (cut <= r <==> (b.Included? ==> b.key <= es[r].key) && (b.Excluded? ==> b.key < es[r].key))
  {
    assert forall r :: 0 <= r < |es| ==>
        (MeetsLower(b, es[r].key) <==> (b.Included? ==> b.key <= es[r].key) && (b.Excluded? ==> b.key < es[r].key));
    if cut <= |es| {
      assert LowerCut(es, b, cut) <==> forall r :: 0 <= r < |es| ==> (cut <= r <==> MeetsLower(b, es[r].key));
    }
  }

  /** Where an upper bound cuts: an unbounded one behind the last entry. */
  lemma UpperCutMeans<V>(es: seq<Entry<V>>, b: Bound, cut: nat)
    ensures UpperCut(es, b, cut) <==>
            && cut <= |es|
            && forall r :: 0 <= r < |es| ==>
                 (r < cut <==> (b.Included? ==> es[r].key <= b.key) && (b.Excluded? ==> es[r].key < b.key))
  {
    assert forall r :: 0 <= r < |es| ==>
        (MeetsUpper(b, es[r].key) <==> (b.Included? ==> es[r].key <= b.key) && (b.Excluded? ==> es[r].key < b.key));
    if cut <= |es| {
      assert UpperCut(es, b, cut) <==> forall r :: 0 <= r < |es| ==> (r < cut <==> MeetsUpper(b, es[r].key));
    }
  }

  lemma CutTail<V>(es: seq<Entry<V>>, lower: Bound, upper: Bound, from: nat, to: nat)
    requires es != [] && LowerCut(es, lower, from) && UpperCut(es, upper, to)
    ensures LowerCut(es[1..], lower, if from > 0 then from - 1 else 0)
    ensures UpperCut(es[1..], upper, if to > 0 then to - 1 else 0)
  {
    var rest := es[1..];
    assert forall r :: 0 <= r < |rest| ==> rest[r] == es[r + 1];
  }

  /** Between its two cuts lies the range, whatever the bounds. */
  lemma {:induction false} RangeBetweenCuts<V>(es: seq<Entry<V>>, lower: Bound, upper: Bound, from: nat, to: nat)
    requires LowerCut(es, lower, from) && UpperCut(es, upper, to)
    ensures InRange(es, lower, upper) == if from <= to then es[from..to] else []
    decreases |es|
  {
    if es == [] {
    } else {
      var rest := es[1..];
      var f, u := if from > 0 then from - 1 else 0, if to > 0 then to - 1 else 0;
      if from == 0 < to {
        assert es[from..to] == [es[0]] + rest[f..u];
      } else if 0 < from <= to {
        assert es[from..to] == rest[f..u];
      }
      CutTail(es, lower, upper, from, to);
      RangeBetweenCuts(rest, lower, upper, f, u);
      assert MeetsLower(lower, es[0].key) <==> from == 0;
      assert MeetsUpper(upper, es[0].key) <==> to > 0;
    }
  }

  /** Comparing the keys at the two ends tells whether the range is empty. */
  lemma RangeByEnds<V>(es: seq<Entry<V>>, lower: Bound, upper: Bound, from: nat, to: nat)
    requires Ascending(es) && LowerCut(es, lower, from) && UpperCut(es, upper, to)
    ensures from == |es| || to == 0 ==> InRange(es, lower, upper) == []
    ensures from < |es| && to > 0 ==>
              && (es[from].key <= es[to - 1].key <==> from < to)
              && InRange(es, lower, upper) == if from < to then es[from..to] else []
  {
    RangeBetweenCuts(es, lower, upper, from, to);
  }

  /** All entries before the subtree at `path` lie below `key`, all after it above. */
  ghost predicate Surrounds<V>(t: Tree<V>, path: seq<Frame>, key: Key)
    requires OnPath(t, path)
  {
    && Ended(t, path) <= |Entries(t)|
    && (forall r :: 0 <= r < Before(t, path) ==> Entries(t)[r].key < key)
    && (forall r :: Ended(t, path) <= r < |Entries(t)| ==> key < Entries(t)[r].key)
  }

  /** One step of a search keeps the key surrounded. */
  lemma StepTo<V>(t: Tree<V>, path: seq<Frame>, lo: Option<Key>, hi: Option<Key>, key: Key)
    requires OnPath(t, path) && At(t, path).BranchT? && Ordered(At(t, path), lo, hi)
    requires AtLeast(lo, key) && Below(key, hi) && Surrounds(t, path, key)
    ensures AscendingKeys(At(t, path).keys)
    ensures var s := At(t, path);
            var i := ChildIndex(s.keys, key);
            var longer := path + [Frame(s.id, i)];
            && i < |s.children|
            && Ordered(s.children[i], LoAt(s.keys, lo, i), HiAt(s.keys, hi, i))
            && AtLeast(LoAt(s.keys, lo, i), key) && Below(key, HiAt(s.keys, hi, i))
            && Reached(t, longer, s.children[i].id) && At(t, longer) == s.children[i]
            && Surrounds(t, longer, key)
  {
    var s := At(t, path);
    Descend(s, lo, hi, key);
    var i := ChildIndex(s.keys, key);
    Down(t, path, Frame(s.id, i));
    Part(t, path);
    Narrow(Entries(t), Before(t, path), Flatten(s.children[..i]), Entries(s.children[i]), Flatten(s.children[i + 1..]), key);
  }

  lemma Narrow<V>(all: seq<Entry<V>>, from: nat, a: seq<Entry<V>>, c: seq<Entry<V>>, b: seq<Entry<V>>, key: Key)
    requires Stands(all, from, a + c + b) && AllBelow(a, key) && AllAbove(b, key)
    requires forall r :: 0 <= r < from ==> all[r].key < key
    requires forall r :: from + |a + c + b| <= r < |all| ==> key < all[r].key
    ensures forall r :: 0 <= r < from + |a| ==> all[r].key < key
    ensures forall r :: from + |a| + |c| <= r < |all| ==> key < all[r].key
  {
    forall r | from <= r < from + |a|
      ensures all[r].key < key
    {
      assert (a + c + b)[r - from] == a[r - from];
    }
    forall r | from + |a| + |c| <= r < from + |a + c + b|
      ensures key < all[r].key
    {
      assert (a + c + b)[r - from] == b[r - from - |a| - |c|];
    }
  }

  /** In the leaf that a search ends in, the search index is where a lower bound cuts. */
  lemma LowerInLeaf<V>(t: Tree<V>, path: seq<Frame>, b: Bound, keys: seq<Key>, found: SearchResult)
    requires !b.Unbounded? && OnPath(t, path) && At(t, path).LeafT? && Surrounds(t, path, b.key)
    requires keys == At(t, path).keys && AscendingKeys(keys) && |keys| == |At(t, path).vals| && Locates(keys, b.key, found)
    ensures LowerCut(Entries(t), b, Before(t, path) + found.index + if found.Found? && b.Excluded? then 1 else 0)
  {
    LeafKeys(t, path, b.key);
    LowerCutAt(Entries(t), Before(t, path), keys, b, found);
  }

  lemma UpperInLeaf<V>(t: Tree<V>, path: seq<Frame>, b: Bound, keys: seq<Key>, found: SearchResult)
    requires !b.Unbounded? && OnPath(t, path) && At(t, path).LeafT? && Surrounds(t, path, b.key)
    requires keys == At(t, path).keys && AscendingKeys(keys) && |keys| == |At(t, path).vals| && Locates(keys, b.key, found)
    ensures UpperCut(Entries(t), b, Before(t, path) + found.index + if found.Found? && b.Included? then 1 else 0)
  {
    LeafKeys(t, path, b.key);
    UpperCutAt(Entries(t), Before(t, path), keys, b, found);
  }

  /** `keys` are the keys of `es` from index `from` on, and all other entries lie on their side of `key`. */
  ghost predicate LeafAmong<V>(es: seq<Entry<V>>, from: nat, keys: seq<Key>, key: Key) {
    && from + |keys| <= |es|
    && (forall r :: 0 <= r < from ==> es[r].key < key)
    && (forall r :: from <= r < from + |keys| ==> es[r].key == keys[r - from])
    && (forall r :: from + |keys| <= r < |es| ==> key < es[r].key)
  }

  lemma LowerCutAt<V>(es: seq<Entry<V>>, from: nat, keys: seq<Key>, b: Bound, found: SearchResult)
    requires !b.Unbounded? && LeafAmong(es, from, keys, b.key) && AscendingKeys(keys) && Locates(keys, b.key, found)
    ensures LowerCut(es, b, from + found.index + if found.Found? && b.Excluded? then 1 else 0)
  {
  }

  lemma UpperCutAt<V>(es: seq<Entry<V>>, from: nat, keys: seq<Key>, b: Bound, found: SearchResult)
    requires !b.Unbounded? && LeafAmong(es, from, keys, b.key) && AscendingKeys(keys) && Locates(keys, b.key, found)
    ensures UpperCut(es, b, from + found.index + if found.Found? && b.Included? then 1 else 0)
  {
  }

  lemma LeafKeys<V>(t: Tree<V>, path: seq<Frame>, key: Key)
    requires OnPath(t, path) && At(t, path).LeafT? && |At(t, path).keys| == |At(t, path).vals| && Surrounds(t, path, key)
    ensures LeafAmong(Entries(t), Before(t, path), At(t, path).keys, key)
  {
    Part(t, path);
    AmongZipped(Entries(t), Before(t, path), At(t, path).keys, At(t, path).vals, key);
  }

  lemma AmongZipped<V>(es: seq<Entry<V>>, from: nat, keys: seq<Key>, vals: seq<V>, key: Key)
    requires |keys| == |vals| && Stands(es, from, Zip(keys, vals))
    requires forall r :: 0 <= r < from ==> es[r].key < key
    requires forall r :: from + |keys| <= r < |es| ==> key < es[r].key
    ensures LeafAmong(es, from, keys, key)
  {
    forall r | from <= r < from + |keys|
      ensures es[r].key == keys[r - from]
    {
      assert Zip(keys, vals)[r - from] == es[from + (r - from)];
    }
  }
}
