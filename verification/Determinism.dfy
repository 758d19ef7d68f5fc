/** A bulk load has no choice: entries and order determine the shape of the tree. */
module Determinism {
  import opened SortedEntries
  import opened Nodes
  import opened Trees
  import opened TreeRemove
  import opened Bounds
  import opened BulkLoad
  import opened Shapes

  /** A level of loaded nodes. */
  ghost predicate Loaded<V>(ts: seq<Tree<V>>, h: nat, order: nat)
    requires order >= 3
  {
    forall i :: 0 <= i < |ts| ==> LoadedAt(ts, h, order, i)
  }

  ghost predicate LoadedAt<V>(ts: seq<Tree<V>>, h: nat, order: nat, i: nat)
    requires order >= 3 && i < |ts|
  {
    Balanced(ts[i], h, order, 0) && Exact(ts[i])
  }

  lemma LoadedRest<V>(ts: seq<Tree<V>>, h: nat, order: nat)
    requires order >= 3 && ts != [] && Loaded(ts, h, order)
    ensures Balanced(ts[0], h, order, 0) && Exact(ts[0]) && Loaded(ts[1..], h, order)
  {
    assert LoadedAt(ts, h, order, 0);
    forall i | 0 <= i < |ts[1..]|
      ensures LoadedAt(ts[1..], h, order, i)
    {
      assert LoadedAt(ts, h, order, i + 1);
    }
  }

  ghost predicate SameWidths<V>(ts: seq<Tree<V>>, us: seq<Tree<V>>) {
    |ts| == |us| && forall i :: 0 <= i < |ts| ==> Width(ts[i]) == Width(us[i])
  }

  // ---- Leaves ----

  lemma ZipUnique<V>(ka: seq<Key>, va: seq<V>, kb: seq<Key>, vb: seq<V>)
    requires |ka| == |va| && |kb| == |vb| && Zip(ka, va) == Zip(kb, vb)
    ensures ka == kb && va == vb
  {
    assert |Zip(ka, va)| == |Zip(kb, vb)|;
    forall i | 0 <= i < |ka|
      ensures ka[i] == kb[i] && va[i] == vb[i]
    {
      assert Zip(ka, va)[i] == Zip(kb, vb)[i];
    }
  }

  lemma FrontsEqual<T>(a: seq<T>, b: seq<T>, c: seq<T>, d: seq<T>)
    requires a + b == c + d && |a| == |c|
    ensures a == c && b == d
  {
    assert (a + b)[..|a|] == a && (c + d)[..|c|] == c;
    assert (a + b)[|a|..] == b && (c + d)[|c|..] == d;
  }

  lemma {:induction false} LeavesUnique<V>(ts: seq<Tree<V>>, us: seq<Tree<V>>, order: nat)
    requires order >= 3 && Loaded(ts, 1, order) && Loaded(us, 1, order)
    requires SameWidths(ts, us) && Flatten(ts) == Flatten(us)
    ensures BareAll(ts) == BareAll(us)
  {
    if ts == [] {
    } else {
      LoadedRest(ts, 1, order);
      LoadedRest(us, 1, order);
      var t, u := ts[0], us[0];
      assert Width(t) == Width(u);
      FrontsEqual(Entries(t), Flatten(ts[1..]), Entries(u), Flatten(us[1..]));
      ZipUnique(t.keys, t.vals, u.keys, u.vals);
      LeavesUnique(ts[1..], us[1..], order);
      BareFirst(ts, us);
    }
  }

  lemma BareFirst<V>(ts: seq<Tree<V>>, us: seq<Tree<V>>)
    requires |ts| == |us| > 0 && Bare(ts[0]) == Bare(us[0]) && BareAll(ts[1..]) == BareAll(us[1..])
    ensures BareAll(ts) == BareAll(us)
  {
    BareParts(ts, 1);
    BareParts(us, 1);
    assert BareAll(ts) == [BareAll(ts)[0]] + BareAll(ts)[1..];
    assert BareAll(us) == [BareAll(us)[0]] + BareAll(us)[1..];
  }

  // ---- Branches ----

  lemma {:induction false} BareEntries<V>(t: Tree<V>)
    ensures Entries(Bare(t)) == Entries(t)
    decreases t, 1
  {
    if t.LeafT? {
    } else {
      BareFlatten(t.children);
    }
  }

  lemma {:induction false} BareFlatten<V>(ts: seq<Tree<V>>)
    ensures Flatten(BareAll(ts)) == Flatten(ts)
    decreases ts, 0
  {
    if ts == [] {
    } else {
      BareEntries(ts[0]);
      BareFlatten(ts[1..]);
      BareParts(ts, 1);
    }
  }

  /** With exact separators, the children determine the branch. */
  lemma BranchUnique<V>(t: Tree<V>, u: Tree<V>)
    requires t.BranchT? && u.BranchT? && Exact(t) && Exact(u) && BareAll(t.children) == BareAll(u.children)
    ensures Bare(t) == Bare(u)
  {
    forall i | 0 <= i < |t.keys|
      ensures t.keys[i] == u.keys[i]
    {
      var c, d := t.children[i + 1], u.children[i + 1];
      BareEntries(c);
      BareEntries(d);
      assert BareAll(t.children)[i + 1] == BareAll(u.children)[i + 1];
      assert Entries(c) == Entries(d);
    }
    assert t.keys == u.keys;
  }

  lemma {:induction false} BranchesUnique<V>(ts: seq<Tree<V>>, us: seq<Tree<V>>, h: nat, order: nat)
    requires order >= 3 && h >= 2 && Loaded(ts, h, order) && Loaded(us, h, order)
    requires SameWidths(ts, us) && BareAll(Kids(ts)) == BareAll(Kids(us))
    ensures BareAll(ts) == BareAll(us)
  {
    if ts == [] {
    } else {
      LoadedRest(ts, h, order);
      LoadedRest(us, h, order);
      var t, u := ts[0], us[0];
      assert Width(t) == Width(u);
      BareConcat(t.children, Kids(ts[1..]));
      BareConcat(u.children, Kids(us[1..]));
      FrontsEqual(BareAll(t.children), BareAll(Kids(ts[1..])), BareAll(u.children), BareAll(Kids(us[1..])));
      BranchUnique(t, u);
      BranchesUnique(ts[1..], us[1..], h, order);
      BareFirst(ts, us);
    }
  }

  /** The children of a loaded level are a loaded level over the same entries. */
  lemma {:induction false} KidsLoaded<V>(ts: seq<Tree<V>>, h: nat, order: nat)
    requires order >= 3 && h >= 2 && Loaded(ts, h, order)
    ensures Loaded(Kids(ts), h - 1, order) && Flatten(Kids(ts)) == Flatten(ts)
  {
    if ts == [] {
    } else {
      LoadedRest(ts, h, order);
      KidsLoaded(ts[1..], h, order);
      var a, b := ts[0].children, Kids(ts[1..]);
      FlattenConcat(a, b);
      var all, k := a + b, h - 1;
      forall i | 0 <= i < |all|
        ensures LoadedAt(all, k, order, i)
      {
        if i < |a| {
          Tighten(a[i], k, order, MinKeys(order), 0);
        } else {
          assert LoadedAt(b, k, order, i - |a|);
        }
      }
    }
  }

  // ---- The whole load ----

  lemma EvenWidths<V>(ts: seq<Tree<V>>, us: seq<Tree<V>>, n: nat)
    requires |ts| == |us| && Evenly(ts, n) && Evenly(us, n)
    ensures SameWidths(ts, us)
  {
    forall i | 0 <= i < |ts|
      ensures Width(ts[i]) == Width(us[i])
    {
      assert EvenAt(ts, n, i) && EvenAt(us, n, i);
    }
  }

  lemma {:induction false} ForestUnique<V>(ts: seq<Tree<V>>, us: seq<Tree<V>>, h: nat, n: nat, order: nat)
    requires order >= 3 && n > 0 && Filled(ts, h, n, order) && Filled(us, h, n, order)
    requires Loaded(ts, h, order) && Loaded(us, h, order) && Flatten(ts) == Flatten(us)
    ensures BareAll(ts) == BareAll(us)
    decreases h
  {
    if h == 1 {
      EvenWidths(ts, us, n);
      LeavesUnique(ts, us, order);
    } else {
      KidsLoaded(ts, h, order);
      KidsLoaded(us, h, order);
      ForestUnique(Kids(ts), Kids(us), h - 1, n, order);
      EvenWidths(ts, us, |Kids(ts)|);
      BranchesUnique(ts, us, h, order);
    }
  }

  /** Whatever meets the contract of a bulk load of these entries has this height and this shape. */
  lemma LoadUnique<V>(t: Tree<V>, h: nat, u: Tree<V>, k: nat, entries: seq<Entry<V>>, order: nat)
    requires order >= 3 && Entries(t) == Entries(u) == entries
    requires Balanced(t, h, order, RootMin(h)) && Exact(t) && Filled([t], h, |entries|, order)
    requires Balanced(u, k, order, RootMin(k)) && Exact(u) && Filled([u], k, |entries|, order)
    requires (h > 1 ==> |entries| > Most(order, h - 1)) && (k > 1 ==> |entries| > Most(order, k - 1))
    ensures h == k && Bare(t) == Bare(u)
  {
    var n := |entries|;
    LoadedIsLowest(n, h, order, u, k);
    LoadedIsLowest(n, k, order, t, h);
    Tighten(t, h, order, RootMin(h), 0);
    Tighten(u, k, order, RootMin(k), 0);
    FlattenOne(t);
    FlattenOne(u);
    if n == 0 {
      SizeBounds(t, h, order, RootMin(h));
    } else {
      assert LoadedAt([t], h, order, 0) && LoadedAt([u], k, order, 0);
      ForestUnique([t], [u], h, n, order);
      assert BareAll([t])[0] == BareAll([u])[0];
    }
  }
}
