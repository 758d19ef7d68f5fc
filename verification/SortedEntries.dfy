/**
  The reference semantics of an ordered map: ascending sequences of entries with
  `Put`, `Del` and `Find`, and the finite map (`ToMap`) such a sequence stands for.
  Everything the tree does is specified by these definitions.
 */
module SortedEntries {
  import opened Wrappers

  // Keys are only ever compared. Any finite part of a total order embeds in `int`.
  type Key = int

  datatype Entry<V> = Entry(key: Key, val: V)

  ghost predicate Ascending<V>(es: seq<Entry<V>>) {
    forall i, j :: 0 <= i < j < |es| ==> es[i].key < es[j].key
  }

  ghost predicate AllBelow<V>(es: seq<Entry<V>>, k: Key) {
    forall i :: 0 <= i < |es| ==> es[i].key < k
  }

  ghost predicate AllAbove<V>(es: seq<Entry<V>>, k: Key) {
    forall i :: 0 <= i < |es| ==> k < es[i].key
  }

  /** Store `v` under `k`: replace an entry with that key, or insert a new one in order. */
  ghost function Put<V>(es: seq<Entry<V>>, k: Key, v: V): seq<Entry<V>> {
    if es == [] || k < es[0].key then [Entry(k, v)] + es
    else if es[0].key == k then [Entry(k, v)] + es[1..]
    else [es[0]] + Put(es[1..], k, v)
  }

  /** Drop the entry with key `k`, if there is one. */
  ghost function Del<V>(es: seq<Entry<V>>, k: Key): seq<Entry<V>> {
    if es == [] then []
    else if es[0].key == k then es[1..]
    else [es[0]] + Del(es[1..], k)
  }

  ghost function Find<V>(es: seq<Entry<V>>, k: Key): Option<V> {
    if es == [] then None
    else if es[0].key == k then Some(es[0].val)
    else Find(es[1..], k)
  }

  /** The map built by storing the entries one after the other; a later duplicate wins. */
  ghost function ToMap<V>(es: seq<Entry<V>>): map<Key, V> {
    if es == [] then map[] else map[es[0].key := es[0].val] + ToMap(es[1..])
  }

  // ---- An update in the middle of a sequence stays in the middle ----

  lemma PutMiddle<V>(a: seq<Entry<V>>, c: seq<Entry<V>>, b: seq<Entry<V>>, k: Key, v: V)
    requires AllBelow(a, k) && AllAbove(b, k)
    ensures Put(a + c + b, k, v) == a + Put(c, k, v) + b
  {
    assert a + c + b == a + (c + b);
    PutAfter(a, c + b, k, v);
    PutBefore(c, b, k, v);
    assert a + (Put(c, k, v) + b) == a + Put(c, k, v) + b;
  }

  lemma {:induction false} PutAfter<V>(a: seq<Entry<V>>, s: seq<Entry<V>>, k: Key, v: V)
    requires AllBelow(a, k)
    ensures Put(a + s, k, v) == a + Put(s, k, v)
  {
    if a == [] {
      assert a + s == s;
    } else {
      PutAfter(a[1..], s, k, v);
      assert (a + s)[1..] == a[1..] + s;
      assert [a[0]] + (a[1..] + Put(s, k, v)) == a + Put(s, k, v);
    }
  }

  lemma {:induction false} PutBefore<V>(c: seq<Entry<V>>, b: seq<Entry<V>>, k: Key, v: V)
    requires AllAbove(b, k)
    ensures Put(c + b, k, v) == Put(c, k, v) + b
  {
    if c == [] {
      assert c + b == b;
    } else if k < c[0].key {
      assert [Entry(k, v)] + (c + b) == [Entry(k, v)] + c + b;
    } else {
      assert (c + b)[1..] == c[1..] + b;
      if c[0].key == k {
        assert [Entry(k, v)] + (c[1..] + b) == [Entry(k, v)] + c[1..] + b;
      } else {
        PutBefore(c[1..], b, k, v);
        assert [c[0]] + (Put(c[1..], k, v) + b) == [c[0]] + Put(c[1..], k, v) + b;
      }
    }
  }

  lemma DelMiddle<V>(a: seq<Entry<V>>, c: seq<Entry<V>>, b: seq<Entry<V>>, k: Key)
    requires AllBelow(a, k) && AllAbove(b, k)
    ensures Del(a + c + b, k) == a + Del(c, k) + b
  {
    assert a + c + b == a + (c + b);
    DelAfter(a, c + b, k);
    DelBefore(c, b, k);
    assert a + (Del(c, k) + b) == a + Del(c, k) + b;
  }

  lemma {:induction false} DelAfter<V>(a: seq<Entry<V>>, s: seq<Entry<V>>, k: Key)
    requires AllBelow(a, k)
    ensures Del(a + s, k) == a + Del(s, k)
  {
    if a == [] {
      assert a + s == s;
    } else {
      DelAfter(a[1..], s, k);
      assert (a + s)[1..] == a[1..] + s;
    }
  }

  lemma {:induction false} DelBefore<V>(c: seq<Entry<V>>, b: seq<Entry<V>>, k: Key)
    requires AllAbove(b, k)
    ensures Del(c + b, k) == Del(c, k) + b
  {
    if c == [] {
      assert c + b == b;
      DelAbsent(b, k);
    } else {
      assert (c + b)[1..] == c[1..] + b;
      if c[0].key != k {
        DelBefore(c[1..], b, k);
        assert [c[0]] + (Del(c[1..], k) + b) == [c[0]] + Del(c[1..], k) + b;
      }
    }
  }

  lemma {:induction false} DelAbsent<V>(es: seq<Entry<V>>, k: Key)
    requires forall i :: 0 <= i < |es| ==> es[i].key != k
    ensures Del(es, k) == es && Find(es, k) == None
  {
    if es == [] {
    } else {
      DelAbsent(es[1..], k);
    }
  }

  lemma FindMiddle<V>(a: seq<Entry<V>>, c: seq<Entry<V>>, b: seq<Entry<V>>, k: Key)
    requires AllBelow(a, k) && AllAbove(b, k)
    ensures Find(a + c + b, k) == Find(c, k)
  {
    FindConcat(a + c, b, k);
    FindConcat(a, c, k);
    DelAbsent(a, k);
    DelAbsent(b, k);
  }

  lemma {:induction false} FindConcat<V>(a: seq<Entry<V>>, b: seq<Entry<V>>, k: Key)
    ensures Find(a + b, k) == if Find(a, k).Some? then Find(a, k) else Find(b, k)
  {
    if a == [] {
      assert a + b == b;
    } else {
      FindConcat(a[1..], b, k);
      assert (a + b)[1..] == a[1..] + b;
    }
  }

  // ---- Sequences and finite maps ----

  lemma {:induction false} ToMapDomain<V>(es: seq<Entry<V>>, k: Key)
    ensures k in ToMap(es) <==> exists i :: 0 <= i < |es| && es[i].key == k
  {
    if es == [] {
    } else {
      ToMapDomain(es[1..], k);
      if k in ToMap(es[1..]) {
        var i :| 0 <= i < |es[1..]| && es[1..][i].key == k;
        assert es[i + 1].key == k;
      }
      if i :| 0 <= i < |es| && es[i].key == k && i > 0 {
        assert es[1..][i - 1].key == k;
      }
    }
  }

  /** Storing sequences one after the other composes; in particular `es + [e]` updates the map at `e`. */
  lemma {:induction false} ToMapConcat<V>(a: seq<Entry<V>>, b: seq<Entry<V>>)
    ensures ToMap(a + b) == ToMap(a) + ToMap(b)
  {
    if a == [] {
      assert a + b == b;
    } else {
      ToMapConcat(a[1..], b);
      assert (a + b)[1..] == a[1..] + b;
    }
  }

  lemma ToMapTail<V>(es: seq<Entry<V>>)
    requires es != [] && Ascending(es)
    ensures Ascending(es[1..]) && AllAbove(es[1..], es[0].key)
    ensures es[0].key !in ToMap(es[1..])
    ensures ToMap(es) == ToMap(es[1..])[es[0].key := es[0].val]
  {
    ToMapDomain(es[1..], es[0].key);
  }

  lemma {:induction false} PutMap<V>(es: seq<Entry<V>>, k: Key, v: V)
    requires Ascending(es)
    ensures ToMap(Put(es, k, v)) == ToMap(es)[k := v]
    ensures Ascending(Put(es, k, v))
  {
    var r := Put(es, k, v);
    if es == [] || k < es[0].key {
      assert r[1..] == es;
      ToMapDomain(es, k);
    } else {
      ToMapTail(es);
      if es[0].key == k {
        assert r[1..] == es[1..];
      } else {
        PutMap(es[1..], k, v);
        assert r[1..] == Put(es[1..], k, v);
        PutStaysAbove(es[1..], k, v, es[0].key);
      }
    }
  }

  lemma {:induction false} PutStaysAbove<V>(es: seq<Entry<V>>, k: Key, v: V, x: Key)
    requires AllAbove(es, x) && x < k
    ensures AllAbove(Put(es, k, v), x)
  {
    if es == [] {
    } else if es[0].key < k {
      assert AllAbove(es[1..], x);
      PutStaysAbove(es[1..], k, v, x);
    }
  }

  lemma {:induction false} DelStaysAbove<V>(es: seq<Entry<V>>, k: Key, x: Key)
    requires AllAbove(es, x)
    ensures AllAbove(Del(es, k), x)
  {
    if es == [] {
    } else if es[0].key != k {
      assert AllAbove(es[1..], x);
      DelStaysAbove(es[1..], k, x);
    }
  }

  lemma {:induction false} DelMap<V>(es: seq<Entry<V>>, k: Key)
    requires Ascending(es)
    ensures ToMap(Del(es, k)) == ToMap(es) - {k}
    ensures Ascending(Del(es, k))
  {
    if es == [] {
    } else {
      ToMapTail(es);
      if es[0].key != k {
        DelMap(es[1..], k);
        var r := [es[0]] + Del(es[1..], k);
        assert r[1..] == Del(es[1..], k);
        DelStaysAbove(es[1..], k, es[0].key);
      }
    }
  }

  /** `Find` is map lookup. */
  lemma {:induction false} FindMap<V>(es: seq<Entry<V>>, k: Key)
    requires Ascending(es)
    ensures Find(es, k) == Lookup(ToMap(es), k)
  {
    if es == [] {
    } else {
      ToMapTail(es);
      FindMap(es[1..], k);
    }
  }

  ghost function Lookup<V>(m: map<Key, V>, k: Key): Option<V> {
    if k in m then Some(m[k]) else None
  }

  /** An ascending sequence holds exactly one entry for each key of its map. */
  lemma {:induction false} CountMap<V>(es: seq<Entry<V>>)
    requires Ascending(es)
    ensures |ToMap(es)| == |es|
  {
    if es == [] {
    } else {
      ToMapTail(es);
      CountMap(es[1..]);
    }
  }

  lemma EntryInMap<V>(es: seq<Entry<V>>, i: nat)
    requires Ascending(es) && i < |es|
    ensures es[i].key in ToMap(es) && ToMap(es)[es[i].key] == es[i].val
    decreases i
  {
    ToMapTail(es);
    if i == 0 {
    } else {
      EntryInMap(es[1..], i - 1);
    }
  }

  /** The ascending sequence of a map is unique: equal maps have equal in-order sequences. */
  lemma {:induction false} SameMapSameEntries<V>(a: seq<Entry<V>>, b: seq<Entry<V>>)
    requires Ascending(a) && Ascending(b) && ToMap(a) == ToMap(b)
    ensures a == b
  {
    CountMap(a);
    CountMap(b);
    if a == [] {
    } else {
      FirstIsLeast(a, b);
      FirstIsLeast(b, a);
      EntryInMap(a, 0);
      EntryInMap(b, 0);
      ToMapTail(a);
      ToMapTail(b);
      SameRest(ToMap(a[1..]), ToMap(b[1..]), a[0].key, a[0].val);
      SameMapSameEntries(a[1..], b[1..]);
      assert a == [a[0]] + a[1..];
      assert b == [b[0]] + b[1..];
    }
  }

  lemma SameRest<K, T>(m: map<K, T>, n: map<K, T>, k: K, v: T)
    requires k !in m && k !in n && m[k := v] == n[k := v]
    ensures m == n
  {
    assert m == m[k := v] - {k} && n == n[k := v] - {k};
  }

  lemma FirstIsLeast<V>(a: seq<Entry<V>>, b: seq<Entry<V>>)
    requires a != [] && b != [] && Ascending(a) && ToMap(a) == ToMap(b)
    ensures a[0].key <= b[0].key
  {
    EntryOfFirst(b);
    ToMapDomain(a, b[0].key);
  }

  lemma EntryOfFirst<V>(es: seq<Entry<V>>)
    requires es != []
    ensures es[0].key in ToMap(es)
  {
  }
}
