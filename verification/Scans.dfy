/** Driving an iterator from both ends in any order: it is a deque over its range. */
module Scans {
  import opened Wrappers
  import opened SortedEntries
  import opened Iters

  // Which end of an iterator the next entry is drawn from: `next` or `next_back`.
  datatype End = Front | Back

  ghost function First<V>(es: seq<Entry<V>>, end: End): Option<Entry<V>> {
    if es == [] then None
    else match end
      case Front => Some(es[0])
      case Back => Some(es[|es| - 1])
  }

  ghost function Rest<V>(es: seq<Entry<V>>, end: End): seq<Entry<V>> {
    if es == [] then []
    else match end
      case Front => es[1..]
      case Back => es[..|es| - 1]
  }

  /** What a schedule of draws yields. */
  ghost function Drawn<V>(es: seq<Entry<V>>, ends: seq<End>): seq<Option<Entry<V>>>
    decreases |ends|
  {
    if ends == [] then [] else [First(es, ends[0])] + Drawn(Rest(es, ends[0]), ends[1..])
  }

  /** What it leaves. */
  ghost function Left<V>(es: seq<Entry<V>>, ends: seq<End>): seq<Entry<V>>
    decreases |ends|
  {
    if ends == [] then es else Left(Rest(es, ends[0]), ends[1..])
  }

  /** The entries among `outs` that were drawn from one end, in the order of drawing. */
  ghost function Yields<V>(outs: seq<Option<Entry<V>>>, ends: seq<End>, end: End): seq<Entry<V>>
    requires |outs| == |ends|
    decreases |ends|
  {
    if ends == [] then []
    else
      (if outs[0].Some? && ends[0] == end then [outs[0].value] else []) + Yields(outs[1..], ends[1..], end)
  }

  ghost function Reversed<T>(s: seq<T>): seq<T> {
    if s == [] then [] else Reversed(s[1..]) + [s[0]]
  }

  /**
    Under every interleaving, what the front gave, what is left and what the back gave in reverse
    make up the sequence: each entry is in exactly one of the three.
   */
  lemma {:induction false} Interleaving<V>(es: seq<Entry<V>>, ends: seq<End>)
    ensures var outs := Drawn(es, ends);
            && |outs| == |ends|
            && Yields(outs, ends, Front) + Left(es, ends) + Reversed(Yields(outs, ends, Back)) == es
    decreases |ends|
  {
    if ends == [] {
    } else {
      var outs, rest := Drawn(es, ends), Drawn(Rest(es, ends[0]), ends[1..]);
      Interleaving(Rest(es, ends[0]), ends[1..]);
      assert outs[0] == First(es, ends[0]) && outs[1..] == rest;
      var f, l, b := Yields(rest, ends[1..], Front), Left(es, ends), Yields(rest, ends[1..], Back);
      YieldsStep(outs, ends, Front);
      YieldsStep(outs, ends, Back);
      if es != [] {
        match ends[0]
        case Front => OntoFront(es, f, l, Reversed(b));
        case Back => OntoBack(es, f, l, b);
      }
    }
  }

  lemma YieldsStep<V>(outs: seq<Option<Entry<V>>>, ends: seq<End>, end: End)
    requires |outs| == |ends| > 0
    ensures Yields(outs, ends, end) ==
            if outs[0].Some? && ends[0] == end then [outs[0].value] + Yields(outs[1..], ends[1..], end)
            else Yields(outs[1..], ends[1..], end)
  {
  }

  lemma OntoFront<T>(s: seq<T>, f: seq<T>, l: seq<T>, r: seq<T>)
    requires s != [] && f + l + r == s[1..]
    ensures [s[0]] + f + l + r == s
  {
    assert [s[0]] + f + l + r == [s[0]] + (f + l + r);
  }

  lemma OntoBack<T>(s: seq<T>, f: seq<T>, l: seq<T>, b: seq<T>)
    requires s != [] && f + l + Reversed(b) == s[..|s| - 1]
    ensures f + l + Reversed([s[|s| - 1]] + b) == s
  {
    var last := s[|s| - 1];
    assert ([last] + b)[1..] == b;
    assert f + l + (Reversed(b) + [last]) == (f + l + Reversed(b)) + [last];
  }

  /** As many draws as there are entries exhaust them; from then on both ends yield nothing. */
  lemma {:induction false} Exhaustion<V>(es: seq<Entry<V>>, ends: seq<End>)
    ensures Left(es, ends) == [] <==> |ends| >= |es|
    ensures |Drawn(es, ends)| == |ends|
    ensures forall k :: 0 <= k < |ends| ==> (Drawn(es, ends)[k].None? <==> k >= |es|)
    decreases |ends|
  {
    if ends == [] {
    } else {
      var rest := Drawn(Rest(es, ends[0]), ends[1..]);
      Exhaustion(Rest(es, ends[0]), ends[1..]);
      forall k | 0 <= k < |ends|
        ensures Drawn(es, ends)[k].None? <==> k >= |es|
      {
        if k > 0 {
          assert Drawn(es, ends)[k] == rest[k - 1];
        }
      }
    }
  }

  method Draw<V>(it: Iter<V>, end: End) returns (out: Option<Entry<V>>)
    requires it.Valid()
    modifies it, it.Parts()
    ensures it.Valid() && it.Parts() <= old(it.Parts())
    ensures out == First(old(it.Remaining()), end) && it.Remaining() == Rest(old(it.Remaining()), end)
    ensures it.spent + it.Gap() <= old(it.spent + it.Gap())
  {
    match end
    case Front => out := it.Next();
    case Back => out := it.NextBack();
  }

  /** Draw from an iterator following a schedule; the cursors keep within their budget of path pushes. */
  method Drive<V>(it: Iter<V>, ends: seq<End>) returns (outs: seq<Option<Entry<V>>>)
    requires it.Valid()
    modifies it, it.Parts()
    ensures it.Valid() && it.Parts() <= old(it.Parts())
    ensures outs == Drawn(old(it.Remaining()), ends) && it.Remaining() == Left(old(it.Remaining()), ends)
    ensures it.spent <= it.spent + it.Gap() <= old(it.spent + it.Gap())
    decreases |ends|
  {
    if ends == [] {
      it.GapBound();
      return [];
    }
    var out := Draw(it, ends[0]);
    var rest := Drive(it, ends[1..]);
    outs := [out] + rest;
  }
}
