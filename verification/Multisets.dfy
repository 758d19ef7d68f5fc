/** Conservation laws on bags of node ids. */
module Multisets {
  import opened Nodes

  /** Parts of a bag without repetitions have no id in common. */
  lemma PartsDisjoint(r: NodeId, a: multiset<NodeId>, c: multiset<NodeId>, b: multiset<NodeId>, slots: multiset<NodeId>)
    requires multiset{r} + (a + c + b) <= slots
    requires forall id :: slots[id] <= 1
    ensures r in slots && r !in a && r !in b && r !in c && c <= slots
    ensures forall id :: id in a ==> id in slots && id !in c
    ensures forall id :: id in b ==> id in slots && id !in c
    ensures forall id :: id in a ==> id !in b
  {
    var whole := multiset{r} + (a + c + b);
    forall id
      ensures multiset{r}[id] + a[id] + c[id] + b[id] <= slots[id] <= 1
    {
      assert whole[id] == multiset{r}[id] + a[id] + c[id] + b[id];
    }
  }

  /** Replacing a part on both sides of a conservation equation. */
  lemma Conserve(after: multiset<NodeId>, before: multiset<NodeId>, c: multiset<NodeId>, g: multiset<NodeId>,
                 r: multiset<NodeId>, a: multiset<NodeId>, b: multiset<NodeId>)
    requires after + c == before + g
    ensures after + (r + (a + c + b)) == before + (r + (a + g + b))
  {
    assert after + (r + (a + c + b)) == (after + c) + r + a + b;
    assert before + (r + (a + g + b)) == (before + g) + r + a + b;
  }

  lemma StaysOut(after: multiset<NodeId>, before: multiset<NodeId>, c: multiset<NodeId>, g: multiset<NodeId>, id: NodeId)
    requires after + c == before + g
    requires id in before && id !in c && forall x :: after[x] <= 1
    ensures id !in g
  {
    assert (after + c)[id] == (before + g)[id];
  }

  lemma StaysWithin(after: multiset<NodeId>, before: multiset<NodeId>, t: multiset<NodeId>, w: multiset<NodeId>)
    requires after + t == before + w && t <= before
    ensures w <= after
  {
    forall id
      ensures w[id] <= after[id]
    {
      assert (after + t)[id] == (before + w)[id];
    }
  }

  /** Two conservation steps make one. */
  lemma Chain(before: multiset<NodeId>, between: multiset<NodeId>, after: multiset<NodeId>,
              t: multiset<NodeId>, w: multiset<NodeId>, g: multiset<NodeId>)
    requires between + t == before + w && after + w == between + g
    ensures after + t == before + g
  {
    forall id
      ensures (after + t)[id] == (before + g)[id]
    {
      assert (between + t)[id] == (before + w)[id];
      assert (after + w)[id] == (between + g)[id];
    }
  }

  lemma Cancel(a: multiset<NodeId>, t: multiset<NodeId>, g: multiset<NodeId>)
    requires a + t == t + g
    ensures a == g
  {
    forall id
      ensures a[id] == g[id]
    {
      assert (a + t)[id] == (t + g)[id];
    }
  }

  /** The same for three single slots and three bags. */
  lemma FiveParts(w: NodeId, l: NodeId, r: NodeId, a: multiset<NodeId>, c: multiset<NodeId>, b: multiset<NodeId>,
                  whole: multiset<NodeId>, slots: set<NodeId>, touched: set<NodeId>)
    requires touched == {w, l, r}
    requires whole == multiset{w} + (a + (multiset{l} + multiset{r} + c) + b)
    requires whole <= multiset(slots)
    ensures w != l && w != r && l != r && w in slots && l in slots && r in slots
    ensures forall id :: id in c ==> id in slots && id !in touched
    ensures forall id :: id in a ==> id in slots && id !in touched
    ensures forall id :: id in b ==> id in slots && id !in touched
  {
    forall id
      ensures multiset{w}[id] + multiset{l}[id] + multiset{r}[id] + a[id] + c[id] + b[id] <= multiset(slots)[id] <= 1
    {
      assert whole[id] == multiset{w}[id] + multiset{l}[id] + multiset{r}[id] + a[id] + c[id] + b[id];
    }
  }

  /** Trees move from one bag under a new root in the other. */
  lemma Gather(done: multiset<NodeId>, under: multiset<NodeId>, rest: multiset<NodeId>, id: NodeId,
               before: multiset<NodeId>, after: multiset<NodeId>)
    requires done + (under + rest) == before && after == before + multiset{id}
    ensures done + (multiset{id} + under) + rest == after
  {
  }
}
