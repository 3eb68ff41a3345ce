/**
 Chains of siblings while they are being built at their end, and heaps that only grow: what
 the parser and the duplicator have in common.
 */
module Chains {
  import opened Base
  import opened Values
  import opened Memory

  /** The heap has grown by `added` and is otherwise the same. */
  ghost predicate Grown(h0: Heap, h: Heap, added: set<Ptr>) {
    && h.Keys == h0.Keys + added && added !! h0.Keys
    && forall q :: q in h0 ==> h[q] == h0[q]
  }

  /** The same, but one node has been written to; its links and its name are what they were. */
  ghost predicate GrownAt(h0: Heap, h: Heap, item: Ptr, added: set<Ptr>) {
    && IsNode(h0, item) && IsNode(h, item)
    && h.Keys == h0.Keys + added && added !! h0.Keys
    && (forall q :: q in h0 && q != item ==> h[q] == h0[q])
    && h[item].node.next == h0[item].node.next && h[item].node.prev == h0[item].node.prev
  }

  /** A chain under construction: the head's `prev` is still NULL, the last node points at `end`. */
  ghost predicate Open(h: Heap, sh: Shape, end: Ptr) {
    Owns(h, sh, end) && Separate(sh) && Chained(h, sh, NULL)
  }

  /** The same, with items that stand for `xs`. */
  ghost predicate Built(h: Heap, sh: Shape, xs: Items, end: Ptr) {
    Open(h, sh, end) && Means(h, sh, xs)
  }

  /** A finished chain: all that the heap has gained, standing for `xs`, its first `prev` on its last node. */
  ghost predicate Finished(h0: Heap, h: Heap, sh: Shape, xs: Items) {
    && Grown(h0, h, Foot(sh))
    && Owns(h, sh, NULL) && Separate(sh) && Rounded(h, sh) && Means(h, sh, xs)
  }

  function LastOf(sh: Shape): Ptr { if sh.Empty? then NULL else Last(sh) }

  /** A single node, linked back to `prev`, with whatever it owns. */
  ghost predicate Single(h: Heap, one: Shape, p: Ptr, prev: Ptr) {
    && one.Link? && one.p == p && one.next.Empty?
    && Owns(h, one, NULL) && Separate(one) && Chained(h, one, prev)
  }

  lemma OpenFacts(h: Heap, sh: Shape)
    requires Open(h, sh, NULL)
    ensures Foot(sh) <= h.Keys
    ensures sh.Link? ==> sh.p != NULL && Last(sh) != NULL && IsNode(h, Last(sh)) && Last(sh) in Foot(sh)
  {
    OwnsLive(h, sh, NULL);
    if sh.Link? {
      LastIsNode(h, sh, NULL);
    }
  }

  lemma BuiltFacts(h: Heap, sh: Shape, xs: Items)
    requires Built(h, sh, xs, NULL)
    ensures Foot(sh) <= h.Keys
    ensures sh.Link? ==> sh.p != NULL && Last(sh) != NULL && IsNode(h, Last(sh)) && Last(sh) in Foot(sh)
  {
    OpenFacts(h, sh);
  }

  lemma BuiltOwned(h: Heap, sh: Shape, xs: Items)
    requires Built(h, sh, xs, NULL)
    ensures Owns(h, sh, NULL) && Separate(sh)
  {
  }

  lemma SingleFacts(h: Heap, one: Shape, p: Ptr, prev: Ptr)
    requires Single(h, one, p, prev)
    ensures one.Link? && one.p == p
  {
  }

  lemma NothingBuilt(h: Heap, h': Heap, sh: Shape, xs: Items, end: Ptr)
    requires Head(sh) == NULL && Built(h, sh, xs, NULL)
    ensures Built(h', sh, xs, end)
  {
  }

  lemma NothingFinished(h: Heap)
    ensures Finished(h, h, Empty, Nil)
  {
  }

  lemma {:induction false} LastIsNode(h: Heap, sh: Shape, end: Ptr)
    requires sh.Link? && Owns(h, sh, end) && Separate(sh)
    ensures Last(sh) != NULL && IsNode(h, Last(sh)) && Last(sh) in Foot(sh)
  {
    if sh.next.Link? {
      LastIsNode(h, sh.next, end);
    }
  }

  /** The chain after its last node has been pointed at a new node. */
  lemma OpenRelink(h: Heap, h': Heap, sh: Shape, p: Ptr)
    requires sh.Link? && Open(h, sh, NULL) && p !in Foot(sh) && IsNode(h, Last(sh))
    requires IsNode(h', p) && h' == h[Last(sh) := NodeCell(h[Last(sh)].node.(next := p))][p := h'[p]]
    ensures Open(h', sh, p) && AgreeData(h, h', Foot(sh))
  {
    var mid := h[Last(sh) := NodeCell(h[Last(sh)].node.(next := p))];
    OwnsLive(h, sh, NULL);
    Retarget(h, mid, sh, NULL, p);
    OwnsFrame(mid, h', sh, p);
    ChainedFrame(h, h', sh, NULL);
  }

  lemma Relink(h: Heap, h': Heap, sh: Shape, xs: Items, p: Ptr)
    requires sh.Link? && Built(h, sh, xs, NULL) && p !in Foot(sh) && IsNode(h, Last(sh))
    requires IsNode(h', p) && h' == h[Last(sh) := NodeCell(h[Last(sh)].node.(next := p))][p := h'[p]]
    ensures Built(h', sh, xs, p)
  {
    OpenRelink(h, h', sh, p);
    MeansFrame(h, h', sh, xs);
  }

  /** A node that was linked behind a chain and then written to extends the chain. */
  lemma Extend(h0: Heap, h1: Heap, h: Heap, sh: Shape, xs: Items, one: Shape)
    requires one.Link? && one.p != NULL && Built(h1, sh, xs, one.p)
    requires Single(h, one, one.p, LastOf(sh))
    requires Grown(h0, h1, Foot(sh) + {one.p}) && one.p !in Foot(sh)
    requires GrownAt(h1, h, one.p, Foot(one) - {one.p})
    ensures Owns(h, Snoc(sh, one), NULL) && Separate(Snoc(sh, one)) && Chained(h, Snoc(sh, one), NULL)
    ensures Grown(h0, h, Foot(Snoc(sh, one))) && LastOf(Snoc(sh, one)) == one.p && Means(h, sh, xs)
  {
    OwnsLive(h1, sh, one.p);
    BuiltFrameAt(h1, h, sh, xs, one.p, one.p, Foot(one) - {one.p});
    SnocWhole(h, sh, one);
  }

  lemma ExtendBuilt(h0: Heap, h1: Heap, h: Heap, sh: Shape, xs: Items, one: Shape, key: Option<bytes>, v: Value)
    requires one.Link? && one.p != NULL && Built(h1, sh, xs, one.p)
    requires Single(h, one, one.p, LastOf(sh)) && Means(h, one, Cons(key, v, Nil))
    requires Grown(h0, h1, Foot(sh) + {one.p}) && one.p !in Foot(sh)
    requires GrownAt(h1, h, one.p, Foot(one) - {one.p})
    ensures Built(h, Snoc(sh, one), SnocItem(xs, key, v), NULL)
    ensures Grown(h0, h, Foot(Snoc(sh, one))) && LastOf(Snoc(sh, one)) == one.p
  {
    hide Owns, Separate, Chained, Foot, Grown, GrownAt, Single;
    Extend(h0, h1, h, sh, xs, one);
    SnocMeans(h, sh, one, xs, key, v);
  }

  lemma BuiltFrameAt(h: Heap, h': Heap, sh: Shape, xs: Items, end: Ptr, item: Ptr, added: set<Ptr>)
    requires Built(h, sh, xs, end) && GrownAt(h, h', item, added) && item !in Foot(sh)
    ensures Built(h', sh, xs, end)
  {
    OwnsFrame(h, h', sh, end);
    MeansFrame(h, h', sh, xs);
    ChainedFrame(h, h', sh, NULL);
  }

  lemma SnocWhole(h: Heap, sh: Shape, one: Shape)
    requires one.Link? && Open(h, sh, one.p) && Single(h, one, one.p, LastOf(sh)) && Foot(sh) !! Foot(one)
    ensures Owns(h, Snoc(sh, one), NULL) && Separate(Snoc(sh, one)) && Chained(h, Snoc(sh, one), NULL)
    ensures LastOf(Snoc(sh, one)) == one.p && Foot(Snoc(sh, one)) == Foot(sh) + Foot(one)
  {
    SnocOwns(h, sh, one, NULL);
    SnocFoot(sh, one);
    if sh.Link? {
      SnocChained(h, sh, one, NULL);
    }
  }

  /** A chain whose first node's `prev` has been pointed at its last node. */
  lemma OpenRound(h: Heap, h': Heap, sh: Shape)
    requires sh.Link? && Open(h, sh, NULL) && IsNode(h, sh.p)
    requires h' == h[sh.p := NodeCell(h[sh.p].node.(prev := Last(sh)))]
    ensures Owns(h', sh, NULL) && Rounded(h', sh)
  {
    assert Rounded(h, sh.kids);
    OwnsFrame(h, h', sh.kids, NULL);
    OwnsFrame(h, h', sh.next, NULL);
    if sh.kids.Link? {
      ChainedFrame(h, h', sh.kids, Last(sh.kids));
    }
    ChainedFrame(h, h', sh.next, sh.p);
  }

  lemma Round(h: Heap, h': Heap, sh: Shape, xs: Items)
    requires sh.Link? && Built(h, sh, xs, NULL) && IsNode(h, sh.p)
    requires h' == h[sh.p := NodeCell(h[sh.p].node.(prev := Last(sh)))]
    ensures Owns(h', sh, NULL) && Rounded(h', sh) && Means(h', sh, xs)
  {
    OpenRound(h, h', sh);
    MeansFrame(h, h', sh, xs);
  }

  lemma GrownTwice(h0: Heap, h1: Heap, h2: Heap, a: set<Ptr>, b: set<Ptr>)
    requires Grown(h0, h1, a) && Grown(h1, h2, b)
    ensures Grown(h0, h2, a + b) && a !! b
  {
  }

  lemma GrownFacts(h0: Heap, h: Heap, added: set<Ptr>, p: Ptr)
    requires Grown(h0, h, added) && p in h0
    ensures p in h && h[p] == h0[p] && p !in added && added <= h.Keys
  {
  }

  lemma GrownStill(h0: Heap, h: Heap, h': Heap, added: set<Ptr>, a: Ptr, b: Ptr)
    requires Grown(h0, h, added) && h'.Keys == h.Keys && a in added && b in added
    requires forall q :: q in h && q != a && q != b ==> h'[q] == h[q]
    ensures Grown(h0, h', added)
  {
  }

  lemma GrownNew(h0: Heap, h: Heap, added: set<Ptr>, p: Ptr, cell: Cell)
    requires Grown(h0, h, added) && p !in h
    ensures Grown(h0, h[p := cell], added + {p})
  {
  }

  lemma MinusAdded(h0: Heap, h: Heap, sh: Shape)
    ensures Grown(h0, h, Foot(sh)) ==> h - Foot(sh) == h0
  {
  }

  function AppendItems(xs: Items, ys: Items): Items {
    match xs
    case Nil => ys
    case Cons(k, v, next) => Cons(k, v, AppendItems(next, ys))
  }

  lemma {:induction false} AppendSnoc(xs: Items, key: Option<bytes>, v: Value, ys: Items)
    ensures AppendItems(SnocItem(xs, key, v), ys) == AppendItems(xs, Cons(key, v, ys))
    ensures AppendItems(xs, Cons(key, v, Nil)) == SnocItem(xs, key, v)
  {
    if xs.Cons? {
      AppendSnoc(xs.next, key, v, ys);
    }
  }

  lemma {:induction false} AppendNil(xs: Items)
    ensures AppendItems(xs, Nil) == xs
  {
    if xs.Cons? {
      AppendNil(xs.next);
    }
  }

  /** A chain stands in a heap that has only grown. */
  lemma OpenFrame(h: Heap, h': Heap, sh: Shape, added: set<Ptr>)
    requires Open(h, sh, NULL) && Grown(h, h', added)
    ensures Open(h', sh, NULL) && Foot(sh) <= h.Keys
  {
    OwnsLive(h, sh, NULL);
    OwnsFrame(h, h', sh, NULL);
    ChainedFrame(h, h', sh, NULL);
  }

  /** A single item that is now linked back to `prev`. */
  lemma SingleLinkedBack(h: Heap, h': Heap, one: Shape, prev: Ptr)
    requires one.Link? && Single(h, one, one.p, NULL)
    requires IsNode(h, one.p) && IsNode(h', one.p) && h'[one.p].node == h[one.p].node.(prev := prev)
    requires Agree(h, h', Foot(one) - {one.p})
    ensures Single(h', one, one.p, prev)
  {
    assert Rounded(h, one.kids);
    OwnsFrame(h, h', one.kids, NULL);
    if one.kids.Link? {
      ChainedFrame(h, h', one.kids, Last(one.kids));
    }
    assert Owns(h', one, NULL);
    assert Chained(h', one.next, one.p);
    assert Chained(h', one, prev);
  }
}
