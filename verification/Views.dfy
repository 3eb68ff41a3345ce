/**
 Trees as they are read: the pointers that a walk follows, whoever owns what they lead to. A
 reference and the item that it refers to may share everything below them.
 */
module Views {
  import opened Base
  import opened Values
  import opened Memory

  /** The nodes of a chain and of everything below it, without their strings. */
  function Nodes(sh: Shape): set<Ptr> {
    match sh
    case Empty => {}
    case Link(p, _, _, kids, next) => {p} + Nodes(kids) + Nodes(next)
  }

  /** The `next` and `child` pointers are those of the shape. */
  predicate Linked(h: Heap, sh: Shape) {
    match sh
    case Empty => true
    case Link(p, _, _, kids, next) =>
      && p != NULL && IsNode(h, p)
      && h[p].node.next == Head(next) && h[p].node.child == Head(kids)
      && Linked(h, kids) && Linked(h, next)
  }

  /** What one node reads as, with the chain below it; `own` says that no node borrows its contents. */
  predicate NodeReads(h: Heap, n: Node, kids: Shape, v: Value, own: bool)
    decreases v, 0
  {
    (own ==> !n.reference) && (n.valuestring != NULL ==> IsText(h, n.valuestring)) &&
    match v
    case Null => n.kind == NullKind && kids.Empty?
    case False => n.kind == FalseKind && kids.Empty?
    case True => n.kind == TrueKind && kids.Empty?
    case Number(d) => n.kind == NumberKind && n.number == d && kids.Empty?
    case String(s) => n.kind == StringKind && n.valuestring != NULL && TextAt(h, n.valuestring) == s && kids.Empty?
    case Array(elems) => n.kind == ArrayKind && Reads(h, kids, elems, own)
    case Object(members) => n.kind == ObjectKind && Reads(h, kids, members, own)
  }

  predicate Reads(h: Heap, sh: Shape, xs: Items, own: bool)
    decreases xs, 1
  {
    match xs
    case Nil => sh.Empty?
    case Cons(key, v, next) =>
      && sh.Link? && IsNode(h, sh.p)
      && NameMeans(h, h[sh.p].node.name, key)
      && NodeReads(h, h[sh.p].node, sh.kids, v, own)
      && Reads(h, sh.next, next, own)
  }

  /** The name that a node borrows, if it does. */
  function ConstantName(h: Heap, p: Ptr): Option<Ptr> {
    if IsNode(h, p) && h[p].node.constName then Some(h[p].node.name) else None
  }

  /** The borrowed names of a chain, in the order of a walk. */
  function Names(h: Heap, sh: Shape): seq<Option<Ptr>> {
    match sh
    case Empty => []
    case Link(p, _, _, kids, next) => [ConstantName(h, p)] + Names(h, kids) + Names(h, next)
  }

  // ---------- frames ----------

  /** No string is gone or different. */
  ghost predicate KeepsTexts(h: Heap, h': Heap) {
    forall q :: IsText(h, q) ==> q in h' && h'[q] == h[q]
  }

  lemma {:induction false} LinkedFrame(h: Heap, h': Heap, sh: Shape)
    requires Linked(h, sh) && Agree(h, h', Nodes(sh))
    ensures Linked(h', sh)
  {
    if sh.Link? {
      LinkedFrame(h, h', sh.kids);
      LinkedFrame(h, h', sh.next);
    }
  }

  lemma {:induction false} ReadsFrame(h: Heap, h': Heap, sh: Shape, xs: Items, own: bool)
    requires Reads(h, sh, xs, own) && AgreeData(h, h', Nodes(sh)) && KeepsTexts(h, h')
    ensures Reads(h', sh, xs, own)
    decreases xs, 1
  {
    if xs.Cons? {
      NodeReadsFrame(h, h', h[sh.p].node, h'[sh.p].node, sh.kids, xs.value, own);
      ReadsFrame(h, h', sh.next, xs.next, own);
    }
  }

  lemma {:induction false} NodeReadsFrame(h: Heap, h': Heap, n: Node, n': Node, kids: Shape, v: Value, own: bool)
    requires NodeReads(h, n, kids, v, own) && AgreeData(h, h', Nodes(kids)) && KeepsTexts(h, h')
    requires n.kind == n'.kind && n.number == n'.number && n.valuestring == n'.valuestring && n.reference == n'.reference
    ensures NodeReads(h', n', kids, v, own)
    decreases v, 0
  {
    match v
    case Array(elems) => ReadsFrame(h, h', kids, elems, own);
    case Object(members) => ReadsFrame(h, h', kids, members, own);
    case _ =>
  }

  lemma {:induction false} NamesFrame(h: Heap, h': Heap, sh: Shape)
    requires Nodes(sh) <= h.Keys && AgreeData(h, h', Nodes(sh))
    ensures Names(h', sh) == Names(h, sh)
  {
    if sh.Link? {
      NamesFrame(h, h', sh.kids);
      NamesFrame(h, h', sh.next);
    }
  }

  /** Trees that own their contents read like any other. */
  lemma {:induction false} ReadsAnyway(h: Heap, sh: Shape, xs: Items)
    requires Reads(h, sh, xs, true)
    ensures Reads(h, sh, xs, false)
    decreases xs, 1
  {
    if xs.Cons? {
      NodeReadsAnyway(h, h[sh.p].node, sh.kids, xs.value);
      ReadsAnyway(h, sh.next, xs.next);
    }
  }

  lemma {:induction false} NodeReadsAnyway(h: Heap, n: Node, kids: Shape, v: Value)
    requires NodeReads(h, n, kids, v, true)
    ensures NodeReads(h, n, kids, v, false)
    decreases v, 0
  {
    match v
    case Array(elems) => ReadsAnyway(h, kids, elems);
    case Object(members) => ReadsAnyway(h, kids, members);
    case _ =>
  }

  lemma {:induction false} NodesOwned(sh: Shape)
    ensures Nodes(sh) <= Foot(sh)
  {
    if sh.Link? {
      NodesOwned(sh.kids);
      NodesOwned(sh.next);
    }
  }

  // ---------- owned trees are readable ----------

  /** Without references, what a chain owns is what a walk follows. */
  lemma {:induction false} OwnsLinked(h: Heap, sh: Shape, xs: Items)
    requires Owns(h, sh, NULL) && Separate(sh) && Reads(h, sh, xs, true)
    ensures Linked(h, sh)
  {
    if xs.Cons? {
      OwnsLinked(h, sh.kids, Kids(xs.value));
      OwnsLinked(h, sh.next, xs.next);
    }
  }

  /** A tree that borrows nothing reads as what it stands for. */
  lemma {:induction false} MeansReads(h: Heap, sh: Shape, xs: Items, end: Ptr)
    requires Owns(h, sh, end) && Means(h, sh, xs)
    ensures Reads(h, sh, xs, true)
    ensures forall i :: 0 <= i < |Names(h, sh)| ==> Names(h, sh)[i] == None
  {
    if xs.Cons? {
      MeansReads(h, sh.kids, Kids(xs.value), NULL);
      MeansReads(h, sh.next, xs.next, end);
    }
  }

  // ---------- growing a chain at its end ----------

  lemma {:induction false} SnocReads(h: Heap, sh: Shape, one: Shape, xs: Items, key: Option<bytes>, v: Value, own: bool)
    requires Reads(h, sh, xs, own) && Reads(h, one, Cons(key, v, Nil), own)
    ensures Reads(h, Snoc(sh, one), SnocItem(xs, key, v), own)
  {
    if xs.Cons? {
      SnocReads(h, sh.next, one, xs.next, key, v, own);
    }
  }

  lemma {:induction false} SnocNames(h: Heap, sh: Shape, one: Shape)
    ensures Names(h, Snoc(sh, one)) == Names(h, sh) + Names(h, one)
  {
    if sh.Link? {
      SnocNames(h, sh.next, one);
    }
  }
}
