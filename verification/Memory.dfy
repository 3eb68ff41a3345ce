/**
 The C heap as the JSON library uses it: blocks are nodes or strings, an allocation may be
 refused at any time, and every access and every release names a live block. Ownership is
 described by shapes, which list the blocks of a sibling chain and of everything below it.
 */
module Memory {
  import opened Base
  import opened Values

  type Ptr = nat
  const NULL: Ptr := 0

  datatype Kind = Invalid | NullKind | FalseKind | TrueKind | NumberKind | StringKind | ArrayKind | ObjectKind

  /** `reference` and `constName` are the flags of a node that borrows its contents or its name. */
  datatype Node = Node(next: Ptr, prev: Ptr, child: Ptr, kind: Kind, valuestring: Ptr, number: real, name: Ptr, reference: bool, constName: bool)

  datatype Cell = NodeCell(node: Node) | TextCell(text: bytes)

  type Heap = map<Ptr, Cell>

  const BLANK := Node(NULL, NULL, NULL, Invalid, NULL, 0.0, NULL, false, false)

  predicate IsNode(h: Heap, p: Ptr) { p in h && h[p].NodeCell? }
  predicate IsText(h: Heap, p: Ptr) { p in h && h[p].TextCell? }

  // ---------- shapes ----------

  /** A chain of siblings: each block with its name, its string, the chain below it and the rest. */
  datatype Shape = Empty | Link(p: Ptr, name: Ptr, text: Ptr, kids: Shape, next: Shape)

  function Head(sh: Shape): Ptr { if sh.Empty? then NULL else sh.p }

  function Optional(p: Ptr): set<Ptr> { if p == NULL then {} else {p} }

  /** The blocks of one node: itself and its two strings. */
  function Own(p: Ptr, name: Ptr, text: Ptr): set<Ptr> { {p} + Optional(name) + Optional(text) }

  function Foot(sh: Shape): set<Ptr> {
    match sh
    case Empty => {}
    case Link(p, name, text, kids, next) => Own(p, name, text) + Foot(kids) + Foot(next)
  }

  /** Every block is owned once. */
  predicate Separate(sh: Shape) {
    match sh
    case Empty => true
    case Link(p, name, text, kids, next) =>
      && p != NULL && p != name && p != text && (name != NULL ==> name != text)
      && Own(p, name, text) !! Foot(kids) && Own(p, name, text) !! Foot(next) && Foot(kids) !! Foot(next)
      && Separate(kids) && Separate(next)
  }

  /** What a node owns: a borrowed child, string or name is somebody else's. */
  function OwnChild(n: Node): Ptr { if n.reference then NULL else n.child }
  function OwnText(n: Node): Ptr { if n.reference then NULL else n.valuestring }
  function OwnName(n: Node): Ptr { if n.constName then NULL else n.name }

  /** The blocks are live and point at each other as the shape says; the chain ends at `end`. */
  predicate Owns(h: Heap, sh: Shape, end: Ptr) {
    match sh
    case Empty => true
    case Link(p, name, text, kids, next) =>
      && IsNode(h, p)
      && h[p].node.next == (if next.Empty? then end else next.p)
      && Head(kids) == OwnChild(h[p].node) && text == OwnText(h[p].node) && name == OwnName(h[p].node)
      && (name != NULL ==> IsText(h, name)) && (text != NULL ==> IsText(h, text))
      && Owns(h, kids, NULL) && Owns(h, next, end)
  }

  /** What is borrowed is not owned: a reference with a constant name owns nothing but itself, whatever it points at. */
  lemma BorrowedIsNotOwned(h: Heap, p: Ptr)
    requires p != NULL && IsNode(h, p) && h[p].node.next == NULL
    ensures h[p].node.reference && h[p].node.constName ==> Owns(h, Link(p, NULL, NULL, Empty, Empty), NULL) && Separate(Link(p, NULL, NULL, Empty, Empty))
    ensures h[p].node.reference && !h[p].node.constName && (h[p].node.name == NULL || (IsText(h, h[p].node.name) && h[p].node.name != p)) ==>
      Owns(h, Link(p, h[p].node.name, NULL, Empty, Empty), NULL) && Separate(Link(p, h[p].node.name, NULL, Empty, Empty))
  {
    assert Separate(Empty) && Owns(h, Empty, NULL);
  }

  // ---------- meaning ----------

  function TextAt(h: Heap, p: Ptr): bytes
    requires IsText(h, p)
  {
    CString(h[p].text)
  }

  /** The name of a node, as C string functions read it. */
  predicate NameMeans(h: Heap, name: Ptr, key: Option<bytes>) {
    match key
    case None => name == NULL
    case Some(k) => name != NULL && IsText(h, name) && TextAt(h, name) == k
  }

  /** What one node that borrows nothing stands for, with its string and the chain below it. */
  predicate NodeMeans(h: Heap, n: Node, text: Ptr, kids: Shape, v: Value)
    decreases v, 0
  {
    !n.reference && !n.constName &&
    match v
    case Null => n.kind == NullKind && text == NULL && kids.Empty?
    case False => n.kind == FalseKind && text == NULL && kids.Empty?
    case True => n.kind == TrueKind && text == NULL && kids.Empty?
    case Number(d) => n.kind == NumberKind && n.number == d && text == NULL && kids.Empty?
    case String(s) => n.kind == StringKind && text != NULL && IsText(h, text) && TextAt(h, text) == s && kids.Empty?
    case Array(elems) => n.kind == ArrayKind && text == NULL && Means(h, kids, elems)
    case Object(members) => n.kind == ObjectKind && text == NULL && Means(h, kids, members)
  }

  predicate Means(h: Heap, sh: Shape, xs: Items)
    decreases xs, 1
  {
    match xs
    case Nil => sh.Empty?
    case Cons(key, v, next) =>
      && sh.Link? && IsNode(h, sh.p)
      && NameMeans(h, sh.name, key)
      && NodeMeans(h, h[sh.p].node, sh.text, sh.kids, v)
      && Means(h, sh.next, next)
  }

  // ---------- back pointers ----------

  function Last(sh: Shape): Ptr
    requires sh.Link?
  {
    if sh.next.Empty? then sh.p else Last(sh.next)
  }

  /** Every node points back at the one before it, the first at `prev`. */
  predicate Chained(h: Heap, sh: Shape, prev: Ptr) {
    match sh
    case Empty => true
    case Link(p, _, _, kids, next) =>
      IsNode(h, p) && h[p].node.prev == prev && Rounded(h, kids) && Chained(h, next, p)
  }

  /** The same, with the first node's `prev` caching the last node. */
  predicate Rounded(h: Heap, sh: Shape) {
    sh.Link? ==> Chained(h, sh, Last(sh))
  }

  // ---------- frames ----------

  ghost predicate Agree(h: Heap, h': Heap, ps: set<Ptr>) {
    forall q :: q in ps && q in h ==> q in h' && h'[q] == h[q]
  }

  /** What a chain owns, means and links depends on its own blocks only. */
  lemma {:induction false} OwnsFrame(h: Heap, h': Heap, sh: Shape, end: Ptr)
    requires Owns(h, sh, end) && Agree(h, h', Foot(sh))
    ensures Owns(h', sh, end)
  {
    if sh.Link? {
      OwnsFrame(h, h', sh.kids, NULL);
      OwnsFrame(h, h', sh.next, end);
    }
  }

  lemma {:induction false} OwnsLive(h: Heap, sh: Shape, end: Ptr)
    requires Owns(h, sh, end)
    ensures Foot(sh) <= h.Keys
  {
    if sh.Link? {
      OwnsLive(h, sh.kids, NULL);
      OwnsLive(h, sh.next, end);
    }
  }

  /** Two cells with the same contents, whatever their sibling links. */
  predicate SameData(c: Cell, d: Cell) {
    c == d || (c.NodeCell? && d.NodeCell? && c.node == d.node.(next := c.node.next, prev := c.node.prev))
  }

  ghost predicate AgreeData(h: Heap, h': Heap, ps: set<Ptr>) {
    forall q :: q in ps && q in h ==> q in h' && SameData(h[q], h'[q])
  }

  lemma {:induction false} MeansFrame(h: Heap, h': Heap, sh: Shape, xs: Items)
    requires Means(h, sh, xs) && AgreeData(h, h', Foot(sh))
    ensures Means(h', sh, xs)
    decreases xs, 1
  {
    if xs.Cons? {
      NodeMeansFrame(h, h', h[sh.p].node, h'[sh.p].node, sh.text, sh.kids, xs.value);
      MeansFrame(h, h', sh.next, xs.next);
    }
  }

  lemma {:induction false} NodeMeansFrame(h: Heap, h': Heap, n: Node, n': Node, text: Ptr, kids: Shape, v: Value)
    requires NodeMeans(h, n, text, kids, v) && AgreeData(h, h', Optional(text) + Foot(kids))
    requires n.kind == n'.kind && n.number == n'.number && n.reference == n'.reference && n.constName == n'.constName
    ensures NodeMeans(h', n', text, kids, v)
    decreases v, 0
  {
    match v
    case Array(elems) => MeansFrame(h, h', kids, elems);
    case Object(members) => MeansFrame(h, h', kids, members);
    case _ =>
  }

  ghost predicate AgreeBack(h: Heap, h': Heap, ps: set<Ptr>) {
    forall q :: q in ps && IsNode(h, q) ==> IsNode(h', q) && h'[q].node.prev == h[q].node.prev
  }

  lemma {:induction false} ChainedFrame(h: Heap, h': Heap, sh: Shape, prev: Ptr)
    requires Chained(h, sh, prev) && AgreeBack(h, h', Foot(sh))
    ensures Chained(h', sh, prev)
  {
    if sh.Link? {
      if sh.kids.Link? {
        ChainedFrame(h, h', sh.kids, Last(sh.kids));
      }
      ChainedFrame(h, h', sh.next, sh.p);
    }
  }

  lemma {:induction false} LastIsOwned(sh: Shape)
    requires sh.Link?
    ensures Last(sh) in Foot(sh)
  {
    if sh.next.Link? {
      LastIsOwned(sh.next);
    }
  }

  // ---------- growing a chain at its end ----------

  function Snoc(sh: Shape, one: Shape): Shape {
    if sh.Empty? then one else Link(sh.p, sh.name, sh.text, sh.kids, Snoc(sh.next, one))
  }

  function SnocItem(xs: Items, key: Option<bytes>, v: Value): Items {
    match xs
    case Nil => Cons(key, v, Nil)
    case Cons(k, w, next) => Cons(k, w, SnocItem(next, key, v))
  }

  lemma {:induction false} SnocOwns(h: Heap, sh: Shape, one: Shape, end: Ptr)
    requires one.Link? && Owns(h, sh, one.p) && Owns(h, one, end)
    ensures Owns(h, Snoc(sh, one), end)
  {
    if sh.Link? {
      SnocOwns(h, sh.next, one, end);
    }
  }

  lemma {:induction false} SnocFoot(sh: Shape, one: Shape)
    ensures Foot(Snoc(sh, one)) == Foot(sh) + Foot(one)
    ensures Separate(sh) && Separate(one) && Foot(sh) !! Foot(one) ==> Separate(Snoc(sh, one))
  {
    if sh.Link? {
      SnocFoot(sh.next, one);
    }
  }

  lemma {:induction false} SnocMeans(h: Heap, sh: Shape, one: Shape, xs: Items, key: Option<bytes>, v: Value)
    requires Means(h, sh, xs) && Means(h, one, Cons(key, v, Nil))
    ensures Means(h, Snoc(sh, one), SnocItem(xs, key, v))
  {
    if xs.Cons? {
      SnocMeans(h, sh.next, one, xs.next, key, v);
    }
  }

  lemma {:induction false} SnocChained(h: Heap, sh: Shape, one: Shape, prev: Ptr)
    requires sh.Link? && one.Link? && one.next.Empty? && Chained(h, sh, prev) && Chained(h, one, Last(sh))
    ensures Chained(h, Snoc(sh, one), prev) && Last(Snoc(sh, one)) == one.p
  {
    if sh.next.Link? {
      SnocChained(h, sh.next, one, sh.p);
    }
  }

  /** Pointing the last node elsewhere moves the end of the chain and nothing else. */
  lemma {:induction false} Retarget(h: Heap, h': Heap, sh: Shape, end: Ptr, end': Ptr)
    requires sh.Link? && Owns(h, sh, end) && Separate(sh)
    requires IsNode(h, Last(sh)) && h' == h[Last(sh) := NodeCell(h[Last(sh)].node.(next := end'))]
    ensures Owns(h', sh, end')
    ensures AgreeData(h, h', Foot(sh))
  {
    LastApart(sh);
    OwnsFrame(h, h', sh.kids, NULL);
    if sh.next.Link? {
      LastIsOwned(sh.next);
      Retarget(h, h', sh.next, end, end');
    }
  }

  lemma LastApart(sh: Shape)
    requires sh.Link? && Separate(sh)
    ensures Last(sh) !in Foot(sh.kids)
    ensures sh.next.Link? ==> Last(sh) in Foot(sh.next) && Last(sh) != sh.p
  {
    if sh.next.Link? {
      LastIsOwned(sh.next);
    }
  }

  // ---------- the allocator ----------

  class Allocator {
    var cells: Heap
    /** Which requests are granted, in order; anything is possible. */
    const grants: nat -> bool
    var requests: nat

    constructor (grants: nat -> bool)
      ensures cells == map[] && requests == 0 && this.grants == grants
    {
      cells, requests, this.grants := map[], 0, grants;
    }

    /** How many requests have been refused. */
    ghost function Refusals(): nat
      reads this`requests
    {
      Refused(grants, requests)
    }

    /** A block that is not live yet, or NULL: the allocator may refuse at any time. */
    method Allocate(cell: Cell) returns (p: Ptr)
      modifies this
      ensures p == NULL ==> cells == old(cells) && Refusals() == old(Refusals()) + 1
      ensures p != NULL ==> p !in old(cells) && cells == old(cells)[p := cell] && Refusals() == old(Refusals())
    {
      var granted := grants(requests);
      requests := requests + 1;
      if !granted {
        return NULL;
      }
      FreshPtr(cells.Keys);
      p :| p != NULL && p !in cells;
      cells := cells[p := cell];
    }

    /** Releases a live block. */
    method Free(p: Ptr)
      requires p in cells
      modifies this`cells
      ensures cells == old(cells) - {p}
    {
      cells := cells - {p};
    }

    /**
     `cJSON_Delete`: releases a chain and everything that it owns below it, each block once, and
     touches nothing else; what is borrowed stays.
     */
    method Delete(first: Ptr, ghost sh: Shape)
      requires Owns(cells, sh, NULL) && Separate(sh) && first == Head(sh)
      modifies this`cells
      ensures cells == old(cells) - Foot(sh)
      decreases sh, 1
    {
      var item := first;
      ghost var rest := sh;
      while item != NULL
        invariant item == Head(rest) && Owns(cells, rest, NULL) && Separate(rest)
        invariant Foot(rest) <= Foot(sh) && cells == old(cells) - (Foot(sh) - Foot(rest))
        invariant rest == sh || rest < sh
        decreases rest
      {
        item := DeleteNode(item, rest);
        MinusNext(old(cells), Foot(sh), Own(rest.p, rest.name, rest.text) + Foot(rest.kids), Foot(rest.next));
        rest := rest.next;
      }
    }

    /** One node of the chain, with its strings and the chain below it. */
    method DeleteNode(item: Ptr, ghost sh: Shape) returns (next: Ptr)
      requires sh.Link? && item == sh.p && Owns(cells, sh, NULL) && Separate(sh)
      modifies this`cells
      ensures next == Head(sh.next) && Owns(cells, sh.next, NULL)
      ensures cells == old(cells) - (Own(sh.p, sh.name, sh.text) + Foot(sh.kids))
      decreases sh, 0
    {
      var node := cells[item].node;
      next := node.next;
      DeleteKids(if node.reference then NULL else node.child, sh.kids);
      FreeStrings(if node.reference then NULL else node.valuestring, if node.constName then NULL else node.name);
      Free(item);
      NodeGone(old(cells), sh);
    }

    method DeleteKids(child: Ptr, ghost kids: Shape)
      requires Owns(cells, kids, NULL) && Separate(kids) && child == Head(kids)
      modifies this`cells
      ensures cells == old(cells) - Foot(kids)
      decreases kids, 2
    {
      if child != NULL {
        Delete(child, kids);
      }
    }

    method FreeStrings(text: Ptr, name: Ptr)
      requires (text != NULL ==> text in cells) && (name != NULL ==> name in cells && name != text)
      modifies this`cells
      ensures cells == old(cells) - (Optional(name) + Optional(text))
    {
      if text != NULL {
        Free(text);
      }
      if name != NULL {
        Free(name);
      }
    }
  }

  lemma NodeGone(h: Heap, sh: Shape)
    requires sh.Link? && Owns(h, sh, NULL) && Separate(sh)
    ensures var gone := Own(sh.p, sh.name, sh.text) + Foot(sh.kids);
      && ((h - Foot(sh.kids)) - (Optional(sh.name) + Optional(sh.text))) - {sh.p} == h - gone
      && Owns(h - gone, sh.next, NULL)
  {
    Minus(h, Foot(sh.kids), Optional(sh.name) + Optional(sh.text), {sh.p});
    assert Own(sh.p, sh.name, sh.text) + Foot(sh.kids) == Foot(sh.kids) + (Optional(sh.name) + Optional(sh.text)) + {sh.p};
    OwnsFrame(h, h - (Own(sh.p, sh.name, sh.text) + Foot(sh.kids)), sh.next, NULL);
  }

  lemma Minus(h: Heap, a: set<Ptr>, b: set<Ptr>, c: set<Ptr>)
    ensures ((h - a) - b) - c == h - (a + b + c)
  {
  }

  lemma MinusNext(h: Heap, all: set<Ptr>, gone: set<Ptr>, next: set<Ptr>)
    requires gone + next <= all && gone !! next
    ensures (h - (all - (gone + next))) - gone == h - (all - next)
  {
  }

  lemma FreshPtr(ps: set<Ptr>)
    ensures exists p: Ptr :: p != NULL && p !in ps
  {
    var bound := Above(ps);
    assert bound + 1 !in ps;
  }

  lemma {:induction false} Above(ps: set<Ptr>) returns (bound: nat)
    ensures forall p :: p in ps ==> p <= bound
  {
    if ps == {} {
      bound := 0;
    } else {
      var p :| p in ps;
      bound := Above(ps - {p});
      bound := Max(bound, p);
      assert forall q :: q in ps ==> q == p || q in ps - {p};
    }
  }
}
