/**
 `cJSON_Duplicate`: a copy that owns new blocks for all its contents, whatever the original
 borrows, or nothing at all when any allocation is refused on the way. Only names that are
 flagged as constant stay shared.
 */
module Duplicator {
  import opened Base
  import opened Values
  import opened Memory
  import opened Views
  import opened Chains
  import opened Comparison
  import opened NodeComparison

  /** A node that is only read, with its name and the chain below it, whatever it borrows. */
  ghost predicate Readable(h: Heap, sh: Shape, key: Option<bytes>, v: Value) {
    sh.Link? && Stands(h, sh.p, sh, v) && NameMeans(h, h[sh.p].node.name, key)
  }

  /** The borrowed names from a node down, its later siblings excluded. */
  function TreeNames(h: Heap, sh: Shape): seq<Option<Ptr>>
    requires sh.Link?
  {
    [ConstantName(h, sh.p)] + Names(h, sh.kids)
  }

  /** A container without its children; anything else as it is. */
  function Hollow(v: Value): Value {
    match v
    case Array(_) => Array(Nil)
    case Object(_) => Object(Nil)
    case _ => v
  }

  /** A block of its own with the same C string; NULL when the allocator refuses. */
  method CopyString(mem: Allocator, s: Ptr) returns (p: Ptr)
    requires IsText(mem.cells, s)
    modifies mem
    ensures p == NULL ==> mem.cells == old(mem.cells) && mem.Refusals() > old(mem.Refusals())
    ensures p != NULL ==> mem.Refusals() == old(mem.Refusals()) && p !in old(mem.cells)
    ensures p != NULL ==> IsText(mem.cells, p) && mem.cells == old(mem.cells)[p := mem.cells[p]]
    ensures p != NULL ==> TextAt(mem.cells, p) == TextAt(old(mem.cells), s)
  {
    var copy := CString(mem.cells[s].text) + [NUL];
    CStringTerminated(CString(mem.cells[s].text), []);
    assert copy == CString(mem.cells[s].text) + [NUL] + [];
    p := mem.Allocate(TextCell(copy));
  }

  /** The bare copy of one node. */
  ghost predicate Bare(h0: Heap, h: Heap, sh: Shape, item: Ptr) {
    && sh.Link? && sh.kids.Empty? && sh.next.Empty? && sh.p != NULL
    && Grown(h0, h, Foot(sh)) && Separate(sh) && Owns(h, sh, NULL)
    && IsNode(h0, item) && IsNode(h, sh.p)
    && h[sh.p].node.prev == NULL && !h[sh.p].node.reference && h[sh.p].node.constName == h0[item].node.constName
    && h[sh.p].node.kind == h0[item].node.kind && h[sh.p].node.number == h0[item].node.number
  }

  /** The copy of a node that has been given no strings yet. */
  method CopyFields(mem: Allocator, item: Ptr) returns (p: Ptr)
    requires IsNode(mem.cells, item)
    modifies mem
    ensures p == NULL ==> mem.cells == old(mem.cells) && mem.Refusals() > old(mem.Refusals())
    ensures p != NULL ==> mem.Refusals() == old(mem.Refusals())
    ensures p != NULL ==> Bare(old(mem.cells), mem.cells, Link(p, NULL, NULL, Empty, Empty), item) && mem.cells[p].node.name == NULL
  {
    p := mem.Allocate(NodeCell(BLANK));
    if p != NULL {
      var from := mem.cells[item].node;
      mem.cells := mem.cells[p := NodeCell(BLANK.(kind := from.kind, number := from.number, constName := from.constName))];
    }
  }

  /** The value string is copied, if there is one; a refusal gives the node back. */
  method CopyText(mem: Allocator, item: Ptr, p: Ptr, ghost h0: Heap) returns (ok: bool, text: Ptr)
    requires Bare(h0, mem.cells, Link(p, NULL, NULL, Empty, Empty), item) && mem.cells[p].node.name == NULL
    requires h0[item].node.valuestring != NULL ==> IsText(h0, h0[item].node.valuestring)
    modifies mem
    ensures !ok ==> mem.cells == h0 && mem.Refusals() > old(mem.Refusals())
    ensures ok ==> mem.Refusals() == old(mem.Refusals()) && Bare(h0, mem.cells, Link(p, NULL, text, Empty, Empty), item)
    ensures ok ==> SameText(h0, h0[item].node.valuestring, mem.cells, text) && mem.cells[p].node.name == NULL
  {
    ok, text := true, NULL;
    var from := mem.cells[item].node.valuestring;
    if from != NULL {
      text := CopyString(mem, from);
      ok := text != NULL;
      if ok {
        mem.cells := mem.cells[p := NodeCell(mem.cells[p].node.(valuestring := text))];
      } else {
        mem.Delete(p, Link(p, NULL, NULL, Empty, Empty));
      }
    }
  }

  /** Both absent, or both present with the same C string. */
  predicate SameText(h0: Heap, s: Ptr, h: Heap, t: Ptr) {
    if s == NULL then t == NULL else t != NULL && IsText(h0, s) && IsText(h, t) && TextAt(h, t) == TextAt(h0, s)
  }

  /** A constant name is shared; any other is copied. `own` is the block that the copy owns for it. */
  method CopyName(mem: Allocator, item: Ptr, p: Ptr, text: Ptr, ghost h0: Heap) returns (ok: bool, ghost own: Ptr)
    requires Bare(h0, mem.cells, Link(p, NULL, text, Empty, Empty), item) && mem.cells[p].node.name == NULL
    requires h0[item].node.name != NULL ==> IsText(h0, h0[item].node.name)
    modifies mem
    ensures !ok ==> mem.cells == h0 && mem.Refusals() > old(mem.Refusals())
    ensures ok ==> mem.Refusals() == old(mem.Refusals()) && Bare(h0, mem.cells, Link(p, own, text, Empty, Empty), item)
    ensures ok ==> SameText(h0, h0[item].node.name, mem.cells, mem.cells[p].node.name)
    ensures ok && h0[item].node.constName ==> mem.cells[p].node.name == h0[item].node.name
    ensures ok && SameText(h0, h0[item].node.valuestring, old(mem.cells), text) ==> SameText(h0, h0[item].node.valuestring, mem.cells, text)
  {
    var from := mem.cells[item].node;
    ok, own := true, NULL;
    if from.name != NULL && from.constName {
      mem.cells := mem.cells[p := NodeCell(mem.cells[p].node.(name := from.name))];
    } else if from.name != NULL {
      ok, own := CopyOwnName(mem, item, p, text, h0);
    }
  }

  method CopyOwnName(mem: Allocator, item: Ptr, p: Ptr, text: Ptr, ghost h0: Heap) returns (ok: bool, ghost own: Ptr)
    requires Bare(h0, mem.cells, Link(p, NULL, text, Empty, Empty), item)
    requires h0[item].node.name != NULL && IsText(h0, h0[item].node.name) && !h0[item].node.constName
    modifies mem
    ensures !ok ==> mem.cells == h0 && mem.Refusals() > old(mem.Refusals())
    ensures ok ==> mem.Refusals() == old(mem.Refusals()) && Bare(h0, mem.cells, Link(p, own, text, Empty, Empty), item)
    ensures ok ==> SameText(h0, h0[item].node.name, mem.cells, mem.cells[p].node.name)
    ensures ok ==> forall q :: IsText(old(mem.cells), q) ==> q in mem.cells && mem.cells[q] == old(mem.cells)[q]
  {
    var name := CopyString(mem, mem.cells[item].node.name);
    ok, own := name != NULL, name;
    if ok {
      mem.cells := mem.cells[p := NodeCell(mem.cells[p].node.(name := name))];
    } else {
      mem.Delete(p, Link(p, NULL, text, Empty, Empty));
    }
  }

  /** The bare copy reads like the original without its children, and shares a constant name. */
  ghost predicate Resembles(h0: Heap, h: Heap, item: Ptr, p: Ptr, key: Option<bytes>, v: Value) {
    && IsNode(h, p) && NameMeans(h, h[p].node.name, key) && NodeReads(h, h[p].node, Empty, Hollow(v), true)
    && ConstantName(h, p) == ConstantName(h0, item)
  }

  lemma SameResembles(h0: Heap, h: Heap, item: Ptr, p: Ptr, src: Shape, copy: Shape, key: Option<bytes>, v: Value)
    requires Readable(h0, src, key, v) && item == src.p && Bare(h0, h, copy, item) && copy.p == p
    requires SameText(h0, h0[item].node.valuestring, h, copy.text) && SameText(h0, h0[item].node.name, h, h[p].node.name)
    requires h0[item].node.constName ==> h[p].node.name == h0[item].node.name
    ensures Resembles(h0, h, item, p, key, v)
  {
    assert h[p].node.valuestring == copy.text;
  }

  /** Node, value string and name; a refusal gives back what was taken. */
  method CopyNode(mem: Allocator, item: Ptr, ghost src: Shape, ghost key: Option<bytes>, ghost v: Value)
    returns (p: Ptr, ghost copy: Shape)
    requires Readable(mem.cells, src, key, v) && item == src.p
    modifies mem
    ensures p == NULL ==> mem.cells == old(mem.cells) && mem.Refusals() > old(mem.Refusals())
    ensures p != NULL ==> mem.Refusals() == old(mem.Refusals()) && Bare(old(mem.cells), mem.cells, copy, item) && copy.p == p
    ensures p != NULL ==> Resembles(old(mem.cells), mem.cells, item, p, key, v)
  {
    hide Bare, SameText, Resembles;
    ghost var h0 := mem.cells;
    copy := Empty;
    p := CopyFields(mem, item);
    if p == NULL {
      return;
    }
    var ok, text := CopyText(mem, item, p, h0);
    if !ok {
      return NULL, copy;
    }
    ghost var own;
    ok, own := CopyName(mem, item, p, text, h0);
    if !ok {
      return NULL, copy;
    }
    copy := Link(p, own, text, Empty, Empty);
    SameResembles(h0, mem.cells, item, p, src, copy, key, v);
  }

  // ---------- the children ----------

  /** The copies made so far: owned, reading as `ys`, with `names` borrowed. */
  ghost predicate Made(h: Heap, sh: Shape, ys: Items, names: seq<Option<Ptr>>, end: Ptr) {
    Open(h, sh, end) && Reads(h, sh, ys, true) && Names(h, sh) == names
  }

  /** One complete copy, linked back to `prev`. */
  ghost predicate Piece(h: Heap, one: Shape, p: Ptr, prev: Ptr, key: Option<bytes>, v: Value, names: seq<Option<Ptr>>) {
    Single(h, one, p, prev) && Reads(h, one, Cons(key, v, Nil), true) && Names(h, one) == names
  }

  /** The new node with the children copied so far; `h1` is the heap with the bare node. */
  ghost predicate Filling(h1: Heap, h: Heap, p: Ptr, done: Shape, ys: Items, names: seq<Option<Ptr>>) {
    && IsNode(h1, p) && Grown(h1[p := NodeCell(h1[p].node.(child := Head(done)))], h, Foot(done))
    && Made(h, done, ys, names, NULL)
  }

  lemma MadeFacts(h: Heap, sh: Shape, ys: Items, names: seq<Option<Ptr>>)
    requires Made(h, sh, ys, names, NULL)
    ensures Foot(sh) <= h.Keys
    ensures sh.Link? ==> sh.p != NULL && Last(sh) != NULL && IsNode(h, Last(sh)) && Last(sh) in Foot(sh)
  {
    OpenFacts(h, sh);
  }

  lemma MadeFrame(h: Heap, h': Heap, sh: Shape, ys: Items, names: seq<Option<Ptr>>, added: set<Ptr>)
    requires Made(h, sh, ys, names, NULL) && Grown(h, h', added)
    ensures Made(h', sh, ys, names, NULL)
  {
    OpenFrame(h, h', sh, added);
    NodesOwned(sh);
    ReadsFrame(h, h', sh, ys, true);
    NamesFrame(h, h', sh);
  }

  lemma NothingMade(h: Heap, h': Heap, sh: Shape, ys: Items, names: seq<Option<Ptr>>, end: Ptr)
    requires Head(sh) == NULL && Made(h, sh, ys, names, NULL)
    ensures Made(h', sh, ys, names, end)
  {
  }

  lemma PieceFacts(h: Heap, one: Shape, prev: Ptr, key: Option<bytes>, v: Value, names: seq<Option<Ptr>>)
    requires one.Link? && Piece(h, one, one.p, prev, key, v, names)
    ensures IsNode(h, one.p) && h[one.p].node.prev == prev && one.p in Foot(one)
  {
  }

  lemma PieceLinkedBack(h: Heap, h': Heap, one: Shape, key: Option<bytes>, v: Value, names: seq<Option<Ptr>>, prev: Ptr)
    requires one.Link? && Piece(h, one, one.p, NULL, key, v, names)
    requires IsNode(h, one.p) && IsNode(h', one.p) && h'[one.p].node == h[one.p].node.(prev := prev)
    requires Agree(h, h', Foot(one) - {one.p}) && KeepsTexts(h, h')
    ensures Piece(h', one, one.p, prev, key, v, names)
  {
    SingleLinkedBack(h, h', one, prev);
    OwnsLive(h, one, NULL);
    NodesOwned(one);
    ReadsFrame(h, h', one, Cons(key, v, Nil), true);
    NamesFrame(h, h', one);
  }

  lemma SnocMade(h: Heap, done: Shape, ys: Items, names: seq<Option<Ptr>>, one: Shape, key: Option<bytes>, v: Value, more: seq<Option<Ptr>>)
    requires one.Link? && Made(h, done, ys, names, one.p) && Piece(h, one, one.p, LastOf(done), key, v, more) && Foot(done) !! Foot(one)
    ensures Made(h, Snoc(done, one), SnocItem(ys, key, v), names + more, NULL)
    ensures LastOf(Snoc(done, one)) == one.p && Foot(Snoc(done, one)) == Foot(done) + Foot(one)
    ensures Head(Snoc(done, one)) == if done.Empty? then one.p else done.p
  {
    SnocWhole(h, done, one);
    SnocReads(h, done, one, ys, key, v, true);
    SnocNames(h, done, one);
  }

  /** Links the copy of a child behind those copied before. */
  method LinkChild(mem: Allocator, p: Ptr, next: Ptr, child: Ptr, ghost h1: Heap, ghost done: Shape, ghost ys: Items, ghost names: seq<Option<Ptr>>, ghost one: Shape, ghost key: Option<bytes>, ghost v: Value, ghost more: seq<Option<Ptr>>)
    requires one.Link? && child == one.p && child != NULL && next == LastOf(done)
    requires Made(mem.cells, done, ys, names, NULL) && Piece(mem.cells, one, child, NULL, key, v, more)
    requires IsNode(h1, p) && Foot(done) !! Foot(one)
    requires Grown(h1[p := NodeCell(h1[p].node.(child := Head(done)))], mem.cells, Foot(done) + Foot(one))
    modifies mem`cells
    ensures Filling(h1, mem.cells, p, Snoc(done, one), SnocItem(ys, key, v), names + more) && LastOf(Snoc(done, one)) == child
  {
    hide Made, Piece;
    JoinChild(mem, p, next, child, h1, done, ys, names, one, key, v, more);
    SnocMade(mem.cells, done, ys, names, one, key, v, more);
  }

  /** The links between the last copy and the new one, or between the container and its first. */
  method JoinChild(mem: Allocator, p: Ptr, next: Ptr, child: Ptr, ghost h1: Heap, ghost done: Shape, ghost ys: Items, ghost names: seq<Option<Ptr>>, ghost one: Shape, ghost key: Option<bytes>, ghost v: Value, ghost more: seq<Option<Ptr>>)
    requires one.Link? && child == one.p && child != NULL && next == LastOf(done)
    requires Made(mem.cells, done, ys, names, NULL) && Piece(mem.cells, one, child, NULL, key, v, more)
    requires IsNode(h1, p) && Foot(done) !! Foot(one)
    requires Grown(h1[p := NodeCell(h1[p].node.(child := Head(done)))], mem.cells, Foot(done) + Foot(one))
    modifies mem`cells
    ensures Made(mem.cells, done, ys, names, child) && Piece(mem.cells, one, child, next, key, v, more)
    ensures Grown(h1[p := NodeCell(h1[p].node.(child := if done.Empty? then child else done.p))], mem.cells, Foot(done) + Foot(one))
  {
    hide Made, Piece, Grown;
    ghost var h, h0 := mem.cells, h1[p := NodeCell(h1[p].node.(child := Head(done)))];
    MadeFacts(h, done, ys, names);
    PieceFacts(h, one, NULL, key, v, more);
    GrownFacts(h0, h, Foot(done) + Foot(one), p);
    if next != NULL {
      LinkBehind(mem, next, child, done, ys, names, one);
      GrownStill(h0, h, mem.cells, Foot(done) + Foot(one), next, child);
    } else {
      mem.cells := mem.cells[p := NodeCell(mem.cells[p].node.(child := child))];
      NothingMade(h, mem.cells, done, ys, names, child);
      GrownFirst(h1, h, p, Foot(done) + Foot(one), NodeCell(h1[p].node.(child := Head(done))), mem.cells[p]);
    }
    PieceLinkedBack(h, mem.cells, one, key, v, more, next);
  }

  lemma GrownFirst(h1: Heap, h: Heap, p: Ptr, added: set<Ptr>, before: Cell, after: Cell)
    requires Grown(h1[p := before], h, added)
    ensures Grown(h1[p := after], h[p := after], added)
  {
  }

  /** The last copy and the new one are linked both ways. */
  method LinkBehind(mem: Allocator, next: Ptr, child: Ptr, ghost done: Shape, ghost ys: Items, ghost names: seq<Option<Ptr>>, ghost one: Shape)
    requires one.Link? && child == one.p && done.Link? && next == Last(done) && next != NULL
    requires Made(mem.cells, done, ys, names, NULL) && Foot(done) !! Foot(one)
    requires IsNode(mem.cells, child) && child in Foot(one) && IsNode(mem.cells, next) && next in Foot(done)
    modifies mem`cells
    ensures Made(mem.cells, done, ys, names, child) && mem.cells.Keys == old(mem.cells).Keys
    ensures IsNode(mem.cells, child) && mem.cells[child].node == old(mem.cells)[child].node.(prev := next)
    ensures forall q :: q in old(mem.cells) && q != next && q != child ==> mem.cells[q] == old(mem.cells)[q]
  {
    hide Made;
    ghost var h := mem.cells;
    mem.cells := mem.cells[next := NodeCell(mem.cells[next].node.(next := child))];
    mem.cells := mem.cells[child := NodeCell(mem.cells[child].node.(prev := next))];
    MadeRelink(h, mem.cells, done, ys, names, child);
  }

  lemma MadeRelink(h: Heap, h': Heap, sh: Shape, ys: Items, names: seq<Option<Ptr>>, p: Ptr)
    requires sh.Link? && Made(h, sh, ys, names, NULL) && p !in Foot(sh) && IsNode(h, Last(sh)) && IsNode(h, p)
    requires IsNode(h', p) && h' == h[Last(sh) := NodeCell(h[Last(sh)].node.(next := p))][p := h'[p]]
    ensures Made(h', sh, ys, names, p)
  {
    OpenRelink(h, h', sh, p);
    OwnsLive(h, sh, NULL);
    NodesOwned(sh);
    ReadsFrame(h, h', sh, ys, true);
    NamesFrame(h, h', sh);
  }

  /** The copy of a node with all its children. */
  ghost predicate Copied(h0: Heap, h: Heap, copy: Shape, p: Ptr, key: Option<bytes>, v: Value, names: seq<Option<Ptr>>) {
    Grown(h0, h, Foot(copy)) && Piece(h, copy, p, NULL, key, v, names)
  }

  /** Copies one child and links it. */
  method CopyChild(mem: Allocator, p: Ptr, next: Ptr, child: Ptr, ghost h0: Heap, ghost h1: Heap, ghost done: Shape, ghost ys: Items, ghost names: seq<Option<Ptr>>, ghost src: Shape, ghost xs: Items)
    returns (ok: bool, newchild: Ptr, ghost done': Shape)
    requires Filling(h1, mem.cells, p, done, ys, names) && next == LastOf(done)
    requires p !in h0 && Agree(h0, h1, h0.Keys) && src.Link? && xs.Cons?
    requires Reading(h0, src, xs) && child == src.p
    modifies mem
    ensures !ok ==> mem.cells == old(mem.cells) && mem.Refusals() > old(mem.Refusals())
    ensures ok ==> mem.Refusals() == old(mem.Refusals()) && newchild != NULL
    ensures ok ==> Filling(h1, mem.cells, p, done', SnocItem(ys, xs.name, xs.value), names + TreeNames(h0, src)) && newchild == LastOf(done')
    decreases src, 1
  {
    hide Made, Copied, Readable, Reading;
    ghost var h, one := mem.cells, Empty;
    done' := done;
    StillReadable(h0, h, src, xs);
    newchild, one := Duplicate(mem, child, true, src, xs.name, xs.value);
    ok := newchild != NULL;
    if ok {
      CopiedFacts(h, mem.cells, one, newchild, xs.name, xs.value, TreeNames(h0, src));
      MadeFrame(h, mem.cells, done, ys, names, Foot(one));
      GrownTwice(h1[p := NodeCell(h1[p].node.(child := Head(done)))], h, mem.cells, Foot(done), Foot(one));
      LinkChild(mem, p, next, newchild, h1, done, ys, names, one, xs.name, xs.value, TreeNames(h0, src));
      done' := Snoc(done, one);
    }
  }

  lemma CopiedFacts(h0: Heap, h: Heap, copy: Shape, p: Ptr, key: Option<bytes>, v: Value, names: seq<Option<Ptr>>)
    requires Copied(h0, h, copy, p, key, v, names)
    ensures copy.Link? && copy.p == p && p != NULL
    ensures Grown(h0, h, Foot(copy)) && Piece(h, copy, p, NULL, key, v, names)
  {
  }

  lemma ReadingNext(h0: Heap, h: Heap, sh: Shape, xs: Items)
    requires Reading(h0, sh, xs) && Head(sh) != NULL && Agree(h0, h, h0.Keys)
    ensures sh.Link? && xs.Cons? && Reading(h0, sh.next, xs.next)
    ensures IsNode(h, sh.p) && h[sh.p].node.next == Head(sh.next)
  {
  }

  /** What has been copied and what is left make up the original list. */
  ghost predicate Left(h0: Heap, src: Shape, xs: Items, ys: Items, names: seq<Option<Ptr>>, rest: Shape, left: Items) {
    AppendItems(ys, left) == xs && names + Names(h0, rest) == Names(h0, src)
  }

  lemma LeftNext(h0: Heap, src: Shape, xs: Items, ys: Items, names: seq<Option<Ptr>>, rest: Shape, left: Items)
    requires Left(h0, src, xs, ys, names, rest, left) && rest.Link? && left.Cons?
    ensures Left(h0, src, xs, SnocItem(ys, left.name, left.value), names + TreeNames(h0, rest), rest.next, left.next)
  {
    AppendSnoc(ys, left.name, left.value, left.next);
    assert names + (TreeNames(h0, rest) + Names(h0, rest.next)) == (names + TreeNames(h0, rest)) + Names(h0, rest.next);
  }

  lemma LeftEnd(h0: Heap, src: Shape, xs: Items, ys: Items, names: seq<Option<Ptr>>, rest: Shape, left: Items)
    requires Left(h0, src, xs, ys, names, rest, left) && Reading(h0, rest, left) && Head(rest) == NULL
    ensures ys == xs && names == Names(h0, src)
  {
    AppendNil(ys);
  }

  lemma LeftStarts(h0: Heap, src: Shape, xs: Items)
    ensures Left(h0, src, xs, Nil, [], src, xs)
  {
  }

  lemma {:induction false} LinkedLive(h: Heap, sh: Shape)
    requires Linked(h, sh)
    ensures Nodes(sh) <= h.Keys
  {
    if sh.Link? {
      LinkedLive(h, sh.kids);
      LinkedLive(h, sh.next);
    }
  }

  /** The source is still there: the heap has only grown around it. */
  lemma StillReadable(h0: Heap, h: Heap, src: Shape, xs: Items)
    requires Reading(h0, src, xs) && src.Link? && xs.Cons? && Agree(h0, h, h0.Keys)
    ensures Readable(h, src, xs.name, xs.value) && src.p != NULL && TreeNames(h, src) == TreeNames(h0, src)
  {
    LinkedLive(h0, src);
    LinkedFrame(h0, h, src);
    ReadsFrame(h0, h, src, xs, false);
    NamesFrame(h0, h, src.kids);
  }

  lemma FillingStarts(h: Heap, p: Ptr)
    requires IsNode(h, p) && h[p].node.child == NULL
    ensures Filling(h, h, p, Empty, Nil, [])
  {
  }

  lemma FillingAgrees(h0: Heap, h1: Heap, h: Heap, p: Ptr, done: Shape, ys: Items, names: seq<Option<Ptr>>)
    requires Filling(h1, h, p, done, ys, names) && p !in h0 && Agree(h0, h1, h0.Keys)
    ensures Agree(h0, h, h0.Keys)
  {
  }

  /** The loop over the children; a refusal leaves what has been linked so far. */
  method CopyKids(mem: Allocator, p: Ptr, first: Ptr, ghost h0: Heap, ghost src: Shape, ghost xs: Items)
    returns (ok: bool, last: Ptr, ghost done: Shape, ghost ys: Items, ghost names: seq<Option<Ptr>>)
    requires p !in h0 && p != NULL && IsNode(mem.cells, p) && mem.cells[p].node.child == NULL && Agree(h0, mem.cells, h0.Keys)
    requires Reading(h0, src, xs) && first == Head(src)
    modifies mem
    ensures Filling(old(mem.cells), mem.cells, p, done, ys, names)
    ensures ok ==> mem.Refusals() == old(mem.Refusals()) && ys == xs && names == Names(h0, src) && last == LastOf(done)
    ensures !ok ==> mem.Refusals() > old(mem.Refusals())
    decreases src, 2
  {
    hide Filling, Reading, Left, TreeNames, Names, SnocItem;
    ghost var h1 := mem.cells;
    FillingStarts(h1, p);
    var child := first;
    ok, last := true, NULL;
    done, ys, names := Empty, Nil, [];
    LeftStarts(h0, src, xs);
    ghost var rest, left := src, xs;
    while child != NULL
      invariant ok && mem.Refusals() == old(mem.Refusals())
      invariant Reading(h0, rest, left) && child == Head(rest) && (rest == src || rest < src)
      invariant Filling(h1, mem.cells, p, done, ys, names) && last == LastOf(done)
      invariant Left(h0, src, xs, ys, names, rest, left)
      decreases rest
    {
      ReadingNext(h0, h0, rest, left);
      var next; ghost var done';
      ok, next, done' := CopyChild(mem, p, last, child, h0, h1, done, ys, names, rest, left);
      if !ok {
        return;
      }
      LeftNext(h0, src, xs, ys, names, rest, left);
      done, ys, names, last := done', SnocItem(ys, left.name, left.value), names + TreeNames(h0, rest), next;
      FillingAgrees(h0, h1, mem.cells, p, done, ys, names);
      ReadingNext(h0, mem.cells, rest, left);
      child := mem.cells[child].node.next;
      rest, left := rest.next, left.next;
    }
    LeftEnd(h0, src, xs, ys, names, rest, left);
  }

  /** The copy with its children, the first one's `prev` now on the last. */
  method CloseCopy(mem: Allocator, p: Ptr, last: Ptr, ghost h0: Heap, ghost h1: Heap, ghost bare: Shape, ghost item: Ptr, ghost done: Shape, ghost names: seq<Option<Ptr>>, ghost key: Option<bytes>, ghost v: Value)
    returns (ghost copy: Shape)
    requires Bare(h0, h1, bare, item) && bare.p == p && Filling(h1, mem.cells, p, done, Kids(v), names) && last == LastOf(done)
    requires Resembles(h0, h1, item, p, key, v)
    modifies mem`cells
    ensures Copied(h0, mem.cells, copy, p, key, v, [ConstantName(h0, item)] + names)
  {
    copy := WithKids(bare, done);
    var first := mem.cells[p].node.child;
    if first != NULL {
      ghost var h := mem.cells;
      mem.cells := mem.cells[first := NodeCell(mem.cells[first].node.(prev := last))];
      MadeRound(h, mem.cells, done, Kids(v), names);
    }
    Whole(h0, h1, mem.cells, bare, item, done, names, key, v);
  }

  lemma MadeRound(h: Heap, h': Heap, sh: Shape, ys: Items, names: seq<Option<Ptr>>)
    requires sh.Link? && Made(h, sh, ys, names, NULL) && IsNode(h, sh.p)
    requires h' == h[sh.p := NodeCell(h[sh.p].node.(prev := Last(sh)))]
    ensures Owns(h', sh, NULL) && Rounded(h', sh) && Reads(h', sh, ys, true) && Names(h', sh) == names
  {
    OpenRound(h, h', sh);
    OwnsLive(h, sh, NULL);
    NodesOwned(sh);
    ReadsFrame(h, h', sh, ys, true);
    NamesFrame(h, h', sh);
  }

  /** The bare node, once its children hang below it; `h1` is the heap before they do. */
  ghost predicate Hung(h1: Heap, h: Heap, bare: Shape, kids: Shape) {
    && bare.Link? && IsNode(h1, bare.p)
    && Grown(h1[bare.p := NodeCell(h1[bare.p].node.(child := Head(kids)))], h, Foot(kids))
    && Owns(h, kids, NULL) && Separate(kids)
  }

  function WithKids(bare: Shape, kids: Shape): Shape
    requires bare.Link?
  {
    Link(bare.p, bare.name, bare.text, kids, Empty)
  }

  lemma WholeOwned(h0: Heap, h1: Heap, h: Heap, bare: Shape, item: Ptr, kids: Shape)
    requires Bare(h0, h1, bare, item) && Hung(h1, h, bare, kids)
    ensures Owns(h, WithKids(bare, kids), NULL) && Separate(WithKids(bare, kids)) && Grown(h0, h, Foot(WithKids(bare, kids)))
    ensures IsNode(h, bare.p) && h[bare.p].node == h1[bare.p].node.(child := Head(kids))
  {
    assert Own(bare.p, bare.name, bare.text) <= h1.Keys;
  }

  lemma Whole(h0: Heap, h1: Heap, h: Heap, bare: Shape, item: Ptr, kids: Shape, names: seq<Option<Ptr>>, key: Option<bytes>, v: Value)
    requires Bare(h0, h1, bare, item) && Hung(h1, h, bare, kids)
    requires Rounded(h, kids) && Reads(h, kids, Kids(v), true) && Names(h, kids) == names
    requires Resembles(h0, h1, item, bare.p, key, v)
    ensures Copied(h0, h, WithKids(bare, kids), bare.p, key, v, [ConstantName(h0, item)] + names)
  {
    WholeOwned(h0, h1, h, bare, item, kids);
    WholeReads(h0, h1, h, bare, item, kids, key, v);
    assert Chained(h, WithKids(bare, kids), NULL);
  }

  lemma WholeReads(h0: Heap, h1: Heap, h: Heap, bare: Shape, item: Ptr, kids: Shape, key: Option<bytes>, v: Value)
    requires Hung(h1, h, bare, kids) && IsNode(h, bare.p) && Reads(h, kids, Kids(v), true)
    requires h[bare.p].node == h1[bare.p].node.(child := Head(kids))
    requires Resembles(h0, h1, item, bare.p, key, v)
    ensures Reads(h, WithKids(bare, kids), Cons(key, v, Nil), true)
    ensures Names(h, WithKids(bare, kids)) == [ConstantName(h0, item)] + Names(h, kids)
  {
    assert NameMeans(h, h[bare.p].node.name, key);
    assert NodeReads(h, h[bare.p].node, kids, v, true);
  }

  /** What has been copied so far is given back. */
  method DropCopy(mem: Allocator, p: Ptr, ghost h0: Heap, ghost h1: Heap, ghost bare: Shape, ghost item: Ptr, ghost done: Shape, ghost ys: Items, ghost names: seq<Option<Ptr>>)
    requires Bare(h0, h1, bare, item) && bare.p == p && Filling(h1, mem.cells, p, done, ys, names)
    modifies mem`cells
    ensures mem.cells == h0
  {
    WholeOwned(h0, h1, mem.cells, bare, item, done);
    MinusAdded(h0, mem.cells, WithKids(bare, done));
    mem.Delete(p, WithKids(bare, done));
  }

  lemma HungEmpty(h0: Heap, h1: Heap, bare: Shape, item: Ptr)
    requires Bare(h0, h1, bare, item)
    ensures Hung(h1, h1, bare, Empty) && WithKids(bare, Empty) == bare
  {
    assert h1[bare.p := NodeCell(h1[bare.p].node.(child := NULL))] == h1;
  }

  /**
   A deep copy owns only blocks that were not live before, reads as the same value and has every
   list closed; no node of it borrows its contents, and it borrows the names that the original
   borrows. When an allocation is refused, the heap is as it was.
   */
  method Duplicate(mem: Allocator, item: Ptr, recurse: bool, ghost src: Shape, ghost key: Option<bytes>, ghost v: Value)
    returns (p: Ptr, ghost copy: Shape)
    requires item != NULL ==> Readable(mem.cells, src, key, v) && item == src.p
    modifies mem
    ensures p == NULL ==> mem.cells == old(mem.cells) && (item == NULL || mem.Refusals() > old(mem.Refusals()))
    ensures p != NULL ==> item != NULL && mem.Refusals() == old(mem.Refusals())
    ensures p != NULL && recurse ==> Copied(old(mem.cells), mem.cells, copy, p, key, v, TreeNames(old(mem.cells), src))
    ensures p != NULL && !recurse ==> Copied(old(mem.cells), mem.cells, copy, p, key, Hollow(v), [ConstantName(old(mem.cells), item)])
    decreases src, 0
  {
    copy := Empty;
    if item == NULL {
      return NULL, copy;
    }
    ghost var h0 := mem.cells;
    p, copy := CopyNode(mem, item, src, key, v);
    if p == NULL {
      return;
    }
    ghost var h1, bare := mem.cells, copy;
    if !recurse {
      HungEmpty(h0, h1, bare, item);
      Whole(h0, h1, mem.cells, bare, item, Empty, [], key, Hollow(v));
      return;
    }
    var ok, last; ghost var done, ys, names;
    ok, last, done, ys, names := CopyKids(mem, p, mem.cells[item].node.child, h0, src.kids, Kids(v));
    if ok {
      copy := CloseCopy(mem, p, last, h0, h1, bare, item, done, names, key, v);
    } else {
      DropCopy(mem, p, h0, h1, bare, item, done, ys, names);
      p := NULL;
    }
  }

  /** A copy compares equal to its original exactly when members of one name denote the same. */
  method DuplicateThenCompare(mem: Allocator, item: Ptr, ghost src: Shape, ghost key: Option<bytes>, ghost v: Value)
    returns (p: Ptr, same: bool)
    requires Readable(mem.cells, src, key, v) && item == src.p && Int32Numbers(v)
    modifies mem
    ensures p == NULL ==> mem.cells == old(mem.cells) && mem.Refusals() > old(mem.Refusals())
    ensures p != NULL ==> (same <==> Consistent(v))
  {
    ghost var copy;
    p, copy := Duplicate(mem, item, true, src, key, v);
    same := false;
    if p != NULL {
      CopyStandsApart(old(mem.cells), mem.cells, src, copy, key, v, TreeNames(old(mem.cells), src));
      same := CompareNodes(mem.cells, item, p, src, copy, v, v);
      CompareSelf(v);
    }
  }

  lemma CopyStandsApart(h0: Heap, h: Heap, src: Shape, copy: Shape, key: Option<bytes>, v: Value, names: seq<Option<Ptr>>)
    requires Readable(h0, src, key, v) && copy.Link? && Copied(h0, h, copy, copy.p, key, v, names)
    ensures Stands(h, src.p, src, v) && Stands(h, copy.p, copy, v) && TreeNodes(src) !! TreeNodes(copy)
  {
    LinkedLive(h0, src.kids);
    LinkedFrame(h0, h, src.kids);
    NodeReadsFrame(h0, h, h0[src.p].node, h[src.p].node, src.kids, v, false);
    OwnsLinked(h, copy, Cons(key, v, Nil));
    NodeReadsAnyway(h, h[copy.p].node, copy.kids, v);
    NodesOwned(copy.kids);
  }
}
