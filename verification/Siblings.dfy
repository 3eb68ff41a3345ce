/**
 Editing the children of a container: appending, looking up, detaching, inserting and
 replacing. The children form a doubly linked list whose first node's `prev` is the last
 node, and every operation is the matching operation on the sequence of children.
 */
module Siblings {
  import opened Memory

  predicate IsLinked(h: Heap, ps: seq<Ptr>, i: nat)
    requires i < |ps|
  {
    && ps[i] != NULL && IsNode(h, ps[i])
    && h[ps[i]].node.next == (if i + 1 < |ps| then ps[i + 1] else NULL)
    && h[ps[i]].node.prev == (if i == 0 then ps[|ps| - 1] else ps[i - 1])
  }

  ghost predicate Distinct(ps: seq<Ptr>) {
    forall i, j :: 0 <= i < j < |ps| ==> ps[i] != ps[j]
  }

  /** The children of `parent` are `ps`, in this order. */
  ghost predicate Children(h: Heap, parent: Ptr, ps: seq<Ptr>) {
    && parent != NULL && IsNode(h, parent) && parent !in ps && Distinct(ps)
    && h[parent].node.child == (if ps == [] then NULL else ps[0])
    && forall i :: 0 <= i < |ps| ==> IsLinked(h, ps, i)
  }

  /** A node with nothing behind it, as a new or a detached one is. */
  predicate Loose(h: Heap, p: Ptr) {
    p != NULL && IsNode(h, p) && h[p].node.next == NULL
  }

  /** A node that is neither the container nor one of its children. */
  predicate Outside(h: Heap, parent: Ptr, ps: seq<Ptr>, p: Ptr) {
    p != NULL && IsNode(h, p) && p != parent && p !in ps
  }

  /** The step has rewritten sibling links of the nodes in `ps` and the parent's `child`, and nothing else. */
  ghost predicate Relinked(h: Heap, h': Heap, parent: Ptr, ps: set<Ptr>) {
    && h'.Keys == h.Keys && IsNode(h, parent) && IsNode(h', parent)
    && h'[parent].node == h[parent].node.(child := h'[parent].node.child)
    && (forall q :: q in h && q in ps && q != parent ==> SameData(h[q], h'[q]))
    && (forall q :: q in h && q !in ps && q != parent ==> h'[q] == h[q])
  }

  function Elements(ps: seq<Ptr>): set<Ptr> { set p | p in ps }

  method SetNext(mem: Allocator, p: Ptr, q: Ptr)
    requires IsNode(mem.cells, p)
    modifies mem`cells
    ensures mem.cells == old(mem.cells)[p := NodeCell(old(mem.cells)[p].node.(next := q))]
  {
    mem.cells := mem.cells[p := NodeCell(mem.cells[p].node.(next := q))];
  }

  method SetPrev(mem: Allocator, p: Ptr, q: Ptr)
    requires IsNode(mem.cells, p)
    modifies mem`cells
    ensures mem.cells == old(mem.cells)[p := NodeCell(old(mem.cells)[p].node.(prev := q))]
  {
    mem.cells := mem.cells[p := NodeCell(mem.cells[p].node.(prev := q))];
  }

  method SetChild(mem: Allocator, p: Ptr, q: Ptr)
    requires IsNode(mem.cells, p)
    modifies mem`cells
    ensures mem.cells == old(mem.cells)[p := NodeCell(old(mem.cells)[p].node.(child := q))]
  {
    mem.cells := mem.cells[p := NodeCell(mem.cells[p].node.(child := q))];
  }

  /** `cJSON_GetArrayItem`: the child at an index, NULL when there is none. */
  method GetArrayItem(h: Heap, parent: Ptr, index: int, ghost ps: seq<Ptr>) returns (p: Ptr)
    requires parent == NULL || Children(h, parent, ps)
    ensures p == if parent != NULL && 0 <= index < |ps| then ps[index] else NULL
  {
    if index < 0 || parent == NULL {
      return NULL;
    }
    var left := index;
    ghost var i := 0;
    p := h[parent].node.child;
    while p != NULL && left > 0
      invariant 0 <= left && i + left == index && 0 <= i <= |ps|
      invariant p == if i < |ps| then ps[i] else NULL
      decreases left
    {
      assert IsLinked(h, ps, i);
      left := left - 1;
      p := h[p].node.next;
      i := i + 1;
    }
  }

  /**
   `cJSON_AddItemToArray`. The item's own `next` is cleared only when the list was empty, so
   the result is the longer list exactly when the item had none.
   */
  method AddItemToArray(mem: Allocator, parent: Ptr, item: Ptr, ghost ps: seq<Ptr>) returns (ok: bool)
    requires parent == NULL || Children(mem.cells, parent, ps)
    requires item == NULL || parent == NULL || item == parent || Outside(mem.cells, parent, ps, item)
    modifies mem`cells
    ensures ok <==> item != NULL && parent != NULL && item != parent
    ensures ok ==> (Children(mem.cells, parent, ps + [item]) <==> ps == [] || old(mem.cells)[item].node.next == NULL)
    ensures ok ==> Relinked(old(mem.cells), mem.cells, parent, Elements(ps + [item]))
    ensures !ok ==> mem.cells == old(mem.cells)
  {
    if item == NULL || parent == NULL || parent == item {
      return false;
    }
    assert ps != [] ==> IsLinked(mem.cells, ps, 0);
    var child := mem.cells[parent].node.child;
    if child == NULL {
      SetChild(mem, parent, item);
      SetPrev(mem, item, item);
      SetNext(mem, item, NULL);
      assert IsLinked(mem.cells, [item], 0);
      assert ps + [item] == [item];
    } else {
      assert IsLinked(mem.cells, ps, 0);
      assert IsLinked(mem.cells, ps, |ps| - 1);
      var last := mem.cells[child].node.prev;
      SetNext(mem, last, item);
      SetPrev(mem, item, last);
      SetPrev(mem, child, item);
      Appended(old(mem.cells), mem.cells, parent, ps, item);
    }
    return true;
  }

  lemma Appended(h: Heap, h': Heap, parent: Ptr, ps: seq<Ptr>, item: Ptr)
    requires Children(h, parent, ps) && ps != [] && Outside(h, parent, ps, item)
    requires IsNode(h, ps[0]) && IsNode(h, ps[|ps| - 1])
    requires var last := ps[|ps| - 1];
             var h1 := h[last := NodeCell(h[last].node.(next := item))];
             var h2 := h1[item := NodeCell(h1[item].node.(prev := last))];
             h' == h2[ps[0] := NodeCell(h2[ps[0]].node.(prev := item))]
    ensures Children(h', parent, ps + [item]) <==> h[item].node.next == NULL
    ensures Relinked(h, h', parent, Elements(ps + [item]))
  {
    var qs := ps + [item];
    assert h'[item].node.next == h[item].node.next;
    assert IsLinked(h', qs, |ps|) <==> h[item].node.next == NULL;
    forall i | 0 <= i < |ps| ensures IsLinked(h', qs, i) {
      assert IsLinked(h, ps, i);
    }
  }

  function Without(ps: seq<Ptr>, i: nat): seq<Ptr>
    requires i < |ps|
  {
    ps[..i] + ps[i + 1..]
  }

  function With(ps: seq<Ptr>, i: nat, p: Ptr): seq<Ptr> {
    if i < |ps| then ps[..i] + [p] + ps[i..] else ps + [p]
  }

  /** The links of the child at `k` once the child at `i` has been taken out. */
  predicate SkipsOver(h: Heap, ps: seq<Ptr>, i: nat, k: nat)
    requires i < |ps| && k < |ps| && k != i
  {
    var after := if k + 1 == i then k + 2 else k + 1;
    var last := if i == |ps| - 1 then |ps| - 2 else |ps| - 1;
    && ps[k] != NULL && IsNode(h, ps[k])
    && h[ps[k]].node.next == (if after < |ps| then ps[after] else NULL)
    && h[ps[k]].node.prev == (if k == 0 || (k == 1 && i == 0) then ps[last] else if k - 1 == i then ps[k - 2] else ps[k - 1])
  }

  /** The pointer surgery of a detachment, node by node. */
  method Unlink(mem: Allocator, parent: Ptr, item: Ptr, ghost ps: seq<Ptr>, ghost i: nat)
    requires Children(mem.cells, parent, ps) && i < |ps| && item == ps[i]
    modifies mem`cells
    ensures Relinked(old(mem.cells), mem.cells, parent, Elements(ps)) && IsNode(mem.cells, item)
    ensures mem.cells[parent].node.child == (if i > 0 then ps[0] else if |ps| > 1 then ps[1] else NULL)
    ensures forall k :: 0 <= k < |ps| && k != i ==> SkipsOver(mem.cells, ps, i, k)
  {
    ghost var h := mem.cells;
    assert IsLinked(h, ps, i) && IsLinked(h, ps, 0);
    assert i > 0 ==> IsLinked(h, ps, i - 1);
    assert i + 1 < |ps| ==> IsLinked(h, ps, i + 1);
    var node := mem.cells[item].node;
    var first := mem.cells[parent].node.child;
    if item != first {
      SetNext(mem, node.prev, node.next);
    }
    if node.next != NULL {
      SetPrev(mem, node.next, node.prev);
    }
    if item == first {
      SetChild(mem, parent, node.next);
    } else if node.next == NULL {
      SetPrev(mem, first, node.prev);
    }
    forall k | 0 <= k < |ps| && k != i ensures SkipsOver(mem.cells, ps, i, k) {
      assert IsLinked(h, ps, k);
    }
  }

  /** `cJSON_DetachItemViaPointer`. */
  method DetachItem(mem: Allocator, parent: Ptr, item: Ptr, ghost ps: seq<Ptr>, ghost i: nat) returns (r: Ptr)
    requires parent == NULL || item == NULL || (Children(mem.cells, parent, ps) && i < |ps| && item == ps[i])
    modifies mem`cells
    ensures parent == NULL || item == NULL ==> r == NULL && mem.cells == old(mem.cells)
    ensures parent != NULL && item != NULL ==>
      && r == item && Children(mem.cells, parent, Without(ps, i))
      && Loose(mem.cells, item) && mem.cells[item].node.prev == NULL
      && Relinked(old(mem.cells), mem.cells, parent, Elements(ps))
  {
    if parent == NULL || item == NULL {
      return NULL;
    }
    Unlink(mem, parent, item, ps, i);
    Detached(mem.cells, parent, ps, i);
    Loosen(mem, parent, item, Without(ps, i));
    return item;
  }

  /** The detached node no longer points anywhere; the list it has left does not notice. */
  method Loosen(mem: Allocator, parent: Ptr, item: Ptr, ghost ps: seq<Ptr>)
    requires Children(mem.cells, parent, ps) && item != NULL && item !in ps && item != parent && IsNode(mem.cells, item)
    modifies mem`cells
    ensures Children(mem.cells, parent, ps) && Loose(mem.cells, item) && mem.cells[item].node.prev == NULL
    ensures Relinked(old(mem.cells), mem.cells, parent, {item})
  {
    ghost var h := mem.cells;
    SetPrev(mem, item, NULL);
    SetNext(mem, item, NULL);
    forall k | 0 <= k < |ps| ensures IsLinked(mem.cells, ps, k) {
      assert IsLinked(h, ps, k);
    }
  }

  lemma Detached(h: Heap, parent: Ptr, ps: seq<Ptr>, i: nat)
    requires parent != NULL && IsNode(h, parent) && parent !in ps && Distinct(ps) && i < |ps|
    requires h[parent].node.child == (if i > 0 then ps[0] else if |ps| > 1 then ps[1] else NULL)
    requires forall k :: 0 <= k < |ps| && k != i ==> SkipsOver(h, ps, i, k)
    ensures Children(h, parent, Without(ps, i))
  {
    forall k | 0 <= k < |ps| - 1 ensures IsLinked(h, Without(ps, i), k) {
      assert SkipsOver(h, ps, i, if k < i then k else k + 1);
    }
  }

  /** `cJSON_InsertItemInArray`: before the child at `which`, or at the end when there is none. */
  method InsertItemInArray(mem: Allocator, parent: Ptr, which: int, item: Ptr, ghost ps: seq<Ptr>) returns (ok: bool)
    requires parent == NULL || Children(mem.cells, parent, ps)
    requires which < 0 || parent == NULL || Outside(mem.cells, parent, ps, item) || (which >= |ps| && (item == NULL || item == parent))
    modifies mem`cells
    ensures ok <==> which >= 0 && parent != NULL && item != NULL && item != parent
    ensures ok ==> (Children(mem.cells, parent, With(ps, which, item)) <==> which < |ps| || ps == [] || old(mem.cells)[item].node.next == NULL)
    ensures ok ==> Relinked(old(mem.cells), mem.cells, parent, Elements(ps + [item]))
    ensures !ok ==> mem.cells == old(mem.cells)
  {
    if which < 0 {
      return false;
    }
    assert parent != NULL && which < |ps| ==> IsLinked(mem.cells, ps, which);
    var after := GetArrayItem(mem.cells, parent, which, ps);
    if after == NULL {
      ok := AddItemToArray(mem, parent, item, ps);
    } else {
      LinkBefore(mem, parent, after, item, ps, which);
      Inserted(mem.cells, parent, ps, which, item);
      ok := true;
    }
  }

  /** The links of the old child at `k` once `item` stands before the child at `i`. */
  predicate MakesRoom(h: Heap, ps: seq<Ptr>, i: nat, item: Ptr, k: nat)
    requires i < |ps| && k < |ps|
  {
    && ps[k] != NULL && IsNode(h, ps[k])
    && h[ps[k]].node.next == (if k + 1 == i then item else if k + 1 < |ps| then ps[k + 1] else NULL)
    && h[ps[k]].node.prev == (if k == i then item else if k == 0 then ps[|ps| - 1] else ps[k - 1])
  }

  method LinkBefore(mem: Allocator, parent: Ptr, after: Ptr, item: Ptr, ghost ps: seq<Ptr>, ghost i: nat)
    requires Children(mem.cells, parent, ps) && i < |ps| && after == ps[i]
    requires Outside(mem.cells, parent, ps, item)
    modifies mem`cells
    ensures Relinked(old(mem.cells), mem.cells, parent, Elements(ps + [item]))
    ensures mem.cells[parent].node.child == (if i > 0 then ps[0] else item)
    ensures IsNode(mem.cells, item) && mem.cells[item].node.next == ps[i]
    ensures mem.cells[item].node.prev == (if i > 0 then ps[i - 1] else ps[|ps| - 1])
    ensures forall k :: 0 <= k < |ps| ==> MakesRoom(mem.cells, ps, i, item, k)
  {
    ghost var h := mem.cells;
    assert IsLinked(h, ps, i) && IsLinked(h, ps, 0);
    assert i > 0 ==> IsLinked(h, ps, i - 1);
    var before := mem.cells[after].node.prev;
    SetNext(mem, item, after);
    SetPrev(mem, item, before);
    SetPrev(mem, after, item);
    if after == mem.cells[parent].node.child {
      SetChild(mem, parent, item);
    } else {
      SetNext(mem, before, item);
    }
    forall k | 0 <= k < |ps| ensures MakesRoom(mem.cells, ps, i, item, k) {
      assert IsLinked(h, ps, k);
    }
  }

  lemma Inserted(h: Heap, parent: Ptr, ps: seq<Ptr>, i: nat, item: Ptr)
    requires parent != NULL && IsNode(h, parent) && parent !in ps && Distinct(ps) && i < |ps|
    requires item !in ps && item != parent && item != NULL && IsNode(h, item)
    requires h[parent].node.child == (if i > 0 then ps[0] else item)
    requires h[item].node.next == ps[i] && h[item].node.prev == (if i > 0 then ps[i - 1] else ps[|ps| - 1])
    requires forall k :: 0 <= k < |ps| ==> MakesRoom(h, ps, i, item, k)
    ensures Children(h, parent, With(ps, i, item))
  {
    var qs := With(ps, i, item);
    assert |qs| == |ps| + 1 && qs[i] == item;
    assert forall k :: 0 <= k < i ==> qs[k] == ps[k];
    assert forall k :: i < k < |qs| ==> qs[k] == ps[k - 1];
    forall k | 0 <= k < |qs| ensures IsLinked(h, qs, k) {
      assert k < i ==> MakesRoom(h, ps, i, item, k);
      assert k > i ==> MakesRoom(h, ps, i, item, k - 1);
    }
  }

  /** The links of the old child at `k` once the child at `i` has given way to `item`. */
  predicate MeetsAnother(h: Heap, ps: seq<Ptr>, i: nat, item: Ptr, k: nat)
    requires i < |ps| && k < |ps| && k != i
  {
    && ps[k] != NULL && IsNode(h, ps[k])
    && h[ps[k]].node.next == (if k + 1 == i then item else if k + 1 < |ps| then ps[k + 1] else NULL)
    && h[ps[k]].node.prev == (if k == i + 1 || (k == 0 && i == |ps| - 1) then item else if k == 0 then ps[|ps| - 1] else ps[k - 1])
  }

  method LinkInstead(mem: Allocator, parent: Ptr, item: Ptr, replacement: Ptr, ghost ps: seq<Ptr>, ghost i: nat)
    requires Children(mem.cells, parent, ps) && i < |ps| && item == ps[i]
    requires replacement !in ps && replacement != parent && replacement != NULL && IsNode(mem.cells, replacement)
    requires IsNode(mem.cells, item) && mem.cells[replacement].node.next == mem.cells[item].node.next
    requires mem.cells[replacement].node.prev == mem.cells[item].node.prev
    modifies mem`cells
    ensures Relinked(old(mem.cells), mem.cells, parent, Elements(ps + [replacement]))
    ensures mem.cells[parent].node.child == (if i > 0 then ps[0] else replacement)
    ensures IsNode(mem.cells, replacement) && IsNode(mem.cells, item)
    ensures mem.cells[replacement].node.next == (if i + 1 < |ps| then ps[i + 1] else NULL)
    ensures mem.cells[replacement].node.prev == (if i > 0 then ps[i - 1] else if |ps| == 1 then replacement else ps[|ps| - 1])
    ensures forall k :: 0 <= k < |ps| && k != i ==> MeetsAnother(mem.cells, ps, i, replacement, k)
  {
    ghost var h := mem.cells;
    assert IsLinked(h, ps, i) && IsLinked(h, ps, 0);
    assert i > 0 ==> IsLinked(h, ps, i - 1);
    assert i + 1 < |ps| ==> IsLinked(h, ps, i + 1);
    var next, prev := mem.cells[replacement].node.next, mem.cells[replacement].node.prev;
    if next != NULL {
      SetPrev(mem, next, replacement);
    }
    var first := mem.cells[parent].node.child;
    if first == item {
      if mem.cells[first].node.prev == first {
        SetPrev(mem, replacement, replacement);
      }
      SetChild(mem, parent, replacement);
    } else {
      if prev != NULL {
        SetNext(mem, prev, replacement);
      }
      if next == NULL {
        SetPrev(mem, first, replacement);
      }
    }
    forall k | 0 <= k < |ps| && k != i ensures MeetsAnother(mem.cells, ps, i, replacement, k) {
      assert IsLinked(h, ps, k);
    }
  }

  lemma Replaced(h: Heap, parent: Ptr, ps: seq<Ptr>, i: nat, item: Ptr)
    requires parent != NULL && IsNode(h, parent) && parent !in ps && Distinct(ps) && i < |ps|
    requires item !in ps && item != parent && item != NULL && IsNode(h, item)
    requires h[parent].node.child == (if i > 0 then ps[0] else item)
    requires h[item].node.next == (if i + 1 < |ps| then ps[i + 1] else NULL)
    requires h[item].node.prev == (if i > 0 then ps[i - 1] else if |ps| == 1 then item else ps[|ps| - 1])
    requires forall k :: 0 <= k < |ps| && k != i ==> MeetsAnother(h, ps, i, item, k)
    ensures Children(h, parent, ps[i := item])
  {
    var qs := ps[i := item];
    forall k | 0 <= k < |qs| ensures IsLinked(h, qs, k) {
      assert k != i ==> MeetsAnother(h, ps, i, item, k);
    }
  }

  /** Everything one child owns: itself, its strings and the tree below it. */
  ghost predicate OwnTree(h: Heap, p: Ptr, one: Shape) {
    && one.Link? && one.p == p && one.next.Empty? && Separate(one)
    && IsNode(h, p) && Owns(h, one, h[p].node.next)
  }

  /** A child's own tree stands while sibling links outside it, and its own, are rewritten. */
  lemma OwnTreeFrame(h: Heap, h': Heap, parent: Ptr, touched: set<Ptr>, p: Ptr, one: Shape)
    requires OwnTree(h, p, one) && Relinked(h, h', parent, touched) && parent !in Foot(one)
    requires forall q :: q in touched && q in Foot(one) ==> q == p
    ensures OwnTree(h', p, one)
  {
    assert Agree(h, h', Foot(one) - {p});
    OwnsFrame(h, h', one.kids, NULL);
  }

  /** The new node takes over the links of the old one. */
  method CopyLinks(mem: Allocator, parent: Ptr, item: Ptr, replacement: Ptr, ghost ps: seq<Ptr>)
    requires Children(mem.cells, parent, ps) && item in ps && IsNode(mem.cells, item)
    requires replacement !in ps && replacement != parent && replacement != NULL && IsNode(mem.cells, replacement)
    modifies mem`cells
    ensures Children(mem.cells, parent, ps) && Relinked(old(mem.cells), mem.cells, parent, {replacement})
    ensures IsNode(mem.cells, replacement) && IsNode(mem.cells, item)
    ensures mem.cells[replacement].node.next == mem.cells[item].node.next
    ensures mem.cells[replacement].node.prev == mem.cells[item].node.prev
  {
    ghost var h := mem.cells;
    SetNext(mem, replacement, mem.cells[item].node.next);
    SetPrev(mem, replacement, mem.cells[item].node.prev);
    forall k | 0 <= k < |ps| ensures IsLinked(mem.cells, ps, k) {
      assert IsLinked(h, ps, k);
    }
  }

  lemma RelinkedTwice(h: Heap, h1: Heap, h2: Heap, parent: Ptr, a: set<Ptr>, b: set<Ptr>)
    requires Relinked(h, h1, parent, a) && Relinked(h1, h2, parent, b)
    ensures Relinked(h, h2, parent, a + b)
  {
  }

  /** `cJSON_ReplaceItemViaPointer`: the new child takes the old one's place, and the old one's tree is released. */
  method ReplaceItem(mem: Allocator, parent: Ptr, item: Ptr, replacement: Ptr, ghost ps: seq<Ptr>, ghost i: nat, ghost one: Shape) returns (ok: bool)
    requires parent != NULL && item != NULL && replacement != NULL && replacement != item ==>
      && Children(mem.cells, parent, ps) && i < |ps| && item == ps[i]
      && Outside(mem.cells, parent, ps, replacement)
      && OwnTree(mem.cells, item, one)
      && Foot(one) !! {parent, replacement} && (forall k :: 0 <= k < |ps| && k != i ==> ps[k] !in Foot(one))
    modifies mem`cells
    ensures ok <==> parent != NULL && item != NULL && replacement != NULL
    ensures !ok || replacement == item ==> mem.cells == old(mem.cells)
    ensures ok && replacement != item ==>
      && Children(mem.cells, parent, ps[i := replacement])
      && Relinked(old(mem.cells) - Foot(one), mem.cells, parent, Elements(ps[i := replacement]))
  {
    if parent == NULL || replacement == NULL || item == NULL {
      return false;
    }
    if replacement == item {
      return true;
    }
    ghost var h, qs := mem.cells, ps[i := replacement];
    Exchange(mem, parent, item, replacement, ps, i);
    OwnTreeFrame(h, mem.cells, parent, Elements(qs) + {item}, item, one);
    DeleteApart(mem, h, parent, item, qs, one);
    return true;
  }

  /** The exchange of links, before the old child is released. */
  method Exchange(mem: Allocator, parent: Ptr, item: Ptr, replacement: Ptr, ghost ps: seq<Ptr>, ghost i: nat)
    requires Children(mem.cells, parent, ps) && i < |ps| && item == ps[i] && item != NULL && IsNode(mem.cells, item)
    requires Outside(mem.cells, parent, ps, replacement)
    modifies mem`cells
    ensures Children(mem.cells, parent, ps[i := replacement]) && Loose(mem.cells, item)
    ensures Relinked(old(mem.cells), mem.cells, parent, Elements(ps[i := replacement]) + {item})
  {
    hide IsLinked, Relinked;
    ghost var h, qs := mem.cells, ps[i := replacement];
    CopyLinks(mem, parent, item, replacement, ps);
    ghost var h1 := mem.cells;
    LinkInstead(mem, parent, item, replacement, ps, i);
    ghost var h2 := mem.cells;
    Replaced(h2, parent, ps, i, replacement);
    RelinkedTwice(h, h1, h2, parent, {replacement}, Elements(ps + [replacement]));
    Loosen(mem, parent, item, qs);
    RelinkedTwice(h, h2, mem.cells, parent, {replacement} + Elements(ps + [replacement]), {item});
    SameElements(ps, i, replacement);
  }

  lemma SameElements(ps: seq<Ptr>, i: nat, p: Ptr)
    requires i < |ps|
    ensures ({p} + Elements(ps + [p])) + {ps[i]} == Elements(ps[i := p]) + {ps[i]}
  {
    var qs := ps[i := p];
    assert forall k :: 0 <= k < |ps| && k != i ==> qs[k] == ps[k];
    assert qs[i] == p;
    assert forall q :: q in ps ==> q == ps[i] || q in qs;
  }

  /** Releasing a loose tree leaves the list alone. */
  method DeleteApart(mem: Allocator, ghost h: Heap, parent: Ptr, item: Ptr, ghost ps: seq<Ptr>, ghost one: Shape)
    requires Children(mem.cells, parent, ps) && OwnTree(mem.cells, item, one) && mem.cells[item].node.next == NULL
    requires parent !in Foot(one) && (forall k :: 0 <= k < |ps| ==> ps[k] !in Foot(one))
    requires Relinked(h, mem.cells, parent, Elements(ps) + {item})
    modifies mem`cells
    ensures Children(mem.cells, parent, ps) && Relinked(h - Foot(one), mem.cells, parent, Elements(ps))
  {
    ghost var h1 := mem.cells;
    mem.Delete(item, one);
    forall k | 0 <= k < |ps| ensures IsLinked(mem.cells, ps, k) {
      assert IsLinked(h1, ps, k);
    }
  }

  // ---------- the chains that the parser and the duplicator build ----------

  function Nodes(sh: Shape): seq<Ptr> {
    if sh.Empty? then [] else [sh.p] + Nodes(sh.next)
  }

  predicate Strung(h: Heap, ns: seq<Ptr>, i: nat, prev: Ptr, end: Ptr)
    requires i < |ns|
  {
    && ns[i] != NULL && IsNode(h, ns[i])
    && h[ns[i]].node.next == (if i + 1 < |ns| then ns[i + 1] else end)
    && h[ns[i]].node.prev == (if i == 0 then prev else ns[i - 1])
  }

  lemma {:induction false} NodesApart(sh: Shape)
    requires Separate(sh)
    ensures var ns := Nodes(sh); Distinct(ns) && forall i :: 0 <= i < |ns| ==> ns[i] in Foot(sh)
  {
    if sh.Link? {
      NodesApart(sh.next);
    }
  }

  lemma {:induction false} ChainIsStrung(h: Heap, sh: Shape, prev: Ptr, end: Ptr)
    requires Owns(h, sh, end) && Chained(h, sh, prev) && Separate(sh)
    ensures var ns := Nodes(sh); forall i :: 0 <= i < |ns| ==> Strung(h, ns, i, prev, end)
    ensures sh.Link? ==> Last(sh) == Nodes(sh)[|Nodes(sh)| - 1]
  {
    if sh.Link? {
      ChainIsStrung(h, sh.next, sh.p, end);
      var ns, ms := Nodes(sh), Nodes(sh.next);
      forall i | 0 <= i < |ns| ensures Strung(h, ns, i, prev, end) {
        assert i > 0 ==> Strung(h, ms, i - 1, sh.p, end);
      }
    }
  }

  /** A finished chain below a container is its list of children. */
  lemma RoundedIsChildren(h: Heap, parent: Ptr, sh: Shape)
    requires parent != NULL && IsNode(h, parent) && h[parent].node.child == Head(sh)
    requires Owns(h, sh, NULL) && Separate(sh) && Rounded(h, sh) && parent !in Foot(sh)
    ensures Children(h, parent, Nodes(sh))
  {
    NodesApart(sh);
    if sh.Link? {
      ChainIsStrung(h, sh, Last(sh), NULL);
      var ns := Nodes(sh);
      forall i | 0 <= i < |ns| ensures IsLinked(h, ns, i) {
        assert Strung(h, ns, i, Last(sh), NULL);
      }
    }
  }

  // ---------- whole runs ----------

  datatype Edit = Append(item: Ptr) | Detach(which: int) | Insert(which: int, item: Ptr) | Replace(which: int, item: Ptr)

  /** The children of the container, and the nodes that are in no list and free to be added. */
  datatype Listing = Listing(children: seq<Ptr>, loose: set<Ptr>)

  predicate Has(s: Listing, which: int) { 0 <= which < |s.children| }

  /** The edit on the abstract sequence. */
  function Apply(s: Listing, e: Edit): Listing {
    match e
    case Append(item) => Listing(s.children + [item], s.loose - {item})
    case Detach(which) => if Has(s, which) then Listing(Without(s.children, which), s.loose + {s.children[which]}) else s
    case Insert(which, item) => if which < 0 then s else Listing(With(s.children, which, item), s.loose - {item})
    case Replace(which, item) => if Has(s, which) then Listing(s.children[which := item], s.loose - {item}) else s
  }

  /** New items are unlinked. */
  predicate Allowed(s: Listing, e: Edit) { e.Detach? || e.item in s.loose }

  function ApplyAll(s: Listing, es: seq<Edit>): Listing {
    if es == [] then s else Apply(ApplyAll(s, es[..|es| - 1]), es[|es| - 1])
  }

  predicate AllowedAll(s: Listing, es: seq<Edit>) {
    es != [] ==> AllowedAll(s, es[..|es| - 1]) && Allowed(ApplyAll(s, es[..|es| - 1]), es[|es| - 1])
  }

  ghost predicate Held(h: Heap, parent: Ptr, p: Ptr, own: map<Ptr, Shape>) {
    p in own && OwnTree(h, p, own[p]) && parent !in Foot(own[p])
  }

  ghost predicate Apart(own: map<Ptr, Shape>) {
    forall p, q :: p in own && q in own && p != q ==> Foot(own[p]) !! Foot(own[q])
  }

  /** The heap holds this listing: the list is well linked, and each node owns a tree of its own. */
  ghost predicate Holds(h: Heap, parent: Ptr, s: Listing, own: map<Ptr, Shape>) {
    && Children(h, parent, s.children)
    && (forall p :: p in s.children ==> Held(h, parent, p, own))
    && (forall p :: p in s.loose ==> p !in s.children && Loose(h, p) && Held(h, parent, p, own))
  }

  /** The trees outlive any rewriting of links and the release of one of them. */
  lemma HoldsFrame(h: Heap, h': Heap, parent: Ptr, s: Listing, s': Listing, own: map<Ptr, Shape>, touched: set<Ptr>, gone: set<Ptr>)
    requires Holds(h, parent, s, own) && Apart(own)
    requires Children(h', parent, s'.children) && Relinked(h - gone, h', parent, touched)
    requires gone == {} || exists p :: p in s.children && gone == Foot(own[p]) && p !in s'.children && p !in s'.loose
    requires touched <= Elements(s.children) + s.loose
    requires Elements(s'.children) + s'.loose <= Elements(s.children) + s.loose
    requires forall p :: p in s'.loose ==> p !in s'.children && Loose(h', p)
    ensures Holds(h', parent, s', own)
  {
    forall p | p in Elements(s'.children) + s'.loose ensures Held(h', parent, p, own) {
      assert p in Elements(s.children) + s.loose;
      assert Held(h, parent, p, own);
      OwnsLive(h, own[p], h[p].node.next);
      KeepsTree(h, h', parent, s, own, touched, gone, p);
    }
  }

  lemma KeepsTree(h: Heap, h': Heap, parent: Ptr, s: Listing, own: map<Ptr, Shape>, touched: set<Ptr>, gone: set<Ptr>, p: Ptr)
    requires Holds(h, parent, s, own) && Apart(own) && Relinked(h - gone, h', parent, touched)
    requires touched <= Elements(s.children) + s.loose
    requires Held(h, parent, p, own) && gone !! Foot(own[p])
    ensures Held(h', parent, p, own)
  {
    var one := own[p];
    forall q | q in touched && q in Foot(one) ensures q == p {
      assert Held(h, parent, q, own) && q in Foot(own[q]);
    }
    OwnsFrame(h, h - gone, one.kids, NULL);
    assert OwnTree(h - gone, p, one);
    OwnTreeFrame(h - gone, h', parent, touched, p, one);
  }

  method AppendStep(mem: Allocator, parent: Ptr, item: Ptr, ghost s: Listing, ghost own: map<Ptr, Shape>)
    requires Holds(mem.cells, parent, s, own) && Apart(own) && Allowed(s, Append(item))
    modifies mem`cells
    ensures Holds(mem.cells, parent, Apply(s, Append(item)), own)
  {
    hide Relinked, Held, IsLinked;
    ghost var h := mem.cells;
    NotTheParent(h, parent, item, s, own);
    var ok := AddItemToArray(mem, parent, item, s.children);
    AppendHolds(h, mem.cells, parent, item, s, own);
  }

  lemma NoNullChild(h: Heap, parent: Ptr, ps: seq<Ptr>)
    requires Children(h, parent, ps)
    ensures forall i :: 0 <= i < |ps| ==> ps[i] != NULL
  {
    forall i | 0 <= i < |ps| ensures ps[i] != NULL {
      assert IsLinked(h, ps, i);
    }
  }

  lemma NotTheParent(h: Heap, parent: Ptr, p: Ptr, s: Listing, own: map<Ptr, Shape>)
    requires Holds(h, parent, s, own) && (p in s.children || p in s.loose)
    ensures p != parent && p in Foot(own[p])
  {
    assert Held(h, parent, p, own);
  }

  method DetachStep(mem: Allocator, parent: Ptr, which: int, ghost s: Listing, ghost own: map<Ptr, Shape>)
    requires Holds(mem.cells, parent, s, own) && Apart(own)
    modifies mem`cells
    ensures Holds(mem.cells, parent, Apply(s, Detach(which)), own)
  {
    hide Relinked, Held, IsLinked;
    ghost var h := mem.cells;
    if which < 0 {
      return;
    }
    NoNullChild(h, parent, s.children);
    var item := GetArrayItem(mem.cells, parent, which, s.children);
    var r := DetachItem(mem, parent, item, s.children, which);
    if item != NULL {
      DetachHolds(h, mem.cells, parent, which, s, own);
    }
  }

  method InsertStep(mem: Allocator, parent: Ptr, which: int, item: Ptr, ghost s: Listing, ghost own: map<Ptr, Shape>)
    requires Holds(mem.cells, parent, s, own) && Apart(own) && Allowed(s, Insert(which, item))
    modifies mem`cells
    ensures Holds(mem.cells, parent, Apply(s, Insert(which, item)), own)
  {
    hide Relinked, Held, IsLinked;
    ghost var h := mem.cells;
    NotTheParent(h, parent, item, s, own);
    var ok := InsertItemInArray(mem, parent, which, item, s.children);
    if ok {
      InsertHolds(h, mem.cells, parent, which, item, s, own);
    }
  }

  method ReplaceStep(mem: Allocator, parent: Ptr, which: int, item: Ptr, ghost s: Listing, ghost own: map<Ptr, Shape>)
    requires Holds(mem.cells, parent, s, own) && Apart(own) && Allowed(s, Replace(which, item))
    modifies mem`cells
    ensures Holds(mem.cells, parent, Apply(s, Replace(which, item)), own)
  {
    hide Relinked, Held, IsLinked, OwnTree;
    ghost var h := mem.cells;
    NotTheParent(h, parent, item, s, own);
    if which < 0 {
      return;
    }
    NoNullChild(h, parent, s.children);
    var current := GetArrayItem(mem.cells, parent, which, s.children);
    if current == NULL {
      return;
    }
    OnlyItsOwn(h, parent, s, own, which, item);
    var ok := ReplaceItem(mem, parent, current, item, s.children, which, own[current]);
    ReplaceHolds(h, mem.cells, parent, which, item, s, own);
  }

  lemma DetachHolds(h: Heap, h': Heap, parent: Ptr, which: nat, s: Listing, own: map<Ptr, Shape>)
    requires Holds(h, parent, s, own) && Apart(own) && which < |s.children|
    requires Children(h', parent, Without(s.children, which)) && Loose(h', s.children[which])
    requires Relinked(h, h', parent, Elements(s.children))
    ensures Holds(h', parent, Apply(s, Detach(which)), own)
  {
    hide IsLinked, Held;
    DetachedLoose(h, h', parent, which, s, own);
    assert h - {} == h;
    HoldsFrame(h, h', parent, s, Apply(s, Detach(which)), own, Elements(s.children), {});
  }

  lemma DetachedLoose(h: Heap, h': Heap, parent: Ptr, which: nat, s: Listing, own: map<Ptr, Shape>)
    requires Holds(h, parent, s, own) && which < |s.children| && Loose(h', s.children[which]) && Relinked(h, h', parent, Elements(s.children))
    ensures var s' := Apply(s, Detach(which));
      && Elements(s'.children) + s'.loose <= Elements(s.children) + s.loose
      && forall p :: p in s'.loose ==> p !in s'.children && Loose(h', p)
  {
    var item, qs := s.children[which], Without(s.children, which);
    TakenOut(s.children, which);
    forall p | p in s.loose ensures p !in qs && Loose(h', p) {
      NotTheParent(h, parent, p, s, own);
    }
  }

  /** What is taken out of distinct elements is gone, and nothing else. */
  lemma TakenOut(ps: seq<Ptr>, i: nat)
    requires Distinct(ps) && i < |ps|
    ensures ps[i] !in Without(ps, i) && forall p :: p in Without(ps, i) ==> p in ps
  {
  }

  lemma AppendHolds(h: Heap, h': Heap, parent: Ptr, item: Ptr, s: Listing, own: map<Ptr, Shape>)
    requires Holds(h, parent, s, own) && Apart(own) && item in s.loose
    requires Children(h', parent, s.children + [item]) && Relinked(h, h', parent, Elements(s.children + [item]))
    ensures Holds(h', parent, Apply(s, Append(item)), own)
  {
    assert h - {} == h;
    HoldsFrame(h, h', parent, s, Apply(s, Append(item)), own, Elements(s.children + [item]), {});
  }

  lemma InsertHolds(h: Heap, h': Heap, parent: Ptr, which: nat, item: Ptr, s: Listing, own: map<Ptr, Shape>)
    requires Holds(h, parent, s, own) && Apart(own) && item in s.loose
    requires Children(h', parent, With(s.children, which, item))
    requires Relinked(h, h', parent, Elements(s.children + [item]))
    ensures Holds(h', parent, Apply(s, Insert(which, item)), own)
  {
    hide IsLinked, Held, OwnTree;
    assert h - {} == h;
    assert forall p :: p in With(s.children, which, item) ==> p == item || p in s.children;
    HoldsFrame(h, h', parent, s, Apply(s, Insert(which, item)), own, Elements(s.children + [item]), {});
  }

  lemma ReplaceHolds(h: Heap, h': Heap, parent: Ptr, which: nat, item: Ptr, s: Listing, own: map<Ptr, Shape>)
    requires Holds(h, parent, s, own) && Apart(own) && which < |s.children| && item in s.loose
    requires s.children[which] in own && Children(h', parent, s.children[which := item])
    requires Relinked(h - Foot(own[s.children[which]]), h', parent, Elements(s.children[which := item]))
    ensures Holds(h', parent, Apply(s, Replace(which, item)), own)
  {
    hide IsLinked, Held, OwnTree;
    OnlyItsOwn(h, parent, s, own, which, item);
    ReplacedElements(h, parent, s, own, which, item);
    LooseStaysLoose(h, h', parent, which, item, s, own);
    HoldsFrame(h, h', parent, s, Apply(s, Replace(which, item)), own, Elements(s.children[which := item]), Foot(own[s.children[which]]));
  }

  lemma ReplacedElements(h: Heap, parent: Ptr, s: Listing, own: map<Ptr, Shape>, which: nat, item: Ptr)
    requires Holds(h, parent, s, own) && which < |s.children| && item in s.loose
    ensures var s' := Apply(s, Replace(which, item));
      && Elements(s'.children) <= Elements(s.children) + s.loose && s'.loose <= s.loose
      && s.children[which] !in s'.children && s.children[which] !in s'.loose
      && forall p :: p in s'.loose ==> p !in s'.children
  {
    var ps, qs := s.children, s.children[which := item];
    assert forall k :: 0 <= k < |qs| && k != which ==> qs[k] == ps[k] && ps[k] != ps[which];
    assert qs[which] == item && item !in ps;
  }

  lemma LooseStaysLoose(h: Heap, h': Heap, parent: Ptr, which: nat, item: Ptr, s: Listing, own: map<Ptr, Shape>)
    requires Holds(h, parent, s, own) && Apart(own) && which < |s.children| && item in s.loose
    requires s.children[which] in own && Relinked(h - Foot(own[s.children[which]]), h', parent, Elements(s.children[which := item]))
    ensures forall p :: p in s.loose && p != item ==> Loose(h', p)
  {
    forall p | p in s.loose && p != item ensures Loose(h', p) {
      OnlyItsOwn(h, parent, s, own, which, p);
      NotTheParent(h, parent, p, s, own);
    }
  }

  /** A child's tree holds no other child, no loose node and not the container. */
  lemma OnlyItsOwn(h: Heap, parent: Ptr, s: Listing, own: map<Ptr, Shape>, which: nat, item: Ptr)
    requires Holds(h, parent, s, own) && Apart(own) && which < |s.children| && item in s.loose
    ensures var p := s.children[which];
      && p in own && OwnTree(h, p, own[p]) && Foot(own[p]) !! {parent, item}
      && forall k :: 0 <= k < |s.children| && k != which ==> s.children[k] !in Foot(own[p])
  {
    var p := s.children[which];
    assert Held(h, parent, p, own);
    NotTheParent(h, parent, item, s, own);
    assert Held(h, parent, item, own);
    forall k | 0 <= k < |s.children| && k != which ensures s.children[k] !in Foot(own[p]) {
      NotTheParent(h, parent, s.children[k], s, own);
      assert Held(h, parent, s.children[k], own);
    }
  }

  method DoEdit(mem: Allocator, parent: Ptr, e: Edit, ghost s: Listing, ghost own: map<Ptr, Shape>)
    requires Holds(mem.cells, parent, s, own) && Apart(own) && Allowed(s, e)
    modifies mem`cells
    ensures Holds(mem.cells, parent, Apply(s, e), own)
  {
    match e
    case Append(item) => AppendStep(mem, parent, item, s, own);
    case Detach(which) => DetachStep(mem, parent, which, s, own);
    case Insert(which, item) => InsertStep(mem, parent, which, item, s, own);
    case Replace(which, item) => ReplaceStep(mem, parent, which, item, s, own);
  }

  /** Over every run of edits the list keeps its shape and is what the same run makes of the sequence. */
  method RunEdits(mem: Allocator, parent: Ptr, edits: seq<Edit>, ghost s: Listing, ghost own: map<Ptr, Shape>)
    requires Holds(mem.cells, parent, s, own) && Apart(own) && AllowedAll(s, edits)
    modifies mem`cells
    ensures Holds(mem.cells, parent, ApplyAll(s, edits), own)
  {
    assert edits[..|edits|] == edits;
    for i := 0 to |edits|
      invariant Holds(mem.cells, parent, ApplyAll(s, edits[..i]), own)
    {
      AllowedSoFar(s, edits, i + 1);
      assert edits[..i + 1][..i] == edits[..i];
      DoEdit(mem, parent, edits[i], ApplyAll(s, edits[..i]), own);
    }
  }

  lemma {:induction false} AllowedSoFar(s: Listing, es: seq<Edit>, n: nat)
    requires AllowedAll(s, es) && n <= |es|
    ensures AllowedAll(s, es[..n])
  {
    if n < |es| {
      AllowedSoFar(s, es[..|es| - 1], n);
      assert es[..|es| - 1][..n] == es[..n];
    } else {
      assert es[..n] == es;
    }
  }
}
