/** `cJSON_Compare` and `get_object_item` as they walk the nodes. */
module NodeComparison {
  import opened Base
  import opened Values
  import opened Memory
  import opened Views
  import opened Comparison

  /** A chain that a walk finds at its head and reads as `xs`, whatever it borrows. */
  ghost predicate Reading(h: Heap, sh: Shape, xs: Items) {
    Linked(h, sh) && Reads(h, sh, xs, false)
  }

  /** The node `p` reads as `v`: the chain below it is that of `sh`. */
  ghost predicate Stands(h: Heap, p: Ptr, sh: Shape, v: Value) {
    && sh.Link? && sh.p == p && p != NULL && IsNode(h, p)
    && h[p].node.child == Head(sh.kids) && Linked(h, sh.kids) && NodeReads(h, h[p].node, sh.kids, v, false)
  }

  /** The nodes from `p` down, its later siblings excluded. */
  ghost function TreeNodes(sh: Shape): set<Ptr>
    requires sh.Link?
  {
    {sh.p} + Nodes(sh.kids)
  }

  lemma ItemStands(h: Heap, sh: Shape, xs: Items)
    requires xs.Cons? && Reading(h, sh, xs)
    ensures sh.Link? && Stands(h, sh.p, sh, xs.value) && TreeNodes(sh) <= Nodes(sh)
    ensures Reading(h, sh.next, xs.next) && Nodes(sh.next) <= Nodes(sh)
    ensures h[sh.p].node.next == Head(sh.next) && NameMeans(h, h[sh.p].node.name, xs.name)
  {
  }

  /** `get_object_item`, case-sensitive. */
  method GetObjectItem(h: Heap, child: Ptr, name: Ptr, ghost key: Option<bytes>, ghost sh: Shape, ghost xs: Items)
    returns (p: Ptr, ghost at: Shape)
    requires Reading(h, sh, xs) && child == Head(sh)
    requires NameMeans(h, name, key)
    ensures p == NULL <==> Lookup(xs, key).None?
    ensures p != NULL ==> Stands(h, p, at, Lookup(xs, key).value) && TreeNodes(at) <= Nodes(sh)
  {
    p, at := NULL, Empty;
    if name == NULL {
      return;
    }
    ghost var rest, ys := sh, xs;
    p := child;
    while p != NULL && h[p].node.name != NULL && CString(h[name].text) != CString(h[h[p].node.name].text)
      invariant Reading(h, rest, ys) && p == Head(rest)
      invariant Nodes(rest) <= Nodes(sh) && Lookup(ys, key) == Lookup(xs, key)
      decreases ys
    {
      ItemStands(h, rest, ys);
      p := h[p].node.next;
      rest, ys := rest.next, ys.next;
    }
    if ys.Cons? {
      ItemStands(h, rest, ys);
    }
    at := rest;
    if p == NULL || h[p].node.name == NULL {
      p := NULL;
    }
  }

  /** The heap alone determines what a chain stands for. */
  lemma {:induction false} OneMeaning(h: Heap, sa: Shape, sb: Shape, xs: Items, ys: Items)
    requires Reading(h, sa, xs)
    requires Reading(h, sb, ys)
    requires Head(sa) == Head(sb)
    ensures xs == ys
    decreases xs, 1
  {
    if xs.Cons? && ys.Cons? {
      ItemStands(h, sa, xs);
      ItemStands(h, sb, ys);
      OneValue(h, sa.p, sa, sb, xs.value, ys.value);
      OneMeaning(h, sa.next, sb.next, xs.next, ys.next);
    }
  }

  lemma {:induction false} OneValue(h: Heap, p: Ptr, sa: Shape, sb: Shape, v: Value, w: Value)
    requires Stands(h, p, sa, v) && Stands(h, p, sb, w)
    ensures v == w
    decreases v, 0
  {
    match v
    case Array(xs) => OneMeaning(h, sa.kids, sb.kids, xs, w.elems);
    case Object(xs) => OneMeaning(h, sa.kids, sb.kids, xs, w.members);
    case _ =>
  }

  /** What a lookup finds is what the members denote under that name. */
  lemma {:induction false} FoundDenotes(xs: Items, name: bytes)
    ensures var r := Lookup(xs, Some(name)); r.Some? ==>
      name in DenoteMembers(xs) && Denote(r.value) == DenoteMembers(xs)[name] && (Int32Items(xs) ==> Int32Numbers(r.value))
  {
    if xs.Cons? {
      FoundDenotes(xs.next, name);
    }
  }

  /**
   `cJSON_Compare` on nodes. Whatever nodes the two trees share, trees whose values compare
   equal are equal, and trees that are equal denote the same. Trees without a shared node
   compare exactly as their values do, and a node always equals itself.
   */
  method CompareNodes(h: Heap, a: Ptr, b: Ptr, ghost sa: Shape, ghost sb: Shape, ghost v: Value, ghost w: Value) returns (r: bool)
    requires a != NULL ==> Stands(h, a, sa, v)
    requires b != NULL ==> Stands(h, b, sb, w)
    ensures a == NULL || b == NULL ==> !r
    ensures a != NULL && a == b ==> r
    ensures a != NULL && b != NULL && Compare(v, w) ==> r
    ensures r && Int32Numbers(v) && Int32Numbers(w) ==> Denote(v) == Denote(w)
    ensures a != NULL && b != NULL && a != b && TreeNodes(sa) !! TreeNodes(sb) ==> (r <==> Compare(v, w))
    decreases Size(v) + Size(w), 0
  {
    if a == NULL || b == NULL || h[a].node.kind != h[b].node.kind {
      return false;
    }
    if a == b {
      OneValue(h, a, sa, sb, v, w);
      return true;
    }
    match h[a].node.kind
    case NumberKind => r := CompareNumbers(h[a].node.number, h[b].node.number);
    case StringKind => r := CString(h[h[a].node.valuestring].text) == CString(h[h[b].node.valuestring].text);
    case ArrayKind => r := CompareChains(h, h[a].node.child, h[b].node.child, sa.kids, sb.kids, v.elems, w.elems);
    case ObjectKind => r := CompareMembers(h, h[a].node.child, h[b].node.child, sa.kids, sb.kids, v.members, w.members);
    case _ => r := true;
  }

  /** `compare_double`. */
  method CompareNumbers(a: real, b: real) returns (r: bool)
    ensures r <==> SameNumber(a, b)
    ensures r && IsInt32(a) && IsInt32(b) ==> a == b
  {
    r := SameNumber(a, b);
    if IsInt32(a) && IsInt32(b) {
      SameNumberIsEquality(a, b);
    }
  }

  method CompareChains(h: Heap, first: Ptr, second: Ptr, ghost sa: Shape, ghost sb: Shape, ghost xs: Items, ghost ys: Items) returns (r: bool)
    requires Reading(h, sa, xs) && first == Head(sa)
    requires Reading(h, sb, ys) && second == Head(sb)
    ensures CompareElements(xs, ys) ==> r
    ensures r && Int32Items(xs) && Int32Items(ys) ==> DenoteElements(xs) == DenoteElements(ys)
    ensures Nodes(sa) !! Nodes(sb) ==> (r <==> CompareElements(xs, ys))
    decreases SizeOfItems(xs) + SizeOfItems(ys), 1
  {
    hide Denote, Compare;
    var a, b := first, second;
    ghost var ra, rb, vs, ws := sa, sb, xs, ys;
    while a != NULL && b != NULL
      invariant Reading(h, ra, vs) && a == Head(ra)
      invariant Reading(h, rb, ws) && b == Head(rb)
      invariant Nodes(ra) <= Nodes(sa) && Nodes(rb) <= Nodes(sb)
      invariant SizeOfItems(vs) + SizeOfItems(ws) <= SizeOfItems(xs) + SizeOfItems(ys)
      invariant CompareElements(xs, ys) ==> CompareElements(vs, ws)
      invariant Nodes(sa) !! Nodes(sb) && CompareElements(vs, ws) ==> CompareElements(xs, ys)
      invariant Int32Items(xs) && Int32Items(ys) ==> Int32Items(vs) && Int32Items(ws)
      invariant Int32Items(xs) && Int32Items(ys) && DenoteElements(vs) == DenoteElements(ws) ==> DenoteElements(xs) == DenoteElements(ys)
      decreases vs
    {
      ItemStands(h, ra, vs);
      ItemStands(h, rb, ws);
      var same := CompareNodes(h, a, b, ra, rb, vs.value, ws.value);
      if !same {
        return false;
      }
      a, b := h[a].node.next, h[b].node.next;
      ra, rb, vs, ws := ra.next, rb.next, vs.next, ws.next;
    }
    r := a == b;
  }

  /** Two passes over the members, one from either side. */
  method CompareMembers(h: Heap, first: Ptr, second: Ptr, ghost sa: Shape, ghost sb: Shape, ghost xs: Items, ghost ys: Items) returns (r: bool)
    requires Reading(h, sa, xs) && first == Head(sa)
    requires Reading(h, sb, ys) && second == Head(sb)
    ensures Covered(xs, ys) && Covered(ys, xs) ==> r
    ensures r && Int32Items(xs) && Int32Items(ys) ==> DenoteMembers(xs) == DenoteMembers(ys)
    ensures Nodes(sa) !! Nodes(sb) ==> (r <==> Covered(xs, ys) && Covered(ys, xs))
    decreases SizeOfItems(xs) + SizeOfItems(ys), 2
  {
    r := CoveredChain(h, first, second, sa, sb, xs, ys);
    if r {
      r := CoveredChain(h, second, first, sb, sa, ys, xs);
      if r && Int32Items(xs) && Int32Items(ys) {
        MatchesAgree(xs, DenoteMembers(ys));
        MatchesAgree(ys, DenoteMembers(xs));
        assert DenoteMembers(xs) == DenoteMembers(ys);
      }
    }
  }

  /** One of the two passes: every member is found on the other side, with an equal value. */
  method CoveredChain(h: Heap, first: Ptr, other: Ptr, ghost sa: Shape, ghost sb: Shape, ghost xs: Items, ghost ys: Items) returns (r: bool)
    requires Reading(h, sa, xs) && first == Head(sa)
    requires Reading(h, sb, ys) && other == Head(sb)
    ensures Covered(xs, ys) ==> r
    ensures r && Int32Items(xs) && Int32Items(ys) ==> Matches(xs, DenoteMembers(ys))
    ensures Nodes(sa) !! Nodes(sb) ==> (r <==> Covered(xs, ys))
    decreases SizeOfItems(xs) + SizeOfItems(ys), 1
  {
    hide Denote, DenoteMembers, Compare;
    var a := first;
    ghost var ra, vs, m := sa, xs, DenoteMembers(ys);
    while a != NULL
      invariant Reading(h, ra, vs) && a == Head(ra)
      invariant Nodes(ra) <= Nodes(sa) && SizeOfItems(vs) <= SizeOfItems(xs)
      invariant Covered(xs, ys) ==> Covered(vs, ys)
      invariant Nodes(sa) !! Nodes(sb) && Covered(vs, ys) ==> Covered(xs, ys)
      invariant Int32Items(xs) ==> Int32Items(vs)
      invariant Int32Items(xs) && Int32Items(ys) && Matches(vs, m) ==> Matches(xs, m)
      decreases vs
    {
      ItemStands(h, ra, vs);
      var b; ghost var at;
      b, at := GetObjectItem(h, other, h[a].node.name, vs.name, sb, ys);
      if b == NULL {
        return false;
      }
      FoundDenotes(ys, vs.name.value);
      var same := CompareNodes(h, a, b, ra, at, vs.value, Lookup(ys, vs.name).value);
      if !same {
        return false;
      }
      a := h[a].node.next;
      ra, vs := ra.next, vs.next;
    }
    r := true;
  }

  /** On consistent trees with 32-bit numbers, shared nodes or not: the answer is equality of what they denote. */
  method CompareTrees(h: Heap, a: Ptr, b: Ptr, ghost sa: Shape, ghost sb: Shape, ghost v: Value, ghost w: Value) returns (r: bool)
    requires Stands(h, a, sa, v) && Stands(h, b, sb, w)
    requires Int32Numbers(v) && Int32Numbers(w) && Consistent(v) && Consistent(w)
    ensures r <==> Denote(v) == Denote(w)
  {
    r := CompareNodes(h, a, b, sa, sb, v, w);
    CompareDecides(v, w);
  }
}
