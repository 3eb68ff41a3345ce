/**
 The parser as it runs: a cursor over a shared buffer, nodes linked as they are parsed, and
 an allocator that may refuse any request. Each method is proved against the parser function,
 and every failure gives back every block it took.
 */
module HeapParser {
  import opened Base
  import opened Values
  import opened Numbers
  import opened StringLiterals
  import opened StringReader
  import P = Parser
  import opened Language
  import opened Memory
  import opened Chains

  /** `item`, blank before, now owns a string and a chain that stand for `v`. */
  ghost predicate Filled(h0: Heap, h: Heap, item: Ptr, text: Ptr, kids: Shape, v: Value) {
    && GrownAt(h0, h, item, Optional(text) + Foot(kids))
    && h[item].node.name == h0[item].node.name
    && h[item].node.child == Head(kids) && h[item].node.valuestring == text
    && (text != NULL ==> IsText(h, text) && text !in Foot(kids))
    && Owns(h, kids, NULL) && Separate(kids) && Rounded(h, kids)
    && NodeMeans(h, h[item].node, text, kids, v)
  }

  predicate IsBlankNode(h: Heap, p: Ptr) {
    && p != NULL && IsNode(h, p) && h[p].node.child == NULL && h[p].node.valuestring == NULL
    && !h[p].node.reference && !h[p].node.constName
  }

  class ParseBuffer {
    const content: bytes
    const mem: Allocator
    var offset: nat
    var depth: nat

    constructor (content: bytes, mem: Allocator)
      requires P.Terminated(content)
      ensures this.content == content && this.mem == mem && offset == 0 && depth == 0
    {
      this.content, this.mem, offset, depth := content, mem, 0, 0;
    }

    /** The cursor is inside a NUL-terminated buffer. */
    ghost predicate Inside()
      reads this
    {
      P.Terminated(content) && offset < |content|
    }

    /** The unread bytes. */
    ghost function Left(): bytes
      requires offset <= |content|
      reads this
    {
      content[offset..]
    }

    lemma LeftFacts()
      requires Inside()
      ensures P.Terminated(Left()) && Left()[0] == content[offset] && |Left()| == |content| - offset
    {
    }

    method SkipWhitespace()
      requires P.Terminated(content) && offset <= |content|
      modifies this`offset
      ensures offset <= |content| && Left() == P.Skip(old(Left()))
      ensures old(Inside()) ==> Inside()
    {
      if offset >= |content| {
        return;
      }
      ghost var s := Left();
      while offset < |content| && content[offset] <= 32
        invariant old(offset) <= offset <= |content|
        invariant offset < |content| ==> P.Skip(s) == P.Skip(content[offset..])
        invariant offset == |content| ==> P.Skip(s) == content[offset - 1..]
        decreases |content| - offset
      {
        assert content[offset..][1..] == content[offset + 1..];
        offset := offset + 1;
      }
      if offset == |content| {
        offset := offset - 1;
      }
    }
  
    /**
     Reads a string literal into a block of its own and hangs it on `item`. The block is sized
     by the scan and released when an escape turns out bad.
     */
    method ParseString(item: Ptr, ghost s: bytes) returns (ok: bool, out: Ptr)
      requires Inside() && s == Left() && item != NULL && IsNode(mem.cells, item)
      modifies this`offset, mem
      ensures offset <= |content| && P.Terminated(s) && (ok ==> Inside())
      ensures ok ==> StringRead(old(mem.cells), mem.cells, item, out) && mem.Refusals() == old(mem.Refusals())
      ensures ok ==> P.ParseString(s) == P.Ok(TextAt(mem.cells, out), Left())
      ensures !ok ==> mem.cells == old(mem.cells) && (mem.Refusals() > old(mem.Refusals()) || P.ParseString(s) == P.Fail(Left()))
    {
      hide P.ParseString;
      ghost var start := offset;
      LeftFacts();
      var found, end;
      ok, out, found, end := ReadString(item);
      if !found {
        NoLiteral(s, content, start);
      } else if ok {
        LiteralDone(s, content, start, end);
      } else if mem.Refusals() <= old(mem.Refusals()) {
        LiteralBad(s, content, start, end, offset);
      }
    }

    /** Both passes and the allocation between them. */
    method ReadString(item: Ptr) returns (ok: bool, out: Ptr, found: bool, end: nat)
      requires Inside() && item != NULL && IsNode(mem.cells, item)
      modifies this`offset, mem
      ensures found <==> content[old(offset)] == QUOTE && ScanBody(content[old(offset) + 1..]).Some?
      ensures !found ==> !ok && offset == old(offset) + 1
      ensures found ==> old(offset) < end < |content| - 1 && ScanBody(content[old(offset) + 1..]) == Some(end - old(offset) - 1)
      ensures ok ==> found && offset == end + 1 && mem.Refusals() == old(mem.Refusals())
      ensures ok ==> StringRead(old(mem.cells), mem.cells, item, out)
      ensures ok ==> var u := Unescape(content[old(offset) + 1..end]); u.Done? && TextAt(mem.cells, out) == CString(u.out)
      ensures !ok ==> mem.cells == old(mem.cells) && offset <= |content|
      ensures !ok && found ==> mem.Refusals() > old(mem.Refusals()) || (old(offset) < offset < end && Unescape(content[old(offset) + 1..end]) == Bad(end - offset))
    {
      hide ScanBody, Unescape;
      var start := offset;
      offset := offset + 1;
      ok, out, found, end := false, NULL, false, offset;
      if content[start] != QUOTE {
        return;
      }
      var skipped;
      found, end, skipped := ScanLiteral(content, start);
      if !found {
        return;
      }
      assert content[|content| - 1] != content[end];
      ok, out := AllocateString(item, start, end, end - start - skipped);
    }

    method AllocateString(item: Ptr, start: nat, end: nat, length: nat) returns (ok: bool, out: Ptr)
      requires item != NULL && IsNode(mem.cells, item) && offset <= |content|
      requires start < end < |content| && content[end] == QUOTE && IsBody(content[start + 1..end])
      requires length == Tokens(content[start + 1..end]) + 1
      modifies this`offset, mem
      ensures ok ==> offset == end + 1 && mem.Refusals() == old(mem.Refusals())
      ensures ok ==> StringRead(old(mem.cells), mem.cells, item, out)
      ensures ok ==> var u := Unescape(content[start + 1..end]); u.Done? && TextAt(mem.cells, out) == CString(u.out)
      ensures !ok ==> mem.cells == old(mem.cells) && offset <= |content|
      ensures !ok ==> mem.Refusals() > old(mem.Refusals()) || (start < offset < end && Unescape(content[start + 1..end]) == Bad(end - offset))
    {
      out := mem.Allocate(TextCell([]));
      if out == NULL {
        ok := false;
        return;
      }
      var from, block;
      ok, from, block := ReadBody(content, start + 1, end, length);
      if ok {
        HangText(item, out, block, old(mem.cells));
        offset := end + 1;
      } else {
        mem.Free(out);
        offset := from;
      }
    }

    /** The filled block becomes the node's string. */
    method HangText(item: Ptr, out: Ptr, block: bytes, ghost h0: Heap)
      requires IsNode(h0, item) && out != NULL && out !in h0 && mem.cells == h0[out := TextCell([])]
      modifies mem`cells
      ensures StringRead(h0, mem.cells, item, out) && mem.cells[out].text == block
    {
      mem.cells := mem.cells[out := TextCell(block)];
      mem.cells := mem.cells[item := NodeCell(WithText(mem.cells[item].node, out))];
    }

    // ---------- numbers ----------

    method ParseNumber(item: Ptr, ghost s: bytes) returns (ok: bool, ghost v: Value)
      requires Inside() && s == Left() && IsBlankNode(mem.cells, item)
      modifies this`offset, mem`cells
      ensures Inside() && P.Terminated(s)
      ensures ok ==> P.ParseNumber(s) == P.Ok(v, Left()) && Filled(old(mem.cells), mem.cells, item, NULL, Empty, v)
      ensures !ok ==> mem.cells == old(mem.cells) && P.ParseNumber(s) == P.Fail(Left())
    {
      LeftFacts();
      var k, d := ReadNumber(content, offset, s);
      ok, v := k != 0, Number(d);
      NumberResult(s, k, d);
      if ok {
        FillScalar(item, NumberKind, d, v);
        Advance(k, s);
      }
    }

    /** A node becomes null, a boolean or a number. */
    method FillScalar(item: Ptr, kind: Kind, number: real, ghost v: Value)
      requires IsBlankNode(mem.cells, item) && !v.Array? && !v.Object? && !v.String?
      requires NodeMeans(mem.cells, BLANK.(kind := kind, number := number), NULL, Empty, v)
      modifies mem`cells
      ensures Filled(old(mem.cells), mem.cells, item, NULL, Empty, v)
    {
      mem.cells := mem.cells[item := NodeCell(mem.cells[item].node.(kind := kind, number := number))];
    }

    method Advance(k: nat, ghost s: bytes)
      requires offset < |content| && s == Left() && k < |s|
      modifies this`offset
      ensures offset == old(offset) + k < |content| && Left() == s[k..]
    {
      offset := offset + k;
    }

    // ---------- lists ----------

    /** Allocates the next node and links it behind the chain; NULL when the allocator refuses. */
    method NewItem(first: Ptr, current: Ptr, ghost sh: Shape, ghost xs: Items, ghost h0: Heap) returns (p: Ptr)
      requires Built(mem.cells, sh, xs, NULL) && Grown(h0, mem.cells, Foot(sh))
      requires first == Head(sh) && current == LastOf(sh)
      modifies mem
      ensures p == NULL ==> mem.cells == old(mem.cells) && mem.Refusals() > old(mem.Refusals())
      ensures p != NULL ==> mem.Refusals() == old(mem.Refusals()) && p !in Foot(sh)
      ensures p != NULL ==> Built(mem.cells, sh, xs, p) && Grown(h0, mem.cells, Foot(sh) + {p})
      ensures p != NULL ==> IsNode(mem.cells, p) && mem.cells[p].node == BLANK.(prev := current)
    {
      hide Built, Grown;
      ghost var h := mem.cells;
      BuiltFacts(h, sh, xs);
      p := mem.Allocate(NodeCell(BLANK));
      if p == NULL {
        return;
      }
      GrownNew(h0, h, Foot(sh), p, NodeCell(BLANK));
      if first != NULL {
        ghost var h1 := mem.cells;
        mem.cells := mem.cells[current := NodeCell(mem.cells[current].node.(next := p))];
        mem.cells := mem.cells[p := NodeCell(mem.cells[p].node.(prev := current))];
        Relink(h, mem.cells, sh, xs, p);
        GrownStill(h0, h1, mem.cells, Foot(sh) + {p}, current, p);
      } else {
        NothingBuilt(h, mem.cells, sh, xs, p);
      }
    }

    /** Gives back everything built since `h0`. */
    method Discard(first: Ptr, ghost sh: Shape, ghost h0: Heap)
      requires Owns(mem.cells, sh, NULL) && Separate(sh) && first == Head(sh) && Grown(h0, mem.cells, Foot(sh))
      modifies mem`cells
      ensures mem.cells == h0
    {
      if first != NULL {
        mem.Delete(first, sh);
      }
    }

    /** The string just read becomes the node's name. */
    method TakeName(p: Ptr, out: Ptr, ghost h1: Heap)
      requires p != NULL && StringRead(h1, mem.cells, p, out)
      requires IsNode(h1, p) && h1[p].node == BLANK.(prev := h1[p].node.prev)
      modifies mem`cells
      ensures IsBlankNode(mem.cells, p) && mem.cells[p].node.name == out
      ensures IsText(mem.cells, out) && mem.cells[out] == old(mem.cells)[out]
      ensures GrownAt(h1, mem.cells, p, {out})
      ensures Single(mem.cells, Link(p, out, NULL, Empty, Empty), p, h1[p].node.prev)
    {
      var node := mem.cells[p].node;
      mem.cells := mem.cells[p := NodeCell(node.(name := node.valuestring, valuestring := NULL))];
    }

    /** In an object: the member's name and the colon. Arrays have neither. */
    method ParseKey(p: Ptr, named: bool, ghost cur: bytes) returns (ok: bool, out: Ptr, ghost key: Option<bytes>)
      requires P.Terminated(content) && offset < |content| && content[offset..] == cur && P.Terminated(cur)
      requires p != NULL && IsNode(mem.cells, p) && mem.cells[p].node == BLANK.(prev := mem.cells[p].node.prev)
      modifies this`offset, mem
      ensures offset <= |content| && (ok ==> Inside())
      ensures ok ==> P.ParseKey(cur, named) == P.Ok(key, Left()) && mem.Refusals() == old(mem.Refusals())
      ensures !ok ==> mem.Refusals() > old(mem.Refusals()) || P.ParseKey(cur, named) == P.Fail(Left())
      ensures GrownAt(old(mem.cells), mem.cells, p, Optional(out)) && mem.cells[p].node.name == out
      ensures IsBlankNode(mem.cells, p)
      ensures Single(mem.cells, Link(p, out, NULL, Empty, Empty), p, old(mem.cells)[p].node.prev)
      ensures ok ==> NameMeans(mem.cells, out, key)
    {
      SkipWhitespace();
      ok, out, key := true, NULL, None;
      if named {
        ghost var s := Left();
        ok, out := ParseName(p, s);
        if ok {
          key := Some(P.ParseString(s).value);
          ghost var rest := Left();
          ok := ParseColon(rest);
          KeyAfterName(cur, s, key.value, rest);
        } else {
          NoKey(cur, s);
        }
      }
    }

    /** The literal before the colon, hung on the node as its name. */
    method ParseName(p: Ptr, ghost s: bytes) returns (ok: bool, out: Ptr)
      requires Inside() && s == Left()
      requires p != NULL && IsNode(mem.cells, p) && mem.cells[p].node == BLANK.(prev := mem.cells[p].node.prev)
      modifies this`offset, mem
      ensures offset <= |content| && P.Terminated(s) && (ok ==> Inside())
      ensures ok ==> out != NULL && IsText(mem.cells, out) && P.ParseString(s) == P.Ok(TextAt(mem.cells, out), Left())
      ensures ok ==> mem.Refusals() == old(mem.Refusals())
      ensures !ok ==> out == NULL && (mem.Refusals() > old(mem.Refusals()) || P.ParseString(s) == P.Fail(Left()))
      ensures GrownAt(old(mem.cells), mem.cells, p, Optional(out)) && mem.cells[p].node.name == out
      ensures IsBlankNode(mem.cells, p)
      ensures Single(mem.cells, Link(p, out, NULL, Empty, Empty), p, old(mem.cells)[p].node.prev)
    {
      ok, out := ParseString(p, s);
      if ok {
        TakeName(p, out, old(mem.cells));
      } else {
        out := NULL;
      }
    }

    method ParseColon(ghost rest: bytes) returns (ok: bool)
      requires Inside() && rest == Left()
      modifies this`offset
      ensures Inside() && P.Terminated(rest)
      ensures ok <==> P.Skip(rest)[0] == COLON
      ensures ok ==> Left() == P.Skip(P.Skip(rest)[1..])
      ensures !ok ==> Left() == P.Skip(rest)
    {
      LeftFacts();
      SkipWhitespace();
      LeftFacts();
      ok := content[offset] == COLON;
      if ok {
        assert content[offset..][1..] == content[offset + 1..];
        offset := offset + 1;
        SkipWhitespace();
      }
    }

    /** One item of a list, from the byte before it: its key, its value and the blanks behind it. */
    method ParseItem(p: Ptr, named: bool, ghost cur: bytes, ghost d: nat)
      returns (ok: bool, ghost one: Shape, ghost key: Option<bytes>, ghost v: Value, ghost value: bytes, ghost after: bytes)
      requires P.Terminated(content) && offset + 1 < |content| && content[offset + 1..] == cur && P.Terminated(cur) && depth == d
      requires p != NULL && IsNode(mem.cells, p) && mem.cells[p].node == BLANK.(prev := mem.cells[p].node.prev)
      modifies this, mem
      ensures offset <= |content| && (ok ==> Inside() && depth == d && mem.Refusals() == old(mem.Refusals()))
      ensures ok ==> P.Terminated(value) && P.Terminated(after)
      ensures ok ==> P.ParseKey(cur, named) == P.Ok(key, value) && P.ParseValue(value, d) == P.Ok(v, after) && Left() == P.Skip(after)
      ensures !ok ==> mem.Refusals() > old(mem.Refusals()) || P.ParseItems(cur, d, named) == P.Fail(Left())
      ensures one.Link? && GrownAt(old(mem.cells), mem.cells, p, Foot(one) - {p})
      ensures Single(mem.cells, one, p, old(mem.cells)[p].node.prev)
      ensures ok ==> Means(mem.cells, one, Cons(key, v, Nil))
      decreases |cur|, 7
    {
      hide P.ParseItems, P.ParseKey, P.ParseValue;
      offset := offset + 1;
      v, value, after := Null, [], [];
      var out;
      ok, out, key := ParseKey(p, named, cur);
      one := Link(p, out, NULL, Empty, Empty);
      if !ok {
        ItemsWithoutKey(cur, d, named);
        return;
      }
      value := Left();
      ghost var h2 := mem.cells;
      ghost var text, kids;
      ok, text, kids, v := ParseValue(p, value, d);
      if !ok {
        ItemsWithoutValue(cur, value, key, d, named);
        return;
      }
      one := Link(p, out, text, kids, Empty);
      FilledSingle(old(mem.cells), h2, mem.cells, one, key, v);
      after := Left();
      SkipWhitespace();
    }

    /** Allocates a node, links it behind the chain and parses into it; a failure gives the whole chain back. */
    method AddItem(first: Ptr, current: Ptr, named: bool, ghost sh: Shape, ghost xs: Items, ghost h0: Heap, ghost cur: bytes, ghost d: nat)
      returns (ok: bool, p: Ptr, ghost sh': Shape, ghost key: Option<bytes>, ghost v: Value, ghost value: bytes, ghost after: bytes)
      requires P.Terminated(content) && offset + 1 < |content| && content[offset + 1..] == cur && P.Terminated(cur) && depth == d
      requires Built(mem.cells, sh, xs, NULL) && Grown(h0, mem.cells, Foot(sh))
      requires first == Head(sh) && current == LastOf(sh)
      modifies this, mem
      ensures offset <= |content|
      ensures ok ==> Inside() && depth == d && mem.Refusals() == old(mem.Refusals()) && p != NULL
      ensures ok ==> P.Terminated(value) && P.Terminated(after)
      ensures ok ==> P.ParseKey(cur, named) == P.Ok(key, value) && P.ParseValue(value, d) == P.Ok(v, after) && Left() == P.Skip(after)
      ensures ok ==> Built(mem.cells, sh', SnocItem(xs, key, v), NULL) && Grown(h0, mem.cells, Foot(sh'))
      ensures ok ==> Head(sh') == (if first == NULL then p else first) && LastOf(sh') == p
      ensures !ok ==> mem.cells == h0 && (mem.Refusals() > old(mem.Refusals()) || P.ParseItems(cur, d, named) == P.Fail(Left()))
      decreases |cur|, 8
    {
      hide P.ParseItems, P.ParseKey, P.ParseValue, Built, Grown, GrownAt, Single, Means;
      key, v, value, after, sh' := None, Null, [], [], sh;
      BuiltFacts(mem.cells, sh, xs);
      BuiltOwned(mem.cells, sh, xs);
      p := NewItem(first, current, sh, xs, h0);
      if p == NULL {
        ok := false;
        Discard(first, sh, h0);
        return;
      }
      ghost var h1 := mem.cells;
      ghost var one;
      ok, one, key, v, value, after := ParseItem(p, named, cur, d);
      SingleFacts(mem.cells, one, p, current);
      sh' := Snoc(sh, one);
      if ok {
        ExtendBuilt(h0, h1, mem.cells, sh, xs, one, key, v);
      } else {
        Extend(h0, h1, mem.cells, sh, xs, one);
        Discard(if first == NULL then p else first, sh', h0);
      }
    }

    /** One turn of the loop: an item, and whether a comma follows it. */
    method ParseTurn(first: Ptr, current: Ptr, named: bool, ghost sh: Shape, ghost xs: Items, ghost h0: Heap, ghost cur: bytes, ghost d: nat, ghost whole: P.Parsed<Items>)
      returns (ok: bool, p: Ptr, more: bool, ghost sh': Shape, ghost xs': Items, ghost cur': bytes)
      requires P.Terminated(content) && offset + 1 < |content| && content[offset + 1..] == cur && P.Terminated(cur) && depth == d
      requires Built(mem.cells, sh, xs, NULL) && Grown(h0, mem.cells, Foot(sh))
      requires first == Head(sh) && current == LastOf(sh)
      requires whole == Prepend(xs, P.ParseItems(cur, d, named))
      modifies this, mem
      ensures offset <= |content|
      ensures ok ==> Inside() && depth == d && mem.Refusals() == old(mem.Refusals()) && p != NULL
      ensures ok ==> Built(mem.cells, sh', xs', NULL) && Grown(h0, mem.cells, Foot(sh'))
      ensures ok ==> Head(sh') == (if first == NULL then p else first) && LastOf(sh') == p
      ensures ok && more ==> offset + 1 < |content| && content[offset + 1..] == cur' && P.Terminated(cur') && |cur'| < |cur|
      ensures ok && more ==> whole == Prepend(xs', P.ParseItems(cur', d, named))
      ensures ok && !more ==> whole == P.Ok(xs', Left())
      ensures !ok ==> mem.cells == h0 && (mem.Refusals() > old(mem.Refusals()) || whole == P.Fail(Left()))
      decreases |cur|, 9
    {
      hide P.ParseItems, P.ParseKey, P.ParseValue;
      ghost var key, v, value, after;
      ok, p, sh', key, v, value, after := AddItem(first, current, named, sh, xs, h0, cur, d);
      more, xs', cur' := false, SnocItem(xs, key, v), cur;
      if ok {
        ghost var next := Left();
        LeftFacts();
        more := content[offset] == COMMA;
        ItemTurn(whole, xs, cur, key, v, value, after, next, d, named);
        if more {
          cur' := next[1..];
        }
      }
    }

    /** The loop over the comma-separated items. */
    method ParseList(named: bool, ghost inside: bytes, ghost d: nat, ghost h0: Heap)
      returns (ok: bool, first: Ptr, current: Ptr, ghost sh: Shape, ghost xs: Items)
      requires P.Terminated(content) && offset + 1 < |content| && content[offset + 1..] == inside && P.Terminated(inside)
      requires depth == d && mem.cells == h0
      modifies this, mem
      ensures offset <= |content|
      ensures ok ==> Inside() && depth == d && mem.Refusals() == old(mem.Refusals())
      ensures ok ==> P.ParseItems(inside, d, named) == P.Ok(xs, Left())
      ensures ok ==> first != NULL && Built(mem.cells, sh, xs, NULL) && Grown(h0, mem.cells, Foot(sh))
      ensures ok ==> first == Head(sh) && current == LastOf(sh)
      ensures !ok ==> mem.cells == h0 && (mem.Refusals() > old(mem.Refusals()) || P.ParseItems(inside, d, named) == P.Fail(Left()))
      decreases |inside|, 10
    {
      hide P.ParseItems;
      first, current := NULL, NULL;
      sh, xs := Empty, Nil;
      ghost var cur := inside;
      ghost var whole := P.ParseItems(inside, d, named);
      AppendNothing(whole);
      var more := true;
      ok := true;
      while more
        invariant ok && depth == d && mem.Refusals() == old(mem.Refusals())
        invariant offset < |content| && (more ==> |cur| <= |inside|)
        invariant Built(mem.cells, sh, xs, NULL) && Grown(h0, mem.cells, Foot(sh))
        invariant first == Head(sh) && current == LastOf(sh)
        invariant more ==> offset + 1 < |content| && content[offset + 1..] == cur && P.Terminated(cur)
        invariant more ==> whole == Prepend(xs, P.ParseItems(cur, d, named))
        invariant !more ==> first != NULL && whole == P.Ok(xs, Left())
        decreases more, |cur|
      {
        var p;
        ok, p, more, sh, xs, cur := ParseTurn(first, current, named, sh, xs, h0, cur, d, whole);
        if !ok {
          return;
        }
        first := if first == NULL then p else first;
        current := p;
      }
    }

    // ---------- containers ----------

    /** The chain is complete: its first node's `prev` is made to cache the last node. */
    method CloseList(first: Ptr, current: Ptr, ghost sh: Shape, ghost xs: Items, ghost h0: Heap)
      requires first != NULL && Built(mem.cells, sh, xs, NULL) && Grown(h0, mem.cells, Foot(sh))
      requires first == Head(sh) && current == LastOf(sh)
      modifies mem`cells
      ensures Finished(h0, mem.cells, sh, xs)
    {
      ghost var h := mem.cells;
      mem.cells := mem.cells[first := NodeCell(mem.cells[first].node.(prev := current))];
      Round(h, mem.cells, sh, xs);
    }

    /** Hangs a finished chain below its container. */
    method SetChild(item: Ptr, kind: Kind, first: Ptr, ghost sh: Shape, ghost h0: Heap, ghost v: Value)
      requires IsBlankNode(h0, item) && Finished(h0, mem.cells, sh, Kids(v)) && first == Head(sh)
      requires (v.Array? && kind == ArrayKind) || (v.Object? && kind == ObjectKind)
      modifies mem`cells
      ensures Filled(h0, mem.cells, item, NULL, sh, v)
    {
      ghost var h := mem.cells;
      mem.cells := mem.cells[item := NodeCell(mem.cells[item].node.(kind := kind, child := first))];
      FinishedFrame(h0, h, mem.cells, sh, Kids(v), item);
    }

    /** Past the opening bracket and the blanks behind it; steps back unless the container is empty. */
    method OpenGroup(named: bool, ghost s: bytes) returns (empty: bool, ghost inside: bytes)
      requires Inside() && s == Left() && s[0] == P.Opening(named) && P.Terminated(s)
      modifies this`offset
      ensures P.Terminated(s[1..]) && inside == P.Skip(s[1..]) && (empty <==> inside[0] == P.Closing(named))
      ensures offset < |content| && (empty ==> Left() == inside)
      ensures !empty ==> offset + 1 < |content| && content[offset + 1..] == inside
    {
      LeftFacts();
      OpenedFacts(content, offset, named);
      offset := offset + 1;
      SkipWhitespace();
      LeftFacts();
      inside := Left();
      empty := content[offset] == P.Closing(named);
      if !empty {
        offset := offset - 1;
      }
    }

    /** The items and the closing bracket; the chain is not hung on anything yet. */
    method ParseClosed(named: bool, ghost inside: bytes, ghost d: nat, ghost h0: Heap)
      returns (ok: bool, first: Ptr, ghost sh: Shape, ghost xs: Items)
      requires P.Terminated(content) && offset + 1 < |content| && content[offset + 1..] == inside && P.Terminated(inside)
      requires depth == d && mem.cells == h0
      modifies this, mem
      ensures offset <= |content|
      ensures ok ==> Inside() && depth == d && mem.Refusals() == old(mem.Refusals()) && content[offset] == P.Closing(named)
      ensures ok ==> P.ParseItems(inside, d, named) == P.Ok(xs, Left())
      ensures ok ==> Finished(h0, mem.cells, sh, xs) && first == Head(sh)
      ensures !ok ==> mem.cells == h0 && (mem.Refusals() > old(mem.Refusals()) || Unclosed(P.ParseItems(inside, d, named), Left(), named))
      decreases |inside|, 11
    {
      hide P.ParseItems;
      var current;
      ok, first, current, sh, xs := ParseList(named, inside, d, h0);
      if !ok {
        return;
      }
      LeftFacts();
      ok := content[offset] == P.Closing(named);
      if ok {
        CloseList(first, current, sh, xs, h0);
      } else {
        Discard(first, sh, h0);
      }
    }

    /** Everything between the opening bracket and the closing one, at the inner depth. */
    method ParseInside(named: bool, ghost s: bytes, ghost d: nat, ghost h0: Heap)
      returns (ok: bool, first: Ptr, ghost sh: Shape, ghost xs: Items)
      requires Inside() && s == Left() && s[0] == P.Opening(named) && P.Terminated(s) && d < P.NESTING_LIMIT
      requires depth == d + 1 && mem.cells == h0
      modifies this, mem
      ensures offset <= |content|
      ensures ok ==> offset + 1 < |content| && depth == d + 1 && mem.Refusals() == old(mem.Refusals())
      ensures ok ==> P.ParseContainer(s, d, named) == P.Ok(xs, content[offset + 1..])
      ensures ok ==> Finished(h0, mem.cells, sh, xs) && first == Head(sh)
      ensures !ok ==> mem.cells == h0 && (mem.Refusals() > old(mem.Refusals()) || P.ParseContainer(s, d, named) == P.Fail(Left()))
      decreases |s|, 4
    {
      hide P.ParseItems, P.ParseContainer, P.Skip, Finished, Unclosed, Refused;
      var empty; ghost var inside;
      empty, inside := OpenGroup(named, s);
      if empty {
        ok, first, sh, xs := true, NULL, Empty, Nil;
        NothingFinished(h0);
        EmptyGroup(content, offset, s, inside, d, named);
        return;
      }
      ok, first, sh, xs := ParseClosed(named, inside, d + 1, h0);
      if ok {
        GroupEnds(content, offset, s, inside, xs, d, named);
      } else {
        GroupFails(s, inside, Left(), d, named);
      }
    }

    /** `parse_array`, and `parse_object` when `named`. */
    method ParseGroup(item: Ptr, named: bool, ghost s: bytes, ghost d: nat) returns (ok: bool, ghost kids: Shape, ghost v: Value)
      requires Inside() && s == Left() && s[0] == P.Opening(named) && P.Terminated(s) && depth == d
      requires IsBlankNode(mem.cells, item)
      modifies this, mem
      ensures offset <= |content| && (ok ==> Inside() && depth == d && mem.Refusals() == old(mem.Refusals()))
      ensures ok ==> v == (if named then Object(Kids(v)) else Array(Kids(v)))
      ensures ok ==> P.ParseContainer(s, d, named) == P.Ok(Kids(v), Left())
      ensures ok ==> Filled(old(mem.cells), mem.cells, item, NULL, kids, v)
      ensures !ok ==> mem.cells == old(mem.cells) && (mem.Refusals() > old(mem.Refusals()) || P.ParseContainer(s, d, named) == P.Fail(Left()))
      decreases |s|, 5
    {
      hide P.ParseContainer, Filled, Finished;
      ok, kids, v := false, Empty, Null;
      if depth >= P.NESTING_LIMIT {
        TooDeep(s, d, named);
      }
      if depth < P.NESTING_LIMIT {
        depth := depth + 1;
        var first; ghost var xs;
        ok, first, kids, xs := ParseInside(named, s, d, mem.cells);
        if ok {
          v := if named then Object(xs) else Array(xs);
          SetChild(item, if named then ObjectKind else ArrayKind, first, kids, old(mem.cells), v);
          depth, offset := depth - 1, offset + 1;
        }
      }
    }

    // ---------- values ----------

    /** `strncmp` against a word at the cursor. */
    method Matches(w: bytes, ghost s: bytes) returns (r: bool)
      requires offset < |content| && s == Left()
      ensures r <==> P.StartsWith(s, w)
    {
      r := offset + |w| <= |content| && content[offset..offset + |w|] == w;
      if offset + |w| <= |content| {
        assert content[offset..offset + |w|] == s[..|w|];
      }
    }

    method FillWord(item: Ptr, w: bytes, kind: Kind, ghost v: Value, ghost s: bytes)
      requires Inside() && s == Left() && P.StartsWith(s, w) && NUL !in w && w != []
      requires IsBlankNode(mem.cells, item) && !v.Array? && !v.Object? && !v.String? && !v.Number?
      requires NodeMeans(mem.cells, BLANK.(kind := kind), NULL, Empty, v)
      modifies this`offset, mem`cells
      ensures Inside() && P.Terminated(s) && Left() == s[|w|..]
      ensures Filled(old(mem.cells), mem.cells, item, NULL, Empty, v)
    {
      LeftFacts();
      ghost var r := P.ParseWord(s, w, v);
      FillScalar(item, kind, mem.cells[item].node.number, v);
      Advance(|w|, s);
    }

    /** The three words; `found` says whether one of them is there. */
    method ParseWords(item: Ptr, ghost s: bytes) returns (found: bool, ghost v: Value)
      requires Inside() && s == Left() && IsBlankNode(mem.cells, item)
      modifies this`offset, mem`cells
      ensures Inside() && P.Terminated(s)
      ensures found ==> WordAt(s) == Some(P.Ok(v, Left())) && Filled(old(mem.cells), mem.cells, item, NULL, Empty, v)
      ensures !found ==> WordAt(s) == None && mem.cells == old(mem.cells) && Left() == s
    {
      LeftFacts();
      found, v := true, Null;
      var m := Matches(P.NULL_WORD, s);
      if m {
        FillWord(item, P.NULL_WORD, NullKind, Null, s);
        return;
      }
      m := Matches(P.FALSE_WORD, s);
      if m {
        FillWord(item, P.FALSE_WORD, FalseKind, False, s);
        return found, False;
      }
      m := Matches(P.TRUE_WORD, s);
      if m {
        FillWord(item, P.TRUE_WORD, TrueKind, True, s);
        return found, True;
      }
      found := false;
    }

    /** A string value. */
    method ParseText(item: Ptr, ghost s: bytes) returns (ok: bool, ghost text: Ptr, ghost v: Value)
      requires Inside() && s == Left() && IsBlankNode(mem.cells, item)
      modifies this`offset, mem
      ensures offset <= |content| && P.Terminated(s) && (ok ==> Inside() && mem.Refusals() == old(mem.Refusals()))
      ensures ok ==> v.String? && P.ParseString(s) == P.Ok(v.text, Left())
      ensures ok ==> Filled(old(mem.cells), mem.cells, item, text, Empty, v)
      ensures !ok ==> mem.cells == old(mem.cells) && (mem.Refusals() > old(mem.Refusals()) || P.ParseString(s) == P.Fail(Left()))
    {
      var out;
      ok, out := ParseString(item, s);
      text := out;
      v := if ok then String(TextAt(mem.cells, out)) else Null;
    }

    /**
     `parse_value`. A success fills the blank `item` with the value that the parser function
     gives, at the same depth; a failure leaves the heap as it found it.
     */
    method ParseValue(item: Ptr, ghost s: bytes, ghost d: nat) returns (ok: bool, ghost text: Ptr, ghost kids: Shape, ghost v: Value)
      requires Inside() && s == Left() && P.Terminated(s) && depth == d && IsBlankNode(mem.cells, item)
      modifies this, mem
      ensures offset <= |content| && (ok ==> Inside() && depth == d && mem.Refusals() == old(mem.Refusals()))
      ensures ok ==> P.ParseValue(s, d) == P.Ok(v, Left()) && Filled(old(mem.cells), mem.cells, item, text, kids, v)
      ensures !ok ==> mem.cells == old(mem.cells) && (mem.Refusals() > old(mem.Refusals()) || P.ParseValue(s, d) == P.Fail(Left()))
      decreases |s|, 6
    {
      hide P.ParseValue, P.ParseContainer, P.ParseString, P.ParseNumber;
      LeftFacts();
      text, kids := NULL, Empty;
      ok, v := ParseWords(item, s);
      if ok {
        ValueIsWord(s, d);
        return;
      }
      var b := content[offset];
      if b == QUOTE {
        ValueIsString(s, d);
        ok, text, v := ParseText(item, s);
      } else if b == MINUS || IsDigit(b) {
        ValueIsNumber(s, d);
        ok, v := ParseNumber(item, s);
      } else if b == LBRACKET || b == LBRACE {
        ValueIsGroup(s, d, b == LBRACE);
        ok, kids, v := ParseGroup(item, b == LBRACE, s, d);
      } else {
        ValueIsNothing(s, d);
      }
    }

    /** Three bytes of UTF-8 byte order mark, when at least two more bytes follow. */
    method SkipUtf8Bom()
      requires P.Terminated(content) && offset == 0
      modifies this`offset
      ensures Inside() && Left() == P.SkipBom(content)
    {
      assert content[0..] == content;
      if 4 < |content| {
        var bom := Matches(P.BOM, content);
        if bom {
          offset := 3;
        }
      }
    }

    /** Under `require_null_terminated`, only blanks may follow the value. */
    method AtEnd(strict: bool, ghost rest: bytes) returns (ok: bool)
      requires Inside() && rest == Left()
      modifies this`offset
      ensures Inside() && P.Terminated(rest)
      ensures ok <==> strict ==> P.Skip(rest)[0] == NUL
      ensures Left() == if strict then P.Skip(rest) else rest
    {
      LeftFacts();
      ok := true;
      if strict {
        SkipWhitespace();
        LeftFacts();
        ok := content[offset] == NUL;
      }
    }

    /** The whole document into a blank root; on failure the root and whatever hangs on it are left to delete. */
    method ParseRoot(root: Ptr, strict: bool, ghost h0: Heap) returns (ok: bool, ghost sh: Shape, ghost v: Value)
      requires P.Terminated(content) && offset == 0 && depth == 0
      requires root != NULL && root !in h0 && mem.cells == h0[root := NodeCell(BLANK)]
      modifies this, mem
      ensures Head(sh) == root && Owns(mem.cells, sh, NULL) && Separate(sh) && Grown(h0, mem.cells, Foot(sh))
      ensures offset <= |content| && (ok ==> Inside() && mem.Refusals() == old(mem.Refusals()))
      ensures ok ==> P.ParseDocument(content, strict) == P.Ok(v, Left()) && Parsed(h0, mem.cells, sh, root, v)
      ensures !ok ==> mem.Refusals() > old(mem.Refusals()) || P.ParseDocument(content, strict) == P.Fail(Left())
    {
      hide P.ParseValue, P.ParseDocument, Filled, Single, Grown;
      ghost var h1 := mem.cells;
      SkipUtf8Bom();
      SkipWhitespace();
      ghost var s := Left();
      LeftFacts();
      ghost var text, kids;
      ok, text, kids, v := ParseValue(root, s, 0);
      if ok {
        sh := Link(root, NULL, text, kids, Empty);
        RootFilled(h0, h1, mem.cells, sh, v);
        ghost var rest := Left();
        ok := AtEnd(strict, rest);
        DocumentEnds(content, s, v, rest, strict);
      } else {
        sh := Link(root, NULL, NULL, Empty, Empty);
        BlankRoot(h0, h1, root);
        DocumentFails(content, s, strict);
      }
    }
  }

  /** A tree of its own: all that the heap has gained, one root without siblings, standing for `v`. */
  ghost predicate Parsed(h0: Heap, h: Heap, sh: Shape, root: Ptr, v: Value) {
    && Grown(h0, h, Foot(sh)) && Single(h, sh, root, NULL)
    && Means(h, sh, Cons(None, v, Nil))
  }

  /**
   `cJSON_ParseWithLengthOpts`. Whatever requests the allocator refuses, a failed parse leaves
   exactly the blocks that were live before, and a successful one adds exactly those of the
   tree it returns. Unless this call was refused a request, the verdict, the value and the position
   reported are those of the parser function.
   */
  method ParseWithOpts(content: bytes, strict: bool, mem: Allocator)
    returns (root: Ptr, end: nat, ghost sh: Shape, ghost v: Value)
    requires P.Terminated(content)
    modifies mem
    ensures end < |content|
    ensures root != NULL ==> P.ParseDocument(content, strict) == P.Ok(v, content[end..]) && mem.Refusals() == old(mem.Refusals())
    ensures root != NULL ==> Parsed(old(mem.cells), mem.cells, sh, root, v)
    ensures root == NULL ==> mem.cells == old(mem.cells)
    ensures root == NULL ==>
      (mem.Refusals() > old(mem.Refusals()) || (P.ParseDocument(content, strict).Fail? && end == P.ErrorPosition(content, P.ParseDocument(content, strict).rest)))
  {
    hide P.ParseDocument, Parsed, Grown, Owns, Separate;
    sh, v := Empty, Null;
    var buffer := new ParseBuffer(content, mem);
    root := mem.Allocate(NodeCell(BLANK));
    if root == NULL {
      return NULL, 0, sh, v;
    }
    var ok;
    ok, sh, v := buffer.ParseRoot(root, strict, old(mem.cells));
    end := buffer.offset;
    if !ok {
      MinusAdded(old(mem.cells), mem.cells, sh);
      mem.Delete(root, sh);
      end := if buffer.offset < |content| then buffer.offset else |content| - 1;
      root := NULL;
    }
  }

  lemma BlankRoot(h0: Heap, h1: Heap, root: Ptr)
    requires root != NULL && root !in h0 && h1 == h0[root := NodeCell(BLANK)]
    ensures var sh := Link(root, NULL, NULL, Empty, Empty); Owns(h1, sh, NULL) && Separate(sh) && Grown(h0, h1, Foot(sh))
  {
  }

  lemma RootFilled(h0: Heap, h1: Heap, h: Heap, sh: Shape, v: Value)
    requires sh.Link? && sh.p != NULL && sh.name == NULL && sh.next.Empty?
    requires sh.p !in h0 && h1 == h0[sh.p := NodeCell(BLANK)] && Filled(h1, h, sh.p, sh.text, sh.kids, v)
    ensures Parsed(h0, h, sh, sh.p, v) && Owns(h, sh, NULL) && Separate(sh)
  {
    RootOwned(h0, h1, h, sh, v);
    assert Chained(h, sh, NULL);
    assert Means(h, sh, Cons(None, v, Nil));
  }

  lemma RootOwned(h0: Heap, h1: Heap, h: Heap, sh: Shape, v: Value)
    requires sh.Link? && sh.p != NULL && sh.name == NULL && sh.next.Empty?
    requires sh.p !in h0 && h1 == h0[sh.p := NodeCell(BLANK)] && Filled(h1, h, sh.p, sh.text, sh.kids, v)
    ensures Owns(h, sh, NULL) && Separate(sh) && Grown(h0, h, Foot(sh))
  {
  }

  lemma DocumentEnds(content: bytes, s: bytes, v: Value, rest: bytes, strict: bool)
    requires P.Terminated(content) && P.Terminated(s) && P.Terminated(rest)
    requires s == P.Skip(P.SkipBom(content)) && P.ParseValue(s, 0) == P.Ok(v, rest)
    ensures P.ParseDocument(content, strict) ==
            if !strict then P.Ok(v, rest)
            else if P.Skip(rest)[0] == NUL then P.Ok(v, P.Skip(rest))
            else P.Fail(P.Skip(rest))
  {
  }

  lemma DocumentFails(content: bytes, s: bytes, strict: bool)
    requires P.Terminated(content) && P.Terminated(s) && s == P.Skip(P.SkipBom(content))
    ensures P.ParseValue(s, 0).Fail? ==> P.ParseDocument(content, strict) == P.Fail(P.ParseValue(s, 0).rest)
  {
  }

  /** The result of a list whose first items are already known. */
  function Prepend(xs: Items, r: P.Parsed<Items>): P.Parsed<Items> {
    if r.Ok? then P.Ok(AppendItems(xs, r.value), r.rest) else r
  }

  lemma AppendNothing(r: P.Parsed<Items>)
    ensures Prepend(Nil, r) == r
  {
  }

  lemma PrependMore(xs: Items, key: Option<bytes>, v: Value, more: P.Parsed<Items>, r: P.Parsed<Items>)
    requires more.Ok? ==> r == P.Ok(Cons(key, v, more.value), more.rest)
    requires more.Fail? ==> r == more
    ensures Prepend(xs, r) == Prepend(SnocItem(xs, key, v), more)
  {
    if more.Ok? {
      AppendSnoc(xs, key, v, more.value);
    }
  }

  /** One turn of the loop, seen by the parser function: another item follows. */
  lemma NextItem(whole: P.Parsed<Items>, xs: Items, cur: bytes, key: Option<bytes>, v: Value, value: bytes, after: bytes, next: bytes, d: nat, named: bool)
    requires P.Terminated(cur) && P.Terminated(value) && P.Terminated(after) && P.Terminated(next)
    requires whole == Prepend(xs, P.ParseItems(cur, d, named)) && next[0] == COMMA
    requires P.ParseKey(cur, named) == P.Ok(key, value) && P.ParseValue(value, d) == P.Ok(v, after) && next == P.Skip(after)
    ensures P.Terminated(next[1..]) && whole == Prepend(SnocItem(xs, key, v), P.ParseItems(next[1..], d, named))
  {
    hide P.ParseItems, P.ParseValue, P.ParseKey;
    MoreItems(cur, key, value, v, after, next, d, named);
    PrependMore(xs, key, v, P.ParseItems(next[1..], d, named), P.ParseItems(cur, d, named));
  }

  /** The last turn: no comma follows. */
  lemma FinalItem(whole: P.Parsed<Items>, xs: Items, cur: bytes, key: Option<bytes>, v: Value, value: bytes, after: bytes, next: bytes, d: nat, named: bool)
    requires P.Terminated(cur) && P.Terminated(value) && P.Terminated(after) && P.Terminated(next)
    requires whole == Prepend(xs, P.ParseItems(cur, d, named)) && next[0] != COMMA
    requires P.ParseKey(cur, named) == P.Ok(key, value) && P.ParseValue(value, d) == P.Ok(v, after) && next == P.Skip(after)
    ensures whole == P.Ok(SnocItem(xs, key, v), next)
  {
    LastItem(cur, key, value, v, after, next, d, named);
    AppendSnoc(xs, key, v, Nil);
  }

  lemma ItemTurn(whole: P.Parsed<Items>, xs: Items, cur: bytes, key: Option<bytes>, v: Value, value: bytes, after: bytes, next: bytes, d: nat, named: bool)
    requires P.Terminated(cur) && P.Terminated(value) && P.Terminated(after) && P.Terminated(next)
    requires whole == Prepend(xs, P.ParseItems(cur, d, named))
    requires P.ParseKey(cur, named) == P.Ok(key, value) && P.ParseValue(value, d) == P.Ok(v, after) && next == P.Skip(after)
    ensures next[0] == COMMA ==> P.Terminated(next[1..]) && whole == Prepend(SnocItem(xs, key, v), P.ParseItems(next[1..], d, named))
    ensures next[0] != COMMA ==> whole == P.Ok(SnocItem(xs, key, v), next)
    ensures |next| <= |cur|
  {
    hide P.ParseItems, P.ParseValue;
    if next[0] == COMMA {
      NextItem(whole, xs, cur, key, v, value, after, next, d, named);
    } else {
      FinalItem(whole, xs, cur, key, v, value, after, next, d, named);
    }
  }

  /** The word at the cursor, if there is one. */
  function WordAt(s: bytes): Option<P.Parsed<Value>>
    requires P.Terminated(s)
  {
    if P.StartsWith(s, P.NULL_WORD) then Some(P.Ok(Null, s[4..]))
    else if P.StartsWith(s, P.FALSE_WORD) then Some(P.Ok(False, s[5..]))
    else if P.StartsWith(s, P.TRUE_WORD) then Some(P.Ok(True, s[4..]))
    else None
  }

  /** The cases of the value function. */
  lemma ValueIsWord(s: bytes, d: nat)
    requires P.Terminated(s)
    ensures WordAt(s).Some? ==> P.ParseValue(s, d) == WordAt(s).value
  {
  }

  lemma ValueIsString(s: bytes, d: nat)
    requires P.Terminated(s) && WordAt(s).None? && s[0] == QUOTE
    ensures P.ParseString(s).Ok? ==> P.ParseValue(s, d) == P.Ok(String(P.ParseString(s).value), P.ParseString(s).rest)
    ensures P.ParseString(s).Fail? ==> P.ParseValue(s, d) == P.Fail(P.ParseString(s).rest)
  {
  }

  lemma ValueIsNumber(s: bytes, d: nat)
    requires P.Terminated(s) && WordAt(s).None? && (s[0] == MINUS || IsDigit(s[0]))
    ensures P.ParseValue(s, d) == P.ParseNumber(s)
  {
    hide P.ParseNumber;
  }

  lemma ValueIsGroup(s: bytes, d: nat, named: bool)
    requires P.Terminated(s) && WordAt(s).None? && s[0] == P.Opening(named)
    ensures var c := P.ParseContainer(s, d, named);
            && (c.Ok? ==> P.ParseValue(s, d) == P.Ok(if named then Object(c.value) else Array(c.value), c.rest))
            && (c.Fail? ==> P.ParseValue(s, d) == P.Fail(c.rest))
  {
  }

  lemma ValueIsNothing(s: bytes, d: nat)
    requires P.Terminated(s) && WordAt(s).None?
    requires s[0] != QUOTE && s[0] != MINUS && !IsDigit(s[0]) && s[0] != LBRACKET && s[0] != LBRACE
    ensures P.ParseValue(s, d) == P.Fail(s)
  {
  }

  /** The container function's view of the outcomes. */
  lemma OpenedFacts(content: bytes, offset: nat, named: bool)
    requires P.Terminated(content) && offset < |content| && content[offset] == P.Opening(named)
    ensures offset + 1 < |content| && P.Terminated(content[offset + 1..]) && content[offset..][1..] == content[offset + 1..]
  {
  }

  /** A finished chain stands when a node from before it was built is written to. */
  lemma FinishedFrame(h0: Heap, h: Heap, h': Heap, sh: Shape, xs: Items, item: Ptr)
    requires Finished(h0, h, sh, xs) && item in h0 && item in h' && h' == h[item := h'[item]]
    ensures Owns(h', sh, NULL) && Rounded(h', sh) && Means(h', sh, xs) && item !in Foot(sh)
  {
    OwnsFrame(h, h', sh, NULL);
    MeansFrame(h, h', sh, xs);
    if sh.Link? {
      ChainedFrame(h, h', sh, Last(sh));
    }
  }

  lemma TooDeep(s: bytes, d: nat, named: bool)
    requires P.Terminated(s) && s[0] == P.Opening(named) && d >= P.NESTING_LIMIT
    ensures P.ParseContainer(s, d, named) == P.Fail(s)
  {
  }

  /** The items are malformed, or something other than the closing bracket follows them. */
  predicate Unclosed(items: P.Parsed<Items>, left: bytes, named: bool) {
    items.rest == left && (items.Fail? || (left != [] && left[0] != P.Closing(named)))
  }

  lemma GroupFails(s: bytes, inside: bytes, left: bytes, d: nat, named: bool)
    requires P.Terminated(s) && s[0] == P.Opening(named) && P.Terminated(s[1..]) && inside == P.Skip(s[1..]) && d < P.NESTING_LIMIT
    requires inside[0] != P.Closing(named)
    ensures Unclosed(P.ParseItems(inside, d + 1, named), left, named) ==> P.ParseContainer(s, d, named) == P.Fail(left)
  {
  }

  lemma EmptyGroup(content: bytes, offset: nat, s: bytes, inside: bytes, d: nat, named: bool)
    requires P.Terminated(content) && offset < |content| && content[offset..] == inside
    requires P.Terminated(s) && s[0] == P.Opening(named) && P.Terminated(s[1..]) && inside == P.Skip(s[1..]) && d < P.NESTING_LIMIT
    requires inside[0] == P.Closing(named)
    ensures offset + 1 < |content| && P.ParseContainer(s, d, named) == P.Ok(Nil, content[offset + 1..])
  {
    assert content[offset..][1..] == content[offset + 1..];
  }

  lemma GroupEnds(content: bytes, offset: nat, s: bytes, inside: bytes, xs: Items, d: nat, named: bool)
    requires P.Terminated(content) && offset < |content| && content[offset] == P.Closing(named)
    requires P.Terminated(s) && s[0] == P.Opening(named) && P.Terminated(s[1..]) && inside == P.Skip(s[1..]) && d < P.NESTING_LIMIT
    requires inside[0] != P.Closing(named) && P.ParseItems(inside, d + 1, named) == P.Ok(xs, content[offset..])
    ensures offset + 1 < |content| && P.ParseContainer(s, d, named) == P.Ok(xs, content[offset + 1..])
  {
    assert content[offset..][1..] == content[offset + 1..];
  }

  lemma ItemsWithoutKey(cur: bytes, d: nat, named: bool)
    requires P.Terminated(cur)
    ensures P.ParseKey(cur, named).Fail? ==> P.ParseItems(cur, d, named) == P.Fail(P.ParseKey(cur, named).rest)
  {
  }

  lemma ItemsWithoutValue(cur: bytes, value: bytes, key: Option<bytes>, d: nat, named: bool)
    requires P.Terminated(cur) && P.Terminated(value) && P.ParseKey(cur, named) == P.Ok(key, value)
    ensures P.ParseValue(value, d).Fail? ==> P.ParseItems(cur, d, named) == P.Fail(P.ParseValue(value, d).rest)
  {
  }

  /** A named node that has been filled is a single item. */
  lemma FilledSingle(h1: Heap, h2: Heap, h: Heap, one: Shape, key: Option<bytes>, v: Value)
    requires one.Link? && one.p != NULL && one.next.Empty? && IsNode(h1, one.p)
    requires GrownAt(h1, h2, one.p, Optional(one.name)) && IsBlankNode(h2, one.p) && h2[one.p].node.name == one.name
    requires Single(h2, Link(one.p, one.name, NULL, Empty, Empty), one.p, h1[one.p].node.prev)
    requires h1[one.p].node.next == NULL && NameMeans(h2, one.name, key)
    requires Filled(h2, h, one.p, one.text, one.kids, v)
    ensures GrownAt(h1, h, one.p, Foot(one) - {one.p})
    ensures Single(h, one, one.p, h1[one.p].node.prev)
    ensures Means(h, one, Cons(key, v, Nil))
  {
    assert one.name != NULL ==> one.name in h2 && one.name != one.p;
  }

  lemma KeyAfterName(cur: bytes, s: bytes, name: bytes, rest: bytes)
    requires P.Terminated(cur) && s == P.Skip(cur) && P.ParseString(s) == P.Ok(name, rest)
    ensures P.Terminated(rest)
    ensures P.Skip(rest)[0] == COLON ==> P.ParseKey(cur, true) == P.Ok(Some(name), P.Skip(P.Skip(rest)[1..]))
    ensures P.Skip(rest)[0] != COLON ==> P.ParseKey(cur, true) == P.Fail(P.Skip(rest))
  {
  }

  lemma NoKey(cur: bytes, s: bytes)
    requires P.Terminated(cur) && s == P.Skip(cur)
    ensures P.ParseString(s).Fail? ==> P.ParseKey(cur, true) == P.Fail(P.ParseString(s).rest)
  {
  }

  /** The number characters are copied to a scratch buffer, and `strtod` takes what it can of them. */
  method ReadNumber(content: bytes, offset: nat, ghost s: bytes) returns (k: nat, d: real)
    requires offset < |content| && s == content[offset..]
    ensures k == NumberLength(s) && (k > 0 ==> d == DecimalValue(s[..k]))
  {
    var i := 0;
    assert s[0..] == s;
    while i < SCRATCH && offset + i < |content| && IsNumberChar(content[offset + i])
      invariant 0 <= i <= SCRATCH && offset + i <= |content|
      invariant NumberRun(s, SCRATCH) == i + NumberRun(s[i..], SCRATCH - i)
    {
      assert s[i..][1..] == s[i + 1..] && s[i] == content[offset + i];
      i := i + 1;
    }
    k, d := TakeDecimal(content[offset..offset + i], s);
  }

  method TakeDecimal(run: bytes, ghost s: bytes) returns (k: nat, d: real)
    requires |run| == NumberRun(s, SCRATCH) && run == s[..|run|]
    ensures k == NumberLength(s) && (k > 0 ==> d == DecimalValue(s[..k]))
  {
    hide LongestDecimal, DecimalValue;
    k, d := LongestDecimal(run, |run|), 0.0;
    if k > 0 {
      d := DecimalValue(run[..k]);
      assert run[..k] == s[..k];
    }
  }

  lemma NumberResult(s: bytes, k: nat, d: real)
    requires P.Terminated(s) && k == NumberLength(s) && (k > 0 ==> d == DecimalValue(s[..k]))
    ensures k < |s|
    ensures P.ParseNumber(s) == if k == 0 then P.Fail(s) else P.Ok(Number(d), s[k..])
  {
  }

  /** `item` has been given a new string block; nothing else has changed. */
  ghost predicate StringRead(h0: Heap, h: Heap, item: Ptr, out: Ptr) {
    && out != NULL && out !in h0 && IsText(h, out) && IsNode(h0, item)
    && h == h0[out := h[out]][item := NodeCell(WithText(h0[item].node, out))]
  }

  /** A node that has just been given a string. */
  function WithText(n: Node, out: Ptr): Node { n.(kind := StringKind, valuestring := out) }

  /** The parser function's view of the outcomes. */
  lemma NoLiteral(s: bytes, content: bytes, offset: nat)
    requires P.Terminated(content) && offset < |content| && s == content[offset..] && P.Terminated(s)
    requires s[0] != QUOTE || ScanBody(content[offset + 1..]) == None
    ensures P.ParseString(s) == P.Fail(content[offset + 1..])
  {
    assert s[1..] == content[offset + 1..];
  }

  lemma LiteralDone(s: bytes, content: bytes, offset: nat, end: nat)
    requires P.Terminated(content) && offset < end < |content| - 1 && s == content[offset..] && s[0] == QUOTE
    requires ScanBody(content[offset + 1..]) == Some(end - offset - 1) && Unescape(content[offset + 1..end]).Done?
    ensures P.Terminated(s)
    ensures P.ParseString(s) == P.Ok(CString(Unescape(content[offset + 1..end]).out), content[end + 1..])
  {
    assert s[1..] == content[offset + 1..];
    assert s[1..][..end - offset - 1] == content[offset + 1..end];
    assert s[end - offset - 1 + 2..] == content[end + 1..];
  }

  lemma LiteralBad(s: bytes, content: bytes, offset: nat, end: nat, from: nat)
    requires P.Terminated(content) && offset < from < end < |content| - 1 && s == content[offset..] && s[0] == QUOTE
    requires ScanBody(content[offset + 1..]) == Some(end - offset - 1) && Unescape(content[offset + 1..end]) == Bad(end - from)
    ensures P.Terminated(s)
    ensures P.ParseString(s) == P.Fail(content[from..])
  {
    hide ScanBody, Unescape;
    assert s[1..] == content[offset + 1..];
    assert s[1..][..end - offset - 1] == content[offset + 1..end];
    assert s[from - offset..] == content[from..];
  }
}
