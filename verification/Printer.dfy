/**
 The printer over a growable or fixed output buffer, proved against the renderer: what it
 writes, where it writes, and exactly when it runs out of room.
 */
module Printer {
  import opened Base
  import opened Values
  import opened Numbers
  import opened StringLiterals
  import opened Parser
  import opened Renderer

  // ---------- printed text holds no NUL ----------

  lemma {:induction false} RenderIsClean(v: Value, depth: nat, fmt: bool)
    requires Printable(v)
    ensures NUL !in Render(v, depth, fmt)
    decreases v, 1
  {
    match v
    case Number(d) => IntIsClean(d.Floor);
    case String(s) => NameIsClean(Some(s));
    case Array(elems) =>
      ElemsAreClean(elems, depth + 1, fmt);
      CleanBracketed([LBRACKET], RenderElems(elems, depth + 1, fmt), [RBRACKET]);
    case Object(members) =>
      MembersAreClean(members, depth + 1, fmt);
      CleanBracketed([LBRACE], NewLine(fmt) + (RenderMembers(members, depth + 1, fmt) + Indent(depth, fmt)), [RBRACE]);
    case _ =>
  }

  lemma IntIsClean(n: int)
    ensures NUL !in IntText(n)
  {
    var t := IntText(n);
    assert forall i :: 0 <= i < |t| ==> t[i] == MINUS || IsDigit(t[i]);
  }

  lemma CleanBracketed(a: bytes, b: bytes, c: bytes)
    requires NUL !in a && NUL !in b && NUL !in c
    ensures NUL !in a + b + c
  {
  }

  lemma {:induction false} ElemsAreClean(xs: Items, depth: nat, fmt: bool)
    requires PrintableItems(xs)
    ensures NUL !in RenderElems(xs, depth, fmt)
    decreases xs, 0
  {
    if xs.Cons? {
      RenderIsClean(xs.value, depth, fmt);
      ElemsAreClean(xs.next, depth, fmt);
    }
  }

  lemma {:induction false} MembersAreClean(xs: Items, depth: nat, fmt: bool)
    requires PrintableItems(xs)
    ensures NUL !in RenderMembers(xs, depth, fmt)
    decreases xs, 0
  {
    if xs.Cons? {
      NameIsClean(xs.name);
      RenderIsClean(xs.value, depth, fmt);
      MembersAreClean(xs.next, depth, fmt);
    }
  }

  lemma NameIsClean(name: Option<bytes>)
    requires name.Some? ==> NUL !in name.value
    ensures NUL !in NameText(name)
  {
    EscapeIsClean(if name.Some? then name.value else []);
  }

  // ---------- the allocation hooks ----------

  /** The allocation functions that the library was given; they may refuse any request. */
  class Hooks {
    /** Which requests are granted, in order; anything is possible. */
    const grants: nat -> bool
    /** Whether there is a `realloc`, or a buffer has to be copied by hand. */
    const reallocates: bool
    var requests: nat
    var live: set<object?>

    constructor (grants: nat -> bool, reallocates: bool)
      ensures this.grants == grants && this.reallocates == reallocates && requests == 0 && live == {}
    {
      this.grants, this.reallocates, requests, live := grants, reallocates, 0, {};
    }

    ghost function Refusals(): nat
      reads this`requests
    {
      Refused(grants, requests)
    }

    /** A new block, or null. */
    method Allocate(size: nat) returns (block: array?<byte>)
      modifies this
      ensures block == null ==> Refusals() == old(Refusals()) + 1 && live == old(live)
      ensures block != null ==> Refusals() == old(Refusals()) && fresh(block) && block.Length == size && live == old(live) + {block}
    {
      var granted := grants(requests);
      requests := requests + 1;
      if !granted {
        return null;
      }
      block := new byte[size];
      live := live + {block};
    }

    method Deallocate(block: array<byte>)
      requires block in live
      modifies this`live
      ensures live == old(live) - {block}
    {
      live := live - {block};
    }

    /** `realloc`: a block of another size with the same bytes as far as they fit; null leaves the old one. */
    method Reallocate(block: array<byte>, size: nat) returns (moved: array?<byte>)
      requires block in live
      modifies this
      ensures moved == null ==> Refusals() == old(Refusals()) + 1 && live == old(live)
      ensures moved != null ==> Refusals() == old(Refusals()) && fresh(moved) && moved.Length == size && live == (old(live) - {block}) + {moved}
      ensures moved != null ==> var n := if size < block.Length then size else block.Length; moved[..n] == block[..n]
    {
      moved := Allocate(size);
      if moved != null {
        var n := if size < block.Length then size else block.Length;
        Copy(block, moved, n);
        Deallocate(block);
      }
    }
  }

  method Copy(from: array<byte>, into: array<byte>, n: nat)
    requires n <= from.Length && n <= into.Length && from != into
    modifies into
    ensures into[..n] == from[..n] && into[n..] == old(into[n..])
  {
    for i := 0 to n
      invariant into[..i] == from[..i] && into[n..] == old(into[n..])
    {
      into[i] := from[i];
    }
  }

  // ---------- the buffer ----------

  class PrintBuffer {
    var buffer: array?<byte>
    var length: nat
    var offset: nat
    var depth: nat
    const noalloc: bool
    const format: bool
    const hooks: Hooks

    constructor (block: array<byte>, noalloc: bool, format: bool, hooks: Hooks)
      requires block.Length <= INT_MAX && (!noalloc ==> block in hooks.live)
      requires block.Length == 0 ==> noalloc || hooks.reallocates
      ensures buffer == block && length == block.Length && offset == 0 && depth == 0
      ensures this.noalloc == noalloc && this.format == format && this.hooks == hooks
      ensures Ready()
    {
      buffer, length, offset, depth := block, block.Length, 0, 0;
      this.noalloc, this.format, this.hooks := noalloc, format, hooks;
    }

    ghost predicate Ready()
      reads this, hooks
    {
      && buffer != null && buffer.Length == length <= INT_MAX && (!noalloc ==> buffer in hooks.live)
      && (offset < length || (length == 0 == offset && (noalloc || hooks.reallocates)))
    }

    /** A fixed buffer stays; otherwise the buffer is the only block that has come or gone. */
    twostate predicate Balanced()
      reads this, hooks
    {
      && (noalloc ==> buffer == old(buffer) && length == old(length) && hooks.requests == old(hooks.requests) && hooks.live == old(hooks.live))
      && (buffer == null || buffer == old(buffer) || fresh(buffer))
      && (!noalloc ==> hooks.live == (old(hooks.live) - {old(buffer)}) + (if buffer == null then {} else {buffer}))
    }

    /** The text before the cursor. */
    ghost function Text(): bytes
      requires Ready()
      reads this, hooks, buffer
    {
      buffer[..offset]
    }

    /** Where the text may end at most: the fixed buffer's size, or the largest size supported. */
    ghost function Limit(): nat
      reads this
    {
      if noalloc then length else INT_MAX
    }

    /** The buffer can be written to, and `text` stands before the cursor. */
    ghost predicate At(text: bytes)
      reads this, hooks, buffer
    {
      Ready() && Text() == text
    }

    /** The buffer holds `text` and a NUL behind it, with a byte to spare; the cursor is not past it. */
    ghost predicate Holds(text: bytes)
      reads this, hooks, buffer
    {
      && Ready() && |text| + 2 <= length
      && buffer[..|text|] == text && buffer[|text|] == NUL
      && offset <= |text|
    }

    /** While the buffer is the same block, nothing from position `n` on has been written to. */
    twostate predicate Spares(n: nat)
      reads this, buffer
    {
      buffer != null && buffer == old(buffer) ==> forall i :: n <= i < buffer.Length ==> buffer[i] == old(buffer[i])
    }

    /** Reserves `needed` bytes and one more behind the cursor, growing the buffer if it may grow. */
    method Ensure(needed: nat, ghost front: bytes) returns (ok: bool)
      requires At(front)
      modifies this`buffer, this`length, hooks
      ensures ok ==> At(front) && |front| + needed + 1 <= length && (buffer == old(buffer) || fresh(buffer))
      ensures Balanced()
      ensures ok ==> hooks.Refusals() == old(hooks.Refusals()) && |front| + needed + 1 <= old(Limit())
      ensures !ok ==> hooks.Refusals() > old(hooks.Refusals()) || |front| + needed + 1 > old(Limit())
      ensures ok ==> length == if |front| + needed + 1 <= old(length) then old(length) else if 2 * (|front| + needed + 1) <= INT_MAX then 2 * (|front| + needed + 1) else INT_MAX
    {
      if length > 0 && offset >= length {
        return false;
      }
      if needed > INT_MAX {
        return false;
      }
      var wanted := needed + offset + 1;
      if wanted <= length {
        return true;
      }
      if noalloc {
        return false;
      }
      var newsize;
      if wanted > INT_MAX / 2 {
        if wanted <= INT_MAX {
          newsize := INT_MAX;
        } else {
          return false;
        }
      } else {
        newsize := wanted * 2;
      }
      ok := Grow(newsize, front);
    }

    /** A larger buffer with the same text; when it is refused, the old one is released as well. */
    method Grow(newsize: nat, ghost front: bytes) returns (ok: bool)
      requires At(front) && !noalloc && length < newsize <= INT_MAX
      modifies this`buffer, this`length, hooks
      ensures ok ==> At(front) && length == newsize && fresh(buffer) && hooks.Refusals() == old(hooks.Refusals())
      ensures Balanced()
      ensures !ok ==> hooks.Refusals() > old(hooks.Refusals())
    {
      var newbuffer: array?<byte>;
      if hooks.reallocates {
        newbuffer := hooks.Reallocate(buffer, newsize);
        assert newbuffer != null ==> newbuffer[..offset] == newbuffer[..length][..offset] == buffer[..length][..offset];
      } else {
        newbuffer := hooks.Allocate(newsize);
        if newbuffer != null {
          // the manual copy takes the text and one byte more
          Copy(buffer, newbuffer, offset + 1);
          assert newbuffer[..offset] == newbuffer[..offset + 1][..offset] == buffer[..offset];
          hooks.Deallocate(buffer);
        }
      }
      if newbuffer == null {
        hooks.Deallocate(buffer);
        buffer, length := null, 0;
        return false;
      }
      buffer, length := newbuffer, newsize;
      return true;
    }

    /** Stores `text` behind `front`, inside the reserved region. */
    method Store(at: nat, text: bytes, ghost front: bytes)
      requires Ready() && offset <= at == |front| && at + |text| <= length && buffer[..at] == front
      modifies buffer
      ensures buffer[..at + |text|] == front + text && Spares(at + |text|)
    {
      for i := 0 to |text|
        invariant buffer[..at + i] == front + text[..i] && Spares(at + i)
      {
        buffer[at + i] := text[i];
        assert buffer[..at + i + 1] == (front + text[..i]) + [text[i]];
        assert text[..i + 1] == text[..i] + [text[i]];
      }
      assert text[..|text|] == text;
    }

    /** Moves the cursor to the next NUL, as `strlen` finds it. */
    method UpdateOffset(ghost end: nat)
      requires Ready() && offset <= end < length
      requires buffer[end] == NUL && NUL !in buffer[offset..end]
      modifies this`offset
      ensures offset == end
    {
      ghost var start := offset;
      while buffer[offset] != NUL
        invariant start <= offset <= end
        decreases end - offset
      {
        offset := offset + 1;
      }
      assert forall k :: 0 <= k < end - start ==> buffer[start..end][k] == buffer[start + k];
    }

    /** Whatever was written last, the cursor catches up with the end of the text. */
    method CatchUp(ghost front: bytes, ghost text: bytes)
      requires Holds(front + text) && |front| <= offset && NUL !in text
      modifies this`offset
      ensures At(front + text)
    {
      ghost var end := |front + text|;
      assert buffer[offset..end] == buffer[..end][offset..] == (front + text)[offset..] == text[offset - |front|..];
      UpdateOffset(end);
    }

    /** Reserve, write, and advance: a piece of text in the middle of a value. */
    method Append(text: bytes, needed: nat, terminate: bool, ghost front: bytes) returns (ok: bool)
      requires At(front) && |text| + (if terminate then 1 else 0) <= needed
      modifies this`buffer, this`length, this`offset, this`depth, buffer, hooks
      ensures ok ==> Ready() && (buffer == old(buffer) || fresh(buffer)) && hooks.Refusals() == old(hooks.Refusals()) && depth == old(depth)
      ensures Balanced()
      ensures ok ==> At(front + text) && |front| + needed + 1 <= old(Limit())
      ensures Spares(if ok then |front| + needed else 0)
      ensures !ok ==> hooks.Refusals() > old(hooks.Refusals()) || |front| + needed + 1 > old(Limit())
    {
      ok := Ensure(needed, front);
      if ok {
        Store(offset, text, front);
        if terminate {
          Store(offset + |text|, [NUL], front + text);
          assert buffer[..offset + |text|] == buffer[..offset + |text| + 1][..offset + |text|];
        }
        offset := offset + |text|;
      }
    }

    /** Text that ends a value: a word, a number or a closing bracket, with its NUL. */
    method Finish(text: bytes, advance: bool, ghost front: bytes) returns (ok: bool)
      requires At(front)
      modifies this`buffer, this`length, this`offset, this`depth, buffer, hooks
      ensures ok ==> Ready() && (buffer == old(buffer) || fresh(buffer)) && hooks.Refusals() == old(hooks.Refusals()) && depth == old(depth)
      ensures Balanced()
      ensures ok ==> Holds(front + text) && |front| <= offset && |front| + |text| + 2 <= old(Limit())
      ensures Spares(if ok then |front| + |text| + 1 else 0)
      ensures !ok ==> hooks.Refusals() > old(hooks.Refusals()) || |front| + |text| + 2 > old(Limit())
    {
      ok := Ensure(|text| + 1, front);
      if ok {
        Store(offset, text + [NUL], front);
        WithNul(buffer[..offset + |text| + 1], front, text);
        assert buffer[..offset + |text|] == buffer[..offset + |text| + 1][..offset + |text|];
        if advance {
          offset := offset + |text|;
        }
      }
    }

    static lemma WithNul(now: bytes, front: bytes, text: bytes)
      requires now == front + (text + [NUL])
      ensures now[..|front + text|] == front + text && now[|front + text|] == NUL
    {
    }

    /** The additional bytes that escaping needs. */
    static method CountEscapes(s: bytes) returns (extra: nat)
      ensures |s| + extra == |Escape(s)|
    {
      extra := 0;
      for i := 0 to |s|
        invariant i + extra == |Escape(s[..i])|
      {
        EscapeSnoc(s[..i], s[i]);
        assert s[..i + 1] == s[..i] + [s[i]];
        var c := s[i];
        if c == QUOTE || c == BACKSLASH || c == 8 || c == 12 || c == 10 || c == 13 || c == 9 {
          extra := extra + 1;
        } else if c < 32 {
          extra := extra + 5;
        }
      }
      assert s[..|s|] == s;
    }

    /** A string, or the empty literal when there is none. The cursor stays before it. */
    method PrintString(s: Option<bytes>, ghost front: bytes) returns (ok: bool)
      requires At(front) && (s.Some? ==> NUL !in s.value)
      modifies this`buffer, this`length, this`offset, this`depth, buffer, hooks
      ensures ok ==> Ready() && (buffer == old(buffer) || fresh(buffer)) && hooks.Refusals() == old(hooks.Refusals()) && depth == old(depth)
      ensures Balanced()
      ensures ok ==> Holds(front + NameText(s)) && |front| <= offset && |front| + |NameText(s)| + 2 <= old(Limit())
      ensures Spares(if ok then |front| + |NameText(s)| + 1 else 0)
      ensures !ok ==> hooks.Refusals() > old(hooks.Refusals()) || |front| + |NameText(s)| + 2 > old(Limit())
    {
      if s.None? {
        assert NameText(s) == [QUOTE, QUOTE];
        ok := Finish([QUOTE, QUOTE], false, front);
        return;
      }
      var extra := CountEscapes(s.value);
      ok := Ensure(|s.value| + extra + 3, front);
      if ok {
        StoreString(s.value, extra, front);
      }
    }

    /** A quoted string in reserved space: copied as it is, or escaped byte by byte. */
    method StoreString(s: bytes, extra: nat, ghost front: bytes)
      requires At(front) && |s| + extra == |Escape(s)| && |front| + |Escape(s)| + 4 <= length
      modifies buffer
      ensures Holds(front + StringText(s)) && Spares(|front| + |StringText(s)| + 1)
    {
      hide Escape;
      StoreBody(s, extra, front);
      var at := offset + 1 + |s| + extra;
      Store(at, [QUOTE, NUL], (front + [QUOTE]) + Escape(s));
      StringPieces(front, Escape(s));
      WithNul(buffer[..at + 2], front, StringText(s));
      assert buffer[..at + 1] == buffer[..at + 2][..at + 1];
    }

    /** The opening quote and the string behind it. */
    method StoreBody(s: bytes, extra: nat, ghost front: bytes)
      requires At(front) && |s| + extra == |Escape(s)| && |front| + |Escape(s)| + 4 <= length
      modifies buffer
      ensures buffer[..|front| + 1 + |Escape(s)|] == (front + [QUOTE]) + Escape(s) && Spares(|front| + 1 + |Escape(s)|)
    {
      hide Escape;
      Store(offset, [QUOTE], front);
      if extra == 0 {
        EscapeNothing(s);
        Store(offset + 1, s, front + [QUOTE]);
      } else {
        StoreEscaped(s, front + [QUOTE]);
      }
    }

    static lemma StringPieces(front: bytes, body: bytes)
      ensures ((front + [QUOTE]) + body) + [QUOTE, NUL] == front + (([QUOTE] + body + [QUOTE]) + [NUL])
    {
    }

    /** Behind the opening quote: the string, byte by byte, each with its escape. */
    method StoreEscaped(s: bytes, ghost front: bytes)
      requires Ready() && |front| == offset + 1 && |front| + |Escape(s)| <= length && buffer[..offset + 1] == front
      modifies buffer
      ensures buffer[..offset + 1 + |Escape(s)|] == front + Escape(s) && Spares(|front| + |Escape(s)|)
    {
      var at := offset + 1;
      assert s[..0] == [] && Escape([]) == [] && front + [] == front;
      hide Escape, EscapeByte;
      for i := 0 to |s|
        invariant at == offset + 1 + |Escape(s[..i])| <= length
        invariant buffer[..at] == front + Escape(s[..i]) && Spares(at)
      {
        EscapeSnoc(s[..i], s[i]);
        assert s[..i + 1] == s[..i] + [s[i]];
        EscapeLengthGrows(s, i + 1);
        var piece := EscapeByte(s[i]);
        Store(at, piece, front + Escape(s[..i]));
        Assoc(front, Escape(s[..i]), piece);
        at := at + |piece|;
      }
      assert s[..|s|] == s;
    }

    /** Renders a value at the cursor. It succeeds exactly when its text and two more bytes fit. */
    method PrintValue(v: Value, ghost front: bytes, ghost text: bytes) returns (ok: bool)
      requires At(front) && Printable(v) && text == Render(v, depth, format)
      modifies this`buffer, this`length, this`offset, this`depth, buffer, hooks
      ensures ok ==> Ready() && (buffer == old(buffer) || fresh(buffer)) && hooks.Refusals() == old(hooks.Refusals()) && depth == old(depth)
      ensures Balanced()
      ensures ok ==> Holds(front + text) && |front| <= offset && |front| + |text| + 2 <= old(Limit())
      ensures ok ==> Spares(|front| + |text| + 1)
      ensures !ok ==> hooks.Refusals() > old(hooks.Refusals()) || |front| + |text| + 2 > old(Limit())
      decreases v, 4
    {
      if v.Array? {
        ok := PrintGroup(v.elems, false, [LBRACKET], [RBRACKET], RenderElems(v.elems, depth + 1, format), front, text);
      } else if v.Object? {
        ObjectPieces(NewLine(format), RenderMembers(v.members, depth + 1, format), Indent(depth, format));
        ok := PrintGroup(v.members, true, [LBRACE] + NewLine(format), Indent(depth, format) + [RBRACE],
                         RenderMembers(v.members, depth + 1, format), front, text);
      } else {
        ok := PrintScalar(v, front, text);
      }
    }

    method PrintScalar(v: Value, ghost front: bytes, ghost text: bytes) returns (ok: bool)
      requires At(front) && Printable(v) && !v.Array? && !v.Object? && text == Render(v, depth, format)
      modifies this`buffer, this`length, this`offset, this`depth, buffer, hooks
      ensures ok ==> Ready() && (buffer == old(buffer) || fresh(buffer)) && hooks.Refusals() == old(hooks.Refusals()) && depth == old(depth)
      ensures Balanced()
      ensures ok ==> Holds(front + text) && |front| <= offset && |front| + |text| + 2 <= old(Limit())
      ensures ok ==> Spares(|front| + |text| + 1)
      ensures !ok ==> hooks.Refusals() > old(hooks.Refusals()) || |front| + |text| + 2 > old(Limit())
    {
      if v.Number? {
        ok := Finish(IntText(v.num.Floor), true, front);
      } else if v.String? {
        ok := PrintString(Some(v.text), front);
      } else {
        ok := Finish(if v.Null? then NULL_WORD else if v.False? then FALSE_WORD else TRUE_WORD, false, front);
      }
    }

    static lemma ObjectPieces(nl: bytes, inner: bytes, indent: bytes)
      ensures [LBRACE] + (nl + (inner + indent)) + [RBRACE] == ([LBRACE] + nl) + inner + (indent + [RBRACE])
    {
    }

    static ghost function RenderItems(items: Items, named: bool, depth: nat, fmt: bool): bytes
      requires PrintableItems(items)
    {
      if named then RenderMembers(items, depth, fmt) else RenderElems(items, depth, fmt)
    }

    /** An array or object between the text that opens it and the text that closes it. */
    method PrintGroup(items: Items, named: bool, open: bytes, close: bytes, ghost inner: bytes, ghost front: bytes, ghost text: bytes)
      returns (ok: bool)
      requires At(front) && PrintableItems(items) && |close| > 0
      requires inner == RenderItems(items, named, depth + 1, format) && text == open + inner + close
      modifies this`buffer, this`length, this`offset, this`depth, buffer, hooks
      ensures ok ==> Ready() && (buffer == old(buffer) || fresh(buffer)) && hooks.Refusals() == old(hooks.Refusals()) && depth == old(depth)
      ensures Balanced()
      ensures ok ==> Holds(front + text) && |front| <= offset && |front| + |text| + 2 <= old(Limit())
      ensures ok ==> Spares(|front| + |text| + 1)
      ensures !ok ==> hooks.Refusals() > old(hooks.Refusals()) || |front| + |text| + 2 > old(Limit())
      decreases items, 4
    {
      Bracketed(front, open, inner, close);
      ok := PrintInside(items, named, open, inner, front);
      if ok {
        depth := depth - 1;
        ok := Finish(close, false, (front + open) + inner);
      }
    }

    /** The opening text and the items, one level deeper. */
    method PrintInside(items: Items, named: bool, open: bytes, ghost inner: bytes, ghost front: bytes) returns (ok: bool)
      requires At(front) && PrintableItems(items) && inner == RenderItems(items, named, depth + 1, format)
      modifies this`buffer, this`length, this`offset, this`depth, buffer, hooks
      ensures ok ==> Ready() && (buffer == old(buffer) || fresh(buffer)) && hooks.Refusals() == old(hooks.Refusals()) && depth == old(depth) + 1
      ensures Balanced()
      ensures ok ==> At((front + open) + inner) && Spares(|front| + |open| + |inner| + 1)
      ensures !ok ==> hooks.Refusals() > old(hooks.Refusals()) || |front| + |open| + |inner| + 2 > old(Limit())
      decreases items, 3
    {
      hide RenderItems, PrintableItems;
      // an array reserves one byte less than an object for its bracket
      ok := Append(open, if named then |open| + 1 else |open|, false, front);
      if ok {
        depth := depth + 1;
        ok := PrintItems(items, named, front + open, inner);
      }
    }

    static lemma Bracketed(front: bytes, open: bytes, inner: bytes, close: bytes)
      ensures ((front + open) + inner) + close == front + (open + inner + close)
    {
    }

    /** The loop over the items. */
    method PrintItems(items: Items, named: bool, ghost front: bytes, ghost text: bytes) returns (ok: bool)
      requires At(front) && PrintableItems(items) && text == RenderItems(items, named, depth, format)
      modifies this`buffer, this`length, this`offset, this`depth, buffer, hooks
      ensures ok ==> Ready() && (buffer == old(buffer) || fresh(buffer)) && hooks.Refusals() == old(hooks.Refusals()) && depth == old(depth)
      ensures Balanced()
      ensures ok ==> At(front + text) && Spares(|front| + |text| + 1)
      ensures !ok ==> hooks.Refusals() > old(hooks.Refusals()) || |front| + |text| + 2 > old(Limit())
      decreases items, 2
    {
      hide RenderItems, ItemText;
      var current := items;
      ghost var done: bytes := [];
      Start(front, text);
      ok := true;
      while current.Cons?
        invariant ok && At(front + done) && (buffer == old(buffer) || fresh(buffer)) && PrintableItems(current)
        invariant depth == old(depth) && hooks.Refusals() == old(hooks.Refusals()) && Balanced()
        invariant text == done + RenderItems(current, named, depth, format) && Spares(|front| + |done| + 1)
        invariant current == items || current < items
        decreases current
      {
        ghost var piece := ItemText(current, named, depth, format);
        ItemsText(current, named, depth, format);
        Assoc(done, piece, RenderItems(current.next, named, depth, format));
        Assoc(front, done, piece);
        ok := PrintItem(current, named, front + done, piece);
        if !ok {
          return;
        }
        done := done + piece;
        current := current.next;
      }
      NoItems(named, depth, format);
      Start(done, text);
    }

    static lemma NoItems(named: bool, depth: nat, fmt: bool)
      ensures RenderItems(Nil, named, depth, fmt) == []
    {
    }

    method PrintItem(xs: Items, named: bool, ghost front: bytes, ghost text: bytes) returns (ok: bool)
      requires At(front) && xs.Cons? && PrintableItems(xs) && text == ItemText(xs, named, depth, format)
      modifies this`buffer, this`length, this`offset, this`depth, buffer, hooks
      ensures ok ==> Ready() && (buffer == old(buffer) || fresh(buffer)) && hooks.Refusals() == old(hooks.Refusals()) && depth == old(depth)
      ensures Balanced()
      ensures ok ==> At(front + text) && Spares(|front| + |text| + 1)
      ensures !ok ==> hooks.Refusals() > old(hooks.Refusals()) || |front| + |text| + 2 > old(Limit())
      decreases xs, 1
    {
      if named {
        ok := PrintMember(xs, front, text);
      } else {
        ok := PrintElement(xs, front, text);
      }
    }

    static lemma Start(a: bytes, b: bytes)
      ensures a + [] == a && [] + b == b
    {
    }

    /** One item and what separates it from the next. */
    static ghost function ItemText(xs: Items, named: bool, depth: nat, fmt: bool): bytes
      requires xs.Cons? && PrintableItems(xs)
    {
      if named then
        LabelText(xs.name, depth, fmt) + (Render(xs.value, depth, fmt) + MemberEnd(xs.next, fmt))
      else
        Render(xs.value, depth, fmt) + (if xs.next.Cons? then CommaText(fmt) else [])
    }

    static ghost function LabelText(name: Option<bytes>, depth: nat, fmt: bool): bytes {
      Indent(depth, fmt) + (NameText(name) + ColonText(fmt))
    }

    static lemma ItemsText(xs: Items, named: bool, depth: nat, fmt: bool)
      requires xs.Cons? && PrintableItems(xs)
      ensures RenderItems(xs, named, depth, fmt) == ItemText(xs, named, depth, fmt) + RenderItems(xs.next, named, depth, fmt)
    {
      if named {
        MemberPieces(Indent(depth, fmt), NameText(xs.name), ColonText(fmt), Render(xs.value, depth, fmt),
                     MemberEnd(xs.next, fmt), RenderMembers(xs.next, depth, fmt));
      } else {
        var sep: bytes := if xs.next.Cons? then CommaText(fmt) else [];
        Assoc(Render(xs.value, depth, fmt), sep, RenderElems(xs.next, depth, fmt));
        assert ElemsTail(xs.next, depth, fmt) == sep + RenderElems(xs.next, depth, fmt);
      }
    }

    static lemma MemberPieces(a: bytes, b: bytes, c: bytes, d: bytes, e: bytes, r: bytes)
      ensures a + (b + (c + (d + (e + r)))) == ((a + (b + c)) + (d + e)) + r
    {
    }

    /** One array element and the comma behind it. */
    method PrintElement(xs: Items, ghost front: bytes, ghost text: bytes) returns (ok: bool)
      requires At(front) && xs.Cons? && PrintableItems(xs) && text == ItemText(xs, false, depth, format)
      modifies this`buffer, this`length, this`offset, this`depth, buffer, hooks
      ensures ok ==> Ready() && (buffer == old(buffer) || fresh(buffer)) && hooks.Refusals() == old(hooks.Refusals()) && depth == old(depth)
      ensures Balanced()
      ensures ok ==> At(front + text) && Spares(|front| + |text| + 1)
      ensures !ok ==> hooks.Refusals() > old(hooks.Refusals()) || |front| + |text| + 2 > old(Limit())
      decreases xs, 0
    {
      ghost var shown := Render(xs.value, depth, format);
      Start(shown, []);
      ok := PrintInner(xs.value, front, shown);
      if ok && xs.next.Cons? {
        Assoc(front, shown, CommaText(format));
        ok := Append(CommaText(format), |CommaText(format)| + 1, true, front + shown);
      }
    }

    /** A value inside a container: the cursor catches up with it. */
    method PrintInner(v: Value, ghost front: bytes, ghost text: bytes) returns (ok: bool)
      requires At(front) && Printable(v) && text == Render(v, depth, format)
      modifies this`buffer, this`length, this`offset, this`depth, buffer, hooks
      ensures ok ==> Ready() && (buffer == old(buffer) || fresh(buffer)) && hooks.Refusals() == old(hooks.Refusals()) && depth == old(depth)
      ensures Balanced()
      ensures ok ==> At(front + text) && Spares(|front| + |text| + 1)
      ensures !ok ==> hooks.Refusals() > old(hooks.Refusals()) || |front| + |text| + 2 > old(Limit())
      decreases v, 5
    {
      RenderIsClean(v, depth, format);
      ok := PrintValue(v, front, text);
      if ok {
        CatchUp(front, text);
      }
    }

    method PrintMember(xs: Items, ghost front: bytes, ghost text: bytes) returns (ok: bool)
      requires At(front) && xs.Cons? && PrintableItems(xs) && text == ItemText(xs, true, depth, format)
      modifies this`buffer, this`length, this`offset, this`depth, buffer, hooks
      ensures ok ==> Ready() && (buffer == old(buffer) || fresh(buffer)) && hooks.Refusals() == old(hooks.Refusals()) && depth == old(depth)
      ensures Balanced()
      ensures ok ==> At(front + text) && Spares(|front| + |text| + 1)
      ensures !ok ==> hooks.Refusals() > old(hooks.Refusals()) || |front| + |text| + 2 > old(Limit())
      decreases xs, 0
    {
      ghost var name := LabelText(xs.name, depth, format);
      ghost var shown := Render(xs.value, depth, format);
      var end := MemberEnd(xs.next, format);
      MemberLayout(front, name, shown, end);
      ok := PrintLabel(xs.name, front, name);
      if !ok {
        return;
      }
      ok := PrintInner(xs.value, front + name, shown);
      if !ok {
        return;
      }
      ok := Append(end, |end| + 1, true, (front + name) + shown);
    }

    static lemma MemberLayout(front: bytes, name: bytes, shown: bytes, end: bytes)
      ensures ((front + name) + shown) + end == front + (name + (shown + end))
    {
    }

    /** Indentation, name and colon. */
    method PrintLabel(name: Option<bytes>, ghost front: bytes, ghost text: bytes) returns (ok: bool)
      requires At(front) && (name.Some? ==> NUL !in name.value) && text == LabelText(name, depth, format)
      modifies this`buffer, this`length, this`offset, this`depth, buffer, hooks
      ensures ok ==> Ready() && (buffer == old(buffer) || fresh(buffer)) && hooks.Refusals() == old(hooks.Refusals()) && depth == old(depth)
      ensures Balanced()
      ensures ok ==> At(front + text) && Spares(|front| + |text| + 1)
      ensures !ok ==> hooks.Refusals() > old(hooks.Refusals()) || |front| + |text| + 1 > old(Limit())
    {
      ghost var indent := Indent(depth, format);
      MemberLayout(front, indent, NameText(name), ColonText(format));
      Start(front, []);
      if format {
        ok := Append(Tabs(depth), depth, false, front);
        if !ok {
          return;
        }
      }
      NameIsClean(name);
      ok := PrintString(name, front + indent);
      if !ok {
        return;
      }
      CatchUp(front + indent, NameText(name));
      ok := Append(ColonText(format), |ColonText(format)|, false, (front + indent) + NameText(name));
    }
  }

  // ---------- the entry points ----------

  /**
   `cJSON_PrintPreallocated`: succeeds exactly when the buffer is at least two bytes longer
   than the text, and then holds the text as a C string; the bytes behind the terminator are
   as they were.
   */
  method PrintPreallocated(v: Value, block: array<byte>, format: bool) returns (ok: bool)
    requires Printable(v) && block.Length <= INT_MAX
    modifies block
    ensures ok <==> |Render(v, 0, format)| + 2 <= block.Length
    ensures ok ==> CString(block[..]) == Render(v, 0, format)
    ensures ok ==> forall i :: |Render(v, 0, format)| < i < block.Length ==> block[i] == old(block[i])
  {
    var hooks := new Hooks(_ => false, false);
    var p := new PrintBuffer(block, true, format, hooks);
    ok := p.PrintValue(v, [], Render(v, 0, format));
    if ok {
      RenderIsClean(v, 0, format);
      HeldText(block[..], Render(v, 0, format));
    }
  }

  lemma HeldText(now: bytes, text: bytes)
    requires |text| < |now| && now[..|text|] == [] + text && now[|text|] == NUL && NUL !in text
    ensures CString(now) == text
  {
    assert now == text + [NUL] + now[|text| + 1..];
    CStringTerminated(text, now[|text| + 1..]);
  }

  /**
   `cJSON_Print` and `cJSON_PrintUnformatted`: the text in a block of its own size. The text
   depends neither on the buffer's growth nor on how it grows, and nothing but a refused
   request of this call or the size limit makes it fail. Success leaves exactly one block
   more, failure none.
   */
  method Print(v: Value, format: bool, hooks: Hooks) returns (printed: array?<byte>)
    requires Printable(v)
    modifies hooks
    ensures printed != null ==> fresh(printed) && printed[..] == Render(v, 0, format) + [NUL]
    ensures printed != null ==> hooks.live == old(hooks.live) + {printed} && hooks.Refusals() == old(hooks.Refusals())
    ensures printed == null ==> hooks.live == old(hooks.live)
    ensures printed == null ==> hooks.Refusals() > old(hooks.Refusals()) || |Render(v, 0, format)| + 2 > INT_MAX
    ensures |Render(v, 0, format)| + 2 > INT_MAX ==> printed == null
  {
    var block := hooks.Allocate(256);
    if block == null {
      return null;
    }
    var p := new PrintBuffer(block, false, format, hooks);
    ghost var text := Render(v, 0, format);
    var ok := p.PrintValue(v, [], text);
    if !ok {
      if p.buffer != null {
        hooks.Deallocate(p.buffer);
      }
      return null;
    }
    RenderIsClean(v, 0, format);
    assert [] + text == text;
    p.CatchUp([], text);
    printed := Trim(hooks, p.buffer, p.offset, text);
  }

  /** The text in a block of exactly its size; the buffer is released either way. */
  method Trim(hooks: Hooks, buffer: array<byte>, offset: nat, ghost text: bytes) returns (printed: array?<byte>)
    requires buffer in hooks.live && offset == |text| < buffer.Length && buffer[..offset] == text && buffer[offset] == NUL
    modifies hooks
    ensures printed == null ==> hooks.live == old(hooks.live) - {buffer} && hooks.Refusals() > old(hooks.Refusals())
    ensures printed != null ==> fresh(printed) && hooks.live == (old(hooks.live) - {buffer}) + {printed}
    ensures printed != null ==> hooks.Refusals() == old(hooks.Refusals()) && printed[..] == text + [NUL]
  {
    if hooks.reallocates {
      printed := hooks.Reallocate(buffer, offset + 1);
    } else {
      printed := hooks.Allocate(offset + 1);
      if printed != null {
        Copy(buffer, printed, offset + 1);
        printed[offset] := NUL;
        hooks.Deallocate(buffer);
      }
    }
    if printed == null {
      hooks.Deallocate(buffer);
    } else {
      assert buffer[..offset + 1] == text + [NUL];
      assert printed[..] == printed[..offset + 1];
    }
  }
}
