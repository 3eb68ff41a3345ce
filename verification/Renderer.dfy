/** The text that printing produces, as a function of the value, the depth and the format flag. */
module Renderer {
  import opened Base
  import opened Values
  import opened Numbers
  import opened StringLiterals
  import opened Parser

  /** 32-bit integers and NUL-free strings; names may be missing, as in C. */
  predicate Printable(v: Value) {
    match v
    case Number(d) => IsInt32(d)
    case String(s) => NUL !in s
    case Array(elems) => PrintableItems(elems)
    case Object(members) => PrintableItems(members)
    case _ => true
  }

  predicate PrintableItems(xs: Items) {
    match xs
    case Nil => true
    case Cons(name, v, next) => (name.Some? ==> NUL !in name.value) && Printable(v) && PrintableItems(next)
  }

  function Tabs(n: nat): (t: bytes)
    ensures |t| == n && forall i :: 0 <= i < n ==> t[i] == TAB
  {
    if n == 0 then [] else [TAB] + Tabs(n - 1)
  }

  function Indent(n: nat, fmt: bool): bytes { if fmt then Tabs(n) else [] }
  function NewLine(fmt: bool): bytes { if fmt then [NEWLINE] else [] }
  function CommaText(fmt: bool): bytes { if fmt then [COMMA, SPACE] else [COMMA] }
  function ColonText(fmt: bool): bytes { if fmt then [COLON, TAB] else [COLON] }

  function StringText(s: bytes): bytes { [QUOTE] + Escape(s) + [QUOTE] }

  /** A missing name prints like an empty one. */
  function NameText(name: Option<bytes>): bytes {
    StringText(if name.Some? then name.value else [])
  }

  function Render(v: Value, depth: nat, fmt: bool): (t: bytes)
    requires Printable(v)
    decreases v, 1
  {
    match v
    case Null => NULL_WORD
    case False => FALSE_WORD
    case True => TRUE_WORD
    case Number(d) => IntText(d.Floor)
    case String(s) => StringText(s)
    case Array(elems) => [LBRACKET] + RenderElems(elems, depth + 1, fmt) + [RBRACKET]
    case Object(members) =>
      [LBRACE] + (NewLine(fmt) + (RenderMembers(members, depth + 1, fmt) + Indent(depth, fmt))) + [RBRACE]
  }

  function RenderElems(xs: Items, depth: nat, fmt: bool): bytes
    requires PrintableItems(xs)
    decreases xs, 0
  {
    match xs
    case Nil => []
    case Cons(_, v, next) => Render(v, depth, fmt) + ElemsTail(next, depth, fmt)
  }

  function ElemsTail(next: Items, depth: nat, fmt: bool): bytes
    requires PrintableItems(next)
    decreases next, 1
  {
    if next.Nil? then [] else CommaText(fmt) + RenderElems(next, depth, fmt)
  }

  function RenderMembers(xs: Items, depth: nat, fmt: bool): bytes
    requires PrintableItems(xs)
    decreases xs, 0
  {
    match xs
    case Nil => []
    case Cons(name, v, next) =>
      Indent(depth, fmt) + (NameText(name) + (ColonText(fmt) + (Render(v, depth, fmt)
      + (MemberEnd(next, fmt) + RenderMembers(next, depth, fmt)))))
  }

  function MemberEnd(next: Items, fmt: bool): bytes {
    (if next.Cons? then [COMMA] else []) + NewLine(fmt)
  }
}
