/** Parsing what was printed: formatted or not, the text is the text of a tree with the same value. */
module RoundTrip {
  import opened Base
  import opened Values
  import opened Numbers
  import opened StringLiterals
  import opened Parser
  import opened Grammar
  import opened Language
  import opened Renderer

  lemma {:induction false} PlainIsPrintable(v: Value)
    requires Plain(v)
    ensures Printable(v)
  {
    match v
    case Array(elems) => PlainItemsArePrintable(elems, false);
    case Object(members) => PlainItemsArePrintable(members, true);
    case _ =>
  }

  lemma {:induction false} PlainItemsArePrintable(xs: Items, named: bool)
    requires PlainItems(xs, named)
    ensures PrintableItems(xs)
  {
    if xs.Cons? {
      PlainIsPrintable(xs.value);
      PlainItemsArePrintable(xs.next, named);
    }
  }

  // ---------- the tree of a printed value ----------

  function TreeOf(v: Value, depth: nat, fmt: bool): Tree
    requires Plain(v)
  {
    match v
    case Null => Word(Null)
    case False => Word(False)
    case True => Word(True)
    case Number(d) => Num(IntText(d.Floor))
    case String(s) => Text(Escape(s))
    case Array(elems) => Group(false, [], ElemsOf(elems, depth + 1, fmt, []))
    case Object(members) =>
      if members.Nil? then Group(true, NewLine(fmt) + Indent(depth, fmt), End)
      else Group(true, [], MembersOf(members, depth + 1, fmt))
  }

  /** Array elements; `lead` is the space a formatted comma brings. */
  function ElemsOf(xs: Items, depth: nat, fmt: bool, lead: bytes): Elems
    requires PlainItems(xs, false)
  {
    match xs
    case Nil => End
    case Cons(_, v, next) =>
      Elem(lead, None, TreeOf(v, depth, fmt), [], ElemsOf(next, depth, fmt, if fmt then [SPACE] else []))
  }

  /** Object members, each led by its line break and indentation; the last is trailed by the bracket's. */
  function MembersOf(xs: Items, depth: nat, fmt: bool): Elems
    requires PlainItems(xs, true) && depth > 0
  {
    match xs
    case Nil => End
    case Cons(name, v, next) =>
      Elem(NewLine(fmt) + Indent(depth, fmt),
           Some(Label(Escape(name.value), [], if fmt then [TAB] else [])),
           TreeOf(v, depth, fmt),
           if next.Nil? then NewLine(fmt) + Indent(depth - 1, fmt) else [],
           MembersOf(next, depth, fmt))
  }

  lemma TextMeaning(s: bytes)
    requires NUL !in s
    ensures IsStringBody(Escape(s)) && StringMeaning(Escape(s)) == s
  {
    EscapeReadsBack(s);
    CStringOfClean(s);
  }

  lemma {:induction false} TreeOfMeans(v: Value, depth: nat, fmt: bool)
    requires Plain(v)
    ensures WellFormed(TreeOf(v, depth, fmt)) && Meaning(TreeOf(v, depth, fmt)) == v
    decreases v
  {
    match v
    case Number(d) => IntTextReadsBack(d.Floor);
    case String(s) => TextMeaning(s);
    case Array(elems) => ElemsOfMean(elems, depth + 1, fmt, []);
    case Object(members) => if members.Cons? { MembersOfMean(members, depth + 1, fmt); }
    case _ =>
  }

  lemma {:induction false} ElemsOfMean(xs: Items, depth: nat, fmt: bool, lead: bytes)
    requires PlainItems(xs, false) && Blanks(lead)
    ensures WellFormedElems(ElemsOf(xs, depth, fmt, lead), false)
    ensures MeaningElems(ElemsOf(xs, depth, fmt, lead), false) == xs
    decreases xs
  {
    if xs.Cons? {
      TreeOfMeans(xs.value, depth, fmt);
      ElemsOfMean(xs.next, depth, fmt, if fmt then [SPACE] else []);
    }
  }

  lemma {:induction false} MembersOfMean(xs: Items, depth: nat, fmt: bool)
    requires PlainItems(xs, true) && depth > 0
    ensures WellFormedElems(MembersOf(xs, depth, fmt), true)
    ensures MeaningElems(MembersOf(xs, depth, fmt), true) == xs
    decreases xs
  {
    if xs.Cons? {
      TextMeaning(xs.name.value);
      TreeOfMeans(xs.value, depth, fmt);
      MembersOfMean(xs.next, depth, fmt);
    }
  }

  // ---------- its text is the printed text ----------

  lemma {:induction false} FlattenIsRender(v: Value, depth: nat, fmt: bool)
    requires Plain(v)
    ensures Printable(v) && WellFormed(TreeOf(v, depth, fmt))
    ensures Flatten(TreeOf(v, depth, fmt)) == Render(v, depth, fmt)
    decreases v, 1
  {
    PlainIsPrintable(v);
    TreeOfMeans(v, depth, fmt);
    match v
    case Array(elems) =>
      ElemsOfMean(elems, depth + 1, fmt, []);
      ElemsAreRender(elems, depth + 1, fmt, []);
      EmptyFront(RenderElems(elems, depth + 1, fmt));
    case Object(members) => ObjectIsRender(v, depth, fmt);
    case _ =>
  }

  lemma {:induction false} ObjectIsRender(v: Value, depth: nat, fmt: bool)
    requires Plain(v) && Printable(v) && v.Object? && WellFormed(TreeOf(v, depth, fmt))
    ensures Flatten(TreeOf(v, depth, fmt)) == Render(v, depth, fmt)
    decreases v, 0
  {
    if v.members.Nil? {
      EmptyObjectText(depth, fmt);
    } else {
      MembersOfMean(v.members, depth + 1, fmt);
      MembersAreRender(v.members, depth + 1, fmt);
      EmptyFront(FlattenElems(MembersOf(v.members, depth + 1, fmt), true));
    }
  }

  lemma EmptyFront(s: bytes)
    ensures [] + s == s
  {
  }

  lemma EmptyObjectText(depth: nat, fmt: bool)
    ensures NewLine(fmt) + ([] + Indent(depth, fmt)) == (NewLine(fmt) + Indent(depth, fmt)) + []
  {
  }

  lemma {:induction false} ElemsAreRender(xs: Items, depth: nat, fmt: bool, lead: bytes)
    requires PlainItems(xs, false) && Blanks(lead) && PrintableItems(xs)
    requires xs.Nil? ==> lead == []
    requires WellFormedElems(ElemsOf(xs, depth, fmt, lead), false)
    ensures FlattenElems(ElemsOf(xs, depth, fmt, lead), false) == lead + RenderElems(xs, depth, fmt)
    decreases xs, 0
  {
    if xs.Cons? {
      FlattenIsRender(xs.value, depth, fmt);
      var es := ElemsOf(xs, depth, fmt, lead);
      EmptyFront(Flatten(es.tree) + ([] + TailText(es.more, false)));
      EmptyFront(TailText(es.more, false));
      if xs.next.Cons? {
        var space: bytes := if fmt then [SPACE] else [];
        ElemsOfMean(xs.next, depth, fmt, space);
        ElemsAreRender(xs.next, depth, fmt, space);
        Assoc([COMMA], space, RenderElems(xs.next, depth, fmt));
        assert CommaText(fmt) == [COMMA] + space;
      }
    }
  }

  lemma {:induction false} MembersAreRender(xs: Items, depth: nat, fmt: bool)
    requires xs.Cons? && PlainItems(xs, true) && depth > 0 && PrintableItems(xs)
    requires WellFormedElems(MembersOf(xs, depth, fmt), true)
    ensures FlattenElems(MembersOf(xs, depth, fmt), true) ==
            NewLine(fmt) + (RenderMembers(xs, depth, fmt) + Indent(depth - 1, fmt))
    decreases xs, 0
  {
    FlattenIsRender(xs.value, depth, fmt);
    if xs.next.Cons? { MembersAreRender(xs.next, depth, fmt); }
    MemberLayout(NewLine(fmt), Indent(depth, fmt), NameText(xs.name), if fmt then [TAB] else [],
                 Render(xs.value, depth, fmt), RenderMembers(xs.next, depth, fmt), Indent(depth - 1, fmt), xs.next.Cons?);
    MemberFlattens(MembersOf(xs, depth, fmt), xs, depth, fmt);
    MemberRenders(xs, depth, fmt);
  }

  lemma MemberFlattens(es: Elems, xs: Items, depth: nat, fmt: bool)
    requires xs.Cons? && PlainItems(xs, true) && depth > 0 && es == MembersOf(xs, depth, fmt) && WellFormedElems(es, true)
    ensures FlattenElems(es, true) ==
            (NewLine(fmt) + Indent(depth, fmt))
            + ((NameText(xs.name) + [] + [COLON] + (if fmt then [TAB] else []))
            + (Flatten(es.tree)
            + (if xs.next.Cons? then [] + ([COMMA] + FlattenElems(es.more, true))
               else (NewLine(fmt) + Indent(depth - 1, fmt)) + [])))
  {
  }

  lemma MemberRenders(xs: Items, depth: nat, fmt: bool)
    requires xs.Cons? && PrintableItems(xs)
    ensures RenderMembers(xs, depth, fmt) ==
            Indent(depth, fmt) + (NameText(xs.name) + (([COLON] + (if fmt then [TAB] else [])) + (Render(xs.value, depth, fmt)
            + (((if xs.next.Cons? then [COMMA] else []) + NewLine(fmt)) + RenderMembers(xs.next, depth, fmt)))))
  {
    assert ColonText(fmt) == [COLON] + (if fmt then [TAB] else []);
  }

  /** The same member, with its line break counted to the front or to the back. */
  lemma MemberLayout(nl: bytes, indent: bytes, name: bytes, tab: bytes, value: bytes, rest: bytes, outdent: bytes, comma: bool)
    requires !comma ==> rest == []
    ensures (nl + indent) + ((name + [] + [COLON] + tab) + (value
            + (if comma then [] + ([COMMA] + (nl + (rest + outdent))) else (nl + outdent) + [])))
            == nl + ((indent + (name + (([COLON] + tab) + (value
            + (((if comma then [COMMA] else []) + nl) + rest))))) + outdent)
  {
    var mid := ((if comma then [COMMA] else []) + nl) + rest;
    var tail := if comma then [] + ([COMMA] + (nl + (rest + outdent))) else (nl + outdent) + [];
    TailLayout(nl, rest, outdent, comma);
    LabelLayout(name, tab);
    LayoutInner(nl, indent, name, [COLON] + tab, value, mid, outdent);
  }

  lemma TailLayout(nl: bytes, rest: bytes, outdent: bytes, comma: bool)
    requires !comma ==> rest == []
    ensures (if comma then [] + ([COMMA] + (nl + (rest + outdent))) else (nl + outdent) + [])
            == (((if comma then [COMMA] else []) + nl) + rest) + outdent
  {
  }

  lemma LabelLayout(name: bytes, tab: bytes)
    ensures name + [] + [COLON] + tab == name + ([COLON] + tab)
  {
  }

  lemma LayoutInner(nl: bytes, indent: bytes, name: bytes, colon: bytes, value: bytes, mid: bytes, outdent: bytes)
    ensures (nl + indent) + ((name + colon) + (value + (mid + outdent)))
            == nl + ((indent + (name + (colon + (value + mid)))) + outdent)
  {
  }

  // ---------- the theorem ----------

  /** The printed text of `v`, as the NUL-terminated buffer that is parsed. */
  function Printed(v: Value, fmt: bool): bytes
    requires Printable(v)
  {
    Render(v, 0, fmt) + [NUL]
  }

  /** Printing then parsing gives the value back exactly when its containers nest within the limit. */
  lemma PrintThenParse(v: Value, fmt: bool)
    requires Plain(v)
    ensures Printable(v) && Terminated(Printed(v, fmt))
    ensures if Nesting(v) <= NESTING_LIMIT
            then ParseDocument(Printed(v, fmt), true) == Ok(v, [NUL])
            else ParseDocument(Printed(v, fmt), true).Fail?
  {
    var t := TreeOf(v, 0, fmt);
    TreeOfMeans(v, 0, fmt);
    FlattenIsRender(v, 0, fmt);
    DepthIsNesting(t);
    CompleteDocument([], [], t, [NUL]);
    EmptyFront(Printed(v, fmt));
    EmptyFront([] + Printed(v, fmt));
  }
}
