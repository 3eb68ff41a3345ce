/**
 The layout of printed texts, byte by byte. Unformatted text has no blank outside its literals.
 Formatted text puts each member on a line of its own, behind as many tabs as containers are
 open around it, its closing brace behind one tab fewer, one space behind an array's comma,
 one tab behind a colon, and no other blank.
 */
module Layout {
  import opened Base
  import opened Values
  import opened Numbers
  import opened StringLiterals
  import opened Parser
  import opened Grammar
  import opened Renderer
  import opened RoundTrip

  predicate Compact(t: Tree) { t.Group? ==> t.pad == [] && CompactElems(t.elems) }

  predicate CompactElems(es: Elems) {
    es.Elem? ==>
      && es.lead == [] && es.trail == [] && (es.tag.Some? ==> es.tag.value.before == [] && es.tag.value.after == [])
      && Compact(es.tree) && CompactElems(es.more)
  }

  /** A line break and then so many tabs. */
  predicate Breaks(w: bytes, tabs: nat) { |w| == 1 + tabs && w[0] == 10 && forall i :: 1 <= i <= tabs ==> w[i] == 9 }

  /** Formatted, with so many containers open around it. */
  predicate Laid(t: Tree, around: nat) {
    t.Group? ==>
      && (if t.named && t.elems.End? then Breaks(t.pad, around) else t.pad == [])
      && (if t.named then LaidMembers(t.elems, around + 1) else LaidElements(t.elems, around + 1, true))
  }

  predicate LaidMembers(es: Elems, around: nat)
    requires around > 0
  {
    es.Elem? ==>
      && Breaks(es.lead, around) && (if es.more.End? then Breaks(es.trail, around - 1) else es.trail == [])
      && (es.tag.Some? ==> es.tag.value.before == [] && es.tag.value.after == [9])
      && Laid(es.tree, around) && LaidMembers(es.more, around)
  }

  predicate LaidElements(es: Elems, around: nat, first: bool) {
    es.Elem? ==>
      && es.lead == (if first then [] else [32]) && es.trail == []
      && Laid(es.tree, around) && LaidElements(es.more, around, false)
  }

  predicate LaidOut(t: Tree, around: nat, fmt: bool) { if fmt then Laid(t, around) else Compact(t) }

  /** Literals as the printer spells them: decimal integers, and strings with the escapes they need. */
  predicate Spelled(t: Tree)
    requires WellFormed(t)
  {
    match t
    case Word(_) => true
    case Num(literal) => literal == IntText(DecimalValue(literal).Floor)
    case Text(body) => body == Escape(StringMeaning(body))
    case Group(named, _, elems) => SpelledElems(elems, named)
  }

  predicate SpelledElems(es: Elems, named: bool)
    requires WellFormedElems(es, named)
  {
    es.Elem? ==>
      && (es.tag.Some? ==> es.tag.value.body == Escape(StringMeaning(es.tag.value.body)))
      && Spelled(es.tree) && SpelledElems(es.more, named)
  }

  // ---------- the printed text is laid out so ----------

  lemma {:induction false} TreeIsLaidOut(v: Value, depth: nat, fmt: bool)
    requires Plain(v)
    ensures LaidOut(TreeOf(v, depth, fmt), depth, fmt)
    decreases v
  {
    match v
    case Array(elems) => ElementsAreLaidOut(elems, depth + 1, fmt, []);
    case Object(members) => if members.Cons? { MembersAreLaidOut(members, depth + 1, fmt); }
    case _ =>
  }

  lemma {:induction false} ElementsAreLaidOut(xs: Items, depth: nat, fmt: bool, lead: bytes)
    requires PlainItems(xs, false) && lead in [[], if fmt then [32] else []]
    ensures fmt ==> LaidElements(ElemsOf(xs, depth, fmt, lead), depth, lead == [])
    ensures !fmt ==> CompactElems(ElemsOf(xs, depth, fmt, lead))
    decreases xs
  {
    if xs.Cons? {
      TreeIsLaidOut(xs.value, depth, fmt);
      ElementsAreLaidOut(xs.next, depth, fmt, if fmt then [SPACE] else []);
    }
  }

  lemma {:induction false} MembersAreLaidOut(xs: Items, depth: nat, fmt: bool)
    requires PlainItems(xs, true) && depth > 0
    ensures fmt ==> LaidMembers(MembersOf(xs, depth, fmt), depth)
    ensures !fmt ==> CompactElems(MembersOf(xs, depth, fmt))
    decreases xs
  {
    if xs.Cons? {
      TreeIsLaidOut(xs.value, depth, fmt);
      MembersAreLaidOut(xs.next, depth, fmt);
    }
  }

  lemma {:induction false} TreeIsSpelled(v: Value, depth: nat, fmt: bool)
    requires Plain(v)
    ensures WellFormed(TreeOf(v, depth, fmt)) && Spelled(TreeOf(v, depth, fmt))
    decreases v
  {
    TreeOfMeans(v, depth, fmt);
    match v
    case Number(d) => IntTextReadsBack(d.Floor);
    case String(s) => TextMeaning(s);
    case Array(elems) => ElementsAreSpelled(elems, depth + 1, fmt, []);
    case Object(members) => if members.Cons? { MembersAreSpelled(members, depth + 1, fmt); }
    case _ =>
  }

  lemma {:induction false} ElementsAreSpelled(xs: Items, depth: nat, fmt: bool, lead: bytes)
    requires PlainItems(xs, false) && Blanks(lead)
    ensures WellFormedElems(ElemsOf(xs, depth, fmt, lead), false) && SpelledElems(ElemsOf(xs, depth, fmt, lead), false)
    decreases xs
  {
    ElemsOfMean(xs, depth, fmt, lead);
    if xs.Cons? {
      TreeIsSpelled(xs.value, depth, fmt);
      ElementsAreSpelled(xs.next, depth, fmt, if fmt then [SPACE] else []);
    }
  }

  lemma {:induction false} MembersAreSpelled(xs: Items, depth: nat, fmt: bool)
    requires PlainItems(xs, true) && depth > 0
    ensures WellFormedElems(MembersOf(xs, depth, fmt), true) && SpelledElems(MembersOf(xs, depth, fmt), true)
    decreases xs
  {
    MembersOfMean(xs, depth, fmt);
    if xs.Cons? {
      TextMeaning(xs.name.value);
      TreeIsSpelled(xs.value, depth, fmt);
      MembersAreSpelled(xs.next, depth, fmt);
    }
  }

  // ---------- and nothing else is ----------

  lemma SameBreaks(w: bytes, w': bytes, tabs: nat)
    requires Breaks(w, tabs) && Breaks(w', tabs)
    ensures w == w'
  {
  }

  /** Layout, spelling and value determine the tree. */
  lemma {:induction false} OneLayout(t: Tree, t': Tree, around: nat, fmt: bool)
    requires WellFormed(t) && WellFormed(t') && Meaning(t) == Meaning(t') && Spelled(t) && Spelled(t')
    requires LaidOut(t, around, fmt) && LaidOut(t', around, fmt)
    ensures t == t'
    decreases t
  {
    if t.Group? {
      if !fmt {
        OneCompact(t.elems, t'.elems, t.named);
      } else if t.named {
        OneMembers(t.elems, t'.elems, around + 1);
        if t.elems.End? {
          SameBreaks(t.pad, t'.pad, around);
        }
      } else {
        OneElements(t.elems, t'.elems, around + 1, true);
      }
    }
  }

  lemma {:induction false} OneCompact(es: Elems, es': Elems, named: bool)
    requires WellFormedElems(es, named) && WellFormedElems(es', named) && MeaningElems(es, named) == MeaningElems(es', named)
    requires SpelledElems(es, named) && SpelledElems(es', named) && CompactElems(es) && CompactElems(es')
    ensures es == es'
    decreases es
  {
    if es.Elem? {
      OneLayout(es.tree, es'.tree, 0, false);
      OneCompact(es.more, es'.more, named);
    }
  }

  lemma {:induction false} OneMembers(es: Elems, es': Elems, around: nat)
    requires WellFormedElems(es, true) && WellFormedElems(es', true) && MeaningElems(es, true) == MeaningElems(es', true)
    requires SpelledElems(es, true) && SpelledElems(es', true) && around > 0 && LaidMembers(es, around) && LaidMembers(es', around)
    ensures es == es'
    decreases es
  {
    if es.Elem? {
      OneLayout(es.tree, es'.tree, around, true);
      OneMembers(es.more, es'.more, around);
      SameBreaks(es.lead, es'.lead, around);
      if es.more.End? {
        SameBreaks(es.trail, es'.trail, around - 1);
      }
    }
  }

  lemma {:induction false} OneElements(es: Elems, es': Elems, around: nat, first: bool)
    requires WellFormedElems(es, false) && WellFormedElems(es', false) && MeaningElems(es, false) == MeaningElems(es', false)
    requires SpelledElems(es, false) && SpelledElems(es', false) && LaidElements(es, around, first) && LaidElements(es', around, first)
    ensures es == es'
    decreases es
  {
    if es.Elem? {
      OneLayout(es.tree, es'.tree, around, true);
      OneElements(es.more, es'.more, around, false);
    }
  }

  // ---------- the theorems ----------

  /** What is printed is the text of a tree of the value that is laid out as the format says. */
  lemma PrintedIsLaidOut(v: Value, fmt: bool) returns (t: Tree)
    requires Plain(v)
    ensures WellFormed(t) && Meaning(t) == v && Spelled(t) && LaidOut(t, 0, fmt)
    ensures Printable(v) && Render(v, 0, fmt) == Flatten(t)
  {
    t := TreeOf(v, 0, fmt);
    TreeOfMeans(v, 0, fmt);
    TreeIsSpelled(v, 0, fmt);
    TreeIsLaidOut(v, 0, fmt);
    FlattenIsRender(v, 0, fmt);
  }

  /** Every such tree has that text: the layout is the only one. */
  lemma LaidOutIsPrinted(t: Tree, fmt: bool)
    requires WellFormed(t) && Plain(Meaning(t)) && Spelled(t) && LaidOut(t, 0, fmt)
    ensures Printable(Meaning(t)) && Flatten(t) == Render(Meaning(t), 0, fmt)
  {
    var t' := PrintedIsLaidOut(Meaning(t), fmt);
    OneLayout(t, t', 0, fmt);
  }

  /** A member without a name prints like one with the empty name; elements of arrays print without their names. */
  lemma MissingNames(name: Option<bytes>, v: Value, next: Items, depth: nat, fmt: bool)
    requires Printable(v) && PrintableItems(next) && (name.Some? ==> NUL !in name.value)
    ensures RenderMembers(Cons(None, v, next), depth, fmt) == RenderMembers(Cons(Some([]), v, next), depth, fmt)
    ensures RenderElems(Cons(name, v, next), depth, fmt) == RenderElems(Cons(None, v, next), depth, fmt)
  {
  }
}
