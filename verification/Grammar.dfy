/**
 The texts of JSON as syntax trees: every blank is kept, so that a tree flattens to one
 text. The grammar is that of RFC 8259 with the liberties this parser takes: any byte up
 to 32 is a blank, numbers are whatever `strtod` reads, and string bodies are whatever the
 two passes accept.
 */
module Grammar {
  import opened Base
  import opened Values
  import opened Numbers
  import opened StringLiterals
  import opened Parser

  datatype Tree =
    | Word(word: Value)
    | Num(literal: bytes)
    | Text(body: bytes)
    | Group(named: bool, pad: bytes, elems: Elems)

  /** `lead` and `trail` are the blanks around an item; a comma follows unless it is the last. */
  datatype Elems = End | Elem(lead: bytes, tag: Option<Label>, tree: Tree, trail: bytes, more: Elems)

  /** A member name: the literal's body, the blanks before the colon and those after it. */
  datatype Label = Label(body: bytes, before: bytes, after: bytes)

  predicate IsWord(v: Value) { v == Null || v == False || v == True }

  function WordText(v: Value): (t: bytes)
    requires IsWord(v)
    ensures t != []
  {
    if v == Null then NULL_WORD else if v == False then FALSE_WORD else TRUE_WORD
  }

  predicate IsStringBody(b: bytes) { IsBody(b) && Unescape(b).Done? }

  function StringMeaning(b: bytes): bytes
    requires IsStringBody(b)
  {
    CString(Unescape(b).out)
  }

  predicate WellFormed(t: Tree) {
    match t
    case Word(w) => IsWord(w)
    case Num(literal) => IsNumberLiteral(literal)
    case Text(body) => IsStringBody(body)
    case Group(named, pad, elems) => Blanks(pad) && (elems.Elem? ==> pad == []) && WellFormedElems(elems, named)
  }

  predicate WellFormedElems(es: Elems, named: bool) {
    match es
    case End => true
    case Elem(lead, tag, tree, trail, more) =>
      && Blanks(lead) && Blanks(trail)
      && (tag.Some? <==> named)
      && (tag.Some? ==> WellFormedLabel(tag.value))
      && WellFormed(tree)
      && WellFormedElems(more, named)
  }

  predicate WellFormedLabel(k: Label) { IsStringBody(k.body) && Blanks(k.before) && Blanks(k.after) }

  // ---------- the text of a tree ----------

  function Quoted(body: bytes): bytes { [QUOTE] + body + [QUOTE] }

  function LabelText(tag: Option<Label>): bytes {
    match tag
    case None => []
    case Some(k) => Quoted(k.body) + k.before + [COLON] + k.after
  }

  function Flatten(t: Tree): (s: bytes)
    requires WellFormed(t)
    ensures s != []
    decreases t, 2
  {
    match t
    case Word(w) => WordText(w)
    case Num(literal) => literal
    case Text(body) => Quoted(body)
    case Group(named, pad, elems) => [Opening(named)] + (pad + FlattenElems(elems, named)) + [Closing(named)]
  }

  function FlattenElems(es: Elems, named: bool): bytes
    requires WellFormedElems(es, named)
    decreases es, 0
  {
    match es
    case End => []
    case Elem(lead, tag, tree, trail, more) =>
      lead + (LabelText(tag) + (Flatten(tree) + (trail + TailText(more, named))))
  }

  /** What separates an item from the rest: a comma and the rest, or nothing. */
  function TailText(more: Elems, named: bool): bytes
    requires WellFormedElems(more, named)
    decreases more, 1
  {
    if more.End? then [] else [COMMA] + FlattenElems(more, named)
  }

  // ---------- the value of a tree ----------

  function Meaning(t: Tree): Value
    requires WellFormed(t)
  {
    match t
    case Word(w) => w
    case Num(literal) => Number(DecimalValue(literal))
    case Text(body) => String(StringMeaning(body))
    case Group(named, _, elems) =>
      if named then Object(MeaningElems(elems, named)) else Array(MeaningElems(elems, named))
  }

  function LabelMeaning(tag: Option<Label>): Option<bytes>
    requires tag.Some? ==> WellFormedLabel(tag.value)
  {
    match tag
    case None => None
    case Some(k) => Some(StringMeaning(k.body))
  }

  function MeaningElems(es: Elems, named: bool): Items
    requires WellFormedElems(es, named)
  {
    match es
    case End => Nil
    case Elem(_, tag, tree, _, more) => Cons(LabelMeaning(tag), Meaning(tree), MeaningElems(more, named))
  }

  function Depth(t: Tree): nat {
    match t
    case Group(_, _, elems) => 1 + DepthElems(elems)
    case _ => 0
  }

  function DepthElems(es: Elems): nat {
    match es
    case End => 0
    case Elem(_, _, tree, _, more) => Max(Depth(tree), DepthElems(more))
  }

  lemma DepthIsNesting(t: Tree)
    requires WellFormed(t)
    ensures Depth(t) == Nesting(Meaning(t))
  {
    if t.Group? { DepthElemsIsNesting(t.elems, t.named); }
  }

  lemma DepthElemsIsNesting(es: Elems, named: bool)
    requires WellFormedElems(es, named)
    ensures DepthElems(es) == NestingOfItems(MeaningElems(es, named))
  {
    if es.Elem? {
      DepthIsNesting(es.tree);
      DepthElemsIsNesting(es.more, named);
    }
  }
}
