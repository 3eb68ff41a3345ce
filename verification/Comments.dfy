/**
 Comments in a minified text: what the filter does to single bytes and to comments, in the
 bytes themselves, and documents with comments between their tokens.
 */
module Comments {
  import opened Base
  import opened Values
  import opened Numbers
  import opened StringLiterals
  import opened Parser
  import opened Grammar
  import opened Language
  import opened Minifier

  // ---------- bytes ----------

  /** Space, tab and the two line ends go; other bytes stay, but for the slash and the quote. */
  lemma BytesAreFiltered(b: byte, r: bytes)
    ensures b in [9, 10, 13, 32] ==> Filter([b] + r) == Filter(r)
    ensures b !in [9, 10, 13, 32] && b != 34 && b != 47 ==> Filter([b] + r) == [b] + Filter(r)
    ensures r == [] || (r[0] != 47 && r[0] != 42) ==> Filter([47] + r) == Filter(r)
  {
    assert ([b] + r)[1..] == r && ([47] + r)[1..] == r;
  }

  /** A literal without quotes and backslashes inside is copied. */
  lemma LiteralsAreCopied(body: bytes, r: bytes)
    requires 34 !in body && 92 !in body
    ensures Filter([34] + body + [34] + r) == [34] + body + [34] + Filter(r)
  {
    CleanIsBody(body);
    assert PlainEnd(body);
    ScanLiteral(body, r, false);
  }

  // ---------- comments ----------

  lemma {:induction false} LineEnds(c: bytes, r: bytes)
    requires 10 !in c
    ensures AfterLine(c + ([10] + r)) == r && AfterLine(c) == []
  {
    if c == [] {
      assert c + ([10] + r) == [10] + r;
    } else {
      assert c[0] in c;
      assert (c + ([10] + r))[1..] == c[1..] + ([10] + r);
      LineEnds(c[1..], r);
    }
  }

  /** No star with a slash right behind it. */
  predicate Unclosed(c: bytes) { forall i :: 0 <= i < |c| - 1 ==> c[i] != 42 || c[i + 1] != 47 }

  lemma {:induction false} BlockEnds(c: bytes, r: bytes)
    requires Unclosed(c + [42])
    ensures AfterBlock(c + ([42, 47] + r)) == r
  {
    var s := c + ([42, 47] + r);
    if c == [] {
      assert s == [42, 47] + r;
      assert s[2..] == r;
    } else {
      assert s[1..] == c[1..] + ([42, 47] + r);
      assert c + [42] == [c[0]] + (c[1..] + [42]);
      assert forall i :: 0 <= i < |c| ==> (c[1..] + [42])[i] == (c + [42])[i + 1];
      assert s[0] == (c + [42])[0] && s[1] == (c + [42])[1];
      BlockEnds(c[1..], r);
    }
  }

  lemma {:induction false} BlockNeverEnds(c: bytes)
    requires Unclosed(c)
    ensures AfterBlock(c) == []
  {
    if c != [] {
      assert |c| > 1 ==> c[1..][0] == c[1];
      BlockNeverEnds(c[1..]);
    }
  }

  /** A line comment goes with its line break, and an unterminated one with all that follows. */
  lemma LineCommentGoes(c: bytes, r: bytes)
    requires 10 !in c
    ensures Filter([47, 47] + c + [10] + r) == Filter(r)
    ensures Filter([47, 47] + c) == []
  {
    LineEnds(c, r);
    var s := [47, 47] + c + [10] + r;
    assert s[2..] == c + ([10] + r);
    assert ([47, 47] + c)[2..] == c;
  }

  /** A block comment goes up to the first star and slash behind its opening; one that is not closed goes to the end. */
  lemma BlockCommentGoes(c: bytes, r: bytes)
    ensures Unclosed(c + [42]) ==> Filter([47, 42] + c + [42, 47] + r) == Filter(r)
    ensures Unclosed(c) ==> Filter([47, 42] + c) == []
  {
    var s := [47, 42] + c + [42, 47] + r;
    assert s[2..] == c + ([42, 47] + r);
    assert ([47, 42] + c)[2..] == c;
    if Unclosed(c + [42]) {
      BlockEnds(c, r);
    }
    if Unclosed(c) {
      BlockNeverEnds(c);
    }
  }

  // ---------- gaps between tokens ----------

  datatype Piece = Blank(w: bytes) | Line(c: bytes) | Block(c: bytes)

  predicate IsPiece(p: Piece) {
    match p
    case Blank(w) => Blanks(w)
    case Line(c) => 10 !in c
    case Block(c) => Unclosed(c + [42])
  }

  function PieceText(p: Piece): bytes {
    match p
    case Blank(w) => w
    case Line(c) => [47, 47] + c + [10]
    case Block(c) => [47, 42] + c + [42, 47]
  }

  type Gap = seq<Piece>

  predicate IsGap(g: Gap) { forall i :: 0 <= i < |g| ==> IsPiece(g[i]) }

  predicate NoComment(g: Gap) { forall i :: 0 <= i < |g| ==> g[i].Blank? }

  function GapText(g: Gap): bytes { if g == [] then [] else PieceText(g[0]) + GapText(g[1..]) }

  /** The gap without its comments. */
  function GapBlanks(g: Gap): (w: bytes)
    requires IsGap(g)
    ensures Blanks(w)
  {
    if g == [] then [] else (if g[0].Blank? then g[0].w else []) + GapBlanks(g[1..])
  }

  lemma {:induction false} KeptConcat(a: bytes, b: bytes)
    requires Blanks(a) && Blanks(b)
    ensures Blanks(a + b) && Kept(a + b) == Kept(a) + Kept(b)
  {
    if a == [] {
      assert a + b == b;
    } else {
      assert (a + b)[1..] == a[1..] + b;
      KeptConcat(a[1..], b);
    }
  }

  /** The comments of a gap go and its blanks are treated as ever, outside of literals; inside, there must be no comment. */
  lemma {:induction false} ScanGap(g: Gap, r: bytes, inside: bool)
    requires IsGap(g) && (inside ==> NoComment(g))
    ensures Scan(inside, GapText(g) + r) == KeptIn(GapBlanks(g), inside) + Scan(inside, r)
  {
    hide Filter, Kept, LiteralLength;
    if g == [] {
      Nothing([], r);
      Nothing([], Scan(inside, r));
      assert KeptIn([], inside) == [];
    } else {
      var rest, blanks := GapText(g[1..]) + r, GapBlanks(g[1..]);
      Assoc(PieceText(g[0]), GapText(g[1..]), r);
      ScanGap(g[1..], r, inside);
      match g[0]
      case Blank(w) =>
        ScanBlanks(w, rest, inside);
        KeptConcat(w, blanks);
        Assoc(KeptIn(w, inside), KeptIn(blanks, inside), Scan(inside, r));
      case Line(c) =>
        LineCommentGoes(c, rest);
        Nothing([], blanks);
      case Block(c) =>
        BlockCommentGoes(c, rest);
        Nothing([], blanks);
    }
  }

  // ---------- commented documents ----------

  datatype Noted =
    | Leaf(leaf: Tree)
    | Cluster(named: bool, pad: Gap, items: NotedItems)

  datatype NotedItems = Over | Item(lead: Gap, tag: Option<NotedLabel>, tree: Noted, trail: Gap, more: NotedItems)

  datatype NotedLabel = NotedLabel(body: bytes, before: Gap, after: Gap)

  predicate AreGaps(n: Noted) {
    match n
    case Leaf(leaf) => !leaf.Group?
    case Cluster(_, pad, items) => IsGap(pad) && AreItemGaps(items)
  }

  predicate AreItemGaps(ns: NotedItems) {
    ns.Item? ==>
      && IsGap(ns.lead) && IsGap(ns.trail) && (ns.tag.Some? ==> IsGap(ns.tag.value.before) && IsGap(ns.tag.value.after))
      && AreGaps(ns.tree) && AreItemGaps(ns.more)
  }

  /** The document without its comments. */
  function Bare(n: Noted): Tree
    requires AreGaps(n)
  {
    match n
    case Leaf(leaf) => leaf
    case Cluster(named, pad, items) => Group(named, GapBlanks(pad), BareItems(items))
  }

  function BareTag(tag: Option<NotedLabel>): Option<Label>
    requires tag.Some? ==> IsGap(tag.value.before) && IsGap(tag.value.after)
  {
    if tag.None? then None else Some(Label(tag.value.body, GapBlanks(tag.value.before), GapBlanks(tag.value.after)))
  }

  function BareItems(ns: NotedItems): Elems
    requires AreItemGaps(ns)
  {
    if ns.Over? then End
    else Elem(GapBlanks(ns.lead), BareTag(ns.tag), Bare(ns.tree), GapBlanks(ns.trail), BareItems(ns.more))
  }

  predicate Sensible(n: Noted) { AreGaps(n) && WellFormed(Bare(n)) }

  /** The text with its comments. */
  function NotedText(n: Noted): bytes
    requires Sensible(n)
    decreases n, 0
  {
    match n
    case Leaf(leaf) => Flatten(leaf)
    case Cluster(named, pad, items) => [Opening(named)] + (GapText(pad) + NotedItemsText(items, named)) + [Closing(named)]
  }

  function NotedTagText(tag: Option<NotedLabel>): bytes {
    match tag
    case None => []
    case Some(k) => Quoted(k.body) + GapText(k.before) + [COLON] + GapText(k.after)
  }

  function NotedItemsText(ns: NotedItems, named: bool): bytes
    requires AreItemGaps(ns) && WellFormedElems(BareItems(ns), named)
    decreases ns, 1
  {
    if ns.Over? then []
    else GapText(ns.lead) + (NotedTagText(ns.tag) + (NotedText(ns.tree) + (GapText(ns.trail) + NotedTail(ns.more, named))))
  }

  function NotedTail(more: NotedItems, named: bool): bytes
    requires AreItemGaps(more) && WellFormedElems(BareItems(more), named)
    decreases more, 2
  {
    if more.Over? then [] else [COMMA] + NotedItemsText(more, named)
  }

  /** No comment stands where the filter takes itself to be inside a literal. */
  predicate Heard(n: Noted, inside: bool)
    requires AreGaps(n)
  {
    n.Cluster? ==> (inside ==> NoComment(n.pad)) && HeardItems(n.items, inside)
  }

  predicate HeardItems(ns: NotedItems, inside: bool)
    requires AreItemGaps(ns)
  {
    ns.Item? ==>
      var p := AfterTag(BareTag(ns.tag), inside);
      var q := After(Bare(ns.tree), p);
      && (inside ==> NoComment(ns.lead))
      && (ns.tag.Some? && p ==> NoComment(ns.tag.value.before) && NoComment(ns.tag.value.after))
      && Heard(ns.tree, p) && (q ==> NoComment(ns.trail)) && HeardItems(ns.more, q)
  }

  lemma ScanNotedTag(tag: Option<NotedLabel>, r: bytes, inside: bool)
    requires tag.Some? ==> IsGap(tag.value.before) && IsGap(tag.value.after)
    requires tag.Some? ==> WellFormedLabel(BareTag(tag).value) && SafeBody(tag.value.body, inside)
    requires tag.Some? && AfterTag(BareTag(tag), inside) ==> NoComment(tag.value.before) && NoComment(tag.value.after)
    ensures Scan(inside, NotedTagText(tag) + r) == LabelText(StripTag(BareTag(tag), inside)) + Scan(AfterTag(BareTag(tag), inside), r)
  {
    hide Scan, GapText, GapBlanks;
    match tag
    case None =>
      Nothing([], r);
      Nothing([], Scan(inside, r));
    case Some(k) =>
      var p := AfterBody(k.body, inside);
      var s2 := GapText(k.after) + r;
      var s1 := [COLON] + s2;
      TagPieces(Quoted(k.body), GapText(k.before), [COLON], GapText(k.after), r);
      ScanLiteral(k.body, GapText(k.before) + s1, inside);
      ScanGap(k.before, s1, p);
      ScanCopied([COLON], s2, p);
      ScanGap(k.after, r, p);
      TagPieces(Quoted(k.body), KeptIn(GapBlanks(k.before), p), [COLON], KeptIn(GapBlanks(k.after), p), Scan(p, r));
  }

  /** The filter turns the commented text into the stripped text without comments. */
  lemma {:induction false} FilterNoted(n: Noted, r: bytes, inside: bool)
    requires Sensible(n) && Safe(Bare(n), inside) && Heard(n, inside)
    ensures Scan(inside, NotedText(n) + r) == Flatten(Strip(Bare(n), inside)) + Scan(After(Bare(n), inside), r)
    decreases n, 0
  {
    hide Scan, GapText, GapBlanks;
    match n
    case Leaf(leaf) => FilterTree(leaf, r, inside);
    case Cluster(named, pad, items) =>
      var es := BareItems(items);
      var inner, stripped := NotedItemsText(items, named), FlattenElems(StripElems(es, named, inside), named);
      FilterNotedItems(items, [Closing(named)] + r, named, inside);
      var rest := inner + ([Closing(named)] + r);
      GroupText(Opening(named), GapText(pad), inner, Closing(named), r);
      ScanCopied([Opening(named)], GapText(pad) + rest, inside);
      ScanGap(pad, rest, inside);
      ScanCopied([Closing(named)], r, AfterElems(es, inside));
      GroupText(Opening(named), KeptIn(GapBlanks(pad), inside), stripped, Closing(named), Scan(AfterElems(es, inside), r));
  }

  lemma {:induction false} FilterNotedItems(ns: NotedItems, r: bytes, named: bool, inside: bool)
    requires AreItemGaps(ns) && WellFormedElems(BareItems(ns), named) && SafeElems(BareItems(ns), inside) && HeardItems(ns, inside)
    ensures Scan(inside, NotedItemsText(ns, named) + r) ==
      FlattenElems(StripElems(BareItems(ns), named, inside), named) + Scan(AfterElems(BareItems(ns), inside), r)
    decreases ns, 1
  {
    hide Scan, GapText, GapBlanks, Flatten, Safe, Heard;
    match ns
    case Over =>
      Nothing([], r);
      Nothing([], Scan(inside, r));
    case Item(lead, tag, tree, trail, more) =>
      var p := AfterTag(BareTag(tag), inside);
      var q := After(Bare(tree), p);
      var next := NotedTail(more, named) + r;
      var post := GapText(trail) + next;
      var value := NotedText(tree) + post;
      var tagged := NotedTagText(tag);
      var s := GapText(lead) + (tagged + value);
      Assemble(s, GapText(lead), tagged + value, tagged, value, NotedText(tree), post, GapText(trail), next, NotedTail(more, named), r);
      ScanGap(lead, tagged + value, inside);
      ScanNotedTag(tag, value, inside);
      FilterNoted(tree, post, p);
      ScanGap(trail, next, q);
      FilterNotedTail(more, r, named, q);
      Assemble(Scan(inside, s), KeptIn(GapBlanks(lead), inside), Scan(inside, tagged + value), LabelText(StripTag(BareTag(tag), inside)), Scan(p, value),
               Flatten(Strip(Bare(tree), p)), Scan(q, post), KeptIn(GapBlanks(trail), q), Scan(q, next),
               TailText(StripElems(BareItems(more), named, q), named), Scan(AfterElems(BareItems(more), q), r));
  }

  lemma {:induction false} FilterNotedTail(more: NotedItems, r: bytes, named: bool, inside: bool)
    requires AreItemGaps(more) && WellFormedElems(BareItems(more), named) && SafeElems(BareItems(more), inside) && HeardItems(more, inside)
    ensures Scan(inside, NotedTail(more, named) + r) ==
      TailText(StripElems(BareItems(more), named, inside), named) + Scan(AfterElems(BareItems(more), inside), r)
    decreases more, 2
  {
    hide Scan;
    if more.Over? {
      Nothing([], r);
      Nothing([], Scan(inside, r));
    } else {
      var text := NotedItemsText(more, named);
      Assoc([COMMA], text, r);
      ScanCopied([COMMA], text + r, inside);
      FilterNotedItems(more, r, named, inside);
      Assoc([COMMA], FlattenElems(StripElems(BareItems(more), named, inside), named), Scan(AfterElems(BareItems(more), inside), r));
    }
  }

  /** Without a backslash before a closing quote, comments may stand anywhere between the tokens. */
  lemma {:induction false} PlainIsHeard(n: Noted)
    requires AreGaps(n) && PlainQuotes(Bare(n))
    ensures Heard(n, false)
    decreases n
  {
    if n.Cluster? {
      PlainItemsAreHeard(n.items);
    }
  }

  lemma {:induction false} PlainItemsAreHeard(ns: NotedItems)
    requires AreItemGaps(ns) && PlainQuotesElems(BareItems(ns))
    ensures HeardItems(ns, false)
    decreases ns
  {
    if ns.Item? {
      PlainIsSafe(Bare(ns.tree));
      PlainIsHeard(ns.tree);
      PlainItemsAreHeard(ns.more);
    }
  }

  /** Nothing, or a comment that does not end. */
  predicate IsOpenEnd(o: bytes) {
    || o == []
    || (|o| >= 2 && o[0] == 47 && o[1] == 47 && 10 !in o[2..])
    || (|o| >= 2 && o[0] == 47 && o[1] == 42 && Unclosed(o[2..]))
  }

  lemma OpenEndGoes(o: bytes)
    requires IsOpenEnd(o)
    ensures Filter(o) == []
  {
    if o != [] {
      assert o == [o[0], o[1]] + o[2..];
      if o[1] == 47 {
        LineCommentGoes(o[2..], []);
      } else {
        BlockCommentGoes(o[2..], []);
      }
    }
  }

  /** Mark, gap, value, gap and perhaps a comment that does not end, none of them met inside a literal. */
  ghost predicate IsNoted(mark: bytes, lead: Gap, n: Noted, trail: Gap, o: bytes) {
    && (mark == [] || mark == BOM) && IsGap(lead) && Sensible(n) && IsGap(trail) && IsOpenEnd(o)
    && Safe(Bare(n), false) && Heard(n, false) && (After(Bare(n), false) ==> NoComment(trail) && o == [])
  }

  function NotedDocument(mark: bytes, lead: Gap, n: Noted, trail: Gap, o: bytes): bytes
    requires Sensible(n)
  {
    mark + (GapText(lead) + (NotedText(n) + (GapText(trail) + o)))
  }

  /** A document with comments between its tokens minifies to the stripped text of the document without them. */
  lemma CommentsGo(mark: bytes, lead: Gap, n: Noted, trail: Gap, o: bytes)
    requires IsNoted(mark, lead, n, trail, o)
    ensures Filter(NotedDocument(mark, lead, n, trail, o)) == StrippedText(mark, GapBlanks(lead), Bare(n), GapBlanks(trail))
    ensures Filter(NotedDocument(mark, lead, n, trail, o)) == Filter(mark + (GapBlanks(lead) + (Flatten(Bare(n)) + GapBlanks(trail))))
  {
    hide Filter, GapText, GapBlanks, Flatten, Heard, Safe, NotedText;
    var p := After(Bare(n), false);
    var end := GapText(trail) + o;
    FilterCopied(mark, GapText(lead) + (NotedText(n) + end));
    ScanGap(lead, NotedText(n) + end, false);
    FilterNoted(n, end, false);
    ScanGap(trail, o, p);
    OpenEndGoes(o);
    assert Scan(p, o) == [];
    Nothing(KeptIn(GapBlanks(trail), p), []);
    MinifyStripsExactly(mark, GapBlanks(lead), Bare(n), GapBlanks(trail));
  }

  /** So the minified text is accepted with the value of the document, exactly when that nests within the limit. */
  lemma CommentedIsAccepted(mark: bytes, lead: Gap, n: Noted, trail: Gap, o: bytes)
    requires IsNoted(mark, lead, n, trail, o)
    ensures var text := Filter(NotedDocument(mark, lead, n, trail, o)) + [NUL];
      if Depth(Bare(n)) <= NESTING_LIMIT then ParseDocument(text, true) == Ok(Meaning(Bare(n)), [NUL]) else ParseDocument(text, true).Fail?
  {
    hide ParseDocument, Filter, Heard, Safe, Flatten;
    CommentsGo(mark, lead, n, trail, o);
    var stripped, kept := Strip(Bare(n), false), KeptIn(GapBlanks(trail), After(Bare(n), false));
    CompleteDocument(mark, Kept(GapBlanks(lead)), stripped, kept + [NUL]);
    DocumentPieces(mark, Kept(GapBlanks(lead)), Flatten(stripped), kept);
  }
}
