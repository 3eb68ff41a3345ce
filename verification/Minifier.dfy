/**
 `cJSON_Minify`: a filter on the text, what it keeps of the meaning, and the in-place
 loop with a read cursor and a write cursor over one buffer.
 */
module Minifier {
  import opened Base
  import opened Values
  import opened Numbers
  import opened StringLiterals
  import opened Parser
  import opened Grammar
  import opened Language

  // ---------- the filter ----------

  predicate IsDropped(b: byte) { b == SPACE || b == TAB || b == CR || b == NEWLINE }

  /** What follows a line comment, from the byte after `//`. */
  function AfterLine(s: bytes): (r: bytes)
    ensures |r| <= |s|
  {
    if s == [] then [] else if s[0] == NEWLINE then s[1..] else AfterLine(s[1..])
  }

  /** What follows a block comment, from the byte after its opening. */
  function AfterBlock(s: bytes): (r: bytes)
    ensures |r| <= |s|
  {
    if s == [] then []
    else if s[0] == STAR && |s| > 1 && s[1] == SLASH then s[2..]
    else AfterBlock(s[1..])
  }

  /**
   How many bytes are copied after an opening quote: up to and including the first quote
   that no backslash precedes directly, or everything.
   */
  function LiteralLength(s: bytes): (n: nat)
    ensures n <= |s|
  {
    if s == [] then 0
    else if s[0] == QUOTE then 1
    else if s[0] == BACKSLASH && |s| > 1 && s[1] == QUOTE then 2 + LiteralLength(s[2..])
    else 1 + LiteralLength(s[1..])
  }

  function Filter(s: bytes): (r: bytes)
    ensures |r| <= |s|
    decreases |s|
  {
    if s == [] then []
    else if IsDropped(s[0]) then Filter(s[1..])
    else if s[0] == SLASH then
      if |s| > 1 && s[1] == SLASH then Filter(AfterLine(s[2..]))
      else if |s| > 1 && s[1] == STAR then Filter(AfterBlock(s[2..]))
      else Filter(s[1..])
    else if s[0] == QUOTE then
      var n := LiteralLength(s[1..]);
      [QUOTE] + s[1..][..n] + Filter(s[1..][n..])
    else [s[0]] + Filter(s[1..])
  }

  lemma {:induction false} CommentsAreClean(s: bytes)
    requires NUL !in s
    ensures NUL !in AfterLine(s) && NUL !in AfterBlock(s)
  {
    if s != [] { CommentsAreClean(s[1..]); }
  }

  lemma {:induction false} FilterIsClean(s: bytes)
    requires NUL !in s
    ensures NUL !in Filter(s)
    decreases |s|
  {
    if s != [] {
      FilterIsClean(s[1..]);
      if |s| > 1 {
        CommentsAreClean(s[2..]);
        FilterIsClean(AfterLine(s[2..]));
        FilterIsClean(AfterBlock(s[2..]));
      }
      FilterIsClean(s[1..][LiteralLength(s[1..])..]);
    }
  }

  // ---------- filtering twice is filtering once ----------

  /** A literal copied once is copied again unchanged: it runs to the end, or ends by itself. */
  lemma {:induction false} LiteralStable(s: bytes, r: bytes)
    requires LiteralLength(s) < |s| || r == []
    ensures LiteralLength(s[..LiteralLength(s)] + r) == LiteralLength(s)
  {
    var n := LiteralLength(s);
    if s != [] && s[0] != QUOTE {
      var k := if s[0] == BACKSLASH && |s| > 1 && s[1] == QUOTE then 2 else 1;
      LiteralStable(s[k..], r);
      assert s[..n][k..] == s[k..][..n - k];
      assert (s[..n] + r)[k..] == s[..n][k..] + r;
      LiteralBack(s, n, r, k);
    } else {
      assert s[..n] + r == if s == [] then r else [QUOTE] + r;
    }
  }

  lemma LiteralBack(s: bytes, n: nat, r: bytes, k: nat)
    requires s != [] && s[0] != QUOTE && n == LiteralLength(s)
    requires k == if s[0] == BACKSLASH && |s| > 1 && s[1] == QUOTE then 2 else 1
    requires (n < |s|) || (n == |s| && r == [])
    requires (s[..n] + r)[k..] == s[k..][..n - k] + r
    ensures LiteralLength(s[..n] + r) == k + LiteralLength(s[k..][..n - k] + r)
  {
    var t := s[..n] + r;
    assert t[0] == s[0];
    assert n > 1 ==> t[1] == s[1];
    if n == 1 {
      // a lone first byte that ends the text
      assert LiteralLength(s[1..]) == 0;
      assert s[1..] == [];
    }
  }

  lemma {:induction false} FilterIdempotent(s: bytes)
    ensures Filter(Filter(s)) == Filter(s)
    decreases |s|
  {
    if s == [] {
    } else if IsDropped(s[0]) {
      FilterIdempotent(s[1..]);
    } else if s[0] == SLASH {
      FilterIdempotent(if |s| > 1 && s[1] == SLASH then AfterLine(s[2..])
                       else if |s| > 1 && s[1] == STAR then AfterBlock(s[2..]) else s[1..]);
    } else if s[0] == QUOTE {
      var n := LiteralLength(s[1..]);
      var rest := Filter(s[1..][n..]);
      FilterIdempotent(s[1..][n..]);
      LiteralStable(s[1..], rest);
      FilterLiteral(s[1..][..n], rest);
    } else {
      FilterIdempotent(s[1..]);
      SplitFront(Filter(s));
    }
  }

  /** A literal that ends where it should is copied, and filtering goes on behind it. */
  lemma FilterLiteral(copied: bytes, r: bytes)
    requires LiteralLength(copied + r) == |copied|
    ensures Filter([QUOTE] + copied + r) == [QUOTE] + copied + Filter(r)
  {
    var s := [QUOTE] + copied + r;
    assert s[1..] == copied + r;
    assert s[1..][..|copied|] == copied && s[1..][|copied|..] == r;
  }

  // ---------- what the filter does to a syntax tree ----------

  /** The blanks that survive: bytes up to 32 other than the four dropped ones. */
  function Kept(w: bytes): (r: bytes)
    requires Blanks(w)
    ensures Blanks(r)
    ensures NUL !in w ==> NUL !in r
  {
    if w == [] then [] else if IsDropped(w[0]) then Kept(w[1..]) else [w[0]] + Kept(w[1..])
  }

  lemma {:induction false} FilterBlanks(w: bytes, r: bytes)
    requires Blanks(w)
    ensures Filter(w + r) == Kept(w) + Filter(r)
  {
    if w == [] {
      assert w + r == r;
    } else {
      assert (w + r)[1..] == w[1..] + r;
      FilterBlanks(w[1..], r);
      if !IsDropped(w[0]) {
        Assoc([w[0]], Kept(w[1..]), Filter(r));
      }
    }
  }

  /** Bytes that the filter copies one by one. */
  predicate IsCopied(b: byte) { !IsDropped(b) && b != SLASH && b != QUOTE }

  lemma {:induction false} FilterCopied(w: bytes, r: bytes)
    requires forall i :: 0 <= i < |w| ==> IsCopied(w[i])
    ensures Filter(w + r) == w + Filter(r)
  {
    if w == [] {
      assert w + r == r;
    } else {
      assert (w + r)[1..] == w[1..] + r;
      FilterCopied(w[1..], r);
      SplitFront(w);
      Assoc([w[0]], w[1..], Filter(r));
    }
  }

  // ---------- the filter out of phase ----------

  /**
   The filter from a place that it takes for the inside of a literal, or for the outside. The
   two are confused when a backslash stands directly before a closing quote.
   */
  function Scan(inside: bool, s: bytes): bytes {
    if inside then s[..LiteralLength(s)] + Filter(s[LiteralLength(s)..]) else Filter(s)
  }

  function KeptIn(w: bytes, inside: bool): (r: bytes)
    requires Blanks(w)
    ensures Blanks(r)
    ensures NUL !in w ==> NUL !in r
    ensures w == [] ==> r == []
  {
    if inside then w else Kept(w)
  }

  /** Inside a literal, bytes other than quotes and backslashes are copied one by one. */
  lemma InsideOne(b: byte, r: bytes)
    requires b != QUOTE && b != BACKSLASH
    ensures Scan(true, [b] + r) == [b] + Scan(true, r)
  {
    var s := [b] + r;
    assert s[1..] == r;
    InsideStep(s, 1);
  }

  lemma InsideStep(s: bytes, k: nat)
    requires s != [] && s[0] != QUOTE && k <= |s|
    requires k == if s[0] == BACKSLASH && |s| > 1 && s[1] == QUOTE then 2 else 1
    ensures Scan(true, s) == s[..k] + Scan(true, s[k..])
  {
    var n := LiteralLength(s[k..]);
    assert s[..k + n] == s[..k] + s[k..][..n];
    assert s[k..][n..] == s[k + n..];
    Assoc(s[..k], s[k..][..n], Filter(s[k + n..]));
  }

  lemma {:induction false} InsideCopied(w: bytes, r: bytes)
    requires QUOTE !in w && BACKSLASH !in w
    ensures Scan(true, w + r) == w + Scan(true, r)
  {
    if w == [] {
      assert w + r == r;
    } else {
      assert w[0] in w;
      SplitFront(w);
      Assoc([w[0]], w[1..], r);
      InsideOne(w[0], w[1..] + r);
      InsideCopied(w[1..], r);
      Assoc([w[0]], w[1..], Scan(true, r));
    }
  }

  lemma ScanCopied(w: bytes, r: bytes, inside: bool)
    requires (forall i :: 0 <= i < |w| ==> IsCopied(w[i])) && BACKSLASH !in w
    ensures Scan(inside, w + r) == w + Scan(inside, r)
  {
    if inside {
      InsideCopied(w, r);
    } else {
      FilterCopied(w, r);
    }
  }

  lemma ScanBlanks(w: bytes, r: bytes, inside: bool)
    requires Blanks(w)
    ensures Scan(inside, w + r) == KeptIn(w, inside) + Scan(inside, r)
  {
    if inside {
      InsideCopied(w, r);
    } else {
      FilterBlanks(w, r);
    }
  }

  /** A quote that is not taken for an escaped one changes sides. */
  lemma ScanQuote(r: bytes, inside: bool)
    ensures Scan(inside, [QUOTE] + r) == [QUOTE] + Scan(!inside, r)
  {
    var s := [QUOTE] + r;
    assert s[1..] == r && s[..1] == [QUOTE];
    if !inside {
      var n := LiteralLength(r);
      Assoc([QUOTE], r[..n], Filter(r[n..]));
    }
  }

  /** No backslash directly before the closing quote. */
  predicate PlainEnd(body: bytes) { body == [] || body[|body| - 1] != BACKSLASH }

  /** A body that is read from inside is copied; behind it the filter is outside exactly when it ends plainly. */
  lemma {:induction false} ScanInside(b: bytes, r: bytes)
    requires IsBody(b)
    ensures Scan(true, b + ([QUOTE] + r)) == b + ([QUOTE] + Scan(!PlainEnd(b), r))
    decreases |b|
  {
    hide Scan;
    var s := b + ([QUOTE] + r);
    if b == [] {
      assert s == [QUOTE] + r;
      ScanQuote(r, true);
    } else if b == [BACKSLASH, BACKSLASH] {
      InsideStep(s, 1);
      assert s[1..] == [BACKSLASH, QUOTE] + r;
      InsideStep(s[1..], 2);
      assert s[1..][2..] == r && s[..1] + (s[1..][..2] + Scan(true, r)) == b + ([QUOTE] + Scan(true, r));
    } else {
      var k := if b[0] == BACKSLASH then 2 else 1;
      InsideToken(b, s, k, [QUOTE] + r);
      ScanInside(b[k..], r);
      Assoc(b[..k], b[k..], [QUOTE] + Scan(!PlainEnd(b), r));
      assert b == b[..k] + b[k..];
    }
  }

  /** One step of a body, an escape or a plain byte, is copied as it is. */
  lemma InsideToken(b: bytes, s: bytes, k: nat, tail: bytes)
    requires IsBody(b) && b != [] && k == (if b[0] == BACKSLASH then 2 else 1) && s == b + tail
    requires b != [BACKSLASH, BACKSLASH]
    ensures k <= |b| && IsBody(b[k..]) && PlainEnd(b[k..]) == PlainEnd(b)
    ensures Scan(true, s) == b[..k] + Scan(true, b[k..] + tail)
  {
    hide Scan, IsBody, PlainEnd;
    TokenFacts(b, k);
    DropFront(b, tail, k);
    assert s[0] == b[0] && (|b| > 1 ==> s[1] == b[1]) && (|b| > 2 ==> s[2] == b[2]);
    if k == 1 || b[1] == QUOTE {
      InsideStep(s, k);
    } else {
      InsideTwo(s);
    }
  }

  lemma DropFront(a: bytes, b: bytes, k: nat)
    requires k <= |a|
    ensures (a + b)[k..] == a[k..] + b && (a + b)[..k] == a[..k]
  {
  }

  lemma TokenFacts(b: bytes, k: nat)
    requires IsBody(b) && b != [] && k == (if b[0] == BACKSLASH then 2 else 1) && b != [BACKSLASH, BACKSLASH]
    ensures k <= |b| && IsBody(b[k..]) && PlainEnd(b[k..]) == PlainEnd(b)
    ensures k == 1 ==> b[0] != QUOTE
    ensures k == 2 && b[1] == BACKSLASH ==> |b| > 2 && b[2] != QUOTE
  {
    assert |b| > k ==> b[k..][0] == b[k] && b[k..][|b| - k - 1] == b[|b| - 1];
    assert |b| == 2 == k ==> b == [b[0], b[1]];
  }

  lemma InsideTwo(s: bytes)
    requires |s| >= 2 && s[0] == BACKSLASH && s[1] != QUOTE && (s[1] == BACKSLASH ==> |s| == 2 || s[2] != QUOTE)
    ensures Scan(true, s) == s[..2] + Scan(true, s[2..])
  {
    hide Scan;
    var u, v := s[1..], s[2..];
    InsideStep(s, 1);
    assert |s| > 2 ==> u[1] == s[2];
    InsideStep(u, 1);
    assert u[1..] == v && s[..2] == s[..1] + u[..1];
    Assoc(s[..1], u[..1], Scan(true, v));
  }

  function FirstQuote(b: bytes): (q: nat)
    ensures q <= |b| && (q < |b| ==> b[q] == QUOTE) && forall i :: 0 <= i < q ==> b[i] != QUOTE
  {
    if b == [] || b[0] == QUOTE then 0 else 1 + FirstQuote(b[1..])
  }

  /** A body that is read from outside loses nothing: no blank and no slash stands before its first quote. */
  predicate SafeOutside(b: bytes) {
    forall i :: 0 <= i < FirstQuote(b) ==> !IsDropped(b[i]) && b[i] != SLASH
  }

  lemma {:induction false} BehindQuote(b: bytes)
    requires IsBody(b) && FirstQuote(b) < |b|
    ensures IsBody(b[FirstQuote(b) + 1..])
    decreases |b|
  {
    if b[0] == BACKSLASH {
      assert b[1..][1..] == b[2..];
      if b[1] != QUOTE {
        assert FirstQuote(b) == 2 + FirstQuote(b[2..]);
        BehindQuote(b[2..]);
        assert b[2..][FirstQuote(b[2..]) + 1..] == b[FirstQuote(b) + 1..];
      }
    } else {
      BehindQuote(b[1..]);
      assert b[1..][FirstQuote(b[1..]) + 1..] == b[FirstQuote(b) + 1..];
    }
  }

  /** Where the filter takes itself to be behind a literal that it entered from `inside`. */
  function AfterBody(b: bytes, inside: bool): bool {
    if !inside then !PlainEnd(b)
    else if FirstQuote(b) == |b| then true
    else !PlainEnd(b[FirstQuote(b) + 1..])
  }

  lemma ScanOutside(b: bytes, r: bytes)
    requires IsBody(b) && SafeOutside(b)
    ensures Scan(false, b + ([QUOTE] + r)) == b + ([QUOTE] + Scan(AfterBody(b, true), r))
  {
    var q := FirstQuote(b);
    var front := b[..q];
    if q == |b| {
      FilterCopied(b, [QUOTE] + r);
      ScanQuote(r, false);
    } else {
      var back := b[q + 1..];
      assert b == front + ([QUOTE] + back);
      OutsidePieces(front, back, r);
      FilterCopied(front, [QUOTE] + (back + ([QUOTE] + r)));
      ScanQuote(back + ([QUOTE] + r), false);
      BehindQuote(b);
      ScanInside(back, r);
      OutsidePieces(front, back, Scan(AfterBody(b, true), r));
    }
  }

  lemma OutsidePieces(front: bytes, back: bytes, r: bytes)
    ensures (front + ([QUOTE] + back)) + ([QUOTE] + r) == front + ([QUOTE] + (back + ([QUOTE] + r)))
  {
  }

  predicate SafeBody(b: bytes, inside: bool) { inside ==> SafeOutside(b) }

  lemma ScanLiteral(b: bytes, r: bytes, inside: bool)
    requires IsBody(b) && SafeBody(b, inside)
    ensures Scan(inside, Quoted(b) + r) == Quoted(b) + Scan(AfterBody(b, inside), r)
  {
    hide Scan;
    QuotedPieces(b, r);
    ScanQuote(b + ([QUOTE] + r), inside);
    if inside {
      ScanOutside(b, r);
    } else {
      ScanInside(b, r);
    }
    QuotedPieces(b, Scan(AfterBody(b, inside), r));
  }

  lemma QuotedPieces(b: bytes, r: bytes)
    ensures [QUOTE] + (b + ([QUOTE] + r)) == Quoted(b) + r
  {
  }

  // ---------- trees ----------

  function AfterTag(tag: Option<Label>, inside: bool): bool {
    if tag.None? then inside else AfterBody(tag.value.body, inside)
  }

  /** On which side the filter takes itself to be behind a tree. */
  function After(t: Tree, inside: bool): bool {
    match t
    case Text(body) => AfterBody(body, inside)
    case Group(_, _, elems) => AfterElems(elems, inside)
    case _ => inside
  }

  function AfterElems(es: Elems, inside: bool): bool {
    match es
    case End => inside
    case Elem(_, tag, tree, _, more) => AfterElems(more, After(tree, AfterTag(tag, inside)))
  }

  /** No blank and no slash inside a literal is met while the filter takes itself to be outside. */
  predicate Safe(t: Tree, inside: bool) {
    match t
    case Text(body) => SafeBody(body, inside)
    case Group(_, _, elems) => SafeElems(elems, inside)
    case _ => true
  }

  predicate SafeElems(es: Elems, inside: bool) {
    match es
    case End => true
    case Elem(_, tag, tree, _, more) =>
      && (tag.Some? ==> SafeBody(tag.value.body, inside))
      && Safe(tree, AfterTag(tag, inside))
      && SafeElems(more, After(tree, AfterTag(tag, inside)))
  }

  predicate PlainQuotes(t: Tree) {
    match t
    case Text(body) => PlainEnd(body)
    case Group(_, _, elems) => PlainQuotesElems(elems)
    case _ => true
  }

  predicate PlainQuotesElems(es: Elems) {
    match es
    case End => true
    case Elem(_, tag, tree, _, more) =>
      (tag.Some? ==> PlainEnd(tag.value.body)) && PlainQuotes(tree) && PlainQuotesElems(more)
  }

  /** Without a backslash before a closing quote, the filter never loses the phase. */
  lemma {:induction false} PlainIsSafe(t: Tree)
    requires PlainQuotes(t)
    ensures Safe(t, false) && !After(t, false)
    decreases t, 0
  {
    if t.Group? {
      PlainElemsAreSafe(t.elems);
    }
  }

  lemma {:induction false} PlainElemsAreSafe(es: Elems)
    requires PlainQuotesElems(es)
    ensures SafeElems(es, false) && !AfterElems(es, false)
    decreases es, 1
  {
    if es.Elem? {
      PlainIsSafe(es.tree);
      PlainElemsAreSafe(es.more);
    }
  }

  /** The tree without the blanks that the filter drops. */
  function Strip(t: Tree, inside: bool): (r: Tree)
    requires WellFormed(t)
    ensures WellFormed(r) && Depth(r) == Depth(t) && Meaning(r) == Meaning(t)
    ensures r.Num? == t.Num?
  {
    match t
    case Group(named, pad, elems) => Group(named, KeptIn(pad, inside), StripElems(elems, named, inside))
    case _ => t
  }

  function StripTag(tag: Option<Label>, inside: bool): (r: Option<Label>)
    requires tag.Some? ==> WellFormedLabel(tag.value)
    ensures r.Some? ==> WellFormedLabel(r.value)
    ensures r.Some? == tag.Some? && LabelMeaning(r) == LabelMeaning(tag)
  {
    match tag
    case None => None
    case Some(k) => Some(Label(k.body, KeptIn(k.before, AfterBody(k.body, inside)), KeptIn(k.after, AfterBody(k.body, inside))))
  }

  function StripElems(es: Elems, named: bool, inside: bool): (r: Elems)
    requires WellFormedElems(es, named)
    ensures WellFormedElems(r, named) && r.End? == es.End?
    ensures DepthElems(r) == DepthElems(es) && MeaningElems(r, named) == MeaningElems(es, named)
  {
    match es
    case End => End
    case Elem(lead, tag, tree, trail, more) =>
      var p := AfterTag(tag, inside);
      var q := After(tree, p);
      Elem(KeptIn(lead, inside), StripTag(tag, inside), Strip(tree, p), KeptIn(trail, q), StripElems(more, named, q))
  }

  lemma ScanTag(tag: Option<Label>, r: bytes, inside: bool)
    requires tag.Some? ==> WellFormedLabel(tag.value) && SafeBody(tag.value.body, inside)
    ensures Scan(inside, LabelText(tag) + r) == LabelText(StripTag(tag, inside)) + Scan(AfterTag(tag, inside), r)
  {
    hide Scan;
    match tag
    case None =>
      Nothing([], r);
      Nothing([], Scan(inside, r));
    case Some(k) =>
      var p := AfterBody(k.body, inside);
      var s2 := k.after + r;
      var s1 := [COLON] + s2;
      TagPieces(Quoted(k.body), k.before, [COLON], k.after, r);
      ScanLiteral(k.body, k.before + s1, inside);
      ScanBlanks(k.before, s1, p);
      ScanCopied([COLON], s2, p);
      ScanBlanks(k.after, r, p);
      TagPieces(Quoted(k.body), KeptIn(k.before, p), [COLON], KeptIn(k.after, p), Scan(p, r));
  }

  lemma TagPieces(a: bytes, b: bytes, c: bytes, d: bytes, r: bytes)
    ensures (a + b + c + d) + r == a + (b + (c + (d + r)))
  {
  }

  /** The filter turns the text of a tree into the text of the stripped tree, in phase or out of it. */
  lemma {:induction false} FilterTree(t: Tree, r: bytes, inside: bool)
    requires WellFormed(t) && Safe(t, inside)
    ensures Scan(inside, Flatten(t) + r) == Flatten(Strip(t, inside)) + Scan(After(t, inside), r)
    decreases t, 0
  {
    hide Scan;
    match t
    case Word(w) => ScanWord(w, r, inside);
    case Num(literal) => ScanNumber(literal, r, inside);
    case Text(body) => ScanLiteral(body, r, inside);
    case Group(named, pad, elems) =>
      FilterElems(elems, [Closing(named)] + r, named, inside);
      FilterBrackets(named, pad, FlattenElems(elems, named), FlattenElems(StripElems(elems, named, inside), named), r, inside, AfterElems(elems, inside));
  }

  lemma ScanWord(w: Value, r: bytes, inside: bool)
    requires IsWord(w)
    ensures Scan(inside, WordText(w) + r) == WordText(w) + Scan(inside, r)
  {
    ScanCopied(WordText(w), r, inside);
  }

  lemma ScanNumber(literal: bytes, r: bytes, inside: bool)
    requires IsNumberLiteral(literal)
    ensures Scan(inside, literal + r) == literal + Scan(inside, r)
  {
    ScanCopied(literal, r, inside);
  }

  lemma FilterBrackets(named: bool, pad: bytes, inner: bytes, stripped: bytes, r: bytes, inside: bool, behind: bool)
    requires Blanks(pad)
    requires Scan(inside, inner + ([Closing(named)] + r)) == stripped + Scan(behind, [Closing(named)] + r)
    ensures Scan(inside, ([Opening(named)] + (pad + inner) + [Closing(named)]) + r)
            == ([Opening(named)] + (KeptIn(pad, inside) + stripped) + [Closing(named)]) + Scan(behind, r)
  {
    hide Scan;
    var rest := inner + ([Closing(named)] + r);
    GroupText(Opening(named), pad, inner, Closing(named), r);
    ScanCopied([Opening(named)], pad + rest, inside);
    ScanBlanks(pad, rest, inside);
    ScanCopied([Closing(named)], r, behind);
    GroupText(Opening(named), KeptIn(pad, inside), stripped, Closing(named), Scan(behind, r));
  }

  lemma GroupText(open: byte, pad: bytes, inner: bytes, close: byte, r: bytes)
    ensures [open] + (pad + (inner + ([close] + r))) == ([open] + (pad + inner) + [close]) + r
  {
  }

  lemma {:induction false} FilterElems(es: Elems, r: bytes, named: bool, inside: bool)
    requires WellFormedElems(es, named) && SafeElems(es, inside)
    ensures Scan(inside, FlattenElems(es, named) + r) == FlattenElems(StripElems(es, named, inside), named) + Scan(AfterElems(es, inside), r)
    decreases es, 1
  {
    hide Scan;
    match es
    case End =>
      Nothing([], r);
      Nothing([], Scan(inside, r));
    case Elem(lead, tag, tree, trail, more) =>
      var p := AfterTag(tag, inside);
      var q := After(tree, p);
      var next := TailText(more, named) + r;
      var post := trail + next;
      var value := Flatten(tree) + post;
      var s := lead + (LabelText(tag) + value);
      Assemble(s, lead, LabelText(tag) + value, LabelText(tag), value, Flatten(tree), post, trail, next, TailText(more, named), r);
      ScanBlanks(lead, LabelText(tag) + value, inside);
      ScanTag(tag, value, inside);
      FilterTree(tree, post, p);
      ScanBlanks(trail, next, q);
      FilterTail(more, r, named, q);
      Assemble(Scan(inside, s), KeptIn(lead, inside), Scan(inside, LabelText(tag) + value), LabelText(StripTag(tag, inside)), Scan(p, value),
               Flatten(Strip(tree, p)), Scan(q, post), KeptIn(trail, q), Scan(q, next), TailText(StripElems(more, named, q), named), Scan(AfterElems(more, q), r));
  }

  lemma {:induction false} FilterTail(more: Elems, r: bytes, named: bool, inside: bool)
    requires WellFormedElems(more, named) && SafeElems(more, inside)
    ensures Scan(inside, TailText(more, named) + r) == TailText(StripElems(more, named, inside), named) + Scan(AfterElems(more, inside), r)
    decreases more, 2
  {
    hide Scan;
    if more.End? {
      Nothing([], r);
      Nothing([], Scan(inside, r));
    } else {
      var text := FlattenElems(more, named);
      Assoc([COMMA], text, r);
      ScanCopied([COMMA], text + r, inside);
      FilterElems(more, r, named, inside);
      Assoc([COMMA], FlattenElems(StripElems(more, named, inside), named), Scan(AfterElems(more, inside), r));
    }
  }

  // ---------- what an unsafe tree loses ----------

  /** From outside, the filter never begins with a blank that it drops or with a slash. */
  lemma {:induction false} FilterStarts(s: bytes)
    ensures Filter(s) != [] ==> !IsDropped(Filter(s)[0]) && Filter(s)[0] != SLASH
    decreases |s|
  {
    if s != [] {
      if IsDropped(s[0]) {
        FilterStarts(s[1..]);
      } else if s[0] == SLASH {
        FilterStarts(if |s| > 1 && s[1] == SLASH then AfterLine(s[2..]) else if |s| > 1 && s[1] == STAR then AfterBlock(s[2..]) else s[1..]);
      }
    }
  }

  lemma LosesAfter(a: bytes, b: bytes, s: bytes)
    ensures a + b <= a + s <==> b <= s
  {
    if a + b <= a + s {
      assert (a + s)[..|a + b|] == a + b;
      assert s[..|b|] == (a + s)[|a|..|a| + |b|] == b;
    }
  }

  lemma LosesMore(a: bytes, b: bytes, s: bytes)
    requires !(a <= s)
    ensures !(a + b <= s)
  {
    assert (a + b)[..|a|] == a;
  }

  function FirstLost(b: bytes): (u: nat)
    requires !SafeOutside(b)
    ensures u < FirstQuote(b) && (IsDropped(b[u]) || b[u] == SLASH)
    ensures forall i :: 0 <= i < u ==> IsCopied(b[i])
  {
    LeastLost(b, 0)
  }

  function LeastLost(b: bytes, i: nat): (u: nat)
    requires exists k :: i <= k < FirstQuote(b) && (IsDropped(b[k]) || b[k] == SLASH)
    ensures i <= u < FirstQuote(b) && (IsDropped(b[u]) || b[u] == SLASH)
    ensures forall k :: i <= k < u ==> IsCopied(b[k])
    decreases FirstQuote(b) - i
  {
    if IsDropped(b[i]) || b[i] == SLASH then i else LeastLost(b, i + 1)
  }

  /** A body that is not safe from outside does not come through. */
  lemma OutsideLoses(b: bytes, tail: bytes)
    requires !SafeOutside(b)
    ensures !(b <= Scan(false, b + tail))
  {
    var u := FirstLost(b);
    var front, back := b[..u], b[u..];
    assert b == front + back && b + tail == front + (back + tail);
    FilterCopied(front, back + tail);
    FilterStarts(back + tail);
    FirstDropped(back + tail);
    LosesAfter(front, back, Filter(back + tail));
    assert back[0] == b[u];
  }

  lemma FirstDropped(s: bytes)
    requires s != [] && (IsDropped(s[0]) || s[0] == SLASH)
    ensures Filter(s) != [] ==> Filter(s)[0] != s[0]
  {
    FilterStarts(s);
  }

  lemma LiteralLoses(b: bytes, r: bytes, inside: bool)
    requires !SafeBody(b, inside)
    ensures !(Quoted(b) <= Scan(inside, Quoted(b) + r))
  {
    hide Scan;
    QuotedPieces(b, r);
    ScanQuote(b + ([QUOTE] + r), inside);
    OutsideLoses(b, [QUOTE] + r);
    LosesMore(b, [QUOTE], Scan(!inside, b + ([QUOTE] + r)));
    LosesAfter([QUOTE], b + [QUOTE], Scan(!inside, b + ([QUOTE] + r)));
    assert [QUOTE] + (b + [QUOTE]) == Quoted(b);
  }

  lemma TagLoses(tag: Option<Label>, r: bytes, inside: bool)
    requires tag.Some? && WellFormedLabel(tag.value) && !SafeBody(tag.value.body, inside)
    ensures !(LabelText(StripTag(tag, inside)) <= Scan(inside, LabelText(tag) + r))
  {
    hide Scan;
    var k, p := tag.value, AfterBody(tag.value.body, inside);
    TagPieces(Quoted(k.body), k.before, [COLON], k.after, r);
    LiteralLoses(k.body, k.before + ([COLON] + (k.after + r)), inside);
    var before, after := KeptIn(k.before, p), KeptIn(k.after, p);
    LosesMore(Quoted(k.body), before + ([COLON] + after), Scan(inside, LabelText(tag) + r));
    assert Quoted(k.body) + (before + ([COLON] + after)) == Quoted(k.body) + before + [COLON] + after;
  }

  /** The stripped text of a tree that is not safe is not what the filter makes of its text. */
  lemma {:induction false} TreeLoses(t: Tree, r: bytes, inside: bool)
    requires WellFormed(t) && !Safe(t, inside)
    ensures !(Flatten(Strip(t, inside)) <= Scan(inside, Flatten(t) + r))
    decreases t, 0
  {
    hide Scan;
    if t.Text? {
      LiteralLoses(t.body, r, inside);
    } else {
      ElemsLose(t.elems, [Closing(t.named)] + r, t.named, inside);
      GroupLoses(t.named, t.pad, FlattenElems(t.elems, t.named), FlattenElems(StripElems(t.elems, t.named, inside), t.named), r, inside);
    }
  }

  lemma GroupLoses(named: bool, pad: bytes, inner: bytes, stripped: bytes, r: bytes, inside: bool)
    requires Blanks(pad) && !(stripped <= Scan(inside, inner + ([Closing(named)] + r)))
    ensures !([Opening(named)] + (KeptIn(pad, inside) + stripped) + [Closing(named)] <= Scan(inside, ([Opening(named)] + (pad + inner) + [Closing(named)]) + r))
  {
    hide Scan;
    var rest, kept := inner + ([Closing(named)] + r), KeptIn(pad, inside);
    GroupText(Opening(named), pad, inner, Closing(named), r);
    ScanCopied([Opening(named)], pad + rest, inside);
    ScanBlanks(pad, rest, inside);
    LosesMore(stripped, [Closing(named)], Scan(inside, rest));
    LosesAfter(kept, stripped + [Closing(named)], Scan(inside, rest));
    LosesAfter([Opening(named)], kept + (stripped + [Closing(named)]), kept + Scan(inside, rest));
    assert [Opening(named)] + (kept + (stripped + [Closing(named)])) == [Opening(named)] + (kept + stripped) + [Closing(named)];
  }

  lemma {:induction false} ElemsLose(es: Elems, r: bytes, named: bool, inside: bool)
    requires WellFormedElems(es, named) && !SafeElems(es, inside)
    ensures !(FlattenElems(StripElems(es, named, inside), named) <= Scan(inside, FlattenElems(es, named) + r))
    decreases es, 1
  {
    hide Scan;
    var p := AfterTag(es.tag, inside);
    var q := After(es.tree, p);
    var next := TailText(es.more, named) + r;
    var post := es.trail + next;
    var value := Flatten(es.tree) + post;
    var s := es.lead + (LabelText(es.tag) + value);
    Assemble(s, es.lead, LabelText(es.tag) + value, LabelText(es.tag), value, Flatten(es.tree), post, es.trail, next, TailText(es.more, named), r);
    ScanBlanks(es.lead, LabelText(es.tag) + value, inside);
    var tag', tree', trail', tail' := LabelText(StripTag(es.tag, inside)), Flatten(Strip(es.tree, p)), KeptIn(es.trail, q), TailText(StripElems(es.more, named, q), named);
    if es.tag.Some? && !SafeBody(es.tag.value.body, inside) {
      TagLoses(es.tag, value, inside);
      LosesMore(tag', tree' + (trail' + tail'), Scan(inside, LabelText(es.tag) + value));
    } else {
      ScanTag(es.tag, value, inside);
      ValueLoses(es, r, named, p);
      LosesAfter(tag', tree' + (trail' + tail'), Scan(p, value));
    }
    LosesAfter(KeptIn(es.lead, inside), tag' + (tree' + (trail' + tail')), Scan(inside, LabelText(es.tag) + value));
  }

  /** The part of an item behind its name. */
  lemma {:induction false} ValueLoses(es: Elems, r: bytes, named: bool, p: bool)
    requires es.Elem? && WellFormedElems(es, named) && !(Safe(es.tree, p) && SafeElems(es.more, After(es.tree, p)))
    ensures var q := After(es.tree, p);
      !(Flatten(Strip(es.tree, p)) + (KeptIn(es.trail, q) + TailText(StripElems(es.more, named, q), named))
        <= Scan(p, Flatten(es.tree) + (es.trail + (TailText(es.more, named) + r))))
    decreases es, 0
  {
    hide Scan;
    var q := After(es.tree, p);
    var next := TailText(es.more, named) + r;
    var post := es.trail + next;
    var tree', trail', tail' := Flatten(Strip(es.tree, p)), KeptIn(es.trail, q), TailText(StripElems(es.more, named, q), named);
    if !Safe(es.tree, p) {
      TreeLoses(es.tree, post, p);
      LosesMore(tree', trail' + tail', Scan(p, Flatten(es.tree) + post));
    } else {
      FilterTree(es.tree, post, p);
      ScanBlanks(es.trail, next, q);
      TailLoses(es.more, r, named, q);
      LosesAfter(trail', tail', Scan(q, next));
      LosesAfter(tree', trail' + tail', trail' + Scan(q, next));
    }
  }

  lemma {:induction false} TailLoses(more: Elems, r: bytes, named: bool, inside: bool)
    requires WellFormedElems(more, named) && !SafeElems(more, inside)
    ensures !(TailText(StripElems(more, named, inside), named) <= Scan(inside, TailText(more, named) + r))
    decreases more, 2
  {
    hide Scan;
    var text, text' := FlattenElems(more, named), FlattenElems(StripElems(more, named, inside), named);
    Assoc([COMMA], text, r);
    ScanCopied([COMMA], text + r, inside);
    ElemsLose(more, r, named, inside);
    LosesAfter([COMMA], text', Scan(inside, text + r));
  }

  // ---------- meaning ----------

  /** The text of a document without the blanks between its tokens that the filter drops. */
  function StrippedText(mark: bytes, lead: bytes, t: Tree, w: bytes): bytes
    requires Blanks(lead) && WellFormed(t) && Blanks(w)
  {
    mark + (Kept(lead) + (Flatten(Strip(t, false)) + KeptIn(w, After(t, false))))
  }

  /**
   Whatever tree a text is the text of: minifying removes blanks between tokens and nothing
   else if and only if no blank and no slash inside a literal is met out of phase.
   */
  lemma MinifyStripsExactly(mark: bytes, lead: bytes, t: Tree, w: bytes)
    requires (mark == [] || mark == BOM) && Blanks(lead) && WellFormed(t) && Blanks(w)
    ensures Filter(mark + (lead + (Flatten(t) + w))) == StrippedText(mark, lead, t, w) <==> Safe(t, false)
  {
    hide Filter, Flatten, Safe;
    if Safe(t, false) {
      FilterDocument(mark, lead, t, w);
    } else {
      FilterCopied(mark, lead + (Flatten(t) + w));
      FilterBlanks(lead, Flatten(t) + w);
      TreeLoses(t, w, false);
      FrontLoses(mark, Kept(lead), Flatten(Strip(t, false)), KeptIn(w, After(t, false)), Filter(Flatten(t) + w));
    }
  }

  lemma FrontLoses(a: bytes, b: bytes, c: bytes, d: bytes, s: bytes)
    requires !(c <= s)
    ensures a + (b + s) != a + (b + (c + d))
  {
    LosesMore(c, d, s);
    LosesAfter(b, c + d, s);
    LosesAfter(a, b + (c + d), b + s);
  }

  /**
   Whatever tree an accepted text is the text of: when no blank and no slash inside a literal
   is met out of phase, the minified text is accepted with the same value; a text that nests
   too deep is rejected before and after. No literal with a backslash directly before its
   closing quote is enough.
   */
  lemma MinifyKeepsMeaning(text: bytes, mark: bytes, lead: bytes, t: Tree, trail: bytes)
    requires NUL !in text && IsDocument(mark, lead, t, trail) && text + [NUL] == DocumentText(mark, lead, t, trail)
    ensures Safe(t, false) && Depth(t) <= NESTING_LIMIT ==>
              ParseDocument(Filter(text) + [NUL], true) == ParseDocument(text + [NUL], true) == Ok(Meaning(t), [NUL])
    ensures Safe(t, false) && Depth(t) > NESTING_LIMIT ==>
              ParseDocument(Filter(text) + [NUL], true).Fail? && ParseDocument(text + [NUL], true).Fail?
    ensures PlainQuotes(t) ==> Safe(t, false)
  {
    hide ParseDocument, Filter;
    CompleteDocument(mark, lead, t, trail);
    if PlainQuotes(t) {
      PlainIsSafe(t);
    }
    if Safe(t, false) {
      var w := WithoutNul(text, mark, lead, Flatten(t), trail);
      FilterDocument(mark, lead, t, w);
      var kept := KeptIn(w, After(t, false));
      CompleteDocument(mark, Kept(lead), Strip(t, false), kept + [NUL]);
      DocumentPieces(mark, Kept(lead), Flatten(Strip(t, false)), kept);
    }
  }

  lemma DocumentPieces(mark: bytes, lead: bytes, body: bytes, w: bytes)
    ensures (mark + (lead + (body + w))) + [NUL] == mark + (lead + (body + (w + [NUL])))
  {
  }

  lemma WithoutNul(text: bytes, mark: bytes, lead: bytes, body: bytes, trail: bytes) returns (w: bytes)
    requires Terminated(trail) && text + [NUL] == mark + (lead + (body + trail))
    ensures trail == w + [NUL] && text == mark + (lead + (body + w))
    ensures Blanks(trail) ==> Blanks(w)
  {
    w := trail[..|trail| - 1];
    assert trail == w + [NUL];
    DocumentPieces(mark, lead, body, w);
    LastByte(text, mark + (lead + (body + w)));
  }

  lemma LastByte(a: bytes, b: bytes)
    requires a + [NUL] == b + [NUL]
    ensures a == b
  {
    assert a == (a + [NUL])[..|a|] && b == (b + [NUL])[..|b|];
  }

  lemma FilterDocument(mark: bytes, lead: bytes, t: Tree, w: bytes)
    requires (mark == [] || mark == BOM) && Blanks(lead) && WellFormed(t) && Safe(t, false) && Blanks(w)
    ensures Filter(mark + (lead + (Flatten(t) + w))) == mark + (Kept(lead) + (Flatten(Strip(t, false)) + KeptIn(w, After(t, false))))
  {
    var p := After(t, false);
    FilterCopied(mark, lead + (Flatten(t) + w));
    FilterBlanks(lead, Flatten(t) + w);
    FilterTree(t, w, false);
    ScanBlanks(w, [], p);
    Nothing(w, []);
    assert Scan(p, []) == [];
    Nothing(KeptIn(w, p), []);
  }

  /** The two texts of the counterexample: an array of a backslash and a blank, and what minifying leaves. */
  const TRAP: bytes := [LBRACKET, QUOTE, BACKSLASH, BACKSLASH, QUOTE, COMMA, QUOTE, SPACE, QUOTE, RBRACKET]
  const TRAPPED: bytes := [LBRACKET, QUOTE, BACKSLASH, BACKSLASH, QUOTE, COMMA, QUOTE, QUOTE, RBRACKET]

  /** An array of two string literals, without blanks. */
  function Pair(a: bytes, b: bytes): Tree {
    Group(false, [], Elem([], None, Text(a), [], Elem([], None, Text(b), [], End)))
  }

  lemma PairText(a: bytes, b: bytes)
    requires IsStringBody(a) && IsStringBody(b)
    ensures WellFormed(Pair(a, b)) && Depth(Pair(a, b)) == 1
    ensures Flatten(Pair(a, b)) == [LBRACKET] + ([] + (Quoted(a) + ([COMMA] + Quoted(b)))) + [RBRACKET]
    ensures Meaning(Pair(a, b)) == Array(Cons(None, String(StringMeaning(a)), Cons(None, String(StringMeaning(b)), Nil)))
  {
    var last := Elem([], None, Text(b), [], End);
    var first := Elem([], None, Text(a), [], last);
    assert WellFormedElems(End, false);
    assert WellFormed(Text(b)) && WellFormed(Text(a));
    assert WellFormedElems(last, false);
    assert WellFormedElems(first, false);
    assert DepthElems(last) == 0;
    assert DepthElems(first) == Max(Depth(first.tree), DepthElems(last));
    assert MeaningElems(last, false) == Cons(None, String(StringMeaning(b)), Nil);
    assert MeaningElems(first, false) == Cons(None, String(StringMeaning(a)), MeaningElems(last, false));
    OneElement(last, Quoted(b));
    TwoElements(first, Quoted(a), Quoted(b));
  }

  lemma TrapBodies(body: bytes)
    requires body == [] || body == [SPACE] || body == [BACKSLASH, BACKSLASH]
    ensures IsStringBody(body)
    ensures StringMeaning(body) == if body == [BACKSLASH, BACKSLASH] then [BACKSLASH] else body
  {
    var tail := if |body| == 2 then body[2..] else if |body| == 1 then body[1..] else body;
    assert tail == [] && Unescape(tail) == Done([]);
    CStringOfClean([BACKSLASH]);
    CStringOfClean(body[..if |body| == 2 then 1 else |body|]);
    assert body[..|body|] == body;
  }

  lemma TwoElements(e: Elems, text: bytes, more: bytes)
    requires e.Elem? && WellFormedElems(e, false) && e.lead == [] && e.tag == None && e.trail == [] && e.more.Elem?
    requires Flatten(e.tree) == text && FlattenElems(e.more, false) == more
    ensures FlattenElems(e, false) == text + ([COMMA] + more)
  {
    assert FlattenElems(e, false) == [] + ([] + (text + ([] + ([COMMA] + more))));
  }

  lemma OneElement(e: Elems, text: bytes)
    requires e.Elem? && WellFormedElems(e, false) && e.lead == [] && e.tag == None && e.trail == [] && e.more.End?
    requires Flatten(e.tree) == text
    ensures FlattenElems(e, false) == text
  {
    assert FlattenElems(e, false) == [] + ([] + (text + ([] + [])));
  }

  /** A backslash before a closing quote does break the promise: a string changes its value. */
  lemma MinifyCanChangeMeaning()
    ensures NUL !in TRAP && Filter(TRAP) == TRAPPED
    ensures ParseDocument(TRAP + [NUL], true).Ok? && ParseDocument(TRAPPED + [NUL], true).Ok?
    ensures ParseDocument(TRAP + [NUL], true).value != ParseDocument(TRAPPED + [NUL], true).value
  {
    hide ParseDocument, Filter;
    FilterTrap();
    ParseTrap([SPACE], TRAP);
    ParseTrap([], TRAPPED);
  }

  lemma ParseTrap(body: bytes, text: bytes)
    requires (body == [] && text == TRAPPED) || (body == [SPACE] && text == TRAP)
    ensures ParseDocument(text + [NUL], true) ==
            Ok(Array(Cons(None, String([BACKSLASH]), Cons(None, String(body), Nil))), [NUL])
  {
    var slash: bytes := [BACKSLASH, BACKSLASH];
    TrapBodies(slash);
    TrapBodies(body);
    PairText(slash, body);
    CompleteDocument([], [], Pair(slash, body), [NUL]);
    TrapPieces(body, text);
    assert DocumentText([], [], Pair(slash, body), [NUL]) == text + [NUL];
  }

  lemma TrapPieces(body: bytes, text: bytes)
    requires (body == [] && text == TRAPPED) || (body == [SPACE] && text == TRAP)
    ensures text == [LBRACKET] + ([] + (Quoted([BACKSLASH, BACKSLASH]) + ([COMMA] + Quoted(body)))) + [RBRACKET]
  {
  }

  lemma FilterTrap()
    ensures Filter(TRAP) == TRAPPED
  {
    var copied: bytes := [BACKSLASH, BACKSLASH, QUOTE, COMMA, QUOTE];
    var tail: bytes := [QUOTE, RBRACKET];
    FilterTrapTail(tail);
    TrapLiteral(copied, [SPACE] + tail);
    FilterLiteral(copied, [SPACE] + tail);
    FilterCopied([LBRACKET], [QUOTE] + copied + ([SPACE] + tail));
    TrapSplit(copied, tail);
  }

  lemma TrapSplit(copied: bytes, tail: bytes)
    requires copied == [BACKSLASH, BACKSLASH, QUOTE, COMMA, QUOTE] && tail == [QUOTE, RBRACKET]
    ensures TRAP == [LBRACKET] + ([QUOTE] + copied + ([SPACE] + tail))
    ensures TRAPPED == [LBRACKET] + ([QUOTE] + copied + tail)
  {
  }

  lemma FilterTrapTail(tail: bytes)
    requires tail == [QUOTE, RBRACKET]
    ensures Filter([SPACE] + tail) == tail
  {
    FilterBlanks([SPACE], tail);
    assert LiteralLength([RBRACKET] + []) == 1;
    FilterLiteral([RBRACKET], []);
    assert [QUOTE] + [RBRACKET] + [] == tail;
    assert Kept([SPACE]) + tail == tail;
  }

  lemma TrapLiteral(copied: bytes, r: bytes)
    requires copied == [BACKSLASH, BACKSLASH, QUOTE, COMMA, QUOTE]
    ensures LiteralLength(copied + r) == |copied|
  {
    var s := copied + r;
    assert s[1..][2..] == [COMMA, QUOTE] + r;
    assert s[1..][2..][1..] == [QUOTE] + r;
    assert LiteralLength([QUOTE] + r) == 1;
    assert LiteralLength([COMMA, QUOTE] + r) == 2;
    assert LiteralLength(s[1..]) == 4;
  }

  // ---------- in place ----------

  method SkipLineComment(json: array<byte>, at: nat, ghost n: nat) returns (next: nat)
    requires at + 1 < n < json.Length && json[n] == NUL && NUL !in json[at..n]
    requires json[at] == SLASH && json[at + 1] == SLASH
    ensures at + 2 <= next <= n && json[next..n] == AfterLine(json[at + 2..n])
  {
    next := at + 2;
    while json[next] != NUL
      invariant at + 2 <= next <= n
      invariant AfterLine(json[next..n]) == AfterLine(json[at + 2..n])
      decreases n - next
    {
      assert json[next..n][1..] == json[next + 1..n];
      if json[next] == NEWLINE {
        next := next + 1;
        return;
      }
      next := next + 1;
    }
    CursorEnd(json[..], next, n, at);
  }

  method SkipBlockComment(json: array<byte>, at: nat, ghost n: nat) returns (next: nat)
    requires at + 1 < n < json.Length && json[n] == NUL && NUL !in json[at..n]
    requires json[at] == SLASH && json[at + 1] == STAR
    ensures at + 2 <= next <= n && json[next..n] == AfterBlock(json[at + 2..n])
  {
    next := at + 2;
    while json[next] != NUL
      invariant at + 2 <= next <= n
      invariant AfterBlock(json[next..n]) == AfterBlock(json[at + 2..n])
      decreases n - next
    {
      ghost var here := json[next..n];
      assert here[1..] == json[next + 1..n];
      assert next + 1 < n ==> here[1] == json[next + 1] && here[2..] == json[next + 2..n];
      if json[next] == STAR && json[next + 1] == SLASH {
        next := next + 2;
        return;
      }
      next := next + 1;
    }
    CursorEnd(json[..], next, n, at);
  }

  /** `now` still holds the original bytes from position `i` on. */
  ghost predicate Intact(now: bytes, source: bytes, i: nat) {
    |now| == |source| && forall k :: i <= k < |now| ==> now[k] == source[k]
  }

  /** A cursor that meets a NUL in text without one stands at its end. */
  lemma CursorEnd(now: bytes, i: nat, n: nat, base: nat)
    requires base <= i <= n < |now| && NUL !in now[base..n] && now[i] == NUL
    ensures i == n
  {
    assert forall k :: 0 <= k < n - base ==> now[base..n][k] == now[base + k];
  }

  /** One byte of a literal moves from the read cursor to the write cursor. */
  method CopyByte(json: array<byte>, from: nat, into: nat, ghost source: bytes)
    requires into <= from < json.Length && Intact(json[..], source, from)
    modifies json
    ensures Intact(json[..], source, from + 1)
    ensures json[..into + 1] == old(json[..into]) + [source[from]]
  {
    json[into] := json[from];
  }

  lemma GrowCopy(front: bytes, s: bytes, i: nat)
    requires i < |s|
    ensures (front + ([QUOTE] + s[..i])) + [s[i]] == front + ([QUOTE] + s[..i + 1])
  {
    assert s[..i + 1] == s[..i] + [s[i]];
  }

  /** What the copy loop keeps: the literal's first `i` bytes are copied, the rest is unread. */
  ghost predicate Copying(now: bytes, source: bytes, front: bytes, s: bytes, start: nat, i: nat) {
    && |front| <= start && start + 1 + |s| < |source| && i <= |s|
    && s == source[start + 1..start + 1 + |s|] && source[start + 1 + |s|] == NUL
    && Intact(now, source, start + 1 + i)
    && now[..|front| + 1 + i] == front + ([QUOTE] + s[..i])
  }

  lemma CopyingReads(now: bytes, source: bytes, front: bytes, s: bytes, start: nat, i: nat)
    requires Copying(now, source, front, s, start, i) && now[start + 1 + i] != NUL
    ensures i < |s| && now[start + 1 + i] == source[start + 1 + i] == s[i]
    ensures source[start + 2 + i] == if i + 1 < |s| then s[i + 1] else NUL
    ensures now[start + 2 + i] == source[start + 2 + i]
  {
  }

  /** One byte of a literal moves, and the copy has grown by it. */
  method CopyNext(json: array<byte>, start: nat, from: nat, into: nat, ghost source: bytes, ghost front: bytes, ghost s: bytes)
    requires from > start && into == |front| + from - start && from - start - 1 < |s|
    requires Copying(json[..], source, front, s, start, from - start - 1)
    modifies json
    ensures Copying(json[..], source, front, s, start, from - start)
  {
    CopyByte(json, from, into, source);
    GrowCopy(front, s, from - start - 1);
  }

  /** Copies one byte of the literal, or an escaped quote with its backslash. */
  method CopyTurn(json: array<byte>, start: nat, from: nat, into: nat, ghost source: bytes, ghost front: bytes, ghost s: bytes)
    returns (from': nat, into': nat, closed: bool)
    requires from > start && into == |front| + from - start
    requires Copying(json[..], source, front, s, start, from - start - 1) && json[from] != NUL
    modifies json
    ensures from' > from && into' == |front| + from' - start
    ensures Copying(json[..], source, front, s, start, from' - start - 1)
    ensures var i, j := from - start - 1, from' - start - 1;
            LiteralLength(s[i..]) == j - i + if closed then 0 else LiteralLength(s[j..])
  {
    hide LiteralLength;
    ghost var i := from - start - 1;
    CopyingReads(json[..], source, front, s, start, i);
    LiteralStep(s, i);
    var c := json[from];
    CopyNext(json, start, from, into, source, front, s);
    from', into', closed := from + 1, into + 1, c == QUOTE;
    assert json[from + 1] == json[..][from + 1] == source[from + 1];
    if c == BACKSLASH && json[from + 1] == QUOTE {
      CopyNext(json, start, from + 1, into + 1, source, front, s);
      from', into' := from + 2, into + 2;
    }
  }

  /** Copies a literal from the read cursor to the write cursor, both inside one buffer. */
  method MinifyString(json: array<byte>, from: nat, into: nat, ghost s: bytes) returns (from': nat, into': nat)
    requires into <= from && from + 1 + |s| < json.Length && json[from] == QUOTE
    requires s == json[from + 1..from + 1 + |s|] && json[from + 1 + |s|] == NUL && NUL !in s
    modifies json
    ensures from' == from + 1 + LiteralLength(s) && into' == into + 1 + LiteralLength(s)
    ensures json[..into'] == old(json[..into]) + ([QUOTE] + s[..LiteralLength(s)])
    ensures Intact(json[..], old(json[..]), from')
  {
    hide LiteralLength;
    ghost var n := from + 1 + |s|;
    ghost var front := json[..into];
    ghost var source := json[..];
    CopyByte(json, from, into, source);
    from' := from + 1;
    into' := into + 1;
    assert json[..into'] == front + ([QUOTE] + s[..0]);
    var closed := false;
    while !closed && json[from'] != NUL
      invariant from' > from && into' == |front| + from' - from
      invariant Copying(json[..], source, front, s, from, from' - from - 1)
      invariant LiteralLength(s) == (from' - from - 1) + if closed then 0 else LiteralLength(s[from' - from - 1..])
      decreases n - from', !closed
    {
      from', into', closed := CopyTurn(json, from, from', into', source, front, s);
    }
    if !closed {
      assert json[from'] == json[..][from'] == source[from'];
      CursorEnd(source, from', n, from + 1);
    }
  }

  lemma LiteralStep(s: bytes, i: nat)
    requires i < |s|
    ensures LiteralLength(s[i..]) ==
            if s[i] == QUOTE then 1
            else if s[i] == BACKSLASH && i + 1 < |s| && s[i + 1] == QUOTE then 2 + LiteralLength(s[i + 2..])
            else 1 + LiteralLength(s[i + 1..])
  {
    assert s[i..][1..] == s[i + 1..];
    assert i + 1 < |s| ==> s[i..][2..] == s[i + 2..];
  }

  /** Where the read cursor stands after one turn, as a position in the text. */
  ghost function NextRead(text: bytes, i: nat): (j: nat)
    requires i < |text|
    ensures i < j <= |text|
  {
    if text[i] == SLASH && i + 1 < |text| && text[i + 1] == SLASH then |text| - |AfterLine(text[i + 2..])|
    else if text[i] == SLASH && i + 1 < |text| && text[i + 1] == STAR then |text| - |AfterBlock(text[i + 2..])|
    else if text[i] == QUOTE then i + 1 + LiteralLength(text[i + 1..])
    else i + 1
  }

  /** What one turn adds to the output. */
  ghost function CopiedBy(text: bytes, i: nat): bytes
    requires i < |text|
  {
    if IsDropped(text[i]) || text[i] == SLASH then []
    else if text[i] == QUOTE then [QUOTE] + text[i + 1..][..LiteralLength(text[i + 1..])]
    else [text[i]]
  }

  lemma {:induction false} AfterLineIsSuffix(s: bytes)
    ensures AfterLine(s) == s[|s| - |AfterLine(s)|..]
  {
    if s != [] && s[0] != NEWLINE {
      AfterLineIsSuffix(s[1..]);
    }
  }

  lemma {:induction false} AfterBlockIsSuffix(s: bytes)
    ensures AfterBlock(s) == s[|s| - |AfterBlock(s)|..]
  {
    if s != [] && !(s[0] == STAR && |s| > 1 && s[1] == SLASH) {
      AfterBlockIsSuffix(s[1..]);
    }
  }

  lemma SuffixAt(text: bytes, i: nat, r: bytes)
    requires i <= |text| && |r| <= |text| - i && r == text[i..][|text| - i - |r|..]
    ensures r == text[|text| - |r|..]
  {
  }

  lemma FilterAfter(s: bytes, r: bytes)
    requires s != [] && s[0] == SLASH
    requires r == if |s| > 1 && s[1] == SLASH then AfterLine(s[2..]) else if |s| > 1 && s[1] == STAR then AfterBlock(s[2..]) else s[1..]
    ensures Filter(s) == Filter(r)
  {
  }

  lemma RestAfter(text: bytes, i: nat) returns (r: bytes)
    requires i + 1 < |text| && text[i] == SLASH && (text[i + 1] == SLASH || text[i + 1] == STAR)
    ensures r == if text[i + 1] == SLASH then AfterLine(text[i + 2..]) else AfterBlock(text[i + 2..])
    ensures r == text[NextRead(text, i)..]
  {
    var x := text[i + 2..];
    AfterLineIsSuffix(x);
    AfterBlockIsSuffix(x);
    r := if text[i + 1] == SLASH then AfterLine(x) else AfterBlock(x);
    SuffixAt(text, i + 2, r);
  }

  lemma FilterSlash(text: bytes, i: nat)
    requires i < |text| && text[i] == SLASH
    ensures Filter(text[i..]) == Filter(text[NextRead(text, i)..])
  {
    var s := text[i..];
    var r := s[1..];
    assert r == text[i + 1..];
    if i + 1 < |text| && (text[i + 1] == SLASH || text[i + 1] == STAR) {
      r := RestAfter(text, i);
      assert s[2..] == text[i + 2..];
    }
    FilterAfter(s, r);
  }

  lemma FilterQuote(text: bytes, i: nat)
    requires i < |text| && text[i] == QUOTE
    ensures var k := LiteralLength(text[i + 1..]);
            Filter(text[i..]) == ([QUOTE] + text[i + 1..][..k]) + Filter(text[i + 1 + k..])
  {
    var s := text[i..];
    assert s[1..] == text[i + 1..];
    assert s[1..][LiteralLength(s[1..])..] == text[i + 1 + LiteralLength(s[1..])..];
  }

  /** One turn is one step of the filter. */
  lemma FilterStep(text: bytes, i: nat)
    requires i < |text|
    ensures Filter(text[i..]) == CopiedBy(text, i) + Filter(text[NextRead(text, i)..])
  {
    hide Filter;
    Nothing([], Filter(text[NextRead(text, i)..]));
    if text[i] == SLASH {
      FilterSlash(text, i);
    } else if text[i] == QUOTE {
      FilterQuote(text, i);
    } else {
      FilterByte(text, i);
    }
  }

  lemma FilterByte(text: bytes, i: nat)
    requires i < |text| && text[i] != SLASH && text[i] != QUOTE
    ensures Filter(text[i..]) == (if IsDropped(text[i]) then [] else [text[i]]) + Filter(text[i + 1..])
  {
    assert text[i..][1..] == text[i + 1..];
    Nothing([], Filter(text[i + 1..]));
  }

  /** What the bytes left to read hold: the rest of the text and its terminator. */
  lemma RestOfText(now: bytes, source: bytes, i: nat, text: bytes)
    requires text == CString(source) && |text| < |source| && i <= |text| && Intact(now, source, i)
    ensures now[i..|text|] == text[i..] && NUL !in now[i..|text|] && now[|text|] == NUL
  {
    var n := |text|;
    assert forall k :: 0 <= k < n ==> text[k] == source[k];
    assert now[i..n] == text[i..];
    assert forall k :: 0 <= k < n - i ==> text[i..][k] == text[i + k] && text[i + k] in text;
  }

  lemma Shorter(a: bytes, i: nat, n: nat, b: bytes, d: nat)
    requires i + d <= n <= |a| && n == |b| && a[i..n] == b[i..]
    ensures a[i + d..n] == b[i + d..]
  {
    assert a[i + d..n] == a[i..n][d..] && b[i + d..] == b[i..][d..];
  }

  /** The same for the next bytes: the one under the cursor, the one after it, and what follows. */
  lemma NextOfText(now: bytes, source: bytes, i: nat, text: bytes)
    requires text == CString(source) && |text| < |source| && i <= |text| && Intact(now, source, i)
    requires now[i] != NUL
    ensures i < |text| && now[i] == text[i]
    ensures now[i + 1] == if i + 1 < |text| then text[i + 1] else NUL
    ensures now[i + 1..|text|] == text[i + 1..]
    ensures i + 1 < |text| ==> now[i + 2..|text|] == text[i + 2..]
  {
    RestOfText(now, source, i, text);
    Shorter(now, i, |text|, text, 1);
    if i + 1 < |text| { Shorter(now, i, |text|, text, 2); }
    assert text[i] == source[i];
  }

  /**
   Minifies the C string in `json` in place: the write cursor never passes the read cursor,
   the buffer then holds the filtered text, and nothing from the old terminator on changes.
   */
  method Minify(json: array<byte>)
    requires NUL in json[..]
    modifies json
    ensures CString(json[..]) == Filter(CString(old(json[..])))
    ensures forall i :: |CString(old(json[..]))| <= i < json.Length ==> json[i] == old(json[i])
  {
    ghost var source := json[..];
    ghost var text := CString(source);
    ghost var n := |text|;
    var from: nat, into: nat := 0, 0;
    RestOfText(json[..], source, 0, text);
    while json[from] != NUL
      invariant into <= from <= n < json.Length
      invariant Intact(json[..], source, from)
      invariant Filter(text) == json[..into] + Filter(text[from..])
      decreases n - from
    {
      ghost var done, at := json[..into], from;
      from, into := MinifyStep(json, from, into, source, text);
      FilterStep(text, at);
      Assoc(done, CopiedBy(text, at), Filter(text[from..]));
    }
    RestOfText(json[..], source, from, text);
    CursorEnd(json[..], from, n, from);
    Finish(json, into, source, text);
  }

  method Finish(json: array<byte>, into: nat, ghost source: bytes, ghost text: bytes)
    requires text == CString(source) && into <= |text| < json.Length
    requires Intact(json[..], source, |text|)
    requires Filter(text) == json[..into] + Filter(text[|text|..])
    modifies json
    ensures CString(json[..]) == Filter(text)
    ensures Intact(json[..], source, |text|)
  {
    ghost var out := json[..into];
    assert text[|text|..] == [] && Filter([]) == [];
    assert Filter(text) == out + [] == out;
    RestOfText(json[..], source, |text|, text);
    json[into] := NUL;
    FilterIsClean(text);
    CStringTerminated(out, json[into + 1..]);
    assert json[..] == out + [NUL] + json[into + 1..];
  }

  /** A slash outside a literal: a comment, or a stray byte, is passed over. */
  method SkipSlash(json: array<byte>, from: nat, ghost source: bytes, ghost text: bytes) returns (from': nat)
    requires text == CString(source) && from <= |text| < json.Length && json[from] == SLASH
    requires Intact(json[..], source, from)
    ensures from < |text| && text[from] == SLASH && from' == NextRead(text, from)
  {
    ghost var n := |text|;
    RestOfText(json[..], source, from, text);
    NextOfText(json[..], source, from, text);
    if json[from + 1] == SLASH {
      from' := SkipLineComment(json, from, n);
    } else if json[from + 1] == STAR {
      from' := SkipBlockComment(json, from, n);
    } else {
      from' := from + 1;
    }
  }

  /** One turn of the loop: the byte under the read cursor decides what is copied or skipped. */
  method MinifyStep(json: array<byte>, from: nat, into: nat, ghost source: bytes, ghost text: bytes)
    returns (from': nat, into': nat)
    requires text == CString(source) && into <= from <= |text| < json.Length && json[from] != NUL
    requires Intact(json[..], source, from)
    modifies json
    ensures from < |text| && from' == NextRead(text, from) && into' <= from'
    ensures Intact(json[..], source, from')
    ensures json[..into'] == old(json[..into]) + CopiedBy(text, from)
  {
    NextOfText(json[..], source, from, text);
    from', into' := from + 1, into;
    var c := json[from];
    Nothing(json[..into], []);
    if c == SPACE || c == TAB || c == CR || c == NEWLINE {
    } else if c == SLASH {
      from' := SkipSlash(json, from, source, text);
    } else if c == QUOTE {
      from', into' := MinifyLiteral(json, from, into, source, text, text[from + 1..]);
    } else {
      CopyByte(json, from, into, source);
      into' := into + 1;
    }
  }

  method MinifyLiteral(json: array<byte>, from: nat, into: nat, ghost source: bytes, ghost text: bytes, ghost s: bytes)
    returns (from': nat, into': nat)
    requires text == CString(source) && into <= from < |text| < json.Length && json[from] == QUOTE
    requires Intact(json[..], source, from) && s == text[from + 1..]
    modifies json
    ensures from' == from + 1 + LiteralLength(s) && into' == into + 1 + LiteralLength(s)
    ensures Intact(json[..], source, from')
    ensures json[..into'] == old(json[..into]) + ([QUOTE] + s[..LiteralLength(s)])
  {
    RestOfText(json[..], source, from + 1, text);
    from', into' := MinifyString(json, from, into, s);
  }

  lemma Nothing(a: bytes, b: bytes)
    ensures a + [] == a && [] + b == b
  {
  }
}
