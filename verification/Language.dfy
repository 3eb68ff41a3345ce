/**
 The parser decides the grammar: every text it reads is the text of a syntax tree with
 that value (soundness), and it reads the text of every tree whose containers nest no
 deeper than the limit, and no other (completeness).
 */
module Language {
  import opened Base
  import opened Values
  import opened Numbers
  import opened StringLiterals
  import opened Parser
  import opened Grammar

  // ---------- blanks ----------

  lemma {:induction false} SkipBlanks(w: bytes, r: bytes)
    requires Blanks(w) && r != [] && (|r| == 1 || !IsBlank(r[0]))
    ensures Skip(w + r) == r
  {
    if w == [] {
      assert w + r == r;
    } else {
      assert (w + r)[1..] == w[1..] + r;
      SkipBlanks(w[1..], r);
    }
  }

  lemma {:induction false} SkipSplit(s: bytes) returns (w: bytes)
    ensures s == w + Skip(s) && Blanks(w)
  {
    if |s| > 1 && IsBlank(s[0]) {
      w := SkipSplit(s[1..]);
      w := [s[0]] + w;
    } else {
      w := [];
    }
  }

  lemma {:induction false} SkipTwice(s: bytes)
    ensures Skip(Skip(s)) == Skip(s)
  {
    if |s| > 1 && IsBlank(s[0]) {
      SkipTwice(s[1..]);
    }
  }

  // ---------- completeness ----------

  lemma CompleteString(body: bytes, r: bytes)
    requires IsStringBody(body) && Terminated(r)
    ensures Terminated(Quoted(body) + r)
    ensures ParseString(Quoted(body) + r) == Ok(StringMeaning(body), r)
  {
    var s := Quoted(body) + r;
    assert s[1..] == body + [QUOTE] + r;
    ScanOfBody(body, r);
    assert s[1..][..|body|] == body;
    assert s[|body| + 2..] == r;
  }

  lemma CompleteNumber(literal: bytes, r: bytes)
    requires IsNumberLiteral(literal) && Terminated(r) && !IsNumberChar(r[0])
    ensures ParseNumber(literal + r) == Ok(Number(DecimalValue(literal)), r)
  {
    var s := literal + r;
    NumberLengthOfLiteral(literal, r);
    assert s[..|literal|] == literal && s[|literal|..] == r;
  }

  lemma CompleteWord(v: Value, r: bytes, d: nat)
    requires IsWord(v) && Terminated(r)
    ensures ParseValue(WordText(v) + r, d) == Ok(v, r)
  {
    var w := WordText(v);
    var s := w + r;
    assert s[..|w|] == w && s[|w|..] == r;
    assert s[0] == w[0];
    assert forall u: bytes :: u != [] && StartsWith(s, u) ==> s[0] == s[..|u|][0] == u[0];
  }

  lemma NotAWord(s: bytes)
    requires s != [] && s[0] != 110 && s[0] != 102 && s[0] != 116
    ensures !StartsWith(s, NULL_WORD) && !StartsWith(s, FALSE_WORD) && !StartsWith(s, TRUE_WORD)
  {
    assert forall u: bytes :: u != [] && StartsWith(s, u) ==> s[0] == s[..|u|][0] == u[0];
  }

  lemma CompleteKey(tag: Option<Label>, lead: bytes, named: bool, r: bytes)
    requires Blanks(lead) && (tag.Some? <==> named) && (tag.Some? ==> WellFormedLabel(tag.value))
    requires Terminated(r) && !IsBlank(r[0])
    ensures ParseKey(lead + (LabelText(tag) + r), named) == Ok(LabelMeaning(tag), r)
  {
    match tag
    case None =>
      assert LabelText(tag) + r == r;
      SkipBlanks(lead, r);
    case Some(k) =>
      var value := k.after + r;
      var colon := [COLON] + value;
      var name := Quoted(k.body) + (k.before + colon);
      KeyPieces(Quoted(k.body), k.before, [COLON], k.after, r);
      SkipBlanks(lead, name);
      CompleteString(k.body, k.before + colon);
      AfterName(k.before, k.after, r);
  }

  lemma KeyPieces(a: bytes, b: bytes, c: bytes, d: bytes, r: bytes)
    ensures (a + b + c + d) + r == a + (b + (c + (d + r)))
  {
  }

  lemma AfterName(before: bytes, after: bytes, r: bytes)
    requires Blanks(before) && Blanks(after) && Terminated(r) && !IsBlank(r[0])
    ensures var s := before + ([COLON] + (after + r));
            Terminated(s) && Skip(s)[0] == COLON && Skip(Skip(s)[1..]) == r
  {
    var colon := [COLON] + (after + r);
    SkipBlanks(before, colon);
    assert colon[1..] == after + r;
    SkipBlanks(after, r);
  }

  lemma FlattenStarts(t: Tree, r: bytes)
    requires WellFormed(t)
    ensures !IsBlank(Flatten(t)[0]) && (Flatten(t) + r)[0] == Flatten(t)[0]
  {
  }

  /** The parser reads a tree's text, and only that, exactly when the nesting limit allows it. */
  lemma {:induction false} Complete(t: Tree, r: bytes, d: nat)
    requires WellFormed(t) && Terminated(r) && (t.Num? ==> !IsNumberChar(r[0])) && d <= NESTING_LIMIT
    ensures Terminated(Flatten(t) + r)
    ensures if d + Depth(t) <= NESTING_LIMIT
            then ParseValue(Flatten(t) + r, d) == Ok(Meaning(t), r)
            else ParseValue(Flatten(t) + r, d).Fail?
    decreases t, 1
  {
    match t
    case Word(w) => CompleteWord(w, r, d);
    case Num(literal) =>
      NumberValue(literal + r, d);
      CompleteNumber(literal, r);
    case Text(body) =>
      CompleteString(body, r);
      StringValue(Quoted(body) + r, d);
    case Group(named, _, _) =>
      CompleteGroup(t, r, d);
      ContainerValue(Flatten(t) + r, d, named);
  }

  lemma NumberValue(s: bytes, d: nat)
    requires Terminated(s) && (s[0] == MINUS || IsDigit(s[0]))
    ensures ParseValue(s, d) == ParseNumber(s)
  {
    NotAWord(s);
  }

  lemma StringValue(s: bytes, d: nat)
    requires Terminated(s) && s[0] == QUOTE
    ensures ParseString(s).Ok? ==> ParseValue(s, d) == Ok(String(ParseString(s).value), ParseString(s).rest)
  {
    NotAWord(s);
  }

  lemma ContainerValue(s: bytes, d: nat, named: bool)
    requires Terminated(s) && s[0] == Opening(named)
    ensures var c := ParseContainer(s, d, named);
            && (c.Ok? ==> ParseValue(s, d) == Ok(if named then Object(c.value) else Array(c.value), c.rest))
            && (c.Fail? ==> ParseValue(s, d) == Fail(c.rest))
  {
    NotAWord(s);
  }

  lemma {:induction false} CompleteGroup(t: Tree, r: bytes, d: nat)
    requires t.Group? && WellFormed(t) && Terminated(r) && d <= NESTING_LIMIT
    ensures Terminated(Flatten(t) + r) && (Flatten(t) + r)[0] == Opening(t.named)
    ensures if d + Depth(t) <= NESTING_LIMIT
            then ParseContainer(Flatten(t) + r, d, t.named) == Ok(MeaningElems(t.elems, t.named), r)
            else ParseContainer(Flatten(t) + r, d, t.named).Fail?
    decreases t, 0
  {
    var close := [Closing(t.named)] + r;
    var inner := t.pad + FlattenElems(t.elems, t.named);
    BracketInside(Opening(t.named), inner, Closing(t.named), r);
    assert Depth(t) == 1 + DepthElems(t.elems);
    if t.elems.End? {
      EmptyFlat(t.pad, t.named);
      EmptyContainer(Flatten(t) + r, t.pad, close, d, t.named);
    } else {
      FullFlat(t.elems, t.named);
      CompleteInside(t.elems, Flatten(t) + r, close, d, t.named);
    }
  }

  lemma EmptyFlat(pad: bytes, named: bool)
    ensures pad + FlattenElems(End, named) == pad
  {
  }

  lemma FullFlat(es: Elems, named: bool)
    requires WellFormedElems(es, named)
    ensures [] + FlattenElems(es, named) == FlattenElems(es, named)
  {
  }

  lemma {:induction false} CompleteInside(es: Elems, s: bytes, close: bytes, d: nat, named: bool)
    requires es.Elem? && WellFormedElems(es, named) && d <= NESTING_LIMIT
    requires Terminated(s) && s[0] == Opening(named) && s[1..] == FlattenElems(es, named) + close
    requires Terminated(close) && close[0] == Closing(named) && |close| > 1
    ensures if d + 1 + DepthElems(es) <= NESTING_LIMIT
            then ParseContainer(s, d, named) == Ok(MeaningElems(es, named), close[1..])
            else ParseContainer(s, d, named).Fail?
    decreases es, 3
  {
    hide ParseItems, FlattenElems, MeaningElems, DepthElems, WellFormedElems, Skip;
    if d < NESTING_LIMIT {
      CompleteElems(es, close, d + 1, named);
      ElemsStart(es, close, named);
      FullContainer(s, s[1..], d, named);
    }
  }

  lemma EmptyContainer(s: bytes, pad: bytes, close: bytes, d: nat, named: bool)
    requires Terminated(s) && s[0] == Opening(named)
    requires Blanks(pad) && close != [] && close[0] == Closing(named) && s[1..] == pad + close
    ensures ParseContainer(s, d, named) == if d < NESTING_LIMIT then Ok(Nil, close[1..]) else Fail(s)
  {
    SkipBlanks(pad, close);
  }

  lemma FullContainer(s: bytes, inner: bytes, d: nat, named: bool)
    requires Terminated(s) && s[0] == Opening(named) && d < NESTING_LIMIT
    requires Terminated(inner) && s[1..] == inner && Skip(inner)[0] != Closing(named)
    ensures var items := ParseItems(inner, d + 1, named);
            ParseContainer(s, d, named) ==
            if items.Ok? && items.rest[0] == Closing(named) then Ok(items.value, items.rest[1..]) else Fail(items.rest)
  {
    ItemsAfterSkip(inner, d + 1, named);
  }

  lemma ItemsAfterSkip(s: bytes, d: nat, named: bool)
    requires Terminated(s)
    ensures ParseItems(Skip(s), d, named) == ParseItems(s, d, named)
  {
    SkipTwice(s);
  }

  lemma ElemsStart(es: Elems, r: bytes, named: bool)
    requires es.Elem? && WellFormedElems(es, named)
    ensures Skip(FlattenElems(es, named) + r)[0] != Closing(named)
  {
    var rest := LabelText(es.tag) + (Flatten(es.tree) + (es.trail + TailText(es.more, named)));
    assert FlattenElems(es, named) + r == es.lead + (rest + r);
    assert (rest + r)[0] == rest[0] == (if named then QUOTE else Flatten(es.tree)[0]);
    SkipBlanks(es.lead, rest + r);
  }

  lemma {:induction false} CompleteElems(es: Elems, r: bytes, d: nat, named: bool)
    requires es.Elem? && WellFormedElems(es, named)
    requires Terminated(r) && !IsBlank(r[0]) && !IsNumberChar(r[0]) && r[0] != COMMA && d <= NESTING_LIMIT
    ensures Terminated(FlattenElems(es, named) + r)
    ensures if d + DepthElems(es) <= NESTING_LIMIT
            then ParseItems(FlattenElems(es, named) + r, d, named) == Ok(MeaningElems(es, named), r)
            else ParseItems(FlattenElems(es, named) + r, d, named).Fail?
    decreases es, 2
  {
    var s := FlattenElems(es, named) + r;
    var value, after, next := CompleteItem(es, r, d, named);
    assert DepthElems(es) == Max(Depth(es.tree), DepthElems(es.more));
    if d + Depth(es.tree) <= NESTING_LIMIT {
      if es.more.Elem? {
        CompleteElems(es.more, r, d, named);
        MoreItems(s, LabelMeaning(es.tag), value, Meaning(es.tree), after, next, d, named);
      } else {
        LastItem(s, LabelMeaning(es.tag), value, Meaning(es.tree), after, next, d, named);
      }
    } else {
      NoItems(s, LabelMeaning(es.tag), value, d, named);
    }
  }

  /** The steps of the parser over one item: its key, its value, the blanks behind it. */
  lemma {:induction false} CompleteItem(es: Elems, r: bytes, d: nat, named: bool) returns (value: bytes, after: bytes, next: bytes)
    requires es.Elem? && WellFormedElems(es, named)
    requires Terminated(r) && !IsBlank(r[0]) && !IsNumberChar(r[0]) && d <= NESTING_LIMIT
    ensures Terminated(FlattenElems(es, named) + r) && Terminated(value) && Terminated(after) && Terminated(next)
    ensures ParseKey(FlattenElems(es, named) + r, named) == Ok(LabelMeaning(es.tag), value)
    ensures if d + Depth(es.tree) <= NESTING_LIMIT
            then ParseValue(value, d) == Ok(Meaning(es.tree), after)
            else ParseValue(value, d).Fail?
    ensures Skip(after) == next
    ensures es.more.End? ==> next == r
    ensures es.more.Elem? ==> next[0] == COMMA && next[1..] == FlattenElems(es.more, named) + r
    decreases es, 1
  {
    hide ParseKey, ParseValue, Skip, Meaning, LabelMeaning, Depth, LabelText, IsNumberChar;
    next := TailText(es.more, named) + r;
    after := es.trail + next;
    value := Flatten(es.tree) + after;
    AfterItem(es, r, named);
    FlattenStarts(es.tree, after);
    CompleteKey(es.tag, es.lead, named, value);
    Complete(es.tree, after, d);
    SkipBlanks(es.trail, next);
    Assemble(es.lead + (LabelText(es.tag) + value), es.lead, LabelText(es.tag) + value, LabelText(es.tag), value,
             Flatten(es.tree), after, es.trail, next, TailText(es.more, named), r);
  }

  lemma LastItem(s: bytes, key: Option<bytes>, value: bytes, v: Value, after: bytes, next: bytes, d: nat, named: bool)
    requires Terminated(s) && Terminated(value) && Terminated(after) && Terminated(next)
    requires ParseKey(s, named) == Ok(key, value) && ParseValue(value, d) == Ok(v, after) && Skip(after) == next
    requires next[0] != COMMA
    ensures ParseItems(s, d, named) == Ok(Cons(key, v, Nil), next)
  {
  }

  lemma MoreItems(s: bytes, key: Option<bytes>, value: bytes, v: Value, after: bytes, next: bytes, d: nat, named: bool)
    requires Terminated(s) && Terminated(value) && Terminated(after) && Terminated(next)
    requires ParseKey(s, named) == Ok(key, value) && ParseValue(value, d) == Ok(v, after) && Skip(after) == next
    requires next[0] == COMMA
    ensures var more := ParseItems(next[1..], d, named);
            && (more.Ok? ==> ParseItems(s, d, named) == Ok(Cons(key, v, more.value), more.rest))
            && (more.Fail? ==> ParseItems(s, d, named) == more)
  {
  }

  lemma NoItems(s: bytes, key: Option<bytes>, value: bytes, d: nat, named: bool)
    requires Terminated(s) && Terminated(value) && ParseKey(s, named) == Ok(key, value) && ParseValue(value, d).Fail?
    ensures ParseItems(s, d, named).Fail?
  {
  }

  lemma BlanksThen(w: bytes, r: bytes)
    requires Blanks(w) && r != [] && !IsNumberChar(r[0])
    ensures !IsNumberChar((w + r)[0])
  {
  }

  /** What follows an item: blanks, then a comma and the rest, or what ends the list. */
  lemma AfterItem(es: Elems, r: bytes, named: bool)
    requires es.Elem? && WellFormedElems(es, named)
    requires Terminated(r) && !IsBlank(r[0]) && !IsNumberChar(r[0])
    ensures var next := TailText(es.more, named) + r;
            && !IsNumberChar((es.trail + next)[0])
            && !IsBlank(next[0])
            && (es.more.End? ==> next == r)
            && (es.more.Elem? ==> next[0] == COMMA && next[1..] == FlattenElems(es.more, named) + r)
  {
    BlanksThen(es.trail, TailText(es.more, named) + r);
    if es.more.Elem? { PrefixByte(COMMA, FlattenElems(es.more, named), r); }
  }

  // ---------- soundness ----------

  lemma SoundString(s: bytes) returns (body: bytes)
    requires Terminated(s) && ParseString(s).Ok?
    ensures IsStringBody(body) && s == Quoted(body) + ParseString(s).rest
    ensures ParseString(s).value == StringMeaning(body)
  {
    body := s[1..][..ScanBody(s[1..]).value];
    assert s == [QUOTE] + body + [QUOTE] + s[|body| + 2..];
  }

  lemma SoundKey(s: bytes, named: bool) returns (lead: bytes, tag: Option<Label>)
    requires Terminated(s) && ParseKey(s, named).Ok?
    ensures Blanks(lead) && (tag.Some? <==> named) && (tag.Some? ==> WellFormedLabel(tag.value))
    ensures s == lead + (LabelText(tag) + ParseKey(s, named).rest)
    ensures LabelMeaning(tag) == ParseKey(s, named).value
  {
    lead := SkipSplit(s);
    var start := Skip(s);
    if named {
      var k := SoundLabel(start);
      tag := Some(k);
    } else {
      tag := None;
      assert LabelText(tag) + start == start;
    }
  }

  lemma SoundLabel(start: bytes) returns (k: Label)
    requires Terminated(start) && ParseString(start).Ok?
    requires var colon := Skip(ParseString(start).rest); colon[0] == COLON
    ensures WellFormedLabel(k) && StringMeaning(k.body) == ParseString(start).value
    ensures start == LabelText(Some(k)) + Skip(Skip(ParseString(start).rest)[1..])
  {
    var body := SoundString(start);
    var before, after := AroundColon(ParseString(start).rest);
    k := Label(body, before, after);
    LabelPieces(Quoted(body), before, [COLON], after);
    Assoc(Quoted(body), before + ([COLON] + after), Skip(Skip(ParseString(start).rest)[1..]));
  }

  lemma AroundColon(rest: bytes) returns (before: bytes, after: bytes)
    requires rest != [] && Skip(rest)[0] == COLON
    ensures Blanks(before) && Blanks(after)
    ensures rest == (before + ([COLON] + after)) + Skip(Skip(rest)[1..])
  {
    before := SkipSplit(rest);
    var colon := Skip(rest);
    after := SkipSplit(colon[1..]);
    SplitFront(colon);
    ColonPieces(before, after, Skip(colon[1..]));
  }

  lemma ColonPieces(before: bytes, after: bytes, value: bytes)
    ensures before + ([COLON] + (after + value)) == (before + ([COLON] + after)) + value
  {
  }

  lemma LabelPieces(a: bytes, b: bytes, c: bytes, d: bytes)
    ensures a + (b + (c + d)) == a + b + c + d
  {
  }

  lemma SoundNumber(s: bytes) returns (t: Tree)
    requires Terminated(s) && ParseNumber(s).Ok? && (s[0] == MINUS || IsDigit(s[0]))
    ensures WellFormed(t) && t.Num? && Meaning(t) == ParseNumber(s).value
    ensures s == Flatten(t) + ParseNumber(s).rest
  {
    var k := NumberLength(s);
    PrefixIsLiteral(s, k);
    t := Num(s[..k]);
    NumberTaken(s, k);
  }

  lemma PrefixIsLiteral(s: bytes, k: nat)
    requires 0 < k <= |s| && k <= SCRATCH && (s[0] == MINUS || IsDigit(s[0]))
    requires (forall i :: 0 <= i < k ==> IsNumberChar(s[i])) && IsDecimal(s[..k])
    ensures IsNumberLiteral(s[..k])
  {
  }

  lemma NumberTaken(s: bytes, k: nat)
    requires Terminated(s) && k == NumberLength(s) > 0
    ensures IsDecimal(s[..k]) && ParseNumber(s) == Ok(Number(DecimalValue(s[..k])), s[k..]) && s == s[..k] + s[k..]
  {
  }

  /** Whatever the parser accepts is the text of a well-formed tree with the same value. */
  lemma {:induction false} Sound(s: bytes, d: nat) returns (t: Tree)
    requires Terminated(s) && ParseValue(s, d).Ok?
    ensures WellFormed(t) && Meaning(t) == ParseValue(s, d).value
    ensures s == Flatten(t) + ParseValue(s, d).rest
    ensures t.Group? ==> d + Depth(t) <= NESTING_LIMIT
    decreases |s|, 2
  {
    if StartsWith(s, NULL_WORD) {
      t := Word(Null);
      assert s == s[..4] + s[4..];
    } else if StartsWith(s, FALSE_WORD) {
      t := Word(False);
      assert s == s[..5] + s[5..];
    } else if StartsWith(s, TRUE_WORD) {
      t := Word(True);
      assert s == s[..4] + s[4..];
    } else if s[0] == QUOTE {
      var body := SoundString(s);
      t := Text(body);
    } else if s[0] == MINUS || IsDigit(s[0]) {
      t := SoundNumber(s);
    } else {
      t := SoundContainer(s, d, s[0] == LBRACE);
    }
  }

  lemma {:induction false} SoundContainer(s: bytes, d: nat, named: bool) returns (t: Tree)
    requires Terminated(s) && s[0] == Opening(named) && ParseContainer(s, d, named).Ok?
    ensures t.Group? && t.named == named && WellFormed(t)
    ensures MeaningElems(t.elems, named) == ParseContainer(s, d, named).value
    ensures s == Flatten(t) + ParseContainer(s, d, named).rest
    ensures d + Depth(t) <= NESTING_LIMIT
    decreases |s|, 1
  {
    var pad := SkipSplit(s[1..]);
    var inside := Skip(s[1..]);
    if inside[0] == Closing(named) {
      t := Group(named, pad, End);
      SoundEmpty(s, pad, inside, named);
      EmptyContainer(s, pad, inside, d, named);
      assert Depth(t) == 1 + DepthElems(End);
    } else {
      ItemsAfterSkip(s[1..], d + 1, named);
      FullContainer(s, s[1..], d, named);
      var items := ParseItems(inside, d + 1, named);
      t := SoundInside(s, pad, inside, items.value, items.rest, d, named);
    }
  }

  lemma {:induction false} SoundInside(s: bytes, pad: bytes, inside: bytes, xs: Items, rest: bytes, d: nat, named: bool) returns (t: Tree)
    requires s != [] && s[0] == Opening(named) && s[1..] == pad + inside && Blanks(pad) && d < NESTING_LIMIT
    requires Terminated(inside) && ParseItems(inside, d + 1, named) == Ok(xs, rest)
    requires rest != [] && rest[0] == Closing(named)
    ensures t.Group? && t.named == named && WellFormed(t) && MeaningElems(t.elems, named) == xs
    ensures s == Flatten(t) + rest[1..]
    ensures d + Depth(t) <= NESTING_LIMIT
    decreases |s|, 0
  {
    var es := SoundItems(inside, xs, rest, d + 1, named);
    Assoc(pad, FlattenElems(es, named), rest);
    es := AddLead(pad, es, named);
    t := Group(named, [], es);
    SoundFull(s, es, rest, named);
    assert Depth(t) == 1 + DepthElems(es);
  }

  lemma SoundEmpty(s: bytes, pad: bytes, end: bytes, named: bool)
    requires Blanks(pad) && s != [] && s[0] == Opening(named) && s[1..] == pad + end
    requires end != [] && end[0] == Closing(named)
    ensures s == Flatten(Group(named, pad, End)) + end[1..]
  {
    assert pad + FlattenElems(End, named) == pad;
    Bracketed(s, pad, end, named);
  }

  lemma SoundFull(s: bytes, es: Elems, end: bytes, named: bool)
    requires es.Elem? && WellFormedElems(es, named)
    requires s != [] && s[0] == Opening(named) && s[1..] == FlattenElems(es, named) + end
    requires end != [] && end[0] == Closing(named)
    ensures s == Flatten(Group(named, [], es)) + end[1..]
  {
    assert [] + FlattenElems(es, named) == FlattenElems(es, named);
    Bracketed(s, FlattenElems(es, named), end, named);
  }

  lemma Bracketed(s: bytes, inner: bytes, end: bytes, named: bool)
    requires s != [] && s[0] == Opening(named) && s[1..] == inner + end
    requires end != [] && end[0] == Closing(named)
    ensures s == [Opening(named)] + inner + [Closing(named)] + end[1..]
  {
  }

  lemma AddLead(pad: bytes, es: Elems, named: bool) returns (fs: Elems)
    requires Blanks(pad) && es.Elem? && WellFormedElems(es, named)
    ensures fs.Elem? && WellFormedElems(fs, named)
    ensures FlattenElems(fs, named) == pad + FlattenElems(es, named)
    ensures MeaningElems(fs, named) == MeaningElems(es, named) && DepthElems(fs) == DepthElems(es)
  {
    fs := Elem(pad + es.lead, es.tag, es.tree, es.trail, es.more);
  }

  /** One item of the list, with what its three steps leave unread. */
  lemma {:induction false} SoundItem(s: bytes, d: nat, named: bool) returns (es: Elems)
    requires Terminated(s) && ParseItems(s, d, named).Ok? && d <= NESTING_LIMIT
    ensures ParseKey(s, named).Ok? && ParseValue(ParseKey(s, named).rest, d).Ok?
    ensures es.Elem? && es.more.End? && WellFormedElems(es, named)
    ensures var key := ParseKey(s, named);
            var item := ParseValue(key.rest, d);
            && s == es.lead + (LabelText(es.tag) + key.rest) && LabelMeaning(es.tag) == key.value
            && key.rest == Flatten(es.tree) + item.rest && Meaning(es.tree) == item.value
            && item.rest == es.trail + Skip(item.rest)
    ensures d + Depth(es.tree) <= NESTING_LIMIT
    decreases |s|, 3
  {
    var lead, tag := SoundKey(s, named);
    var key := ParseKey(s, named);
    var tree := Sound(key.rest, d);
    var trail := SkipSplit(ParseValue(key.rest, d).rest);
    es := Elem(lead, tag, tree, trail, End);
  }

  lemma {:induction false} SoundItems(s: bytes, xs: Items, rest: bytes, d: nat, named: bool) returns (es: Elems)
    requires Terminated(s) && ParseItems(s, d, named) == Ok(xs, rest) && d <= NESTING_LIMIT
    ensures es.Elem? && WellFormedElems(es, named) && MeaningElems(es, named) == xs
    ensures s == FlattenElems(es, named) + rest
    ensures d + DepthElems(es) <= NESTING_LIMIT
    decreases |s|, 4
  {
    var one := SoundItem(s, d, named);
    var key := ParseKey(s, named);
    var item := ParseValue(key.rest, d);
    var after := Skip(item.rest);
    if after[0] != COMMA {
      LastItem(s, key.value, key.rest, item.value, item.rest, after, d, named);
      es := SoundElem(one, End, s, key.rest, item.rest, after, after, named);
    } else {
      MoreItems(s, key.value, key.rest, item.value, item.rest, after, d, named);
      es := SoundMore(one, s, key.rest, item.rest, after, xs.next, rest, d, named);
    }
  }

  lemma {:induction false} SoundMore(one: Elems, s: bytes, value: bytes, post: bytes, after: bytes, xs: Items, rest: bytes, d: nat, named: bool)
    returns (es: Elems)
    requires one.Elem? && one.more.End? && WellFormedElems(one, named) && d + Depth(one.tree) <= NESTING_LIMIT
    requires s == one.lead + (LabelText(one.tag) + value)
    requires value == Flatten(one.tree) + post
    requires post == one.trail + after
    requires Terminated(after) && after[0] == COMMA && |after| < |s|
    requires ParseItems(after[1..], d, named) == Ok(xs, rest) && d <= NESTING_LIMIT
    ensures es.Elem? && WellFormedElems(es, named)
    ensures MeaningElems(es, named) == Cons(LabelMeaning(one.tag), Meaning(one.tree), xs)
    ensures s == FlattenElems(es, named) + rest
    ensures d + DepthElems(es) <= NESTING_LIMIT
    decreases |s|, 0
  {
    var more := SoundItems(after[1..], xs, rest, d, named);
    SplitFront(after);
    es := SoundElem(one, more, s, value, post, after, rest, named);
  }

  lemma SoundElem(one: Elems, more: Elems, s: bytes, value: bytes, post: bytes, after: bytes, rest: bytes, named: bool) returns (es: Elems)
    requires one.Elem? && one.more.End? && WellFormedElems(one, named) && WellFormedElems(more, named)
    requires s == one.lead + (LabelText(one.tag) + value)
    requires value == Flatten(one.tree) + post
    requires post == one.trail + after
    requires more.End? ==> after == rest
    requires more.Elem? ==> after == [COMMA] + (FlattenElems(more, named) + rest)
    ensures es.Elem? && WellFormedElems(es, named)
    ensures MeaningElems(es, named) == Cons(LabelMeaning(one.tag), Meaning(one.tree), MeaningElems(more, named))
    ensures DepthElems(es) == Max(Depth(one.tree), DepthElems(more))
    ensures s == FlattenElems(es, named) + rest
  {
    es := Elem(one.lead, one.tag, one.tree, one.trail, more);
    SoundTail(after, more, rest, named);
    Assemble(s, es.lead, LabelText(es.tag) + value, LabelText(es.tag), value, Flatten(es.tree), post,
             es.trail, after, TailText(es.more, named), rest);
  }

  lemma SoundTail(after: bytes, more: Elems, rest: bytes, named: bool)
    requires WellFormedElems(more, named)
    requires more.End? ==> after == rest
    requires more.Elem? ==> after == [COMMA] + (FlattenElems(more, named) + rest)
    ensures after == TailText(more, named) + rest
  {
    if more.Elem? { Assoc([COMMA], FlattenElems(more, named), rest); }
  }

  // ---------- whole documents ----------

  lemma FlattenIsAscii(t: Tree)
    requires WellFormed(t)
    ensures 32 < Flatten(t)[0] < 127
  {
  }

  /** The text of a document: an optional byte-order mark, blanks, a value, and blanks up to the final NUL. */
  function DocumentText(mark: bytes, lead: bytes, t: Tree, trail: bytes): bytes
    requires WellFormed(t)
  {
    mark + (lead + (Flatten(t) + trail))
  }

  predicate IsDocument(mark: bytes, lead: bytes, t: Tree, trail: bytes) {
    (mark == [] || mark == BOM) && Blanks(lead) && WellFormed(t) && Blanks(trail) && Terminated(trail)
  }

  lemma SkipMark(mark: bytes, lead: bytes, t: Tree, trail: bytes)
    requires IsDocument(mark, lead, t, trail)
    ensures SkipBom(DocumentText(mark, lead, t, trail)) == lead + (Flatten(t) + trail)
    ensures Terminated(DocumentText(mark, lead, t, trail))
  {
    var text := lead + (Flatten(t) + trail);
    FlattenIsAscii(t);
    if mark == BOM {
      assert (BOM + text)[..3] == BOM && (BOM + text)[3..] == text;
    } else {
      assert mark + text == text;
      assert text[0] < 127;
      assert forall u: bytes :: u != [] && StartsWith(text, u) ==> text[0] == text[..|u|][0] == u[0];
    }
  }

  /** A document is read, up to its final NUL, exactly when its nesting is within the limit. */
  lemma CompleteDocument(mark: bytes, lead: bytes, t: Tree, trail: bytes)
    requires IsDocument(mark, lead, t, trail)
    ensures Terminated(DocumentText(mark, lead, t, trail))
    ensures if Depth(t) <= NESTING_LIMIT
            then ParseDocument(DocumentText(mark, lead, t, trail), true) == Ok(Meaning(t), [NUL])
            else ParseDocument(DocumentText(mark, lead, t, trail), true).Fail?
  {
    SkipMark(mark, lead, t, trail);
    StartOfDocument(lead, t, trail);
    ValueOfDocument(t, trail);
    FromStart(DocumentText(mark, lead, t, trail), Flatten(t) + trail);
  }

  lemma StartOfDocument(lead: bytes, t: Tree, trail: bytes)
    requires Blanks(lead) && WellFormed(t)
    ensures Skip(lead + (Flatten(t) + trail)) == Flatten(t) + trail
  {
    FlattenIsAscii(t);
    SkipBlanks(lead, Flatten(t) + trail);
  }

  lemma ValueOfDocument(t: Tree, trail: bytes)
    requires WellFormed(t) && Blanks(trail) && Terminated(trail)
    ensures Terminated(Flatten(t) + trail)
    ensures if Depth(t) <= NESTING_LIMIT
            then ParseValue(Flatten(t) + trail, 0) == Ok(Meaning(t), trail) && Skip(trail) == [NUL]
            else ParseValue(Flatten(t) + trail, 0).Fail?
  {
    assert IsBlank(trail[0]);
    Complete(t, trail, 0);
    EndOfDocument(trail);
  }

  lemma EndOfDocument(trail: bytes)
    requires Blanks(trail) && Terminated(trail)
    ensures Skip(trail) == [NUL]
  {
    var w := trail[..|trail| - 1];
    assert trail == w + [NUL];
    SkipBlanks(w, [NUL]);
  }

  lemma FromStart(c: bytes, start: bytes)
    requires Terminated(start) && (c != [] ==> c[|c| - 1] == NUL) && |start| <= |c| && Skip(SkipBom(c)) == start
    ensures var v := ParseValue(start, 0);
            ParseDocument(c, true) ==
            if v.Fail? then v else if Skip(v.rest)[0] == NUL then Ok(v.value, Skip(v.rest)) else Fail(Skip(v.rest))
  {
  }

  /** Whatever is accepted under `require_null_terminated` is a document with the value returned. */
  lemma SoundDocument(c: bytes) returns (mark: bytes, lead: bytes, t: Tree, trail: bytes)
    requires Terminated(c) && ParseDocument(c, true).Ok?
    ensures IsDocument(mark, lead, t, trail) && c == DocumentText(mark, lead, t, trail)
    ensures Meaning(t) == ParseDocument(c, true).value && Depth(t) <= NESTING_LIMIT
  {
    var text := SkipBom(c);
    mark := SoundMark(c);
    lead := SkipSplit(text);
    var start := Skip(text);
    t := Sound(start, 0);
    trail := ParseValue(start, 0).rest;
    SoundEnd(trail);
  }

  lemma SoundMark(c: bytes) returns (mark: bytes)
    ensures (mark == [] || mark == BOM) && c == mark + SkipBom(c)
  {
    mark := if |c| > 4 && StartsWith(c, BOM) then BOM else [];
    if mark == BOM { assert c == c[..3] + c[3..]; }
  }

  lemma SoundEnd(trail: bytes)
    requires Terminated(trail) && Skip(trail)[0] == NUL
    ensures Blanks(trail)
  {
    var w := SkipSplit(trail);
  }
}
