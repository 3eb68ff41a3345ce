/**
 Where each kind of error is reported, at every place of a document: at the byte where a value,
 a separator or a colon is missing, one byte behind the place where a name is missing, right
 behind the opening quote of a literal without end, and at the backslash of a bad escape.
 */
module Failures {
  import opened Base
  import opened Values
  import opened Numbers
  import opened Utf
  import opened StringLiterals
  import opened Parser
  import opened Grammar
  import opened Language
  import opened Standard

  // ---------- places in a document ----------

  /** The way down to a value: in each container the items done, and the blanks and the name before the next one. */
  datatype Path = Here | Inside(named: bool, done: Elems, lead: bytes, tag: Option<Label>, inner: Path)

  predicate IsPath(p: Path, d: nat) {
    p.Inside? ==>
      && d < NESTING_LIMIT && WellFormedElems(p.done, p.named) && d + 1 + DepthElems(p.done) <= NESTING_LIMIT
      && Blanks(p.lead) && (p.tag.Some? <==> p.named) && (p.tag.Some? ==> WellFormedLabel(p.tag.value))
      && IsPath(p.inner, d + 1)
  }

  function Levels(p: Path): nat { if p.Here? then 0 else 1 + Levels(p.inner) }

  /** Items, each with a comma behind it. */
  function DoneText(done: Elems, named: bool): bytes
    requires WellFormedElems(done, named)
  {
    if done.End? then [] else FlattenElems(done, named) + [44]
  }

  function PathText(p: Path, d: nat): bytes
    requires IsPath(p, d)
  {
    if p.Here? then []
    else [if p.named then 123 else 91] + (DoneText(p.done, p.named) + (p.lead + (LabelText(p.tag) + PathText(p.inner, d + 1))))
  }

  lemma {:induction false} DoneThen(es: Elems, y: bytes, d: nat, named: bool)
    requires es.Elem? && WellFormedElems(es, named) && d <= NESTING_LIMIT && d + DepthElems(es) <= NESTING_LIMIT && Terminated(y)
    ensures var s := FlattenElems(es, named) + ([44] + y);
      Terminated(s) && (ParseItems(y, d, named).Fail? ==> ParseItems(s, d, named) == ParseItems(y, d, named))
    decreases es
  {
    hide ParseItems, ParseKey, ParseValue, Meaning, LabelMeaning;
    var r := [44] + y;
    var s := FlattenElems(es, named) + r;
    var value, after, next := CompleteItem(es, r, d, named);
    assert DepthElems(es) == Max(Depth(es.tree), DepthElems(es.more));
    if es.more.Elem? {
      DoneThen(es.more, y, d, named);
    } else {
      assert next[1..] == y;
    }
    MoreItems(s, LabelMeaning(es.tag), value, Meaning(es.tree), after, next, d, named);
  }

  /** A list that fails behind some items fails where its rest does. */
  lemma ListFails(done: Elems, y: bytes, d: nat, named: bool)
    requires WellFormedElems(done, named) && d < NESTING_LIMIT && d + 1 + DepthElems(done) <= NESTING_LIMIT && Terminated(y)
    requires ParseItems(y, d + 1, named).Fail? && (done.End? ==> Skip(y)[0] != Closing(named))
    ensures var s := [if named then 123 else 91] + (DoneText(done, named) + y);
      Terminated(s) && ParseValue(s, d) == Fail(ParseItems(y, d + 1, named).rest)
  {
    hide ParseItems, ParseValue, ParseContainer, Skip, FlattenElems, WellFormedElems, DepthElems, DoneText;
    var inner := DoneText(done, named) + y;
    DoneFails(done, y, d + 1, named);
    GroupFails(inner, d, named);
  }

  lemma DoneFails(done: Elems, y: bytes, d: nat, named: bool)
    requires WellFormedElems(done, named) && d <= NESTING_LIMIT && d + DepthElems(done) <= NESTING_LIMIT && Terminated(y)
    requires ParseItems(y, d, named).Fail? && (done.End? ==> Skip(y)[0] != Closing(named))
    ensures var inner := DoneText(done, named) + y;
      Terminated(inner) && Skip(inner)[0] != Closing(named) && ParseItems(inner, d, named) == ParseItems(y, d, named)
  {
    hide ParseItems, Skip, FlattenElems, WellFormedElems, DepthElems;
    if done.Elem? {
      Assoc(FlattenElems(done, named), [44], y);
      DoneThen(done, y, d, named);
      ElemsStart(done, [44] + y, named);
    } else {
      assert [] + y == y;
    }
  }

  lemma GroupFails(inner: bytes, d: nat, named: bool)
    requires Terminated(inner) && Skip(inner)[0] != Closing(named) && d < NESTING_LIMIT && ParseItems(inner, d + 1, named).Fail?
    ensures var s := [if named then 123 else 91] + inner; Terminated(s) && ParseValue(s, d) == Fail(ParseItems(inner, d + 1, named).rest)
  {
    hide ParseItems, ParseValue, ParseContainer, Skip;
    var s := [if named then 123 else 91] + inner;
    assert s[1..] == inner;
    FullContainer(s, inner, d, named);
    ContainerValue(s, d, named);
  }

  lemma ItemFails(lead: bytes, tag: Option<Label>, x: bytes, d: nat, named: bool)
    requires Blanks(lead) && (tag.Some? <==> named) && (tag.Some? ==> WellFormedLabel(tag.value))
    requires Terminated(x) && !IsBlank(x[0]) && ParseValue(x, d).Fail?
    ensures var y := lead + (LabelText(tag) + x); Terminated(y) && ParseItems(y, d, named) == Fail(ParseValue(x, d).rest)
  {
    hide ParseKey, ParseValue;
    CompleteKey(tag, lead, named, x);
  }

  lemma ItemStarts(lead: bytes, tag: Option<Label>, x: bytes, named: bool)
    requires Blanks(lead) && (tag.Some? <==> named) && Terminated(x) && !IsBlank(x[0]) && x[0] != 93
    ensures Skip(lead + (LabelText(tag) + x))[0] != Closing(named)
  {
    var y := LabelText(tag) + x;
    assert tag.None? ==> y == x;
    assert tag.Some? ==> y[0] == 34;
    SkipBlanks(lead, y);
  }

  /** A value that fails makes everything around it fail at the same byte. */
  lemma {:induction false} FailurePropagates(p: Path, x: bytes, d: nat)
    requires IsPath(p, d) && Terminated(x) && x[0] > 32 && x[0] != 93 && ParseValue(x, d + Levels(p)).Fail?
    ensures var s := PathText(p, d) + x;
      Terminated(s) && s[0] > 32 && s[0] != 93 && ParseValue(s, d) == Fail(ParseValue(x, d + Levels(p)).rest)
    decreases p
  {
    hide ParseItems, ParseValue, Skip, WellFormedElems, DepthElems, LabelText, DoneText, WellFormedLabel;
    if p.Here? {
      assert [] + x == x;
    } else {
      var inner := PathText(p.inner, d + 1) + x;
      FailurePropagates(p.inner, x, d + 1);
      ItemFails(p.lead, p.tag, inner, d + 1, p.named);
      ItemStarts(p.lead, p.tag, inner, p.named);
      ListFails(p.done, p.lead + (LabelText(p.tag) + inner), d, p.named);
      PathPieces([if p.named then 123 else 91], DoneText(p.done, p.named), p.lead, LabelText(p.tag), PathText(p.inner, d + 1), x);
    }
  }

  lemma PathPieces(a: bytes, b: bytes, c: bytes, e: bytes, f: bytes, x: bytes)
    ensures (a + (b + (c + (e + f)))) + x == a + (b + (c + (e + (f + x))))
  {
    Assoc(e, f, x);
    Assoc(c, e + f, x);
    Assoc(b, c + (e + f), x);
    Assoc(a, b + (c + (e + f)), x);
  }

  /** The same for documents: the error of the value at the end of the path is the document's, with its position. */
  lemma DocumentFails(lead: bytes, p: Path, x: bytes, strict: bool)
    requires Blanks(lead) && IsPath(p, 0) && Terminated(x) && 32 < x[0] < 127 && x[0] != 93 && ParseValue(x, Levels(p)).Fail?
    ensures var c, rest := lead + (PathText(p, 0) + x), ParseValue(x, Levels(p)).rest;
      && Terminated(c) && ParseDocument(c, strict) == Fail(rest)
      && (rest != [] ==> ErrorPosition(c, rest) == |c| - |rest|)
  {
    hide ParseValue, PathText, IsPath, Levels, ParseDocument;
    FailurePropagates(p, x, 0);
    PathStarts(p, 0, x);
    FromBlanks(lead, PathText(p, 0) + x, strict);
  }

  lemma PathStarts(p: Path, d: nat, x: bytes)
    requires IsPath(p, d) && x != []
    ensures (PathText(p, d) + x)[0] in [123, 91, x[0]]
  {
  }

  lemma FromBlanks(lead: bytes, s: bytes, strict: bool)
    requires Blanks(lead) && Terminated(s) && 32 < s[0] < 127 && ParseValue(s, 0).Fail?
    ensures Terminated(lead + s) && ParseDocument(lead + s, strict) == Fail(ParseValue(s, 0).rest)
  {
    hide ParseValue, Skip;
    assert (lead + s)[0] < 127;
    SkipBlanks(lead, s);
  }

  // ---------- the errors ----------

  /** Where no value begins. */
  lemma NoValue(x: bytes, d: nat)
    requires Terminated(x) && x[0] !in [34, 45, 91, 123] && !(48 <= x[0] <= 57)
    requires !([110, 117, 108, 108] <= x) && !([102, 97, 108, 115, 101] <= x) && !([116, 114, 117, 101] <= x)
    ensures ParseValue(x, d) == Fail(x)
  {
  }

  /** A minus with no number behind it. */
  lemma NoDigits(x: bytes, d: nat)
    requires Terminated(x) && x[0] !in [43, 45, 46, 69, 101] && !(48 <= x[0] <= 57)
    ensures ParseValue([45] + x, d) == Fail([45] + x)
  {
    hide NumberLength;
    NumberValue([45] + x, d);
    MinusIsNoNumber(x);
  }

  lemma MinusIsNoNumber(x: bytes)
    requires x != [] && x[0] !in [43, 45, 46, 69, 101] && !(48 <= x[0] <= 57)
    ensures NumberLength([45] + x) == 0
  {
    hide IsDecimal, LongestDecimal;
    var s := [45] + x;
    assert s[1..] == x;
    assert NumberRun(x, SCRATCH - 1) == 0;
    assert NumberRun(s, SCRATCH) == 1;
    assert s[..1] == [45];
    LoneMinus();
  }

  lemma LoneMinus()
    ensures !IsDecimal([45]) && LongestDecimal([45], 1) == 0
  {
    assert [45][..1] == [45] && [45][1..] == [];
  }

  /** In a strict parse, anything but blanks behind the value. */
  lemma NotTheEnd(lead: bytes, t: Tree, w: bytes, y: bytes)
    requires Blanks(lead) && WellFormed(t) && Depth(t) <= NESTING_LIMIT && Blanks(w) && Terminated(y) && y[0] > 32 && !IsNumberChar(y[0])
    ensures var c := lead + (Flatten(t) + (w + y)); Terminated(c) && ParseDocument(c, true) == Fail(y)
  {
    hide ParseValue, Flatten, Depth, WellFormed, Skip, ParseDocument;
    BlanksThen(w, y);
    Complete(t, w + y, 0);
    FlattenIsAscii(t);
    SkipBlanks(w, y);
    BehindValue(lead, Flatten(t) + (w + y), Meaning(t), w + y, y);
  }

  lemma BehindValue(lead: bytes, s: bytes, v: Value, after: bytes, y: bytes)
    requires Blanks(lead) && Terminated(s) && 32 < s[0] < 127 && ParseValue(s, 0) == Ok(v, after) && Skip(after) == y && y != [] && y[0] != NUL
    ensures Terminated(lead + s) && ParseDocument(lead + s, true) == Fail(y)
  {
    hide ParseValue, Skip;
    assert (lead + s)[0] < 127;
    SkipBlanks(lead, s);
  }

  /** A container that would be the 1001st around a value. */
  lemma TooDeep(x: bytes, d: nat)
    requires Terminated(x) && x[0] in [91, 123] && d >= 1000
    ensures ParseValue(x, d) == Fail(x)
  {
    NotAWord(x);
  }

  /** Where neither a comma nor the closing bracket follows an item. */
  lemma NoSeparator(es: Elems, y: bytes, d: nat, named: bool)
    requires es.Elem? && WellFormedElems(es, named) && d < NESTING_LIMIT && d + 1 + DepthElems(es) <= NESTING_LIMIT
    requires Terminated(y) && y[0] > 32 && !IsNumberChar(y[0]) && y[0] != 44 && y[0] != (if named then 125 else 93)
    ensures var s := [if named then 123 else 91] + (FlattenElems(es, named) + y); Terminated(s) && ParseValue(s, d) == Fail(y)
  {
    hide ParseItems, ParseValue, ParseContainer, Skip;
    var inner := FlattenElems(es, named) + y;
    var s := [if named then 123 else 91] + inner;
    CompleteElems(es, y, d + 1, named);
    ElemsStart(es, y, named);
    assert s[1..] == inner;
    FullContainer(s, inner, d, named);
    ContainerValue(s, d, named);
  }

  /** Where a name should begin and no quote stands: the place behind that byte. */
  lemma NoName(done: Elems, lead: bytes, y: bytes, d: nat)
    requires WellFormedElems(done, true) && d < NESTING_LIMIT && d + 1 + DepthElems(done) <= NESTING_LIMIT && Blanks(lead)
    requires Terminated(y) && y[0] > 32 && y[0] != 34 && (done.End? ==> y[0] != 125)
    ensures var s := [123] + (DoneText(done, true) + (lead + y)); Terminated(s) && ParseValue(s, d) == Fail(y[1..])
  {
    hide ParseValue;
    SkipBlanks(lead, y);
    assert ParseKey(lead + y, true) == Fail(y[1..]);
    ListFails(done, lead + y, d, true);
  }

  /** Where a colon should follow a name. */
  lemma NoColon(done: Elems, lead: bytes, body: bytes, before: bytes, y: bytes, d: nat)
    requires WellFormedElems(done, true) && d < NESTING_LIMIT && d + 1 + DepthElems(done) <= NESTING_LIMIT
    requires Blanks(lead) && IsStringBody(body) && Blanks(before) && Terminated(y) && y[0] > 32 && y[0] != 58
    ensures var s := [123] + (DoneText(done, true) + (lead + (([34] + body + [34]) + (before + y)))); Terminated(s) && ParseValue(s, d) == Fail(y)
  {
    hide ParseValue, ParseString;
    var after := before + y;
    var start := Quoted(body) + after;
    CompleteString(body, after);
    SkipBlanks(lead, start);
    SkipBlanks(before, y);
    assert ParseKey(lead + start, true) == Fail(y);
    ListFails(done, lead + start, d, true);
  }

  lemma {:induction false} NoClosingQuote(b: bytes)
    requires 34 !in b && 92 !in b
    ensures ScanBody(b) == None
  {
    if b != [] {
      assert b[0] in b;
      NoClosingQuote(b[1..]);
    }
  }

  /** A literal that does not end: the place behind its opening quote. */
  lemma NoQuote(b: bytes, d: nat)
    requires Terminated(b) && 34 !in b && 92 !in b
    ensures ParseValue([34] + b, d) == Fail(b)
  {
    NoClosingQuote(b);
    NotAWord([34] + b);
    assert ([34] + b)[1..] == b;
  }

  /** Whatever characters come first, an unknown escape is found at its backslash. */
  lemma {:induction false} BadEscapeFound(cs: seq<Char>, e: byte, z: bytes)
    requires AreChars(cs) && e !in ESCAPES && e != 117
    ensures Unescape(StringOf(cs) + ([92, e] + z)) == Bad(2 + |z|)
  {
    hide CharText, CharBytes;
    if cs == [] {
      assert [] + ([92, e] + z) == [92, e] + z;
      hide ESCAPES;
      StuckAtOnce(e, z);
    } else {
      BadEscapeFound(cs[1..], e, z);
      CharIsRead(cs[0], StringOf(cs[1..]) + ([92, e] + z));
      Assoc(CharText(cs[0]), StringOf(cs[1..]), [92, e] + z);
    }
  }

  lemma StuckAtOnce(e: byte, z: bytes)
    requires e !in ESCAPES && e != 117
    ensures Unescape([92, e] + z) == Bad(2 + |z|)
  {
    hide ESCAPES, ShortEscape, Utf16Literal;
    NoShortEscape(e);
    assert DecodeStep([92, e] + z) == Stuck;
  }

  lemma NoShortEscape(e: byte)
    requires e !in ESCAPES
    ensures ShortEscape(e) == None
  {
    assert ESCAPES[0] in ESCAPES && ESCAPES[1] in ESCAPES && ESCAPES[2] in ESCAPES && ESCAPES[3] in ESCAPES;
    assert ESCAPES[4] in ESCAPES && ESCAPES[5] in ESCAPES && ESCAPES[6] in ESCAPES && ESCAPES[7] in ESCAPES;
  }

  /** A bad escape in a literal that ends: the place of its backslash. */
  lemma BadEscape(cs: seq<Char>, e: byte, z: bytes, r: bytes, d: nat)
    requires AreChars(cs) && e !in ESCAPES && e != 117 && IsBody(z) && Terminated(r)
    ensures var bad := [92, e] + z; ParseValue([34] + ((StringOf(cs) + bad) + ([34] + r)), d) == Fail(bad + ([34] + r))
  {
    hide Unescape, IsBody, ESCAPES, StringOf, ParseValue;
    var bad := [92, e] + z;
    BadEscapeFound(cs, e, z);
    StringIsRead(cs);
    EscapeBody(e, z);
    BodyConcat(StringOf(cs), bad);
    LiteralFails(StringOf(cs), bad, r, d);
  }

  lemma LiteralFails(good: bytes, bad: bytes, r: bytes, d: nat)
    requires IsBody(good + bad) && Unescape(good + bad) == Bad(|bad|) && Terminated(r)
    ensures ParseValue([34] + ((good + bad) + ([34] + r)), d) == Fail(bad + ([34] + r))
  {
    hide Unescape, IsBody, ScanBody;
    var body := good + bad;
    var s := [34] + (body + ([34] + r));
    ScanOfBody(body, r);
    Assoc(body, [34], r);
    NotAWord(s);
    assert s[1..] == body + [34] + r;
    assert s[1..][..|body|] == body;
    Assoc(good, bad, [34] + r);
    assert s[1 + |good|..] == bad + ([34] + r);
  }

  lemma EscapeBody(e: byte, z: bytes)
    requires IsBody(z)
    ensures IsBody([92, e] + z)
  {
    assert ([92, e] + z)[2..] == z;
  }
}
