/**
 The texts of RFC 8259, with every token in its bytes: sections 2 to 7 read as an independent
 grammar. All of them are accepted, up to the parser's limits on nesting and on the length of
 a number.
 */
module Standard {
  import opened Base
  import opened Values
  import opened Numbers
  import opened Decimals
  import opened Utf
  import opened StringLiterals
  import opened Parser
  import opened Grammar
  import opened Language

  // ---------- strings ----------

  /** A byte that stands for itself, a short escape, an escaped unit or an escaped surrogate pair. */
  datatype Char = Itself(b: byte) | Short(which: nat) | Unit(h: bytes, u: nat) | Pair(h: bytes, lead: nat, k: bytes, trail: nat)

  predicate IsChar(c: Char) {
    match c
    case Itself(b) => b >= 32 && b != 34 && b != 92
    case Short(which) => which < 8
    case Unit(h, u) => Spells(h, u) && !(0xD800 <= u <= 0xDFFF)
    case Pair(h, lead, k, trail) => Spells(h, lead) && Spells(k, trail) && 0xD800 <= lead <= 0xDBFF && 0xDC00 <= trail <= 0xDFFF
  }

  predicate AreChars(cs: seq<Char>) { forall i :: 0 <= i < |cs| ==> IsChar(cs[i]) }

  function CharText(c: Char): bytes
    requires IsChar(c)
  {
    match c
    case Itself(b) => [b]
    case Short(which) => [92, ESCAPES[which]]
    case Unit(h, _) => [92, 117] + h
    case Pair(h, _, k, _) => ([92, 117] + h) + ([92, 117] + k)
  }

  /** What it stands for, in UTF-8. */
  function CharBytes(c: Char): bytes
    requires IsChar(c)
  {
    match c
    case Itself(b) => [b]
    case Short(which) => [ESCAPED[which]]
    case Unit(_, u) => Utf8(u)
    case Pair(_, lead, _, trail) => Utf8(0x10000 + (lead - 0xD800) * 0x400 + (trail - 0xDC00))
  }

  function StringOf(cs: seq<Char>): bytes
    requires AreChars(cs)
  {
    if cs == [] then [] else CharText(cs[0]) + StringOf(cs[1..])
  }

  function BytesOf(cs: seq<Char>): bytes
    requires AreChars(cs)
  {
    if cs == [] then [] else CharBytes(cs[0]) + BytesOf(cs[1..])
  }

  lemma CharIsRead(c: Char, rest: bytes)
    requires IsChar(c)
    ensures Unescape(CharText(c) + rest) == Unescape(rest).After(CharBytes(c))
  {
    hide Unescape, Utf8, Spells;
    match c
    case Itself(b) => EscapesAreRead(b, rest);
    case Short(which) => EscapesAreRead(ESCAPES[which], rest);
    case Unit(h, u) => UnitIsRead(h, u, rest);
    case Pair(h, lead, k, trail) => PairIsRead(h, lead, k, trail, rest);
  }

  lemma UnitIsRead(h: bytes, u: nat, rest: bytes)
    requires Spells(h, u) && !(0xD800 <= u <= 0xDFFF)
    ensures |h| == 4 && Unescape(([92, 117] + h) + rest) == Unescape(rest).After(Utf8(u))
  {
    hide Unescape, Utf8, Spells;
    SpelledHasFour(h, u);
    SpelledIsRead(h, u);
    UnescapeUnit(h, rest);
  }

  lemma PairIsRead(h: bytes, lead: nat, k: bytes, trail: nat, rest: bytes)
    requires Spells(h, lead) && Spells(k, trail) && 0xD800 <= lead <= 0xDBFF && 0xDC00 <= trail <= 0xDFFF
    ensures |h| == |k| == 4
    ensures Unescape((([92, 117] + h) + ([92, 117] + k)) + rest) ==
      Unescape(rest).After(Utf8(0x10000 + (lead - 0xD800) * 0x400 + (trail - 0xDC00)))
  {
    hide Unescape, Utf8, Spells;
    SpelledHasFour(h, lead);
    SpelledHasFour(k, trail);
    SpelledIsRead(h, lead);
    SpelledIsRead(k, trail);
    UnescapePair(h, k, rest);
    Assoc([92, 117] + h, [92, 117] + k, rest);
    PairIsScalar(lead, trail);
  }

  lemma PairIsScalar(lead: nat, trail: nat)
    requires 0xD800 <= lead <= 0xDBFF && 0xDC00 <= trail <= 0xDFFF
    ensures FromPair(lead, trail) == 0x10000 + (lead - 0xD800) * 0x400 + (trail - 0xDC00) < 0x110000
  {
  }

  lemma SpelledHasFour(h: bytes, u: nat)
    requires Spells(h, u)
    ensures |h| == 4
  {
  }

  lemma CharIsBody(c: Char)
    requires IsChar(c)
    ensures IsBody(CharText(c))
  {
    match c
    case Itself(b) => CleanIsBody([b]);
    case Short(which) => assert CharText(c)[2..] == [];
    case Unit(h, u) =>
      SpelledIsRead(h, u);
      UnitEscapeIsBody(h);
    case Pair(h, lead, k, trail) =>
      SpelledIsRead(h, lead);
      SpelledIsRead(k, trail);
      UnitEscapeIsBody(h);
      UnitEscapeIsBody(k);
      BodyConcat(UnitEscape(h), UnitEscape(k));
  }

  /** Every string of the standard, its surrogates paired, is read as the UTF-8 of what it spells. */
  lemma {:induction false} StringIsRead(cs: seq<Char>)
    requires AreChars(cs)
    ensures IsBody(StringOf(cs)) && Unescape(StringOf(cs)) == Done(BytesOf(cs))
  {
    hide CharText, CharBytes, IsBody;
    if cs == [] {
      CleanIsBody([]);
    } else {
      StringIsRead(cs[1..]);
      CharIsRead(cs[0], StringOf(cs[1..]));
      CharIsBody(cs[0]);
      BodyConcat(CharText(cs[0]), StringOf(cs[1..]));
    }
  }

  // ---------- numbers ----------

  /** An optional minus, digits without a leading zero, and at least one digit behind a point. */
  ghost predicate IsStandardNumber(t: bytes) {
    exists sign, w, point, f, power, e ::
      Written(t, sign, w, point, f, power, e) && sign != [43] && w != [] && (w[0] == 48 ==> |w| == 1) && (point == [] || f != [])
  }

  lemma NumberIsRead(t: bytes)
    requires IsStandardNumber(t) && |t| <= 63
    ensures IsNumberLiteral(t)
  {
    var sign, w, point, f, power, e :|
      Written(t, sign, w, point, f, power, e) && sign != [43] && w != [] && (w[0] == 48 ==> |w| == 1) && (point == [] || f != []);
    DecimalMeans(t, sign, w, point, f, power, e);
    PowerHasNumberChars(power, e);
    NumberChars(t, sign, w, point, f, power);
  }

  lemma PowerHasNumberChars(power: bytes, e: int)
    requires Raises(power, e)
    ensures forall i :: 0 <= i < |power| ==> IsNumberChar(power[i])
  {
    assert forall i :: 1 <= i < |power| ==> power[i] == power[1..][i - 1];
    assert forall i :: 2 <= i < |power| ==> power[i] == power[2..][i - 2];
  }

  lemma NumberChars(t: bytes, sign: bytes, w: bytes, point: bytes, f: bytes, power: bytes)
    requires t == sign + (w + (point + power)) && (sign == [] || sign == [45]) && AllDigits(w) && AllDigits(f) && w != []
    requires point == [46] + f || point == []
    requires forall i :: 0 <= i < |power| ==> IsNumberChar(power[i])
    ensures t != [] && (forall i :: 0 <= i < |t| ==> IsNumberChar(t[i])) && (t[0] == 45 || IsDigit(t[0]))
  {
    var u := w + (point + power);
    assert forall i :: 0 <= i < |point| ==> IsNumberChar(point[i]);
    assert forall i :: 0 <= i < |u| ==> u[i] == if i < |w| then w[i] else (point + power)[i - |w|];
    assert forall i :: 0 <= i < |u| ==> IsNumberChar(u[i]);
    assert forall i :: 0 <= i < |t| ==> t[i] == if i < |sign| then sign[i] else u[i - |sign|];
  }

  /** Of more digits than 63, the first 63 are the number. */
  lemma LongRunIsCut(w: bytes)
    requires AllDigits(w) && |w| >= 63
    ensures NumberLength(w) == 63
  {
    var run := w[..NumberRun(w, SCRATCH)];
    assert |run| == 63;
    DigitRunOf(run);
    DigitsAreDecimal(run);
    assert SignLength(run) == 0 && run[0..] == run && run[..63] == run;
  }

  // ---------- texts ----------

  predicate IsWhite(w: bytes) { forall i :: 0 <= i < |w| ==> w[i] in [9, 10, 13, 32] }

  /** A string of the standard. */
  ghost predicate IsStandardBody(b: bytes) { exists cs: seq<Char> :: AreChars(cs) && b == StringOf(cs) }

  ghost predicate IsStandard(t: Tree) {
    match t
    case Word(w) => w == Null || w == False || w == True
    case Num(literal) => IsStandardNumber(literal) && |literal| <= 63
    case Text(body) => IsStandardBody(body)
    case Group(named, pad, elems) => IsWhite(pad) && (elems.Elem? ==> pad == []) && AreStandard(elems, named)
  }

  ghost predicate AreStandard(es: Elems, named: bool) {
    es.Elem? ==>
      && IsWhite(es.lead) && IsWhite(es.trail) && (es.tag.Some? <==> named)
      && (es.tag.Some? ==> IsStandardBody(es.tag.value.body) && IsWhite(es.tag.value.before) && IsWhite(es.tag.value.after))
      && IsStandard(es.tree) && AreStandard(es.more, named)
  }

  /** The text, with `null`, `false`, `true`, quotes, brackets, braces, colons and commas as bytes. */
  function StandardText(t: Tree): bytes
    decreases t, 0
  {
    match t
    case Word(w) => if w == Null then [110, 117, 108, 108] else if w == False then [102, 97, 108, 115, 101] else [116, 114, 117, 101]
    case Num(literal) => literal
    case Text(body) => [34] + body + [34]
    case Group(named, pad, elems) =>
      if named then [123] + (pad + ItemsText(elems)) + [125] else [91] + (pad + ItemsText(elems)) + [93]
  }

  function TagText(tag: Option<Label>): bytes {
    if tag.None? then [] else [34] + tag.value.body + [34] + tag.value.before + [58] + tag.value.after
  }

  function ItemsText(es: Elems): bytes
    decreases es, 1
  {
    if es.End? then []
    else es.lead + (TagText(es.tag) + (StandardText(es.tree) + (es.trail + if es.more.End? then [] else [44] + ItemsText(es.more))))
  }

  lemma WhiteIsBlank(w: bytes)
    requires IsWhite(w)
    ensures Blanks(w)
  {
  }

  lemma BodyIsWellFormed(b: bytes)
    requires IsStandardBody(b)
    ensures IsStringBody(b)
    ensures forall cs: seq<Char> :: AreChars(cs) && b == StringOf(cs) ==> StringMeaning(b) == CString(BytesOf(cs))
  {
    forall cs: seq<Char> | AreChars(cs) && b == StringOf(cs)
      ensures IsStringBody(b) && StringMeaning(b) == CString(BytesOf(cs))
    {
      StringIsRead(cs);
    }
  }

  lemma {:induction false} StandardIsWellFormed(t: Tree)
    requires IsStandard(t)
    ensures WellFormed(t) && Flatten(t) == StandardText(t)
    decreases t, 0
  {
    match t
    case Word(w) =>
    case Num(literal) => NumberIsRead(literal);
    case Text(body) => BodyIsWellFormed(body);
    case Group(named, pad, elems) =>
      WhiteIsBlank(pad);
      StandardItemsAreWellFormed(elems, named);
  }

  lemma {:induction false} StandardItemsAreWellFormed(es: Elems, named: bool)
    requires AreStandard(es, named)
    ensures WellFormedElems(es, named) && FlattenElems(es, named) == ItemsText(es)
    decreases es, 1
  {
    if es.Elem? {
      WhiteIsBlank(es.lead);
      WhiteIsBlank(es.trail);
      StandardIsWellFormed(es.tree);
      StandardItemsAreWellFormed(es.more, named);
      if es.tag.Some? {
        BodyIsWellFormed(es.tag.value.body);
        WhiteIsBlank(es.tag.value.before);
        WhiteIsBlank(es.tag.value.after);
      }
    }
  }

  /**
   Every text of the standard is accepted with its value, exactly when containers nest at most
   1000 deep; a byte order mark in front of it is passed over.
   */
  lemma StandardIsAccepted(mark: bytes, lead: bytes, t: Tree, trail: bytes)
    requires (mark == [] || mark == [0xEF, 0xBB, 0xBF]) && IsWhite(lead) && IsStandard(t) && IsWhite(trail)
    ensures var text := mark + (lead + (StandardText(t) + (trail + [0])));
      && Terminated(text) && WellFormed(t)
      && if Depth(t) <= 1000 then ParseDocument(text, true) == Ok(Meaning(t), [0]) else ParseDocument(text, true).Fail?
  {
    hide ParseDocument, Flatten, StandardText;
    WhiteIsBlank(lead);
    WhiteIsBlank(trail);
    StandardIsWellFormed(t);
    assert Blanks(trail + [0]);
    CompleteDocument(mark, lead, t, trail + [0]);
  }

  // ---------- what is accepted besides ----------

  /** The liberties: any bytes up to 32 are blanks, and any decimal of at most 63 bytes that begins with a minus or a digit is a number. */
  ghost predicate IsLoose(t: Tree) {
    match t
    case Word(w) => w == Null || w == False || w == True
    case Num(literal) =>
      && 0 < |literal| <= 63 && (literal[0] == 45 || 48 <= literal[0] <= 57)
      && exists sign, w, point, f, power, e :: Written(literal, sign, w, point, f, power, e)
    case Text(body) => IsStringBody(body)
    case Group(named, pad, elems) => IsLow(pad) && AreLoose(elems, named)
  }

  ghost predicate AreLoose(es: Elems, named: bool) {
    es.Elem? ==>
      && IsLow(es.lead) && IsLow(es.trail) && (es.tag.Some? <==> named)
      && (es.tag.Some? ==> IsStringBody(es.tag.value.body) && IsLow(es.tag.value.before) && IsLow(es.tag.value.after))
      && IsLoose(es.tree) && AreLoose(es.more, named)
  }

  predicate IsLow(w: bytes) { forall i :: 0 <= i < |w| ==> w[i] <= 32 }

  lemma {:induction false} WellFormedIsLoose(t: Tree)
    requires WellFormed(t)
    ensures IsLoose(t) && Flatten(t) == StandardText(t)
    decreases t, 0
  {
    match t
    case Word(w) =>
    case Num(literal) => var sign, w, point, f, power, e := DecimalIsWritten(literal);
    case Text(body) =>
    case Group(named, pad, elems) => WellFormedItemsAreLoose(elems, named);
  }

  lemma {:induction false} WellFormedItemsAreLoose(es: Elems, named: bool)
    requires WellFormedElems(es, named)
    ensures AreLoose(es, named) && FlattenElems(es, named) == ItemsText(es)
    decreases es, 1
  {
    if es.Elem? {
      WellFormedIsLoose(es.tree);
      WellFormedItemsAreLoose(es.more, named);
    }
  }

  /** Whatever a strict parse accepts is such a text, with the tokens of the standard between its blanks. */
  lemma AcceptedIsLoose(c: bytes) returns (mark: bytes, lead: bytes, t: Tree, trail: bytes)
    requires Terminated(c) && ParseDocument(c, true).Ok?
    ensures c == mark + (lead + (StandardText(t) + trail)) && (mark == [] || mark == [0xEF, 0xBB, 0xBF])
    ensures IsLow(lead) && IsLow(trail) && IsLoose(t) && WellFormed(t) && Meaning(t) == ParseDocument(c, true).value && Depth(t) <= 1000
  {
    hide ParseDocument, Flatten, StandardText;
    mark, lead, t, trail := SoundDocument(c);
    WellFormedIsLoose(t);
  }

  /** A byte order mark is passed over when at least two bytes follow it. */
  lemma MarkIsSkipped(c: bytes)
    ensures |c| >= 2 ==> SkipBom([0xEF, 0xBB, 0xBF] + c) == c
    ensures |c| < 2 ==> SkipBom([0xEF, 0xBB, 0xBF] + c) == [0xEF, 0xBB, 0xBF] + c
    ensures !([0xEF, 0xBB, 0xBF] <= c) ==> SkipBom(c) == c
  {
    assert ([0xEF, 0xBB, 0xBF] + c)[..3] == [0xEF, 0xBB, 0xBF];
    assert ([0xEF, 0xBB, 0xBF] + c)[3..] == c;
  }

  /** Blanks are the bytes up to 32: all of them are skipped, and nothing else is. */
  lemma BlanksAreSkipped(b: byte, s: bytes)
    requires s != []
    ensures b <= 32 ==> Skip([b] + s) == Skip(s)
    ensures b > 32 ==> Skip([b] + s) == [b] + s
  {
    assert ([b] + s)[1..] == s;
  }
}
