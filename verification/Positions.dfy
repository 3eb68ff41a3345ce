/**
 Where a failed parse stops: everything before the place it reports, but at most for the byte
 right before it, begins some document. So the first byte with which no document can go on is
 never more than one byte before the reported place.
 */
module Positions {
  import opened Base
  import opened Values
  import opened Numbers
  import opened Utf
  import opened StringLiterals
  import opened Parser
  import opened Grammar
  import opened Language

  /** The first `n` bytes are the same. */
  ghost predicate Agrees(text: bytes, s: bytes, n: nat) { n <= |text| && n <= |s| && text[..n] == s[..n] }

  /** `n` bytes of `s` stand before the place where only `rest` is left, or one fewer when a quote was expected there. */
  predicate Near(s: bytes, rest: bytes, n: nat) {
    n + |rest| == |s| || (n + 1 + |rest| == |s| && s[n] != 34)
  }

  ghost predicate Stops(text: bytes, s: bytes, rest: bytes, n: nat) { Agrees(text, s, n) && Near(s, rest, n) }

  lemma Behind(a: bytes, text: bytes, s: bytes, rest: bytes, n: nat)
    requires Stops(text, s, rest, n)
    ensures Stops(a + text, a + s, rest, |a| + n)
  {
    assert (a + text)[..|a| + n] == a + text[..n];
    assert (a + s)[..|a| + n] == a + s[..n];
  }

  lemma Before(text: bytes, z: bytes, s: bytes, rest: bytes, n: nat)
    requires Stops(text, s, rest, n)
    ensures Stops(text + z, s, rest, n)
  {
    assert (text + z)[..n] == text[..n];
  }

  // ---------- string bodies ----------

  /** A step of the unescape loop looks at no byte behind those it uses. */
  lemma StepFront(b: bytes, z: bytes)
    requires b != [] && DecodeStep(b).Step? && DecodeStep(b).used <= |b|
    ensures DecodeStep(b[..DecodeStep(b).used] + z) == DecodeStep(b)
  {
    var u := DecodeStep(b).used;
    var x := b[..u] + z;
    assert forall i :: 0 <= i < u ==> x[i] == b[i];
    if b[0] == BACKSLASH && Second(b) == LETTER_U {
      assert x[2..6] == b[2..6];
      assert u == 12 ==> x[8..12] == b[8..12];
    }
  }

  /** What stands before a bad escape unescapes, whatever follows it. */
  lemma {:induction false} BeforeBadEscape(b: bytes, q: bytes)
    requires Unescape(b).Bad? && Unescape(q).Done?
    ensures Unescape(b[..|b| - Unescape(b).left] + q).Done?
    decreases |b|
  {
    hide DecodeStep;
    var step := DecodeStep(b);
    if step.Stuck? {
      assert b[..0] + q == q;
    } else {
      var u := step.used;
      var tail := b[u..];
      var k := |tail| - Unescape(tail).left;
      BeforeBadEscape(tail, q);
      assert b[..|b| - Unescape(b).left] == b[..u] + tail[..k];
      Assoc(b[..u], tail[..k], q);
      StepFront(b, tail[..k] + q);
      assert (b[..u] + (tail[..k] + q))[u..] == tail[..k] + q;
    }
  }

  lemma {:induction false} BodyPrefix(b: bytes, k: nat)
    requires IsBody(b) && k <= |b|
    ensures IsBody(b[..k]) || IsBody(b[..k] + [BACKSLASH])
    decreases k
  {
    if k > 0 {
      var n := if b[0] == BACKSLASH then 2 else 1;
      if k == 1 && n == 2 {
        assert (b[..1] + [BACKSLASH])[2..] == [];
      } else {
        BodyPrefix(b[n..], k - n);
        assert b[..k][n..] == b[n..][..k - n];
        assert (b[..k] + [BACKSLASH])[n..] == b[n..][..k - n] + [BACKSLASH];
      }
    }
  }

  /** A body up to a bad escape is the beginning of one that is accepted. */
  lemma BodyGoesOn(b: bytes) returns (c: bytes)
    requires IsBody(b) && Unescape(b).Bad?
    ensures IsStringBody(c) && Agrees(c, b, |b| - Unescape(b).left)
  {
    var k := |b| - Unescape(b).left;
    BodyPrefix(b, k);
    if IsBody(b[..k]) {
      c := b[..k];
      BeforeBadEscape(b, []);
      assert b[..k] + [] == b[..k];
    } else {
      c := b[..k] + [BACKSLASH];
      LoneBackslash();
      BeforeBadEscape(b, [BACKSLASH]);
    }
  }

  lemma LoneBackslash()
    ensures Unescape([BACKSLASH]).Done?
  {
    assert DecodeStep([BACKSLASH]) == Step([QUOTE], 2);
  }

  /** A failed literal begins one that is accepted, unless its quote is missing. */
  lemma StringStops(s: bytes) returns (body: bytes, n: nat)
    requires Terminated(s) && ParseString(s).Fail?
    ensures IsStringBody(body) && Stops(Quoted(body), s, ParseString(s).rest, n)
  {
    body, n := [], 0;
    NoBody();
    if s[0] == QUOTE {
      n := 1;
      assert Quoted([])[..1] == [QUOTE] == s[..1];
      var end := ScanBody(s[1..]);
      if end.Some? {
        var b := s[1..][..end.value];
        body := BodyGoesOn(b);
        var k := |b| - Unescape(b).left;
        n := 1 + k;
        assert Quoted(body)[..n] == [QUOTE] + body[..k];
        assert s[..n] == [QUOTE] + b[..k];
      }
    }
  }

  lemma NoBody()
    ensures IsStringBody([])
  {
  }

  // ---------- values ----------

  lemma WordStops(s: bytes)
    ensures WellFormed(Word(Null)) && Depth(Word(Null)) == 0 && Stops(Flatten(Word(Null)), s, s, 0)
  {
  }

  /** A failed value begins a value that is accepted at this depth. */
  lemma {:induction false} ValueStops(s: bytes, d: nat) returns (t: Tree, n: nat)
    requires Terminated(s) && ParseValue(s, d).Fail? && d <= NESTING_LIMIT
    ensures WellFormed(t) && d + Depth(t) <= NESTING_LIMIT
    ensures Stops(Flatten(t), s, ParseValue(s, d).rest, n)
    decreases |s|, 2
  {
    if s[0] == QUOTE {
      var body;
      body, n := StringStops(s);
      t := Text(body);
    } else if s[0] == LBRACKET || s[0] == LBRACE {
      t, n := ContainerStops(s, d, s[0] == LBRACE);
    } else {
      t, n := Word(Null), 0;
      WordStops(s);
    }
  }

  lemma {:induction false} ContainerStops(s: bytes, d: nat, named: bool) returns (t: Tree, n: nat)
    requires Terminated(s) && s[0] == Opening(named) && ParseContainer(s, d, named).Fail? && d <= NESTING_LIMIT
    ensures WellFormed(t) && d + Depth(t) <= NESTING_LIMIT
    ensures Stops(Flatten(t), s, ParseContainer(s, d, named).rest, n)
    decreases |s|, 1
  {
    hide Stops, Flatten, FlattenElems, WellFormed, WellFormedElems, ParseItems, ParseContainer, Skip, DepthElems, Depth;
    ContainerRest(s, d, named);
    if d >= NESTING_LIMIT {
      t, n := Word(Null), 0;
      WordStops(s);
    } else {
      var pad := SkipSplit(s[1..]);
      var inside := Skip(s[1..]);
      var items := ParseItems(inside, d + 1, named);
      var es, k;
      if items.Fail? {
        es, k := ItemsStop(inside, d + 1, named);
      } else {
        es := SoundItems(inside, items.value, items.rest, d + 1, named);
        k := |FlattenElems(es, named)|;
        AllOf(FlattenElems(es, named), items.rest);
      }
      t, n := GroupStops(s, pad, inside, items.rest, es, k, named);
    }
  }

  lemma ContainerRest(s: bytes, d: nat, named: bool)
    requires Terminated(s) && s[0] == Opening(named) && ParseContainer(s, d, named).Fail?
    ensures d >= NESTING_LIMIT ==> ParseContainer(s, d, named).rest == s
    ensures d < NESTING_LIMIT ==> Terminated(s[1..]) && Terminated(Skip(s[1..])) && |Skip(s[1..])| < |s|
    ensures d < NESTING_LIMIT ==> ParseContainer(s, d, named).rest == ParseItems(Skip(s[1..]), d + 1, named).rest
    ensures Depth(Word(Null)) == 0
  {
  }

  lemma AllOf(text: bytes, rest: bytes)
    ensures Stops(text, text + rest, rest, |text|)
  {
    assert (text + rest)[..|text|] == text;
  }

  lemma GroupStops(s: bytes, pad: bytes, inside: bytes, rest: bytes, es: Elems, k: nat, named: bool) returns (t: Tree, n: nat)
    requires s != [] && s[0] == Opening(named) && s[1..] == pad + inside && Blanks(pad)
    requires es.Elem? && WellFormedElems(es, named) && Stops(FlattenElems(es, named), inside, rest, k)
    ensures WellFormed(t) && Depth(t) == 1 + DepthElems(es) && Stops(Flatten(t), s, rest, n)
  {
    hide Stops, FlattenElems, WellFormedElems, DepthElems;
    var fs := AddLead(pad, es, named);
    var text := FlattenElems(fs, named);
    t := Group(named, [], fs);
    n := 1 + (|pad| + k);
    Behind(pad, FlattenElems(es, named), inside, rest, k);
    Behind([Opening(named)], text, pad + inside, rest, |pad| + k);
    SplitFront(s);
    Before([Opening(named)] + text, [Closing(named)], s, rest, n);
    Nothing(text);
  }

  lemma Nothing(a: bytes)
    ensures [] + a == a && a + [] == a
  {
  }

  /** Failed items begin items that are accepted at this depth. */
  lemma {:induction false} ItemsStop(s: bytes, d: nat, named: bool) returns (es: Elems, n: nat)
    requires Terminated(s) && ParseItems(s, d, named).Fail? && d <= NESTING_LIMIT
    ensures es.Elem? && WellFormedElems(es, named) && d + DepthElems(es) <= NESTING_LIMIT
    ensures Stops(FlattenElems(es, named), s, ParseItems(s, d, named).rest, n)
    decreases |s|, 4
  {
    var key := ParseKey(s, named);
    if key.Fail? {
      es, n := KeyStops(s);
    } else {
      var lead, tag := SoundKey(s, named);
      var item := ParseValue(key.rest, d);
      if item.Fail? {
        var t, k := ValueStops(key.rest, d);
        es, n := ItemStops(lead, tag, t, key.rest, item.rest, k, named);
      } else {
        es, n := LaterStops(s, lead, tag, d, named);
      }
    }
  }

  lemma ItemStops(lead: bytes, tag: Option<Label>, t: Tree, value: bytes, rest: bytes, k: nat, named: bool) returns (es: Elems, n: nat)
    requires Blanks(lead) && (tag.Some? <==> named) && (tag.Some? ==> WellFormedLabel(tag.value)) && WellFormed(t)
    requires Stops(Flatten(t), value, rest, k)
    ensures es.Elem? && WellFormedElems(es, named) && DepthElems(es) == Depth(t)
    ensures Stops(FlattenElems(es, named), lead + (LabelText(tag) + value), rest, n)
  {
    hide Stops, Flatten, WellFormed, Depth, LabelText;
    es := Elem(lead, tag, t, [], End);
    n := |lead| + (|LabelText(tag)| + k);
    assert WellFormedElems(End, named) && DepthElems(End) == 0 && TailText(End, named) == [];
    Behind(LabelText(tag), Flatten(t), value, rest, k);
    Behind(lead, LabelText(tag) + Flatten(t), LabelText(tag) + value, rest, |LabelText(tag)| + k);
    Nothing(Flatten(t));
    Nothing([]);
  }

  lemma {:induction false} LaterStops(s: bytes, lead: bytes, tag: Option<Label>, d: nat, named: bool) returns (es: Elems, n: nat)
    requires Terminated(s) && d <= NESTING_LIMIT && ParseItems(s, d, named).Fail? && ParseKey(s, named).Ok?
    requires ParseValue(ParseKey(s, named).rest, d).Ok? && s == lead + (LabelText(tag) + ParseKey(s, named).rest)
    requires Blanks(lead) && (tag.Some? <==> named) && (tag.Some? ==> WellFormedLabel(tag.value))
    ensures es.Elem? && WellFormedElems(es, named) && d + DepthElems(es) <= NESTING_LIMIT
    ensures Stops(FlattenElems(es, named), s, ParseItems(s, d, named).rest, n)
    decreases |s|, 3
  {
    var key := ParseKey(s, named);
    var item := ParseValue(key.rest, d);
    var tree := Sound(key.rest, d);
    var trail := SkipSplit(item.rest);
    var after := Skip(item.rest);
    var more, k := ItemsStop(after[1..], d, named);
    es := Elem(lead, tag, tree, trail, more);
    SplitFront(after);
    n := MoreStops(s, es, key.rest, item.rest, after, ParseItems(after[1..], d, named).rest, k, named);
  }

  lemma MoreStops(s: bytes, es: Elems, value: bytes, post: bytes, after: bytes, rest: bytes, k: nat, named: bool) returns (n: nat)
    requires es.Elem? && WellFormedElems(es, named) && es.more.Elem?
    requires s == es.lead + (LabelText(es.tag) + value) && value == Flatten(es.tree) + post && post == es.trail + after
    requires after != [] && after[0] == COMMA && Stops(FlattenElems(es.more, named), after[1..], rest, k)
    ensures Stops(FlattenElems(es, named), s, rest, n)
  {
    hide Stops, Flatten, LabelText;
    var text, tree, tag := TailText(es.more, named), Flatten(es.tree), LabelText(es.tag);
    SplitFront(after);
    Behind([COMMA], FlattenElems(es.more, named), after[1..], rest, k);
    n := 1 + k;
    Behind(es.trail, text, after, rest, n);
    n := |es.trail| + n;
    Behind(tree, es.trail + text, post, rest, n);
    n := |tree| + n;
    Behind(tag, tree + (es.trail + text), value, rest, n);
    n := |tag| + n;
    Behind(es.lead, tag + (tree + (es.trail + text)), tag + value, rest, n);
    n := |es.lead| + n;
  }

  /** A member that fails before its value. */
  lemma KeyStops(s: bytes) returns (es: Elems, n: nat)
    requires Terminated(s) && ParseKey(s, true).Fail?
    ensures es.Elem? && WellFormedElems(es, true) && DepthElems(es) == 0
    ensures Stops(FlattenElems(es, true), s, ParseKey(s, true).rest, n)
  {
    hide Stops, ParseString, IsStringBody, Quoted;
    var lead := SkipSplit(s);
    var start := Skip(s);
    var key := ParseString(start);
    var name, k;
    if key.Fail? {
      var body;
      body, k := StringStops(start);
      name := Label(body, [], []);
      Before(Quoted(body), [COLON], start, key.rest, k);
      Nothing(Quoted(body));
      Nothing(Quoted(body) + [COLON]);
    } else {
      var body := SoundString(start);
      var before := SkipSplit(key.rest);
      name := Label(body, before, []);
      k := |Quoted(body) + before|;
      Assoc(Quoted(body), before, Skip(key.rest));
      AllOf(Quoted(body) + before, Skip(key.rest));
      Before(Quoted(body) + before, [COLON], start, Skip(key.rest), k);
      Nothing(Quoted(body) + before + [COLON]);
    }
    es, n := LabelStops(lead, name, start, ParseKey(s, true).rest, k);
  }

  lemma LabelStops(lead: bytes, name: Label, start: bytes, rest: bytes, k: nat) returns (es: Elems, n: nat)
    requires Blanks(lead) && WellFormedLabel(name) && Stops(LabelText(Some(name)), start, rest, k)
    ensures es.Elem? && WellFormedElems(es, true) && DepthElems(es) == 0
    ensures Stops(FlattenElems(es, true), lead + start, rest, n)
  {
    hide Stops, LabelText;
    es := Elem(lead, Some(name), Word(Null), [], End);
    n := |lead| + k;
    WordStops([]);
    assert WellFormedElems(End, true) && DepthElems(End) == 0;
    var tail := Flatten(Word(Null)) + ([] + TailText(End, true));
    Before(LabelText(Some(name)), tail, start, rest, k);
    Behind(lead, LabelText(Some(name)) + tail, start, rest, k);
  }

  // ---------- documents ----------

  /** `x` is the beginning of a document. */
  ghost predicate Begins(x: bytes) { exists y :: Terminated(x + y) && ParseDocument(x + y, true).Ok? }

  lemma BeginsDocument(x: bytes, rest: bytes, mark: bytes, lead: bytes, t: Tree, trail: bytes, n: nat)
    requires IsDocument(mark, lead, t, trail) && Depth(t) <= NESTING_LIMIT && Stops(DocumentText(mark, lead, t, trail), x, rest, n)
    ensures |rest| <= |x| && var k := |x| - |rest|; Begins(x[..k]) || (k > 0 && x[k - 1] != 34 && Begins(x[..k - 1]))
  {
    hide ParseDocument, Flatten, Depth, Begins;
    CompleteDocument(mark, lead, t, trail);
    AcceptedBegins(DocumentText(mark, lead, t, trail), x, n);
  }

  lemma AcceptedBegins(text: bytes, x: bytes, n: nat)
    requires Terminated(text) && ParseDocument(text, true).Ok? && Agrees(text, x, n)
    ensures Begins(x[..n])
  {
    hide ParseDocument;
    assert x[..n] + text[n..] == text;
  }

  /**
   A failed parse has read, up to the place that it leaves, the beginning of a document; or
   the byte just before that place stands where a name should begin and is no quote, and what
   is before it begins a document.
   */
  lemma FailsNotTooEarly(c: bytes, strict: bool)
    requires Terminated(c) && ParseDocument(c, strict).Fail?
    ensures var k := |c| - |ParseDocument(c, strict).rest|; Begins(c[..k]) || (k > 0 && c[k - 1] != 34 && Begins(c[..k - 1]))
  {
    hide Flatten, Begins, Stops, ParseValue, WellFormed, Depth, Skip;
    var text := SkipBom(c);
    var mark := SoundMark(c);
    var lead := SkipSplit(text);
    var start := Skip(text);
    var v := ParseValue(start, 0);
    var rest := ParseDocument(c, strict).rest;
    var t, k, trail;
    if v.Fail? {
      t, k := ValueStops(start, 0);
      trail := [NUL];
      Before(Flatten(t), trail, start, rest, k);
    } else {
      t, trail, k := EndStops(start, rest);
    }
    Behind(lead, Flatten(t) + trail, start, rest, k);
    Behind(mark, lead + (Flatten(t) + trail), text, rest, |lead| + k);
    BeginsDocument(c, rest, mark, lead, t, trail, |mark| + (|lead| + k));
  }

  lemma EndStops(start: bytes, rest: bytes) returns (t: Tree, trail: bytes, k: nat)
    requires Terminated(start) && ParseValue(start, 0).Ok? && rest == Skip(ParseValue(start, 0).rest)
    ensures WellFormed(t) && Depth(t) <= NESTING_LIMIT && Blanks(trail) && Terminated(trail) && Stops(Flatten(t) + trail, start, rest, k)
  {
    hide Stops, Flatten, WellFormed;
    t := Sound(start, 0);
    var w := SkipSplit(ParseValue(start, 0).rest);
    trail := w + [NUL];
    k := |Flatten(t) + w|;
    Assoc(Flatten(t), w, rest);
    AllOf(Flatten(t) + w, rest);
    Before(Flatten(t) + w, [NUL], start, rest, k);
    Assoc(Flatten(t), w, [NUL]);
  }

  /** The position that is reported, inside the buffer as it is. */
  lemma PositionNotTooEarly(c: bytes, strict: bool)
    requires Terminated(c) && ParseDocument(c, strict).Fail?
    ensures var p := ErrorPosition(c, ParseDocument(c, strict).rest); Begins(c[..p]) || (p > 0 && Begins(c[..p - 1]))
  {
    hide ParseDocument, Begins;
    FailsNotTooEarly(c, strict);
    var rest := ParseDocument(c, strict).rest;
    if rest == [] {
      assert ErrorPosition(c, rest) == |c| - 1;
      if Begins(c[..|c|]) {
        Shorter(c, |c|, |c| - 1);
      }
    }
  }

  lemma Shorter(c: bytes, n: nat, m: nat)
    requires m <= n <= |c| && Begins(c[..n])
    ensures Begins(c[..m])
  {
    hide ParseDocument;
    var y :| Terminated(c[..n] + y) && ParseDocument(c[..n] + y, true).Ok?;
    assert c[..m] + (c[m..n] + y) == c[..n] + y;
  }
}
