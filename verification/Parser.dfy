/**
 The recursive-descent parser as a function of the bytes that are still unread.
 A buffer ends with a NUL, as the length that `cJSON_ParseWithOpts` computes makes it.
 */
module Parser {
  import opened Base
  import opened Values
  import opened Numbers
  import opened StringLiterals

  const NESTING_LIMIT := 1000

  const NULL_WORD: bytes := [110, 117, 108, 108]
  const FALSE_WORD: bytes := [102, 97, 108, 115, 101]
  const TRUE_WORD: bytes := [116, 114, 117, 101]
  const BOM: bytes := [0xEF, 0xBB, 0xBF]

  /** `rest` is what the cursor has not passed when the call returns. */
  datatype Parsed<+T> = Ok(value: T, rest: bytes) | Fail(rest: bytes)

  predicate Terminated(s: bytes) { s != [] && s[|s| - 1] == NUL }

  predicate IsBlank(b: byte) { b <= 32 }

  predicate Blanks(s: bytes) { forall i :: 0 <= i < |s| ==> IsBlank(s[i]) }

  /** Skips blanks (a NUL is one), but steps back when that would leave the buffer. */
  function Skip(s: bytes): (r: bytes)
    ensures |r| <= |s|
    ensures s != [] ==> r != []
    ensures Terminated(s) ==> Terminated(r)
    ensures |r| > 1 ==> !IsBlank(r[0])
  {
    if |s| > 1 && IsBlank(s[0]) then Skip(s[1..]) else s
  }

  /** A successful step moves forward and stays inside the buffer. */
  ghost predicate Advances<T>(r: Parsed<T>, s: bytes) {
    && |r.rest| <= |s|
    && (r.Ok? ==> |r.rest| < |s| && Terminated(r.rest))
  }

  predicate StartsWith(s: bytes, w: bytes) { |w| <= |s| && s[..|w|] == w }

  function ParseWord(s: bytes, w: bytes, v: Value): (r: Parsed<Value>)
    requires Terminated(s) && StartsWith(s, w) && w != [] && NUL !in w
    ensures Advances(r, s)
  {
    assert forall i :: 0 <= i < |w| ==> s[i] == w[i] && w[i] in w;
    Ok(v, s[|w|..])
  }

  function TakeNumber(s: bytes, k: nat): (r: Parsed<Value>)
    requires Terminated(s) && k < |s| && (k > 0 ==> IsDecimal(s[..k]))
    ensures Advances(r, s)
  {
    if k == 0 then Fail(s) else Ok(Number(DecimalValue(s[..k])), s[k..])
  }

  function ParseNumber(s: bytes): (r: Parsed<Value>)
    requires Terminated(s)
    ensures Advances(r, s)
  {
    TakeNumber(s, NumberLength(s))
  }

  /** Both passes over a literal; the value is what C string functions see of the output. */
  function ParseString(s: bytes): (r: Parsed<bytes>)
    requires Terminated(s)
    ensures Advances(r, s)
  {
    if s[0] != QUOTE then Fail(s[1..])
    else
      var end := ScanBody(s[1..]);
      if end.None? then Fail(s[1..])
      else
        var body := s[1..][..end.value];
        match Unescape(body)
        case Done(out) => Ok(CString(out), s[end.value + 2..])
        case Bad(left) => Fail(s[1 + end.value - left..])
  }

  function ParseValue(s: bytes, depth: nat): (r: Parsed<Value>)
    requires Terminated(s)
    ensures Advances(r, s)
    decreases |s|, 1
  {
    if StartsWith(s, NULL_WORD) then ParseWord(s, NULL_WORD, Null)
    else if StartsWith(s, FALSE_WORD) then ParseWord(s, FALSE_WORD, False)
    else if StartsWith(s, TRUE_WORD) then ParseWord(s, TRUE_WORD, True)
    else if s[0] == QUOTE then
      match ParseString(s)
      case Ok(text, rest) => Ok(String(text), rest)
      case Fail(rest) => Fail(rest)
    else if s[0] == MINUS || IsDigit(s[0]) then ParseNumber(s)
    else if s[0] == LBRACKET then
      match ParseContainer(s, depth, false)
      case Ok(xs, rest) => Ok(Array(xs), rest)
      case Fail(rest) => Fail(rest)
    else if s[0] == LBRACE then
      match ParseContainer(s, depth, true)
      case Ok(xs, rest) => Ok(Object(xs), rest)
      case Fail(rest) => Fail(rest)
    else Fail(s)
  }

  function Closing(named: bool): byte { if named then RBRACE else RBRACKET }
  function Opening(named: bool): byte { if named then LBRACE else LBRACKET }

  /** An array, or an object when `named`, from its opening bracket. */
  function ParseContainer(s: bytes, depth: nat, named: bool): (r: Parsed<Items>)
    requires Terminated(s) && s[0] == Opening(named)
    ensures Advances(r, s)
    decreases |s|, 0
  {
    if depth >= NESTING_LIMIT then Fail(s)
    else
      var inside := Skip(s[1..]);
      if inside[0] == Closing(named) then
        Ok(Nil, inside[1..])
      else
        var items := ParseItems(inside, depth + 1, named);
        if items.Fail? then items
        else if items.rest[0] != Closing(named) then Fail(items.rest)
        else
          Ok(items.value, items.rest[1..])
  }

  /** The comma-separated items from the cursor on, up to the first byte that is no comma. */
  function ParseItems(s: bytes, depth: nat, named: bool): (r: Parsed<Items>)
    requires Terminated(s)
    ensures Advances(r, s)
    ensures r.Ok? ==> r.value.Cons? && r.rest == Skip(r.rest) && r.rest[0] != COMMA
    decreases |s|, 2
  {
    var key := ParseKey(s, named);
    if key.Fail? then Fail(key.rest)
    else
      var item := ParseValue(key.rest, depth);
      if item.Fail? then Fail(item.rest)
      else
        var after := Skip(item.rest);
        if after[0] != COMMA then Ok(Cons(key.value, item.value, Nil), after)
        else
          var more := ParseItems(after[1..], depth, named);
          match more
          case Ok(xs, rest) => Ok(Cons(key.value, item.value, xs), rest)
          case Fail(rest) => Fail(rest)
  }

  /** The blanks before an item and, in an object, its name and colon. */
  function ParseKey(s: bytes, named: bool): (r: Parsed<Option<bytes>>)
    requires Terminated(s)
    ensures |r.rest| <= |s| && (r.Ok? ==> Terminated(r.rest) && (r.value.Some? <==> named))
  {
    var start := Skip(s);
    if !named then Ok(None, start)
    else
      var key := ParseString(start);
      if key.Fail? then Fail(key.rest)
      else
        var colon := Skip(key.rest);
        if colon[0] != COLON then Fail(colon)
        else
          var value := Skip(colon[1..]);
          Ok(Some(key.value), value)
  }

  function SkipBom(c: bytes): (r: bytes)
    ensures |r| <= |c| && (Terminated(c) ==> Terminated(r))
  {
    if |c| > 4 && StartsWith(c, BOM) then c[3..] else c
  }

  /** `cJSON_ParseWithLengthOpts` without allocation failures; `strict` asks for a final NUL. */
  function ParseDocument(c: bytes, strict: bool): (r: Parsed<Value>)
    requires Terminated(c)
    ensures |r.rest| <= |c|
    ensures r.Ok? ==> Terminated(r.rest)
  {
    var start := Skip(SkipBom(c));
    var v := ParseValue(start, 0);
    if v.Fail? || !strict then v
    else
      var end := Skip(v.rest);
      if end[0] != NUL then Fail(end) else Ok(v.value, end)
  }

  /** The error position that a failed parse reports. */
  function ErrorPosition(c: bytes, rest: bytes): (p: nat)
    requires c != [] && |rest| <= |c|
    ensures p < |c| && (if rest != [] then p + |rest| == |c| else p == |c| - 1)
  {
    if |c| - |rest| < |c| then |c| - |rest| else |c| - 1
  }
}
