/**
 String literals: the scan for the closing quote, the unescape pass over the body,
 and the escaped text that the printer writes.
 */
module StringLiterals {
  import opened Base
  import opened Utf

  // ---------- first pass: find the closing quote, pair by pair ----------

  /** A body that the scan crosses completely: backslashes consume the byte after them, no bare quote. */
  predicate IsBody(b: bytes) {
    if b == [] then true
    else if b[0] == QUOTE then false
    else if b[0] == BACKSLASH then |b| >= 2 && IsBody(b[2..])
    else IsBody(b[1..])
  }

  /** How many scan steps cross the body: its length less the backslashes skipped. */
  function Tokens(b: bytes): (n: nat)
    requires IsBody(b)
    ensures n <= |b|
  {
    if b == [] then 0 else 1 + Tokens(if b[0] == BACKSLASH then b[2..] else b[1..])
  }

  /** Where the body after an opening quote ends, if a closing quote is found. */
  function ScanBody(s: bytes): (r: Option<nat>)
    ensures r.Some? ==> r.value < |s| && s[r.value] == QUOTE && IsBody(s[..r.value])
  {
    if s == [] then None
    else if s[0] == QUOTE then Some(0)
    else if s[0] == BACKSLASH then
      if |s| < 2 then None
      else
        match ScanBody(s[2..])
        case None => None
        case Some(n) => assert s[..n + 2][2..] == s[2..][..n]; Some(n + 2)
    else
      match ScanBody(s[1..])
      case None => None
      case Some(n) => assert s[..n + 1][1..] == s[1..][..n]; Some(n + 1)
  }

  lemma {:induction false} ScanOfBody(b: bytes, r: bytes)
    requires IsBody(b)
    ensures ScanBody(b + [QUOTE] + r) == Some(|b|)
  {
    var s := b + [QUOTE] + r;
    if b == [] {
    } else if b[0] == BACKSLASH {
      assert s[2..] == b[2..] + [QUOTE] + r;
      ScanOfBody(b[2..], r);
    } else {
      assert s[1..] == b[1..] + [QUOTE] + r;
      ScanOfBody(b[1..], r);
    }
  }

  lemma {:induction false} BodyConcat(a: bytes, b: bytes)
    requires IsBody(a)
    ensures IsBody(a + b) <==> IsBody(b)
  {
    if a == [] {
      assert a + b == b;
    } else {
      var k := if a[0] == BACKSLASH then 2 else 1;
      assert (a + b)[k..] == a[k..] + b;
      BodyConcat(a[k..], b);
    }
  }

  lemma {:induction false} TokensConcat(a: bytes, b: bytes)
    requires IsBody(a) && IsBody(b)
    ensures IsBody(a + b) && Tokens(a + b) == Tokens(a) + Tokens(b)
  {
    if a == [] {
      assert a + b == b;
    } else {
      var k := if a[0] == BACKSLASH then 2 else 1;
      assert (a + b)[k..] == a[k..] + b;
      TokensConcat(a[k..], b);
    }
  }

  // ---------- second pass: unescape ----------

  const LETTER_B: byte := 98
  const LETTER_F: byte := 102
  const LETTER_N: byte := 110
  const LETTER_R: byte := 114
  const LETTER_T: byte := 116

  /** The byte that a two-character escape stands for. */
  function ShortEscape(e: byte): (r: Option<byte>) {
    if e == LETTER_B then Some(8)
    else if e == LETTER_F then Some(12)
    else if e == LETTER_N then Some(10)
    else if e == LETTER_R then Some(13)
    else if e == LETTER_T then Some(9)
    else if e == QUOTE || e == BACKSLASH || e == SLASH then Some(e)
    else None
  }

  /** The byte after the front of `b`; past the body lies the closing quote. */
  function Second(b: bytes): byte
    requires b != []
  {
    if |b| > 1 then b[1] else QUOTE
  }

  /** One turn of the loop: the bytes it writes and how far it moves, or a bad escape. */
  datatype Step = Stuck | Step(written: bytes, used: nat)

  function DecodeStep(b: bytes): (r: Step)
    requires b != []
    ensures r.Step? ==> 1 <= |r.written| <= 4 && 1 <= r.used <= |b| + 1
    ensures r.Step? && r.used > |b| ==> |r.written| == 1 && |b| == 1
  {
    if b[0] != BACKSLASH then Step([b[0]], 1)
    else if Second(b) == LETTER_U then
      var lit := Utf16Literal(b);
      if lit.Malformed? then Stuck else Step(Utf8(lit.codepoint), lit.length)
    else
      var e := ShortEscape(Second(b));
      if e.None? then Stuck else Step([e.value], 2)
  }

  /** `Done`: the bytes written. `Bad`: how many bytes of the body were left at the bad escape. */
  datatype Unescaped = Done(out: bytes) | Bad(left: nat)
  {
    function After(written: bytes): Unescaped {
      match this
      case Done(out) => Done(written + out)
      case Bad(left) => Bad(left)
    }
  }

  function Unescape(b: bytes): (r: Unescaped)
    ensures r.Bad? ==> r.left <= |b|
    decreases |b|
  {
    if b == [] then Done([])
    else
      var step := DecodeStep(b);
      if step.Stuck? then Bad(|b|)
      else if step.used > |b| then Done(step.written)
      else Unescape(b[step.used..]).After(step.written)
  }

  // ---------- the two passes together: the sizing argument ----------

  /**
   `k` bytes of a body hold at least k/2 scan steps; they end between two steps, or
   inside the step of an escaped byte.
   */
  lemma {:induction false} StepsIn(x: bytes, k: nat)
    requires IsBody(x) && k <= |x|
    ensures || (IsBody(x[k..]) && 2 * (Tokens(x) - Tokens(x[k..])) >= k)
            || (k < |x| && IsBody(x[k + 1..]) && 2 * (Tokens(x) - Tokens(x[k + 1..])) >= k + 1)
    decreases k
  {
    if k == 0 {
      assert x[0..] == x;
    } else if x[0] != BACKSLASH {
      assert x[1..][k - 1..] == x[k..];
      assert k < |x| ==> x[1..][k..] == x[k + 1..];
      StepsIn(x[1..], k - 1);
    } else if k == 1 {
    } else {
      assert x[2..][k - 2..] == x[k..];
      assert k < |x| ==> x[2..][k - 1..] == x[k + 1..];
      StepsIn(x[2..], k - 2);
    }
  }

  lemma {:induction false} PlainSteps(x: bytes, k: nat)
    requires IsBody(x) && k <= |x|
    requires forall i :: 0 <= i < k ==> x[i] != BACKSLASH
    ensures IsBody(x[k..]) && Tokens(x) == k + Tokens(x[k..])
    decreases k
  {
    if k == 0 {
      assert x[0..] == x;
    } else {
      assert x[1..][k - 1..] == x[k..];
      PlainSteps(x[1..], k - 1);
    }
  }

  /**
   The room left for the rest of a body: one byte per scan step. Out of phase, the cursor
   stands on the second byte of a pair that the scan took as one step, and has that step's
   byte still to its credit.
   */
  ghost predicate Budget(b: bytes, n: int) {
    || (IsBody(b) && Tokens(b) <= n)
    || (b != [] && IsBody(b[1..]) && 1 + Tokens(b[1..]) <= n)
  }

  /** Every turn of the unescape loop stays within the room that the scan reserved. */
  lemma StepFits(b: bytes, n: int)
    requires b != [] && Budget(b, n) && DecodeStep(b).Step?
    ensures var step := DecodeStep(b);
            |step.written| <= n && (step.used <= |b| ==> Budget(b[step.used..], n - |step.written|))
  {
    if b[0] == BACKSLASH && Second(b) == LETTER_U {
      var x := b[2..];
      assert b[1..][1..] == x;
      assert IsBody(x) && 1 + Tokens(x) <= n;
      LiteralFits(b, x, n);
    } else if IsBody(b) && Tokens(b) <= n {
      assert |b| >= DecodeStep(b).used;
    } else {
      OutOfPhaseFits(b, n);
    }
  }

  lemma OutOfPhaseFits(b: bytes, n: int)
    requires b != [] && IsBody(b[1..]) && 1 + Tokens(b[1..]) <= n && DecodeStep(b).Step?
    requires !(b[0] == BACKSLASH && Second(b) == LETTER_U)
    ensures var step := DecodeStep(b);
            |step.written| <= n && (step.used <= |b| ==> Budget(b[step.used..], n - |step.written|))
  {
    if b[0] == BACKSLASH && |b| > 1 {
      assert b[1..][1..] == b[2..];
      if b[1] == BACKSLASH {
        assert b[2..][1..] == b[1..][2..];
      }
    }
  }

  /** A `\u` literal: with bad digits it writes one byte for at least three steps, else at most four for five. */
  lemma LiteralFits(b: bytes, x: bytes, n: int)
    requires |b| >= 2 && b[0] == BACKSLASH && b[1] == LETTER_U && x == b[2..] && DecodeStep(b).Step?
    requires IsBody(x) && 1 + Tokens(x) <= n
    ensures var step := DecodeStep(b);
            |step.written| <= n && step.used <= |b| && Budget(b[step.used..], n - |step.written|)
  {
    assert b[2..6] == x[..4];
    assert b[6..] == x[4..];
    if Hex4(x[..4]) == 0 {
      BadDigitsFit(b, x, n);
    } else {
      GoodDigitsFit(b, x, n);
    }
  }

  lemma BadDigitsFit(b: bytes, x: bytes, n: int)
    requires |b| >= 6 && b[0] == BACKSLASH && b[1] == LETTER_U && x == b[2..] && DecodeStep(b).Step?
    requires b[2..6] == x[..4] && b[6..] == x[4..] && Hex4(x[..4]) == 0
    requires IsBody(x) && 1 + Tokens(x) <= n
    ensures var step := DecodeStep(b);
            |step.written| <= n && step.used <= |b| && Budget(b[step.used..], n - |step.written|)
  {
    StepsIn(x, 4);
    assert |Utf8(0)| == 1;
    assert |x| > 4 ==> b[6..][1..] == x[5..];
  }

  lemma GoodDigitsFit(b: bytes, x: bytes, n: int)
    requires |b| >= 6 && b[0] == BACKSLASH && b[1] == LETTER_U && x == b[2..] && DecodeStep(b).Step?
    requires b[2..6] == x[..4] && b[6..] == x[4..] && Hex4(x[..4]) != 0
    requires IsBody(x) && 1 + Tokens(x) <= n
    ensures var step := DecodeStep(b);
            |step.written| <= n && step.used <= |b| && Budget(b[step.used..], n - |step.written|)
  {
    assert forall i :: 0 <= i < 4 ==> x[i] == x[..4][i];
    PlainSteps(x, 4);
    if Utf16Literal(b).length == 12 {
      var y := x[4..];
      assert y[2..6] == b[8..12] && y[6..] == b[12..];
      SecondHalfFits(y);
    }
  }

  /** The second `\uXXXX` of a pair, `y`, is five scan steps. */
  lemma SecondHalfFits(y: bytes)
    requires IsBody(y) && |y| >= 6 && y[0] == BACKSLASH && Hex4(y[2..6]) != 0
    ensures IsBody(y[6..]) && Tokens(y) == 5 + Tokens(y[6..])
  {
    var z := y[2..];
    assert y[2..6] == z[..4];
    assert forall i :: 0 <= i < 4 ==> z[i] == z[..4][i];
    PlainSteps(z, 4);
    assert z[4..] == y[6..];
  }

  /**
   The first pass reserves one byte per step and two more; the second pass never writes more
   bytes than there were steps, whatever the body holds.
   */
  lemma {:induction false} OutputFits(b: bytes, n: int)
    requires Budget(b, n) && Unescape(b).Done?
    ensures |Unescape(b).out| <= n
    decreases |b|
  {
    if b != [] {
      StepFits(b, n);
      var step := DecodeStep(b);
      if step.used <= |b| {
        OutputFits(b[step.used..], n - |step.written|);
      }
    }
  }

  // ---------- escapes of UTF-16 code units ----------

  function HexChar(d: nat): byte
    requires d < 16
  {
    if d < 10 then 48 + d else 87 + d
  }

  function HexText(u: nat): (h: bytes)
    requires u < 0x10000
    ensures |h| == 4
  {
    [HexChar(u / 4096), HexChar(u / 256 % 16), HexChar(u / 16 % 16), HexChar(u % 16)]
  }

  lemma HexCharReadsBack(d: nat)
    requires d < 16
    ensures IsHex(HexChar(d)) && HexDigit(HexChar(d)) == d && HexChar(d) != BACKSLASH && HexChar(d) != QUOTE
  {
  }

  lemma Hex4OfText(u: nat)
    requires u < 0x10000
    ensures Hex4(HexText(u)) == u && IsUnit(HexText(u))
    ensures forall i :: 0 <= i < 4 ==> HexText(u)[i] != BACKSLASH && HexText(u)[i] != QUOTE
  {
    UnitDigits(u);
    HexCharReadsBack(u / 4096);
    HexCharReadsBack(u / 256 % 16);
    HexCharReadsBack(u / 16 % 16);
    HexCharReadsBack(u % 16);
  }

  /** A backslash, a `u` and four digits. */
  function UnitEscape(h: bytes): (t: bytes)
    requires |h| == 4
    ensures |t| == 6
  {
    [92, 117] + h
  }

  /** Each of the units is spelled by four digits, in either case. */
  predicate SpellAll(hs: seq<bytes>, us: seq<nat>) { |hs| == |us| && forall i :: 0 <= i < |hs| ==> Spells(hs[i], us[i]) }

  /** One `\uXXXX` after the other. */
  function UnitEscapes(hs: seq<bytes>): (t: bytes)
    requires forall i :: 0 <= i < |hs| ==> |hs[i]| == 4
    ensures |t| == 6 * |hs|
  {
    if hs == [] then [] else UnitEscape(hs[0]) + UnitEscapes(hs[1..])
  }

  function Utf8All(cps: seq<nat>): bytes
    requires forall i :: 0 <= i < |cps| ==> cps[i] < 0x110000
  {
    if cps == [] then [] else Utf8(cps[0]) + Utf8All(cps[1..])
  }

  /** An escaped unit that is no surrogate is read alone; a trail cannot come first. */
  lemma UnescapeUnit(h: bytes, rest: bytes)
    requires IsUnit(h) && !IsLead(Hex4(h))
    ensures Unescape(UnitEscape(h) + rest) ==
            if IsTrail(Hex4(h)) then Bad(6 + |rest|) else Unescape(rest).After(Utf8(Hex4(h)))
  {
    var t := UnitEscape(h) + rest;
    assert t[2..6] == h;
    assert t[6..] == rest;
  }

  /** A lead needs an escaped trail right behind it. */
  lemma UnescapePair(h: bytes, k: bytes, rest: bytes)
    requires IsUnit(h) && IsUnit(k) && IsLead(Hex4(h))
    ensures Unescape(UnitEscape(h) + (UnitEscape(k) + rest)) ==
            if IsTrail(Hex4(k)) then Unescape(rest).After(Utf8(FromPair(Hex4(h), Hex4(k)))) else Bad(12 + |rest|)
  {
    var t := UnitEscape(h) + (UnitEscape(k) + rest);
    PairPieces(h, k, rest);
    assert Utf16Literal(t) == if IsTrail(Hex4(k)) then Literal(12, FromPair(Hex4(h), Hex4(k))) else Malformed;
  }

  lemma PairPieces(h: bytes, k: bytes, rest: bytes)
    requires |h| == |k| == 4
    ensures var t := UnitEscape(h) + (UnitEscape(k) + rest);
            && |t| >= 12 && t[0] == t[6] == BACKSLASH && t[1] == t[7] == LETTER_U
            && t[2..6] == h && t[8..12] == k && t[12..] == rest
  {
  }

  /** The UTF-8 text of escaped units, by the two standards: none when the units are ill formed. */
  function Expected(us: seq<nat>): (r: Option<bytes>)
    requires forall i :: 0 <= i < |us| ==> us[i] < 0x10000
  {
    match DecodeUtf16(us)
    case None => None
    case Some(cps) => DecodedAreScalars(us); Some(Utf8All(cps))
  }

  lemma ExpectedUnit(us: seq<nat>)
    requires forall i :: 0 <= i < |us| ==> us[i] < 0x10000
    requires us != [] && !IsLead(us[0]) && !IsTrail(us[0])
    ensures Expected(us) ==
            match Expected(us[1..]) case None => None case Some(t) => Some(Utf8(us[0]) + t)
  {
    if DecodeUtf16(us[1..]).Some? {
      assert DecodeUtf16(us).value[1..] == DecodeUtf16(us[1..]).value;
    }
  }

  lemma ExpectedPair(us: seq<nat>)
    requires forall i :: 0 <= i < |us| ==> us[i] < 0x10000
    requires |us| >= 2 && IsLead(us[0]) && IsTrail(us[1])
    ensures Expected(us) ==
            match Expected(us[2..]) case None => None case Some(t) => Some(Utf8(FromPair(us[0], us[1])) + t)
  {
    assert FromPair(us[0], us[1]) == (us[0] - 0xD800) * 0x400 + (us[1] - 0xDC00) + 0x10000;
    if DecodeUtf16(us[2..]).Some? {
      assert DecodeUtf16(us).value[1..] == DecodeUtf16(us[2..]).value;
    }
  }

  /**
   `\u` escapes decode as UTF-16: the unescape pass accepts a run of escaped units
   exactly when they are well formed (so an unpaired surrogate is rejected), and
   then writes the UTF-8 encoding of the scalar values they stand for.
   */
  lemma {:induction false} UnitEscapesDecode(hs: seq<bytes>, us: seq<nat>)
    requires SpellAll(hs, us)
    ensures Expected(us).None? ==> Unescape(UnitEscapes(hs)).Bad?
    ensures Expected(us).Some? ==> Unescape(UnitEscapes(hs)) == Done(Expected(us).value)
    decreases |hs|
  {
    if us == [] {
    } else {
      SpelledIsRead(hs[0], us[0]);
      if !IsLead(us[0]) {
        UnescapeUnit(hs[0], UnitEscapes(hs[1..]));
        if !IsTrail(us[0]) {
          ExpectedUnit(us);
          UnitEscapesDecode(hs[1..], us[1..]);
        }
      } else if |us| == 1 {
        assert UnitEscapes(hs)[2..6] == hs[0];
      } else {
        SpelledIsRead(hs[1], us[1]);
        assert hs[1..][1..] == hs[2..];
        UnescapePair(hs[0], hs[1], UnitEscapes(hs[2..]));
        if IsTrail(us[1]) {
          ExpectedPair(us);
          UnitEscapesDecode(hs[2..], us[2..]);
        }
      }
    }
  }

  /** A `\u` whose four bytes are not all digits is no error: it writes a NUL. */
  lemma BadDigitsWriteNul(h: bytes, rest: bytes)
    requires |h| == 4 && exists i :: 0 <= i < 4 && h[i] !in LOWER_DIGITS && h[i] !in UPPER_DIGITS
    ensures Unescape(UnitEscape(h) + rest) == Unescape(rest).After([0])
  {
    hide LOWER_DIGITS, UPPER_DIGITS, Utf8, Unescape;
    var i :| 0 <= i < 4 && h[i] !in LOWER_DIGITS && h[i] !in UPPER_DIGITS;
    UnspelledIsZero(h, i);
    ZeroIsWritten(h, rest);
    Utf8MeetsTable(0);
  }

  lemma ZeroIsWritten(h: bytes, rest: bytes)
    requires |h| == 4 && Hex4(h) == 0
    ensures Unescape(UnitEscape(h) + rest) == Unescape(rest).After(Utf8(0))
  {
    hide Utf8;
    var t := UnitEscape(h) + rest;
    assert t[2..6] == h;
    assert t[6..] == rest;
  }

  /** Any scalar values, spelled in escaped UTF-16, come out as their UTF-8 encoding. */
  lemma ScalarsDecode(cps: seq<nat>, hs: seq<bytes>)
    requires (forall i :: 0 <= i < |cps| ==> IsScalar(cps[i])) && SpellAll(hs, EncodeUtf16(cps))
    ensures Unescape(UnitEscapes(hs)) == Done(Utf8All(cps)) && IsBody(UnitEscapes(hs))
  {
    Utf16RoundTrip(cps);
    UnitEscapesDecode(hs, EncodeUtf16(cps));
    UnitEscapesAreBody(hs, EncodeUtf16(cps));
  }

  lemma {:induction false} UnitEscapesAreBody(hs: seq<bytes>, us: seq<nat>)
    requires SpellAll(hs, us)
    ensures IsBody(UnitEscapes(hs))
  {
    if hs != [] {
      UnitEscapesAreBody(hs[1..], us[1..]);
      SpelledIsRead(hs[0], us[0]);
      UnitEscapeIsBody(hs[0]);
      BodyConcat(UnitEscape(hs[0]), UnitEscapes(hs[1..]));
    }
  }

  lemma UnitEscapeIsBody(h: bytes)
    requires IsUnit(h)
    ensures IsBody(UnitEscape(h))
  {
    assert UnitEscape(h)[2..] == h;
    assert forall i :: 0 <= i < 4 ==> IsHex(h[i]);
    CleanIsBody(h);
  }

  /** Bytes without quotes and backslashes are a body. */
  lemma {:induction false} CleanIsBody(w: bytes)
    requires forall i :: 0 <= i < |w| ==> w[i] != QUOTE && w[i] != BACKSLASH
    ensures IsBody(w)
  {
    if w != [] {
      CleanIsBody(w[1..]);
    }
  }

  // ---------- what the printer writes ----------

  /** The letter of the two-character escape the printer uses for a byte, if it uses one. */
  function ShortLetter(c: byte): (r: Option<byte>)
    ensures r.Some? ==> r.value != LETTER_U && ShortEscape(r.value) == Some(c)
  {
    if c == QUOTE || c == BACKSLASH then Some(c)
    else if c == 8 then Some(LETTER_B)
    else if c == 12 then Some(LETTER_F)
    else if c == 10 then Some(LETTER_N)
    else if c == 13 then Some(LETTER_R)
    else if c == 9 then Some(LETTER_T)
    else None
  }

  function EscapeByte(c: byte): (t: bytes)
    ensures 1 <= |t| <= 6
  {
    if ShortLetter(c).Some? then [BACKSLASH, ShortLetter(c).value]
    else if c < 32 then UnitEscape(HexText(c))
    else [c]
  }

  function Escape(s: bytes): (t: bytes)
    ensures |t| >= |s|
  {
    if s == [] then [] else EscapeByte(s[0]) + Escape(s[1..])
  }

  lemma EscapeByteIsBody(c: byte)
    ensures IsBody(EscapeByte(c))
  {
    if ShortLetter(c).Some? {
      assert EscapeByte(c)[2..] == [];
    } else if c < 32 {
      Hex4OfText(c);
      UnitEscapeIsBody(HexText(c));
    } else {
      assert EscapeByte(c)[1..] == [];
    }
  }

  lemma UnescapeStep(c: byte, rest: bytes)
    requires c != NUL
    ensures Unescape(EscapeByte(c) + rest) == Unescape(rest).After([c])
  {
    var t := EscapeByte(c) + rest;
    if ShortLetter(c).Some? {
      assert t[2..] == rest;
    } else if c < 32 {
      Hex4OfText(c);
      UnescapeUnit(HexText(c), rest);
      Utf8MeetsTable(c);
    } else {
      assert t[1..] == rest;
    }
  }

  // ---------- the escapes of section 7 of RFC 8259 ----------

  /** The bytes behind a backslash, and what each escape stands for. */
  const ESCAPES: bytes := [34, 92, 47, 98, 102, 110, 114, 116]
  const ESCAPED: bytes := [34, 92, 47, 8, 12, 10, 13, 9]

  /** The eight short escapes are read as the standard says, any other but `\u` is an error, and other bytes stand for themselves. */
  lemma EscapesAreRead(b: byte, rest: bytes)
    ensures forall i :: 0 <= i < 8 && b == ESCAPES[i] ==> Unescape([92, b] + rest) == Unescape(rest).After([ESCAPED[i]])
    ensures b !in ESCAPES && b != 117 ==> Unescape([92, b] + rest).Bad?
    ensures b != 92 ==> Unescape([b] + rest) == Unescape(rest).After([b])
  {
    assert ([92, b] + rest)[2..] == rest;
    assert ([b] + rest)[1..] == rest;
    assert ESCAPES[0] in ESCAPES && ESCAPES[1] in ESCAPES && ESCAPES[2] in ESCAPES && ESCAPES[3] in ESCAPES;
    assert ESCAPES[4] in ESCAPES && ESCAPES[5] in ESCAPES && ESCAPES[6] in ESCAPES && ESCAPES[7] in ESCAPES;
  }

  /** All of them but the slash are written for the byte they stand for, other control bytes as `\u00XX` in lower case. */
  lemma EscapesAreWritten(c: byte, s: bytes)
    ensures forall i :: 0 <= i < 8 && c == ESCAPED[i] && c != 47 ==> Escape([c] + s) == [92, ESCAPES[i]] + Escape(s)
    ensures c !in ESCAPED && c < 32 ==> Escape([c] + s) == [92, 117, 48, 48, LOWER_DIGITS[c / 16], LOWER_DIGITS[c % 16]] + Escape(s)
    ensures c == 47 || (c !in ESCAPED && c >= 32) ==> Escape([c] + s) == [c] + Escape(s)
  {
    hide EscapeByte;
    assert ([c] + s)[1..] == s;
    ByteIsWritten(c);
  }

  lemma ByteIsWritten(c: byte)
    ensures forall i :: 0 <= i < 8 && c == ESCAPED[i] && c != 47 ==> EscapeByte(c) == [92, ESCAPES[i]]
    ensures c !in ESCAPED && c < 32 ==> EscapeByte(c) == [92, 117, 48, 48, LOWER_DIGITS[c / 16], LOWER_DIGITS[c % 16]]
    ensures c == 47 || (c !in ESCAPED && c >= 32) ==> EscapeByte(c) == [c]
  {
    hide LOWER_DIGITS, HexChar;
    assert ESCAPED[0] in ESCAPED && ESCAPED[1] in ESCAPED && ESCAPED[2] in ESCAPED && ESCAPED[3] in ESCAPED;
    assert ESCAPED[4] in ESCAPED && ESCAPED[5] in ESCAPED && ESCAPED[6] in ESCAPED && ESCAPED[7] in ESCAPED;
    if c !in ESCAPED && c < 32 {
      HexCharIsDigit(c / 16);
      HexCharIsDigit(c % 16);
      assert HexText(c) == [48, 48, HexChar(c / 16), HexChar(c % 16)];
    }
  }

  lemma HexCharIsDigit(d: nat)
    requires d < 16
    ensures HexChar(d) == LOWER_DIGITS[d] && HexChar(0) == 48
  {
  }

  /** The printer's escapes survive the scan and read back as the original bytes. */
  lemma {:induction false} EscapeReadsBack(s: bytes)
    requires NUL !in s
    ensures IsBody(Escape(s)) && Unescape(Escape(s)) == Done(s)
  {
    if s == [] {
    } else {
      EscapeReadsBack(s[1..]);
      EscapeByteIsBody(s[0]);
      BodyConcat(EscapeByte(s[0]), Escape(s[1..]));
      UnescapeStep(s[0], Escape(s[1..]));
      assert [s[0]] + s[1..] == s;
    }
  }

  lemma {:induction false} EscapeIsClean(s: bytes)
    requires NUL !in s
    ensures NUL !in Escape(s)
  {
    if s != [] {
      EscapeIsClean(s[1..]);
      assert NUL !in EscapeByte(s[0]);
    }
  }

  lemma {:induction false} EscapeSnoc(s: bytes, c: byte)
    ensures Escape(s + [c]) == Escape(s) + EscapeByte(c)
  {
    if s == [] {
      assert s + [c] == [c] && [c][1..] == [];
      assert EscapeByte(c) + [] == EscapeByte(c);
    } else {
      assert (s + [c])[0] == s[0] && (s + [c])[1..] == s[1..] + [c];
      EscapeSnoc(s[1..], c);
    }
  }

  /** Text that needs no escape is written as it is. */
  lemma {:induction false} EscapeNothing(s: bytes)
    requires |Escape(s)| == |s|
    ensures Escape(s) == s
  {
    if s != [] {
      EscapeNothing(s[1..]);
      assert |EscapeByte(s[0])| == 1;
      assert [s[0]] + s[1..] == s;
    }
  }

  lemma {:induction false} EscapeLengthGrows(s: bytes, i: nat)
    requires i <= |s|
    ensures |Escape(s[..i])| <= |Escape(s)|
    decreases |s| - i
  {
    if i < |s| {
      EscapeSnoc(s[..i], s[i]);
      assert s[..i + 1] == s[..i] + [s[i]];
      EscapeLengthGrows(s, i + 1);
    } else {
      assert s[..i] == s;
    }
  }
}
