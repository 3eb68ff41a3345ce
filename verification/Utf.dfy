/**
 `\uXXXX` escapes: hexadecimal digits, UTF-16 surrogate pairs (section 2.2 of RFC 2781)
 and the UTF-8 encoding (section 3 of RFC 3629).
 */
module Utf {
  import opened Base

  const LETTER_U: byte := 117

  // ---------- what the code computes ----------

  predicate IsHex(b: byte) { 48 <= b <= 57 || 65 <= b <= 70 || 97 <= b <= 102 }

  function HexDigit(b: byte): (d: nat)
    requires IsHex(b)
    ensures d < 16
  {
    if b <= 57 then b - 48 else if b <= 70 then 10 + b - 65 else 10 + b - 97
  }

  /** Four hexadecimal digits; any other byte makes the whole number 0, without an error. */
  function Hex4(h: bytes): (n: nat)
    requires |h| == 4
    ensures n < 0x10000
  {
    if IsHex(h[0]) && IsHex(h[1]) && IsHex(h[2]) && IsHex(h[3]) then
      ((HexDigit(h[0]) * 16 + HexDigit(h[1])) * 16 + HexDigit(h[2])) * 16 + HexDigit(h[3])
    else 0
  }

  /** Four hexadecimal digits, in either case. */
  predicate IsUnit(h: bytes) { |h| == 4 && IsHex(h[0]) && IsHex(h[1]) && IsHex(h[2]) && IsHex(h[3]) }

  predicate IsLead(u: nat) { 0xD800 <= u <= 0xDBFF }
  predicate IsTrail(u: nat) { 0xDC00 <= u <= 0xDFFF }

  function FromPair(lead: nat, trail: nat): nat {
    0x10000 + (lead % 0x400) * 0x400 + trail % 0x400
  }

  /** How many bytes the encoder writes for a code point. */
  function EncodedLength(cp: nat): (n: nat) {
    if cp < 0x80 then 1 else if cp < 0x800 then 2 else if cp < 0x10000 then 3 else 4
  }

  function LeadMark(n: nat): nat {
    if n == 1 then 0 else if n == 2 then 0xC0 else if n == 3 then 0xE0 else 0xF0
  }

  /** The last `n` bytes of an encoding, filled from the back, six bits at a time. */
  function Continuations(cp: nat, n: nat): (r: bytes)
    ensures |r| == n
  {
    if n == 0 then [] else Continuations(cp / 64, n - 1) + [0x80 + cp % 64]
  }

  function Shifted(cp: nat, n: nat): (r: nat) {
    if n == 0 then cp else Shifted(cp / 64, n - 1)
  }

  /** The bytes that the encoding loop leaves in the output. */
  function Utf8(cp: nat): (r: bytes)
    requires cp < 0x110000
    ensures 1 <= |r| == EncodedLength(cp) <= 4
  {
    var n := EncodedLength(cp);
    assert Shifted(cp, n - 1) + LeadMark(n) < 256 by { ShiftedSmall(cp, n); }
    [Shifted(cp, n - 1) + LeadMark(n)] + Continuations(cp, n - 1)
  }

  lemma ShiftedSmall(cp: nat, n: nat)
    requires cp < 0x110000 && n == EncodedLength(cp)
    ensures Shifted(cp, n - 1) + LeadMark(n) < 256
    ensures n == 1 ==> Shifted(cp, 0) == cp
    ensures n == 2 ==> Shifted(cp, 1) == cp / 64
    ensures n == 3 ==> Shifted(cp, 2) == cp / 64 / 64
    ensures n == 4 ==> Shifted(cp, 3) == cp / 64 / 64 / 64
  {
    assert Shifted(cp / 64 / 64, 1) == Shifted(cp / 64 / 64 / 64, 0);
    assert Shifted(cp / 64, 1) == Shifted(cp / 64 / 64, 0);
    assert Shifted(cp / 64, 2) == Shifted(cp / 64 / 64, 1);
  }

  /** One or two `\uXXXX` sequences at the front of a string body. */
  datatype Literal = Malformed | Literal(length: nat, codepoint: nat)

  function Utf16Literal(b: bytes): (r: Literal)
    ensures r.Literal? ==> (r.length == 6 || r.length == 12) && r.length <= |b| && r.codepoint < 0x110000
  {
    if |b| < 6 then Malformed
    else
      var first := Hex4(b[2..6]);
      if IsTrail(first) then Malformed
      else if IsLead(first) then
        if |b| < 12 || b[6] != BACKSLASH || b[7] != LETTER_U then Malformed
        else
          var second := Hex4(b[8..12]);
          if IsTrail(second) then Literal(12, FromPair(first, second)) else Malformed
      else Literal(6, first)
  }

  // ---------- the standards ----------

  /** The sixteen digits, `0` to `9` and then `a` to `f` or `A` to `F`. */
  const LOWER_DIGITS: bytes := [48, 49, 50, 51, 52, 53, 54, 55, 56, 57, 97, 98, 99, 100, 101, 102]
  const UPPER_DIGITS: bytes := [48, 49, 50, 51, 52, 53, 54, 55, 56, 57, 65, 66, 67, 68, 69, 70]

  predicate SpellsDigit(b: byte, d: nat) { d < 16 && (b == LOWER_DIGITS[d] || b == UPPER_DIGITS[d]) }

  /** Four digits, each in either case, that write a 16-bit unit in base 16. */
  predicate Spells(h: bytes, u: nat) {
    && |h| == 4 && u < 0x10000
    && SpellsDigit(h[0], u / 4096) && SpellsDigit(h[1], u / 256 % 16) && SpellsDigit(h[2], u / 16 % 16) && SpellsDigit(h[3], u % 16)
  }

  lemma DigitIsRead(b: byte, d: nat)
    requires SpellsDigit(b, d)
    ensures IsHex(b) && HexDigit(b) == d
  {
    assert d == 10 || d == 11 || d == 12 || d == 13 || d == 14 || d == 15 || LOWER_DIGITS[d] == UPPER_DIGITS[d] == 48 + d;
  }

  lemma HexIsDigit(b: byte)
    ensures IsHex(b) <==> b in LOWER_DIGITS || b in UPPER_DIGITS
  {
    if IsHex(b) {
      if b <= 57 {
        assert LOWER_DIGITS[b - 48] == b;
      } else if b <= 70 {
        assert UPPER_DIGITS[b - 55] == b;
      } else {
        assert LOWER_DIGITS[b - 87] == b;
      }
    }
  }

  lemma UnitDigits(u: nat)
    requires u < 0x10000
    ensures u / 4096 < 16
    ensures ((u / 4096 * 16 + u / 256 % 16) * 16 + u / 16 % 16) * 16 + u % 16 == u
  {
    assert u / 16 == u / 256 * 16 + u / 16 % 16;
    assert u / 256 == u / 4096 * 16 + u / 256 % 16;
  }

  lemma HexValue(h: bytes, a: nat, b: nat, c: nat, d: nat)
    requires IsUnit(h) && HexDigit(h[0]) == a && HexDigit(h[1]) == b && HexDigit(h[2]) == c && HexDigit(h[3]) == d
    ensures Hex4(h) == ((a * 16 + b) * 16 + c) * 16 + d
  {
  }

  /** What is spelled is what is read. */
  lemma SpelledIsRead(h: bytes, u: nat)
    requires Spells(h, u)
    ensures IsUnit(h) && Hex4(h) == u
  {
    hide HexDigit, Hex4, SpellsDigit;
    DigitIsRead(h[0], u / 4096);
    DigitIsRead(h[1], u / 256 % 16);
    DigitIsRead(h[2], u / 16 % 16);
    DigitIsRead(h[3], u % 16);
    UnitDigits(u);
    HexValue(h, u / 4096, u / 256 % 16, u / 16 % 16, u % 16);
  }

  /** A byte that is no digit makes the whole 0. */
  lemma UnspelledIsZero(h: bytes, i: nat)
    requires |h| == 4 && i < 4 && h[i] !in LOWER_DIGITS && h[i] !in UPPER_DIGITS
    ensures Hex4(h) == 0
  {
    hide LOWER_DIGITS, UPPER_DIGITS, HexDigit;
    HexIsDigit(h[i]);
  }

  predicate IsScalar(cp: nat) { cp < 0xD800 || 0xE000 <= cp < 0x110000 }

  predicate IsContinuation(b: byte) { 0x80 <= b <= 0xBF }

  /** The rows of the table in section 3 of RFC 3629, read as constraints on the octets. */
  predicate EncodesInUtf8(cp: nat, r: bytes) {
    if cp <= 0x7F then
      |r| == 1 && r[0] == cp
    else if cp <= 0x7FF then
      |r| == 2 && 0xC0 <= r[0] <= 0xDF && IsContinuation(r[1])
      && cp == (r[0] as int - 0xC0) * 0x40 + (r[1] as int - 0x80)
    else if cp <= 0xFFFF then
      |r| == 3 && 0xE0 <= r[0] <= 0xEF && IsContinuation(r[1]) && IsContinuation(r[2])
      && cp == (r[0] as int - 0xE0) * 0x1000 + (r[1] as int - 0x80) * 0x40 + (r[2] as int - 0x80)
    else
      |r| == 4 && 0xF0 <= r[0] <= 0xF7
      && IsContinuation(r[1]) && IsContinuation(r[2]) && IsContinuation(r[3])
      && cp == (r[0] as int - 0xF0) * 0x40000 + (r[1] as int - 0x80) * 0x1000 + (r[2] as int - 0x80) * 0x40 + (r[3] as int - 0x80)
  }

  lemma Utf8MeetsTable(cp: nat)
    requires cp < 0x110000
    ensures EncodesInUtf8(cp, Utf8(cp))
  {
    var n := EncodedLength(cp);
    ShiftedSmall(cp, n);
    assert Continuations(cp, 0) == [];
    assert Continuations(cp, 1) == Continuations(cp / 64, 0) + [0x80 + cp % 64];
    assert Continuations(cp / 64, 1) == Continuations(cp / 64 / 64, 0) + [0x80 + cp / 64 % 64];
    assert Continuations(cp / 64 / 64, 1) == Continuations(cp / 64 / 64 / 64, 0) + [0x80 + cp / 64 / 64 % 64];
    assert Continuations(cp / 64, 2) == Continuations(cp / 64 / 64, 1) + [0x80 + cp / 64 % 64];
    assert Continuations(cp, 2) == Continuations(cp / 64, 1) + [0x80 + cp % 64];
    assert Continuations(cp, 3) == Continuations(cp / 64, 2) + [0x80 + cp % 64];
  }

  /** Section 2.2 of RFC 2781: the scalar values a sequence of 16-bit units stands for, if any. */
  function DecodeUtf16(us: seq<nat>): (r: Option<seq<nat>>) {
    if us == [] then Some([])
    else if IsTrail(us[0]) then None
    else if IsLead(us[0]) then
      if |us| < 2 || !IsTrail(us[1]) then None
      else
        match DecodeUtf16(us[2..])
        case None => None
        case Some(cps) => Some([(us[0] - 0xD800) * 0x400 + (us[1] - 0xDC00) + 0x10000] + cps)
    else
      match DecodeUtf16(us[1..])
      case None => None
      case Some(cps) => Some([us[0]] + cps)
  }

  lemma {:induction false} DecodedAreScalars(us: seq<nat>)
    requires forall i :: 0 <= i < |us| ==> us[i] < 0x10000
    ensures DecodeUtf16(us).Some? ==>
              forall i :: 0 <= i < |DecodeUtf16(us).value| ==> IsScalar(DecodeUtf16(us).value[i])
    decreases |us|
  {
    if us != [] && !IsTrail(us[0]) {
      if IsLead(us[0]) {
        if |us| >= 2 { DecodedAreScalars(us[2..]); }
      } else {
        DecodedAreScalars(us[1..]);
      }
    }
  }

  /** Section 2.1 of RFC 2781: scalar values as 16-bit units. */
  function EncodeUtf16(cps: seq<nat>): (us: seq<nat>)
    requires forall i :: 0 <= i < |cps| ==> IsScalar(cps[i])
    ensures forall i :: 0 <= i < |us| ==> us[i] < 0x10000
  {
    if cps == [] then []
    else if cps[0] < 0x10000 then [cps[0]] + EncodeUtf16(cps[1..])
    else
      var u := cps[0] - 0x10000;
      var pair: seq<nat> := [0xD800 + u / 0x400, 0xDC00 + u % 0x400];
      assert IsScalar(cps[0]);
      assert u < 0x100000 && pair[0] < 0x10000 && pair[1] < 0x10000;
      pair + EncodeUtf16(cps[1..])
  }

  lemma {:induction false} Utf16RoundTrip(cps: seq<nat>)
    requires forall i :: 0 <= i < |cps| ==> IsScalar(cps[i])
    ensures DecodeUtf16(EncodeUtf16(cps)) == Some(cps)
  {
    if cps == [] {
    } else {
      Utf16RoundTrip(cps[1..]);
      var us := EncodeUtf16(cps);
      if cps[0] < 0x10000 {
        assert us[1..] == EncodeUtf16(cps[1..]);
        assert [cps[0]] + cps[1..] == cps;
      } else {
        assert us[2..] == EncodeUtf16(cps[1..]);
        assert [cps[0]] + cps[1..] == cps;
      }
    }
  }
}
