/** String literals made of `\uXXXX` escapes, as the parser reads them from a document. */
module Unicode {
  import opened Base
  import opened Utf
  import opened StringLiterals
  import opened Parser
  import opened Grammar
  import opened Language

  lemma Utf8HasNoNul(cp: nat)
    requires 0 < cp < 0x110000
    ensures NUL !in Utf8(cp)
  {
    Utf8MeetsTable(cp);
    var r := Utf8(cp);
    assert forall i :: 0 <= i < |r| ==> r[i] != NUL;
  }

  lemma {:induction false} Utf8AllHasNoNul(cps: seq<nat>)
    requires forall i :: 0 <= i < |cps| ==> cps[i] < 0x110000 && cps[i] != 0
    ensures NUL !in Utf8All(cps)
  {
    if cps != [] {
      Utf8HasNoNul(cps[0]);
      Utf8AllHasNoNul(cps[1..]);
    }
  }

  /** A literal whose body the unescape pass rejects. */
  lemma BadBody(body: bytes, r: bytes)
    requires IsBody(body) && Unescape(body).Bad? && Terminated(r)
    ensures Terminated(Quoted(body) + r) && ParseString(Quoted(body) + r).Fail?
  {
    var s := Quoted(body) + r;
    assert s[1..] == body + [QUOTE] + r;
    ScanOfBody(body, r);
    assert s[1..][..|body|] == body;
  }

  /** Escaped UTF-16 is accepted exactly when it is well formed: an unpaired surrogate is rejected. */
  lemma EscapedUnitsParse(hs: seq<bytes>, us: seq<nat>, r: bytes)
    requires SpellAll(hs, us) && Terminated(r)
    ensures Terminated(Quoted(UnitEscapes(hs)) + r)
    ensures ParseString(Quoted(UnitEscapes(hs)) + r).Ok? <==> DecodeUtf16(us).Some?
  {
    hide ParseString, UnitEscapes, Unescape, IsBody, DecodeUtf16;
    UnitEscapesDecode(hs, us);
    UnitEscapesAreBody(hs, us);
    if Unescape(UnitEscapes(hs)).Done? {
      CompleteString(UnitEscapes(hs), r);
    } else {
      BadBody(UnitEscapes(hs), r);
    }
  }

  /** Scalar values other than U+0000 come out as their UTF-8 encoding, and nothing more is read. */
  lemma EscapedScalarsParse(cps: seq<nat>, hs: seq<bytes>, r: bytes)
    requires (forall i :: 0 <= i < |cps| ==> IsScalar(cps[i]) && cps[i] != 0) && Terminated(r)
    requires SpellAll(hs, EncodeUtf16(cps))
    ensures Terminated(Quoted(UnitEscapes(hs)) + r)
    ensures ParseString(Quoted(UnitEscapes(hs)) + r) == Ok(Utf8All(cps), r)
  {
    hide ParseString, UnitEscapes, Unescape, IsBody;
    ScalarsDecode(cps, hs);
    CompleteString(UnitEscapes(hs), r);
    Utf8AllHasNoNul(cps);
    CStringOfClean(Utf8All(cps));
  }
}
