/**
 Reading a string literal in two passes: the scan that sizes the output block, and the
 unescape pass that fills it.
 */
module StringReader {
  import opened Base
  import opened Utf
  import opened StringLiterals

  // ---------- the scan ----------

  /** What the scan knows at `end`: the bytes so far are whole steps, with the backslashes counted. */
  ghost predicate Scanned(content: bytes, start: nat, end: nat, skipped: nat) {
    && start <= end <= |content| && skipped <= end - start
    && IsBody(content[start..end]) && Tokens(content[start..end]) == end - start - skipped
  }

  ghost predicate SearchesOn(content: bytes, start: nat, end: nat) {
    start <= end <= |content| && Shift(ScanBody(content[end..]), end - start) == ScanBody(content[start..])
  }

  /** First pass: finds the closing quote and counts the backslashes it steps over. */
  method ScanLiteral(content: bytes, offset: nat) returns (ok: bool, end: nat, skipped: nat)
    requires offset < |content| && content[offset] == QUOTE
    ensures ok ==> Scanned(content, offset + 1, end, skipped) && offset < end < |content| && content[end] == QUOTE
    ensures ok ==> ScanBody(content[offset + 1..]) == Some(end - offset - 1)
    ensures !ok ==> ScanBody(content[offset + 1..]) == None
  {
    var start := offset + 1;
    end, skipped := start, 0;
    ScanStart(content, start);
    while end < |content| && content[end] != QUOTE && (content[end] != BACKSLASH || end + 1 < |content|)
      invariant Scanned(content, start, end, skipped) && SearchesOn(content, start, end)
      decreases |content| - end
    {
      ghost var at := end;
      if content[end] == BACKSLASH {
        skipped := skipped + 1;
        end := end + 1;
      }
      end := end + 1;
      GrowBody(content, start, at, end);
      SearchTurn(content, start, at, end);
    }
    // a backslash that is the last byte of the buffer stops the scan as well
    ok := end < |content| && content[end] == QUOTE;
    ScanStop(content, start, end);
  }

  lemma ScanStart(content: bytes, start: nat)
    requires start <= |content|
    ensures Scanned(content, start, start, 0) && SearchesOn(content, start, start)
  {
    assert content[start..start] == [];
  }

  lemma SearchTurn(content: bytes, start: nat, at: nat, end: nat)
    requires SearchesOn(content, start, at) && at < end <= |content| && content[at] != QUOTE
    requires end - at == if content[at] == BACKSLASH then 2 else 1
    ensures SearchesOn(content, start, end)
  {
    SearchOn(content[at..], end - at);
    assert content[at..][end - at..] == content[end..];
    ShiftTwice(ScanBody(content[end..]), end - at, at - start);
  }

  lemma ScanStop(content: bytes, start: nat, end: nat)
    requires SearchesOn(content, start, end)
    requires end == |content| || content[end] == QUOTE || (content[end] == BACKSLASH && end + 1 == |content|)
    ensures ScanBody(content[start..]) ==
            if end < |content| && content[end] == QUOTE then Some(end - start) else None
  {
  }

  function Shift(found: Option<nat>, k: nat): Option<nat> {
    if found.None? then None else Some(k + found.value)
  }

  lemma ShiftTwice(found: Option<nat>, a: nat, b: nat)
    ensures Shift(Shift(found, a), b) == Shift(found, a + b)
  {
  }

  lemma SearchOn(s: bytes, k: nat)
    requires s != [] && s[0] != QUOTE && k <= |s| && k == if s[0] == BACKSLASH then 2 else 1
    ensures ScanBody(s) == Shift(ScanBody(s[k..]), k)
  {
  }

  lemma GrowBody(s: bytes, start: nat, at: nat, end: nat)
    requires start <= at < end <= |s| && IsBody(s[start..at])
    requires s[at] != QUOTE && end - at == if s[at] == BACKSLASH then 2 else 1
    ensures IsBody(s[start..end]) && Tokens(s[start..end]) == Tokens(s[start..at]) + 1
  {
    OneToken(s[at..end]);
    TokensConcat(s[start..at], s[at..end]);
    assert s[start..end] == s[start..at] + s[at..end];
  }

  lemma OneToken(piece: bytes)
    requires piece != [] && piece[0] != QUOTE && |piece| == if piece[0] == BACKSLASH then 2 else 1
    ensures IsBody(piece) && Tokens(piece) == 1
  {
    assert piece[|piece|..] == [];
    assert IsBody(piece[|piece|..]) && Tokens(piece[|piece|..]) == 0;
  }

  // ---------- the unescape pass, writing into the block that was sized by the scan ----------

  lemma AfterTwice(r: Unescaped, a: bytes, b: bytes)
    ensures r.After(b).After(a) == r.After(a + b)
  {
    if r.Done? {
      Assoc(a, b, r.out);
    }
  }

  /** Encodes a code point from the back, six bits at a time. */
  method WriteUtf8(output: array<byte>, at: nat, codepoint: nat) returns (n: nat)
    requires codepoint < 0x110000 && at + EncodedLength(codepoint) <= output.Length
    modifies output
    ensures n == |Utf8(codepoint)| && output[..at + n] == old(output[..at]) + Utf8(codepoint)
  {
    n := EncodedLength(codepoint);
    ghost var front := output[..at];
    var cp: nat := codepoint;
    var pos := n - 1;
    assert output[at + n..at + n] == [];
    while pos > 0
      invariant 0 <= pos <= n - 1
      invariant Continuations(codepoint, n - 1) == Continuations(cp, pos) + output[at + pos + 1..at + n]
      invariant Shifted(codepoint, n - 1) == Shifted(cp, pos)
      invariant output[..at] == front
    {
      ghost var tail := output[at + pos + 1..at + n];
      output[at + pos] := 0x80 + cp % 64;
      assert output[at + pos..at + n] == [0x80 + cp % 64] + tail;
      Assoc(Continuations(cp / 64, pos - 1), [0x80 + cp % 64], tail);
      cp := cp / 64;
      pos := pos - 1;
    }
    ShiftedSmall(codepoint, n);
    WriteLead(output, at, n, cp + LeadMark(n));
  }

  method WriteLead(output: array<byte>, at: nat, n: nat, lead: byte)
    requires 1 <= n && at + n <= output.Length
    modifies output
    ensures output[..at + n] == old(output[..at]) + ([lead] + old(output[at + 1..at + n]))
  {
    output[at] := lead;
  }

  /** One or two `\uXXXX` at `from`; 0 when they are malformed. */
  method DecodeLiteral(content: bytes, from: nat, end: nat, output: array<byte>, at: nat) returns (used: nat, written: nat)
    requires from + 2 <= end <= |content| && at <= output.Length
    requires var lit := Utf16Literal(content[from..end]); lit.Literal? ==> at + |Utf8(lit.codepoint)| <= output.Length
    modifies output
    ensures var lit := Utf16Literal(content[from..end]);
            && (lit.Malformed? ==> used == 0 && written == 0 && output[..] == old(output[..]))
            && (lit.Literal? ==> used == lit.length && written == |Utf8(lit.codepoint)|
                                 && output[..at + written] == old(output[..at]) + Utf8(lit.codepoint))
  {
    ghost var b := content[from..end];
    if end - from < 6 {
      return 0, 0;
    }
    SliceOfSlice(content, from, end, 2, 6);
    var first := Hex4(content[from + 2..from + 6]);
    if 0xDC00 <= first <= 0xDFFF {
      return 0, 0;
    }
    var codepoint := first;
    used := 6;
    if 0xD800 <= first <= 0xDBFF {
      if end - from - 6 < 6 || content[from + 6] != BACKSLASH || content[from + 7] != LETTER_U {
        return 0, 0;
      }
      SliceOfSlice(content, from, end, 8, 12);
      var second := Hex4(content[from + 8..from + 12]);
      if second < 0xDC00 || second > 0xDFFF {
        return 0, 0;
      }
      codepoint := 0x10000 + (first % 0x400) * 0x400 + second % 0x400;
      used := 12;
    }
    written := WriteUtf8(output, at, codepoint);
  }

  /** One turn of the unescape loop, writing into the room that is left. */
  method DecodeTurn(content: bytes, from: nat, end: nat, output: array<byte>, at: nat, ghost room: int)
    returns (ok: bool, from': nat, at': nat)
    requires from < end < |content| && content[end] == QUOTE
    requires at + room <= output.Length && Budget(content[from..end], room)
    modifies output
    ensures var step := DecodeStep(content[from..end]);
            && (ok <==> step.Step?)
            && (ok ==> from' == from + step.used && at' == at + |step.written| <= at + room
                       && output[..at'] == old(output[..at]) + step.written)
  {
    ghost var b := content[from..end];
    ghost var front := output[..at];
    assert b[0] == content[from] && Second(b) == content[from + 1];
    if DecodeStep(b).Step? {
      StepFits(b, room);
    }
    ok, from', at' := true, from + 1, at + 1;
    if content[from] != BACKSLASH {
      output[at] := content[from];
      assert output[..at + 1] == front + [content[from]];
    } else if content[from + 1] == LETTER_U {
      var used, written := DecodeLiteral(content, from, end, output, at);
      ok, from', at' := used != 0, from + used, at + written;
    } else {
      var e := ShortEscape(content[from + 1]);
      ok := e.Some?;
      if ok {
        output[at] := e.value;
        assert output[..at + 1] == front + [e.value];
        from' := from + 2;
      }
    }
  }

  /**
   Second pass over `content[start..end]`. The cursor ends at most one byte past the closing
   quote, and no write leaves the room the scan reserved.
   */
  method UnescapeInto(content: bytes, start: nat, end: nat, output: array<byte>) returns (ok: bool, from: nat, at: nat)
    requires start <= end < |content| && content[end] == QUOTE && IsBody(content[start..end])
    requires output.Length == Tokens(content[start..end]) + 2
    modifies output
    ensures start <= from <= end + 1 && at < output.Length - 1
    ensures ok ==> Unescape(content[start..end]) == Done(output[..at])
    ensures !ok ==> from < end && Unescape(content[start..end]) == Bad(end - from)
  {
    ghost var body := content[start..end];
    from, at, ok := start, 0, true;
    StartUnescape(content, start, end);
    assert output[..0] == [];
    while from < end
      invariant start <= from && at <= output.Length
      invariant Unescaping(content, body, from, end, output[..at])
      decreases end + 1 - from
    {
      var from', at';
      ok, from', at' := UnescapeNext(content, from, end, output, at, body);
      if !ok {
        return;
      }
      from, at := from', at';
    }
    FinishUnescape(content, from, end, body, output[..at]);
  }

  /** Where the second pass stands: what is written, what is still to come, and the room left for it. */
  ghost predicate Unescaping(content: bytes, body: bytes, from: nat, end: nat, out: bytes) {
    && from <= end + 1 && end < |content| && IsBody(body) && |out| <= Tokens(body)
    && (from <= end ==> Budget(content[from..end], Tokens(body) - |out|)
                        && Unescape(body) == Unescape(content[from..end]).After(out))
    && (from > end ==> Unescape(body) == Done(out))
  }

  lemma StartUnescape(content: bytes, start: nat, end: nat)
    requires start <= end < |content| && IsBody(content[start..end])
    ensures Unescaping(content, content[start..end], start, end, [])
  {
    AfterNothing(Unescape(content[start..end]));
  }

  method UnescapeNext(content: bytes, from: nat, end: nat, output: array<byte>, at: nat, ghost body: bytes)
    returns (ok: bool, from': nat, at': nat)
    requires from < end < |content| && content[end] == QUOTE && at <= output.Length
    requires Unescaping(content, body, from, end, output[..at]) && output.Length == Tokens(body) + 2
    modifies output
    ensures ok ==> from < from' && at' <= output.Length && Unescaping(content, body, from', end, output[..at'])
    ensures !ok ==> Unescape(body) == Bad(end - from)
  {
    ghost var b := content[from..end];
    ghost var done := output[..at];
    ghost var room := Tokens(body) - at;
    ok, from', at' := DecodeTurn(content, from, end, output, at, room);
    if ok {
      StepFits(b, room);
      UnescapeTurn(b, DecodeStep(b), done);
      if from' <= end {
        SliceDrop(content, from, end, DecodeStep(b).used);
      }
    }
  }

  lemma AfterNothing(r: Unescaped)
    ensures r.After([]) == r
  {
    if r.Done? {
      assert [] + r.out == r.out;
    }
  }

  lemma SliceDrop(s: bytes, from: nat, end: nat, k: nat)
    requires from <= end <= |s| && k <= end - from
    ensures s[from..end][k..] == s[from + k..end]
  {
  }

  lemma UnescapeTurn(b: bytes, step: Step, done: bytes)
    requires b != [] && step == DecodeStep(b) && step.Step?
    ensures step.used <= |b| ==> Unescape(b).After(done) == Unescape(b[step.used..]).After(done + step.written)
    ensures step.used > |b| ==> Unescape(b).After(done) == Done(done + step.written)
  {
    if step.used <= |b| {
      AfterTwice(Unescape(b[step.used..]), done, step.written);
    }
  }

  lemma FinishUnescape(content: bytes, from: nat, end: nat, body: bytes, out: bytes)
    requires from >= end && Unescaping(content, body, from, end, out)
    ensures Unescape(body) == Done(out)
  {
    if from == end {
      assert content[from..end] == [];
      assert out + [] == out;
    }
  }

  lemma {:induction false} UpToNul(out: bytes, tail: bytes)
    ensures CString(out + [NUL] + tail) == CString(out)
  {
    if out == [] {
      assert out + [NUL] + tail == [NUL] + tail;
    } else {
      assert (out + [NUL] + tail)[1..] == out[1..] + [NUL] + tail;
      UpToNul(out[1..], tail);
    }
  }

  /** The block of `length + 1` bytes that the second pass fills and terminates. */
  method ReadBody(content: bytes, start: nat, end: nat, length: nat) returns (ok: bool, from: nat, block: bytes)
    requires start <= end < |content| && content[end] == QUOTE && IsBody(content[start..end])
    requires length == Tokens(content[start..end]) + 1
    ensures ok ==> Unescape(content[start..end]).Done? && |block| == length + 1
    ensures ok ==> CString(block) == CString(Unescape(content[start..end]).out)
    ensures !ok ==> start <= from < end && Unescape(content[start..end]) == Bad(end - from)
  {
    var output := new byte[length + 1];
    var at;
    ok, from, at := UnescapeInto(content, start, end, output);
    output[at] := NUL;
    assert output[..] == output[..at] + [NUL] + output[at + 1..];
    UpToNul(output[..at], output[at + 1..]);
    block := output[..];
  }
}
