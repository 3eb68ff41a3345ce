/** Bytes, options and the ASCII codes that the JSON engine and the broker test for. */
module Base {
  type byte = b: int | 0 <= b < 256
  type bytes = seq<byte>

  datatype Option<+T> = None | Some(value: T)

  const NUL: byte := 0
  const TAB: byte := 9
  const NEWLINE: byte := 10
  const CR: byte := 13
  const SPACE: byte := 32
  const QUOTE: byte := 34
  const PLUS: byte := 43
  const STAR: byte := 42
  const COMMA: byte := 44
  const MINUS: byte := 45
  const DOT: byte := 46
  const SLASH: byte := 47
  const ZERO: byte := 48
  const NINE: byte := 57
  const COLON: byte := 58
  const LBRACKET: byte := 91
  const BACKSLASH: byte := 92
  const RBRACKET: byte := 93
  const LBRACE: byte := 123
  const RBRACE: byte := 125

  /** The bytes a C string function sees: everything before the first NUL. */
  function CString(s: bytes): (r: bytes)
    ensures |r| <= |s| && r == s[..|r|] && NUL !in r
    ensures |r| < |s| ==> s[|r|] == NUL
  {
    if s == [] || s[0] == NUL then [] else [s[0]] + CString(s[1..])
  }

  lemma CStringOfClean(s: bytes)
    requires NUL !in s
    ensures CString(s) == s
  {
    assert forall i :: 0 <= i < |s| ==> s[i] in s;
  }

  /** A C string read from memory stops at its terminator, whatever follows it. */
  lemma CStringTerminated(s: bytes, tail: bytes)
    requires NUL !in s
    ensures CString(s + [NUL] + tail) == s
  {
    var whole := s + [NUL] + tail;
    assert forall i :: 0 <= i < |s| ==> whole[i] == s[i] && s[i] in s;
    assert whole[|s|] == NUL;
    var r := CString(whole);
    assert forall i :: 0 <= i < |r| ==> whole[i] == r[i] && r[i] in r;
  }

  lemma Assoc(a: bytes, b: bytes, c: bytes)
    ensures (a + b) + c == a + (b + c)
  {
  }

  /** A chain of pieces, each the front of what the previous one left, is their concatenation. */
  lemma Assemble(s: bytes, a: bytes, s1: bytes, b: bytes, s2: bytes, c: bytes, s3: bytes, d: bytes, s4: bytes, e: bytes, r: bytes)
    requires s == a + s1 && s1 == b + s2 && s2 == c + s3 && s3 == d + s4 && s4 == e + r
    ensures s == (a + (b + (c + (d + e)))) + r
  {
    Assoc(d, e, r);
    Assoc(c, d + e, r);
    Assoc(b, c + (d + e), r);
    Assoc(a, b + (c + (d + e)), r);
  }

  lemma PrefixByte(b: byte, f: bytes, r: bytes)
    ensures (([b] + f) + r)[0] == b && (([b] + f) + r)[1..] == f + r
  {
  }

  lemma SplitFront(s: bytes)
    requires s != []
    ensures s == [s[0]] + s[1..]
  {
  }

  /** A bracketed text, seen from its opening bracket and seen from inside. */
  lemma BracketInside(open: byte, inner: bytes, close: byte, r: bytes)
    ensures (([open] + inner + [close]) + r)[0] == open
    ensures (([open] + inner + [close]) + r)[1..] == inner + ([close] + r)
    ensures ([close] + r)[0] == close && ([close] + r)[1..] == r
  {
  }

  lemma SliceOfSlice(s: bytes, a: nat, b: nat, c: nat, d: nat)
    requires a <= b <= |s| && c <= d <= b - a
    ensures s[a..b][c..d] == s[a + c..a + d]
  {
    assert forall i :: 0 <= i < d - c ==> s[a..b][c..d][i] == s[a..b][c + i] == s[a + c..a + d][i];
  }

  /** How many of the first `n` requests an allocator refuses. */
  function Refused(grants: nat -> bool, n: nat): nat {
    if n == 0 then 0 else Refused(grants, n - 1) + if grants(n - 1) then 0 else 1
  }
}
