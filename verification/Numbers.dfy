/**
 Decimal numbers: what `strtod` accepts from a run of number characters, and the
 text that `%d` prints. The decimal value is kept exact (no rounding to binary).
 */
module Numbers {
  import opened Base
  import opened Values

  predicate IsDigit(b: byte) { ZERO <= b <= NINE }
  predicate IsE(b: byte) { b == 101 || b == 69 }
  predicate IsSign(b: byte) { b == PLUS || b == MINUS }

  /** The characters copied into the scratch buffer before `strtod` runs. */
  predicate IsNumberChar(b: byte) { IsDigit(b) || IsSign(b) || IsE(b) || b == DOT }

  predicate AllDigits(s: bytes) { forall i :: 0 <= i < |s| ==> IsDigit(s[i]) }

  function DigitRun(s: bytes): (n: nat)
    ensures n <= |s| && AllDigits(s[..n])
    ensures n < |s| ==> !IsDigit(s[n])
  {
    if s == [] || !IsDigit(s[0]) then 0 else 1 + DigitRun(s[1..])
  }

  lemma DigitRunOf(s: bytes)
    requires AllDigits(s)
    ensures DigitRun(s) == |s|
  {
  }

  function Nat(s: bytes): (n: nat)
    requires AllDigits(s)
  {
    if s == [] then 0 else 10 * Nat(s[..|s| - 1]) + (s[|s| - 1] - ZERO)
  }

  /** `m` times ten to the power `e`. */
  function Scale(m: real, e: int): real
    decreases if e < 0 then -e else e
  {
    if e == 0 then m else if e > 0 then Scale(m * 10.0, e - 1) else Scale(m / 10.0, e + 1)
  }

  function SignLength(s: bytes): nat { if s != [] && IsSign(s[0]) then 1 else 0 }

  predicate IsNegative(s: bytes) { s != [] && s[0] == MINUS }

  /** An unsigned decimal split into its integer digits, fraction digits and exponent text. */
  datatype Parts = Parts(whole: bytes, fraction: bytes, exponent: bytes)

  function Split(u: bytes): Parts {
    var i := DigitRun(u);
    if i < |u| && u[i] == DOT then
      var f := DigitRun(u[i + 1..]);
      Parts(u[..i], u[i + 1..][..f], u[i + 1..][f..])
    else
      Parts(u[..i], [], u[i..])
  }

  /** Nothing, or a letter E, an optional sign and at least one digit. */
  predicate IsExponent(x: bytes) {
    x == [] || (IsE(x[0]) && var d := x[1..][SignLength(x[1..])..]; d != [] && AllDigits(d))
  }

  /** The subject sequence of `strtod` over number characters, in the decimal form of the C standard. */
  predicate IsDecimal(t: bytes) {
    var p := Split(t[SignLength(t)..]);
    (p.whole != [] || p.fraction != []) && IsExponent(p.exponent)
  }

  function ExponentValue(x: bytes): int
    requires IsExponent(x)
  {
    if x == [] then 0
    else
      var e: int := Nat(x[1..][SignLength(x[1..])..]);
      if IsNegative(x[1..]) then -e else e
  }

  function DecimalValue(t: bytes): real
    requires IsDecimal(t)
  {
    var p := Split(t[SignLength(t)..]);
    var digits := Nat(p.whole + p.fraction) as real;
    Scale(if IsNegative(t) then -digits else digits, ExponentValue(p.exponent) - |p.fraction|)
  }

  /** The longest prefix of at most `n` bytes that is a decimal; 0 when there is none. */
  function LongestDecimal(run: bytes, n: nat): (k: nat)
    requires n <= |run|
    ensures k <= n
    ensures k > 0 ==> IsDecimal(run[..k])
    ensures forall j :: k < j <= n ==> !IsDecimal(run[..j])
  {
    hide IsDecimal;
    if n == 0 || IsDecimal(run[..n]) then n else LongestDecimal(run, n - 1)
  }

  const SCRATCH := 63

  /** The number characters at the front of `s`, at most as many as the scratch buffer holds. */
  function NumberRun(s: bytes, room: nat): (n: nat)
    ensures n <= |s| && n <= room
    ensures forall i :: 0 <= i < n ==> IsNumberChar(s[i])
    ensures n < |s| && n < room ==> !IsNumberChar(s[n])
    decreases room
  {
    if room == 0 || s == [] || !IsNumberChar(s[0]) then 0 else 1 + NumberRun(s[1..], room - 1)
  }

  /** How many bytes of `s` form the number that `parse_number` reads; 0 means a parse error. */
  function NumberLength(s: bytes): (k: nat)
    ensures k <= |s| && k <= SCRATCH
    ensures forall i :: 0 <= i < k ==> IsNumberChar(s[i])
    ensures k > 0 ==> IsDecimal(s[..k])
    ensures s != [] && !IsNumberChar(s[|s| - 1]) ==> k < |s|
  {
    var run := s[..NumberRun(s, SCRATCH)];
    var k := LongestDecimal(run, |run|);
    assert run[..k] == s[..k];
    k
  }

  /** A number literal that the parser reads to its end. */
  predicate IsNumberLiteral(t: bytes) {
    && 0 < |t| <= SCRATCH
    && (forall i :: 0 <= i < |t| ==> IsNumberChar(t[i]))
    && (t[0] == MINUS || IsDigit(t[0]))
    && IsDecimal(t)
  }

  lemma NumberLengthOfLiteral(t: bytes, r: bytes)
    requires IsNumberLiteral(t)
    requires r != [] && !IsNumberChar(r[0])
    ensures NumberLength(t + r) == |t|
  {
    var s := t + r;
    var n := NumberRun(s, SCRATCH);
    assert forall i :: 0 <= i < |t| ==> s[i] == t[i];
    assert s[|t|] == r[0];
    assert s[..n] == t;
    assert t[..|t|] == t;
  }

  // ---------- printing 32-bit integers ----------

  function NatText(n: nat): (t: bytes)
    ensures |t| > 0 && AllDigits(t) && Nat(t) == n
  {
    if n < 10 then
      assert Nat([ZERO + n]) == 10 * Nat([ZERO + n][..0]) + n;
      [ZERO + n]
    else
      var t := NatText(n / 10) + [ZERO + n % 10];
      assert t[..|t| - 1] == NatText(n / 10);
      t
  }

  /** The output of `%d`. */
  function IntText(n: int): (t: bytes)
    ensures |t| > 0
  {
    if n < 0 then [MINUS] + NatText(-n) else NatText(n)
  }

  lemma {:induction false} NatTextLength(n: nat, k: nat)
    requires 1 <= k
    requires n < Pow(k)
    ensures |NatText(n)| <= k
    decreases k
  {
    if n >= 10 {
      assert Pow(1) == 10 * Pow(0);
      assert n / 10 < Pow(k - 1);
      NatTextLength(n / 10, k - 1);
    }
  }

  function Pow(k: nat): nat { if k == 0 then 1 else 10 * Pow(k - 1) }

  lemma DigitsAreDecimal(digits: bytes)
    requires AllDigits(digits) && digits != []
    ensures Split(digits) == Parts(digits, [], [])
  {
    DigitRunOf(digits);
    assert digits[..|digits|] == digits;
  }

  /** What `%d` prints for a 32-bit integer is a literal that reads back as that integer. */
  lemma IntTextReadsBack(n: int)
    requires INT_MIN <= n <= INT_MAX
    ensures IsNumberLiteral(IntText(n))
    ensures DecimalValue(IntText(n)) == n as real
    ensures |IntText(n)| <= 11
  {
    var t := IntText(n);
    var m: nat := if n < 0 then -n else n;
    var digits := NatText(m);
    assert Pow(10) == 10000000000 by {
      assert Pow(2) == 100 && Pow(4) == 10000 && Pow(6) == 1000000 && Pow(8) == 100000000;
    }
    NatTextLength(m, 10);
    assert t[SignLength(t)..] == digits;
    DigitsAreDecimal(digits);
    SignedWhole(t, digits, m);
  }

  lemma SignedWhole(t: bytes, digits: bytes, m: nat)
    requires AllDigits(digits) && digits != [] && Nat(digits) == m
    requires t[SignLength(t)..] == digits
    requires Split(digits) == Parts(digits, [], [])
    ensures IsDecimal(t) && DecimalValue(t) == if IsNegative(t) then -(m as real) else m as real
  {
    assert digits + [] == digits;
  }
}
