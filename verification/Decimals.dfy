/** What decimal literals mean, in powers of ten, and which text `%d` writes. */
module Decimals {
  import opened Base
  import opened Values
  import opened Numbers

  /** Digits are worth their powers of ten, from the left. */
  lemma {:induction false} NatIsPositional(d: byte, s: bytes)
    requires 48 <= d <= 57 && AllDigits(s)
    ensures Nat([d] + s) == (d - 48) * Pow(|s|) + Nat(s)
  {
    var t := [d] + s;
    if s == [] {
      assert t[..0] == [];
    } else {
      var front, last := s[..|s| - 1], s[|s| - 1];
      NatIsPositional(d, front);
      assert t[..|t| - 1] == [d] + front;
      assert (d - 48) * Pow(|s|) == 10 * ((d - 48) * Pow(|front|));
    }
  }

  lemma {:induction false} ScaleTen(m: real, e: int)
    ensures Scale(m * 10.0, e) == Scale(m, e) * 10.0 == Scale(m, e + 1)
    decreases if e < 0 then -e else e
  {
    if e > 0 {
      ScaleTen(m * 10.0, e - 1);
    } else if e < 0 {
      assert m / 10.0 * 10.0 == m == m * 10.0 / 10.0;
      ScaleTen(m / 10.0, e + 1);
    }
  }

  lemma {:induction false} ScalePow(m: real, e: int, k: nat)
    ensures Scale(m, e) * (Pow(k) as real) == Scale(m, e + k)
  {
    if k > 0 {
      ScalePow(m, e, k - 1);
      ScaleTen(m, e + k - 1);
      assert Scale(m, e) * (Pow(k) as real) == Scale(m, e) * (Pow(k - 1) as real) * 10.0;
    }
  }

  lemma DigitRunStops(w: bytes, rest: bytes)
    requires AllDigits(w) && (rest == [] || !IsDigit(rest[0]))
    ensures DigitRun(w + rest) == |w|
  {
    var n := DigitRun(w + rest);
    assert forall i :: 0 <= i < |w| ==> (w + rest)[i] == w[i];
    assert forall i :: 0 <= i < n ==> (w + rest)[..n][i] == (w + rest)[i];
    assert rest != [] ==> (w + rest)[|w|] == rest[0];
  }

  /** Nothing, or `e` or `E`, a sign or none, and digits: the power of ten that follows a decimal. */
  predicate Raises(power: bytes, e: int) {
    || (power == [] && e == 0)
    || (|power| > 1 && power[0] in [101, 69] && AllDigits(power[1..]) && e == Nat(power[1..]))
    || (|power| > 2 && power[0] in [101, 69] && power[1] == 43 && AllDigits(power[2..]) && e == Nat(power[2..]))
    || (|power| > 2 && power[0] in [101, 69] && power[1] == 45 && AllDigits(power[2..]) && -e == Nat(power[2..]))
  }

  lemma RaisesIsExponent(power: bytes, e: int)
    requires Raises(power, e)
    ensures IsExponent(power) && ExponentValue(power) == e && (power == [] || IsE(power[0]))
  {
    if power != [] {
      assert IsE(power[0]);
      var x := power[1..];
      assert |power| > 2 ==> x[1..] == power[2..];
      assert x[0..] == x;
      assert AllDigits(x) ==> IsDigit(x[0]);
    }
  }

  lemma SplitDecimal(w: bytes, point: bytes, f: bytes, power: bytes)
    requires AllDigits(w) && AllDigits(f) && (power == [] || IsE(power[0]))
    requires point == [46] + f || (point == [] && f == [])
    ensures Split(w + (point + power)) == Parts(w, f, power)
  {
    var u := w + (point + power);
    if point == [] {
      assert point + power == power;
      DigitRunStops(w, power);
      assert u[..|w|] == w && u[|w|..] == power;
      assert power != [] ==> u[|w|] == power[0];
    } else {
      DigitRunStops(w, point + power);
      var v := u[|w| + 1..];
      assert v == f + power;
      DigitRunStops(f, power);
      assert u[..|w|] == w && v[..|f|] == f && v[|f|..] == power;
    }
  }

  /** A decimal by its parts. */
  lemma DecimalParts(t: bytes, w: bytes, f: bytes, power: bytes, e: int)
    requires AllDigits(w) && AllDigits(f) && w + f != [] && Split(t[SignLength(t)..]) == Parts(w, f, power)
    requires IsExponent(power) && ExponentValue(power) == e
    ensures IsDecimal(t)
    ensures var n := Nat(w + f) as real; DecimalValue(t) == Scale(if IsNegative(t) then -n else n, e - |f|)
  {
    hide Split, IsExponent, ExponentValue, Nat, Scale;
  }

  /** `value` times 10^k is `m` times 10^e. */
  predicate Equals(value: real, k: nat, m: real, e: int) {
    if e >= 0 then value * (Pow(k) as real) == m * (Pow(e) as real)
    else value * (Pow(k) as real) * (Pow(-e) as real) == m
  }

  lemma ScaledParts(m: real, e: int, k: nat)
    ensures Equals(Scale(m, e - k), k, m, e)
  {
    hide Pow, Scale;
    var value := Scale(m, e - k);
    ScalePow(m, e - k, k);
    assert value * (Pow(k) as real) == Scale(m, e);
    ScaleNone(m);
    if e >= 0 {
      ScalePow(m, 0, e);
    } else {
      ScalePow(m, e, -e);
    }
  }

  /** An optional sign, digits `w`, perhaps a point and digits `f`, and perhaps a power of ten. */
  ghost predicate Written(t: bytes, sign: bytes, w: bytes, point: bytes, f: bytes, power: bytes, e: int) {
    && t == sign + (w + (point + power)) && (sign == [] || sign == [43] || sign == [45])
    && AllDigits(w) && AllDigits(f) && w + f != [] && AllDigits(w + f) && (point == [46] + f || (point == [] && f == []))
    && Raises(power, e)
  }

  lemma WrittenParts(t: bytes, sign: bytes, w: bytes, point: bytes, f: bytes, power: bytes, e: int)
    requires Written(t, sign, w, point, f, power, e)
    ensures Split(t[SignLength(t)..]) == Parts(w, f, power) && (IsNegative(t) <==> sign == [45])
    ensures IsExponent(power) && ExponentValue(power) == e
  {
    hide Split, IsExponent, ExponentValue, Raises, SignLength, IsNegative;
    RaisesIsExponent(power, e);
    UnsignedPart(sign, w, point, f, power, e);
    SplitDecimal(w, point, f, power);
  }

  /** Its value times 10^|f| is the number written by `w` and `f` together, times 10^e. */
  lemma DecimalMeans(t: bytes, sign: bytes, w: bytes, point: bytes, f: bytes, power: bytes, e: int)
    requires Written(t, sign, w, point, f, power, e)
    ensures IsDecimal(t) && Equals(DecimalValue(t), |f|, if sign == [45] then -(Nat(w + f) as real) else Nat(w + f) as real, e)
  {
    hide Equals, Nat, Scale, Split, IsExponent, ExponentValue, IsDecimal, DecimalValue, Raises, SignLength, IsNegative;
    WrittenParts(t, sign, w, point, f, power, e);
    DecimalParts(t, w, f, power, e);
    ScaledParts(if sign == [45] then -(Nat(w + f) as real) else Nat(w + f) as real, e, |f|);
  }

  /** Nothing else is a decimal. */
  lemma DecimalIsWritten(t: bytes) returns (sign: bytes, w: bytes, point: bytes, f: bytes, power: bytes, e: int)
    requires IsDecimal(t)
    ensures Written(t, sign, w, point, f, power, e)
  {
    hide Split, IsExponent, ExponentValue, Raises, DigitRun;
    var k := SignLength(t);
    var u := t[k..];
    sign, w, f, power, e := t[..k], Split(u).whole, Split(u).fraction, Split(u).exponent, ExponentValue(Split(u).exponent);
    point := PointOf(u);
    assert t == sign + u;
    ExponentRaises(power);
  }

  lemma PointOf(u: bytes) returns (point: bytes)
    ensures var p := Split(u); u == p.whole + (point + p.exponent) && AllDigits(p.whole) && AllDigits(p.fraction) && AllDigits(p.whole + p.fraction)
    ensures point == [46] + Split(u).fraction || (point == [] && Split(u).fraction == [])
  {
    hide DigitRun;
    var i := DigitRun(u);
    point := [];
    if i < |u| && u[i] == DOT {
      var v := u[i + 1..];
      point := [46] + v[..DigitRun(v)];
      AroundPoint(u, i, v, DigitRun(v));
    } else {
      assert u == u[..i] + ([] + u[i..]);
    }
  }

  lemma AroundPoint(u: bytes, i: nat, v: bytes, d: nat)
    requires i < |u| && v == u[i + 1..] && d <= |v|
    ensures u == u[..i] + (([u[i]] + v[..d]) + v[d..])
  {
    Assoc([u[i]], v[..d], v[d..]);
    assert v[..d] + v[d..] == v;
    assert u[..i] + ([u[i]] + v) == u;
  }

  lemma ExponentRaises(power: bytes)
    requires IsExponent(power)
    ensures Raises(power, ExponentValue(power))
  {
    if power != [] {
      var x := power[1..];
      var n := SignLength(x);
      assert x[n..] == power[1 + n..];
    }
  }

  lemma ScaleNone(m: real)
    ensures Scale(m, 0) == m
  {
  }

  lemma UnsignedPart(sign: bytes, w: bytes, point: bytes, f: bytes, power: bytes, e: int)
    requires sign == [] || sign == [43] || sign == [45]
    requires AllDigits(w) && AllDigits(f) && w + f != [] && (point == [46] + f || (point == [] && f == []))
    ensures var t := sign + (w + (point + power)); t[SignLength(t)..] == w + (point + power) && (IsNegative(t) <==> sign == [45])
  {
    var u := w + (point + power);
    if w != [] {
      assert u[0] == w[0];
    } else {
      assert u == point + power;
    }
    assert sign == [] ==> sign + u == u;
    assert sign != [] ==> (sign + u)[1..] == u;
  }

  /** `%d` writes no leading zero, and a sign only for what is negative. */
  lemma {:induction false} NatTextIsShortest(n: nat)
    ensures |NatText(n)| > 1 ==> NatText(n)[0] != 48
  {
    if n >= 10 {
      NatTextIsShortest(n / 10);
      assert NatText(n)[0] == NatText(n / 10)[0];
      if |NatText(n / 10)| == 1 {
        assert NatText(n / 10) == [ZERO + n / 10];
      }
    }
  }

  lemma IntTextIsShortest(n: int)
    ensures n >= 0 ==> AllDigits(IntText(n)) && (|IntText(n)| > 1 ==> IntText(n)[0] != 48)
    ensures n < 0 ==> IntText(n)[0] == 45 && AllDigits(IntText(n)[1..]) && IntText(n)[1] != 48
  {
    if n >= 0 {
      NatTextIsShortest(n);
    } else {
      NatTextIsShortest(-n);
      assert IntText(n)[1..] == NatText(-n);
      if |NatText(-n)| == 1 {
        assert Nat(NatText(-n)) == 10 * Nat(NatText(-n)[..0]) + (NatText(-n)[0] - ZERO);
      }
    }
  }
}
