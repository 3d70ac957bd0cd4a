/** Exact decimal numbers, their two-fraction-digit rendering and the numeric-string
    reader the engine relies on (PHP's `is_numeric`, `(float)` casts, `number_format`
    and `round`, all taken over exact rationals instead of binary floats). */
module Decimals {
  import opened Results

  /** The decimal number units / 10^scale.  "2.005" is Dec(2005, 3). */
  datatype Dec = Dec(units: int, scale: nat)

  function Pow10(k: nat): (r: int)
    ensures r >= 1
  {
    if k == 0 then 1 else 10 * Pow10(k - 1)
  }

  lemma Pow10Small()
    ensures Pow10(0) == 1 && Pow10(1) == 10 && Pow10(2) == 100 && Pow10(3) == 1000
    ensures Pow10(4) == 10000 && Pow10(6) == 1000000
  {
  }

  /** x >= 1, decided exactly. */
  predicate AtLeastOne(x: Dec) {
    x.units >= Pow10(x.scale)
  }

  // ---------------------------------------------------------------------------
  // Integer division and rounding
  // ---------------------------------------------------------------------------

  /** Division that truncates toward zero, as bcmath does at scale 0 and as PHP's
      `intval` does on a quotient. */
  function TruncDiv(a: int, b: int): (r: int)
    requires b > 0
    ensures a >= 0 ==> 0 <= r && r * b <= a < r * b + b
    ensures a < 0 ==> r <= 0 && r * b - b < a <= r * b
  {
    if a >= 0 then a / b else -((-a) / b)
  }

  /** A quotient with a divisor of either sign, truncated toward zero. */
  function Quot(a: int, b: int): (r: int)
    requires b != 0
    ensures b > 0 ==> r == TruncDiv(a, b)
    ensures b < 0 ==> r == TruncDiv(-a, -b)
  {
    if b > 0 then TruncDiv(a, b) else TruncDiv(-a, -b)
  }

  /** n / d rounded to the nearest integer, halves away from zero: PHP's `round`
      and `number_format`, and the bcmath rounding of the engine. */
  function RoundHalfAway(n: int, d: int): (r: int)
    requires d > 0
    ensures n >= 0 ==> r >= 0 && 2 * d * r - d <= 2 * n < 2 * d * r + d
    ensures n < 0 ==> r <= 0 && 2 * d * r - d < 2 * n <= 2 * d * r + d
  {
    if n >= 0 then (2 * n + d) / (2 * d) else -((-2 * n + d) / (2 * d))
  }

  /** The value x * 100 rounded half away from zero: `(int)round((float)$x * 100)`. */
  function ScaledRound(x: Dec): int {
    RoundHalfAway(100 * x.units, Pow10(x.scale))
  }

  /** `(int)round((float)$decimal * 100)`: the hundredths of a string as the value
      objects and the ladders read it. */
  function RoundedHundredths(s: string): int {
    ScaledRound(FloatCast(s))
  }

  // ---------------------------------------------------------------------------
  // Rendering
  // ---------------------------------------------------------------------------

  predicate IsDigit(c: char) {
    '0' <= c <= '9'
  }

  predicate AllDigits(s: string) {
    forall i :: 0 <= i < |s| ==> IsDigit(s[i])
  }

  function DigitChar(k: int): (c: char)
    requires 0 <= k < 10
    ensures IsDigit(c)
  {
    ('0' as int + k) as char
  }

  function DigitValue(c: char): (k: int)
    requires IsDigit(c)
    ensures 0 <= k < 10
  {
    c as int - '0' as int
  }

  /** Decimal digits of n, without leading zeros. */
  function NatToString(n: nat): (s: string)
    ensures |s| >= 1 && AllDigits(s)
  {
    if n < 10 then [DigitChar(n)] else NatToString(n / 10) + [DigitChar(n % 10)]
  }

  /** An integer as PHP and bcmath print it: a minus sign when negative, no plus sign. */
  function IntStr(t: int): string {
    if t < 0 then "-" + NatToString(-t) else NatToString(t)
  }

  /** The hundredths count c printed with exactly two fraction digits:
      `number_format($c / 100, 2, '.', '')`, and how bcmath prints a scale-2 number. */
  function IntToString(c: int): (s: string)
  {
    (if c < 0 then "-" else "") + HundredthsDigits(if c < 0 then -c else c)
  }

  /** m / 100 with exactly two fraction digits, unsigned. */
  function HundredthsDigits(m: nat): (s: string)
    ensures |s| > 0 && IsDigit(s[0])
  {
    NatToString(m / 100) + "." + [DigitChar(m % 100 / 10), DigitChar(m % 10)]
  }

  // ---------------------------------------------------------------------------
  // Reading numeric strings
  // ---------------------------------------------------------------------------

  function DigitsValue(s: string): nat
    requires AllDigits(s)
  {
    if s == [] then 0 else 10 * DigitsValue(s[..|s| - 1]) + DigitValue(s[|s| - 1])
  }

  /** Length of the run of digits that starts s. */
  function DigitRun(s: string): (k: nat)
    ensures k <= |s| && AllDigits(s[..k])
    ensures k < |s| ==> !IsDigit(s[k])
  {
    if s == [] || !IsDigit(s[0]) then 0
    else
      var k := 1 + DigitRun(s[1..]);
      assert s[..k] == [s[0]] + s[1..][..k - 1];
      k
  }

  /** A number read from the start of a string and how many characters it used. */
  datatype Scanned = Scanned(value: Dec, length: nat)

  function SignLength(s: string): (k: nat)
    ensures k <= |s|
  {
    if |s| > 0 && (s[0] == '-' || s[0] == '+') then 1 else 0
  }

  /** Reads `digits[.digits]` (at least one digit; "5." and ".5" allowed) from the
      start of s. */
  function ScanMagnitude(s: string): (r: Option<Scanned>)
    ensures r.Some? ==> r.value.value.units >= 0 && r.value.length <= |s|
  {
    var i := DigitRun(s);
    if i < |s| && s[i] == '.' then
      var j := DigitRun(s[i + 1..]);
      if i + j == 0 then None
      else Some(Scanned(Dec(DigitsValue(s[..i]) * Pow10(j) + DigitsValue(s[i + 1..][..j]), j), i + 1 + j))
    else if i == 0 then None
    else Some(Scanned(Dec(DigitsValue(s[..i]), 0), i))
  }

  /** Reads `[+-]digits[.digits]` from the start of s. */
  function Scan(s: string): (r: Option<Scanned>)
    ensures r.Some? ==> r.value.length <= |s|
  {
    var k := SignLength(s);
    match ScanMagnitude(s[k..])
    case None => None
    case Some(m) =>
      var neg := k == 1 && s[0] == '-';
      Some(Scanned(Dec(if neg then -m.value.units else m.value.units, m.value.scale), k + m.length))
  }

  /** `is_numeric`, restricted to the grammar of Scan: the whole string is one number. */
  predicate IsNumeric(s: string)
    ensures IsNumeric(s) ==> |s| > 0
  {
    Scan(s).Some? && Scan(s).value.length == |s|
  }

  /** The number a numeric string denotes (the view bcmath takes of it). */
  function Number(s: string): Dec
    requires IsNumeric(s)
  {
    Scan(s).value.value
  }

  /** `(float)$s`: the number at the start of s, or 0 when there is none.  On a
      numeric string it agrees with the bcmath reading. */
  function FloatCast(s: string): (x: Dec)
    ensures IsNumeric(s) ==> x == Number(s)
  {
    match Scan(s)
    case Some(m) => m.value
    case None => Dec(0, 0)
  }

  // ---------------------------------------------------------------------------
  // Lemmas: integer arithmetic
  // ---------------------------------------------------------------------------

  lemma MulMono(y: int, a: int, b: int)
    requires y >= 0 && a <= b
    ensures y * a <= y * b
  {
  }

  /** The quotient is the one integer the bounds allow. */
  lemma DivUnique(x: int, y: int, q: int)
    requires y > 0 && y * q <= x < y * q + y
    ensures x / y == q
  {
    var q' := x / y;
    assert y * q' <= x < y * q' + y;
    if q' > q {
      assert y * (q + 1) == y * q + y;
      MulMono(y, q + 1, q');
    } else if q' < q {
      MulMono(y, q' + 1, q);
    }
  }

  lemma DivDiv(x: int, b: int, e: int)
    requires x >= 0 && b > 0 && e > 0
    ensures (x / b) / e == x / (b * e)
  {
    var be := b * e;
    var q := x / be;
    var r := x % be;
    assert x == be * q + r && 0 <= r < be;
    var r1 := r / b;
    var r0 := r % b;
    assert r == b * r1 + r0 && 0 <= r0 < b;
    assert 0 <= r1;
    assert r1 < e by {
      if r1 >= e {
        MulMono(b, e, r1);
      }
    }
    assert be * q == b * (e * q);
    assert x == b * (e * q + r1) + r0 by {
      assert b * (e * q + r1) == b * (e * q) + b * r1;
    }
    DivUnique(x, b, e * q + r1);
    assert e * q <= e * q + r1 < e * q + e;
    DivUnique(e * q + r1, e, q);
  }

  lemma DivAddDiv(a: int, b: int, c: int, e: int)
    requires a >= 0 && b > 0 && c >= 0 && e > 0
    ensures (a / b + c) / e == (a + b * c) / (b * e)
  {
    assert (a + b * c) / b == a / b + c by {
      assert a == b * (a / b) + a % b;
      assert b * (a / b + c) == b * (a / b) + b * c;
      DivUnique(a + b * c, b, a / b + c);
    }
    DivDiv(a + b * c, b, e);
  }

  lemma DivCancel(x: int, y: int, m: int)
    requires x >= 0 && y > 0 && m > 0
    ensures (m * x) / (m * y) == x / y
  {
    var q := x / y;
    var r := x % y;
    assert x == y * q + r && 0 <= r < y;
    assert m * x == (m * y) * q + m * r by {
      assert m * (y * q + r) == m * (y * q) + m * r;
    }
    MulMono(m, r, y - 1);
    assert m * (y - 1) == m * y - m;
    DivUnique(m * x, m * y, q);
  }

  lemma DivExact(k: int, b: int)
    requires b > 0
    ensures TruncDiv(k * b, b) == k
  {
  }

  // ---------------------------------------------------------------------------
  // Lemmas: rendering and reading
  // ---------------------------------------------------------------------------

  lemma {:induction false} DigitsValueOfNatToString(n: nat)
    ensures DigitsValue(NatToString(n)) == n
  {
    if n >= 10 {
      var s := NatToString(n);
      assert s == NatToString(n / 10) + [DigitChar(n % 10)];
      assert s[..|s| - 1] == NatToString(n / 10);
      DigitsValueOfNatToString(n / 10);
    }
  }

  lemma {:induction false} DigitRunOfDigits(a: string, b: string)
    requires AllDigits(a)
    requires b == [] || !IsDigit(b[0])
    ensures DigitRun(a + b) == |a|
  {
    if a != [] {
      assert (a + b)[1..] == a[1..] + b;
      DigitRunOfDigits(a[1..], b);
    }
  }

  lemma DigitsValuePair(d1: int, d0: int)
    requires 0 <= d1 < 10 && 0 <= d0 < 10
    ensures DigitsValue([DigitChar(d1), DigitChar(d0)]) == 10 * d1 + d0
  {
    var s := [DigitChar(d1), DigitChar(d0)];
    assert s[..1] == [DigitChar(d1)];
    assert [DigitChar(d1)][..0] == [];
    assert DigitsValue([DigitChar(d1)]) == 10 * DigitsValue([]) + DigitValue(DigitChar(d1));
    assert DigitsValue(s) == 10 * DigitsValue(s[..1]) + DigitValue(DigitChar(d0));
  }

  lemma ScanMagnitudeWhole(q: nat, s: string)
    requires s == NatToString(q)
    ensures ScanMagnitude(s) == Some(Scanned(Dec(q, 0), |s|))
  {
    DigitRunOfDigits(s, []);
    assert s + [] == s;
    assert s[..|s|] == s;
    DigitsValueOfNatToString(q);
  }

  lemma ScanMagnitudeFrac(q: nat, frac: string, s: string)
    requires AllDigits(frac) && frac != []
    requires s == NatToString(q) + "." + frac
    ensures ScanMagnitude(s) == Some(Scanned(Dec(q * Pow10(|frac|) + DigitsValue(frac), |frac|), |s|))
  {
    DigitsValueOfNatToString(q);
    ScanMagnitudePointed(NatToString(q), q, frac, s);
  }

  /** ScanMagnitude on `a.frac` for a digit string `a` of value q. */
  lemma ScanMagnitudePointed(a: string, q: nat, frac: string, s: string)
    requires AllDigits(a) && DigitsValue(a) == q
    requires AllDigits(frac) && frac != []
    requires s == a + "." + frac
    ensures ScanMagnitude(s) == Some(Scanned(Dec(q * Pow10(|frac|) + DigitsValue(frac), |frac|), |s|))
  {
    RunsOfPointed(a, frac, s);
    ScanMagnitudeFromRuns(s, |a|, |frac|, q, DigitsValue(frac));
  }

  /** The digit runs of `a.frac` for digit strings `a` and `frac`. */
  lemma RunsOfPointed(a: string, frac: string, s: string)
    requires AllDigits(a) && AllDigits(frac)
    requires s == a + "." + frac
    ensures |s| == |a| + 1 + |frac| && s[|a|] == '.'
    ensures DigitRun(s) == |a| && s[..|a|] == a
    ensures DigitRun(s[|a| + 1..]) == |frac| && s[|a| + 1..][..|frac|] == frac
  {
  }

  /** ScanMagnitude on a string whose digit runs and their values are known. */
  lemma ScanMagnitudeFromRuns(s: string, i: nat, j: nat, w: nat, f: nat)
    requires DigitRun(s) == i && i < |s| && s[i] == '.'
    requires DigitRun(s[i + 1..]) == j && j > 0
    requires DigitsValue(s[..i]) == w && DigitsValue(s[i + 1..][..j]) == f
    requires i + 1 + j == |s|
    ensures ScanMagnitude(s) == Some(Scanned(Dec(w * Pow10(j) + f, j), |s|))
  {
  }

  lemma SignLengthOf(sign: string, rest: string)
    requires sign == "" || sign == "-" || sign == "+"
    requires rest != [] && IsDigit(rest[0])
    ensures SignLength(sign + rest) == |sign| && (sign + rest)[|sign|..] == rest
  {
  }

  lemma SplitHundreds(m: nat)
    ensures (m / 100) * 100 + (10 * (m % 100 / 10) + m % 10) == m
  {
  }

  /** A sign in front of a magnitude that reads as v. */
  lemma ScanSigned(sign: string, rest: string, v: Dec)
    requires sign == "" || sign == "-" || sign == "+"
    requires rest != [] && IsDigit(rest[0])
    requires ScanMagnitude(rest) == Some(Scanned(v, |rest|))
    ensures IsNumeric(sign + rest)
    ensures Number(sign + rest) == (if sign == "-" then Dec(-v.units, v.scale) else v)
    ensures FloatCast(sign + rest) == Number(sign + rest)
  {
  }

  /** The unsigned two-digit rendering of m reads back as m hundredths. */
  lemma ScanHundredthsDigits(m: nat)
    ensures ScanMagnitude(HundredthsDigits(m)) == Some(Scanned(Dec(m, 2), |HundredthsDigits(m)|))
  {
    var frac := [DigitChar(m % 100 / 10), DigitChar(m % 10)];
    DigitsValuePair(m % 100 / 10, m % 10);
    assert Pow10(2) == 100 by {
      assert Pow10(1) == 10 * Pow10(0);
    }
    SplitHundreds(m);
    ScanMagnitudeFrac(m / 100, frac, HundredthsDigits(m));
  }

  /** Render-then-read is the identity: IntToString(c) reads back as c hundredths. */
  lemma ScanIntToString(c: int)
    ensures IsNumeric(IntToString(c)) && Number(IntToString(c)) == Dec(c, 2)
    ensures FloatCast(IntToString(c)) == Dec(c, 2)
  {
    var m := if c < 0 then -c else c;
    ScanHundredthsDigits(m);
    ScanSigned(if c < 0 then "-" else "", HundredthsDigits(m), Dec(m, 2));
  }

  /** IntToString(c) ends in a point and two digits, and starts with a minus sign
      exactly when c is negative. */
  lemma IntToStringShape(c: int)
    ensures var s := IntToString(c);
      |s| >= 4 && s[|s| - 3] == '.' && IsDigit(s[|s| - 2]) && IsDigit(s[|s| - 1]) &&
      (s[0] == '-' <==> c < 0)
  {
  }

  lemma ScanIntStr(t: int)
    ensures IsNumeric(IntStr(t)) && Number(IntStr(t)) == Dec(t, 0)
  {
    var m := if t < 0 then -t else t;
    var rest := NatToString(m);
    ScanMagnitudeWhole(m, rest);
    ScanSigned(if t < 0 then "-" else "", rest, Dec(m, 0));
    if t >= 0 {
      assert "" + rest == rest;
    }
  }

  /** A plus sign in front of a positive rendering reads back as the same number. */
  lemma ScanPlusIntToString(c: int)
    requires c > 0
    ensures IsNumeric("+" + IntToString(c)) && Number("+" + IntToString(c)) == Dec(c, 2)
  {
    ScanHundredthsDigits(c);
    assert IntToString(c) == HundredthsDigits(c);
    ScanSigned("+", HundredthsDigits(c), Dec(c, 2));
  }

  lemma ScanPlusIntStr(t: int)
    requires t > 0
    ensures IsNumeric("+" + IntStr(t)) && Number("+" + IntStr(t)) == Dec(t, 0)
  {
    var rest := NatToString(t);
    ScanMagnitudeWhole(t, rest);
    ScanSigned("+", rest, Dec(t, 0));
  }

  /** The hundredths count of a two-digit rendering is the count rendered. */
  lemma ScaledRoundOfIntToString(c: int)
    ensures ScaledRound(FloatCast(IntToString(c))) == c
  {
    ScanIntToString(c);
    Pow10Small();
    if c >= 0 {
      assert (2 * (100 * c) + 100) / 200 == c;
    } else {
      assert (-2 * (100 * c) + 100) / 200 == -c;
    }
  }
}
