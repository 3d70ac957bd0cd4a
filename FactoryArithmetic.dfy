/** The fixed-point arithmetic of the odds factory: its bcmath rounding, the
    decimal <-> moneyline transforms and the moneyline formatting.  Every function
    follows the bcmath calls of the factory step by step; the lemmas state what
    those steps amount to over exact rationals. */
module FactoryArithmetic {
  import opened Decimals
  import opened BcMath

  // ---------------------------------------------------------------------------
  // Reference definitions (exact arithmetic, independent of bcmath)
  // ---------------------------------------------------------------------------

  /** The moneyline of decimal odds k/100, in hundredths, rounded half away from
      zero: 0 at evens-or-less 1.00, +100(d - 1) from 2.00 up, -100/(d - 1) between. */
  function MoneylineUnits(k: int): (c: int)
    requires k >= 100
    ensures k == 100 <==> c == 0
    ensures k >= 200 <==> c > 0
    ensures 100 < k < 200 ==> c <= -10000
  {
    if k == 100 then 0
    else if k >= 200 then 100 * (k - 100)
    else
      var j := k - 100;
      var r := RoundHalfAway(1000000, j);
      assert r > 99 by {
        if r <= 99 {
          MulMono(2 * j, r, 99);
          MulMono(198, j, 99);
          assert false;
        }
      }
      assert r >= 10000 by {
        if r < 10000 {
          MulMono(2 * j, r, 9999);
          MulMono(2 * 9999 + 1, j, 99);
          assert false;
        }
      }
      -r
  }

  /** A moneyline given in hundredths as the factory prints it: `+` before positive
      values, no fraction part when whole, otherwise exactly two fraction digits. */
  function MoneylineText(c: int): string {
    (if c > 0 then "+" else "") + (if c % 100 == 0 then IntStr(c / 100) else IntToString(c))
  }

  // ---------------------------------------------------------------------------
  // The factory's private helpers, as written
  // ---------------------------------------------------------------------------

  /** `bcRound($number, 2)`: multiply by 100 at scale 3, push 0.5 away from zero,
      truncate to an integer and divide back at scale 2.  The result is x rounded to
      hundredths, halves away from zero, for either sign. */
  function BcRound(x: Dec): (r: Dec)
    ensures r == Dec(RoundHalfAway(100 * x.units, Pow10(x.scale)), 2)
  {
    var multiplied := Mul(x, Dec(100, 0), 3);
    var rounded := if Comp(multiplied, Dec(0, 0), 3) >= 0 then Add(multiplied, Dec(5, 1), 3)
                   else Sub(multiplied, Dec(5, 1), 3);
    var truncated := Div(rounded, Dec(1, 0), 0);
    MulHundred3(x);
    HalfAtScale3(multiplied);
    DivByOneAndHundred(rounded, TruncDiv(rounded.units, 1000));
    HalfAwayAfterScale3(x.units, Pow10(x.scale));
    Div(truncated, Dec(100, 0), 2)
  }

  /** `stringToInt`: bcmath x * 100 at scale 2, plus 0.5, truncated to an integer.
      On the non-negative numbers the factory passes it, that is x in hundredths
      rounded half up, as PHP's `round` would give. */
  function StringToInt(x: Dec): (k: int)
    ensures x.units >= 0 ==> k == ScaledRound(x)
  {
    var scaled := Mul(x, Dec(100, 0), 2);
    var rounded := Add(scaled, Dec(5, 1), 2);
    assert x.units >= 0 ==> Div(rounded, Dec(1, 0), 0).units == ScaledRound(x) by {
      if x.units >= 0 {
        StringToIntSteps(x);
      }
    }
    Div(rounded, Dec(1, 0), 0).units
  }

  /** `normalizeDecimal`: the decimal rounded to hundredths and printed with two
      fraction digits (`intToString` is `IntToString`).  The string is numeric and
      reads back as the rounded hundredths. */
  function NormalizeDecimal(x: Dec): (r: string)
    ensures x.units >= 0 ==> IsNumeric(r) && Number(r) == Dec(ScaledRound(x), 2)
  {
    ScanIntToString(StringToInt(x));
    IntToString(StringToInt(x))
  }

  /** `formatMoneyline($value)`.  The padding steps after the rounding never fire,
      since the rounding always prints exactly two fraction digits. */
  function FormatMoneyline(v: Dec): (r: string)
    ensures (|r| > 0 && r[0] == '+') <==> Trunc(v, 2) > 0
  {
    var sign := if Comp(v, Dec(0, 0), 2) > 0 then "+" else "";
    var truncated := Div(v, Dec(1, 0), 0);
    var body := if Comp(v, truncated, 2) == 0 then IntStr(truncated.units)
                else IntToString(BcRound(v).units);
    assert body[0] != '+' by {
      NoPlusSign(truncated.units);
      NoPlusSign(BcRound(v).units);
      assert Trunc(Dec(0, 0), 2) == 0;
    }
    sign + body
  }

  /** `decimalToMoneyline`, for the decimals the factory hands it (never below 1).
      On a price with two fraction digits it prints the reference moneyline. */
  function DecimalToMoneyline(x: Dec): (r: string)
    requires AtLeastOne(x)
    ensures x.scale == 2 ==> x.units >= 100 && r == MoneylineText(MoneylineUnits(x.units))
  {
    assert x.scale == 2 ==> x.units >= 100 by {
      Pow10Small();
    }
    if Comp(x, Dec(100, 2), 2) == 0 then
      assert x.scale == 2 ==> FormatMoneyline(Dec(0, 0)) == MoneylineText(MoneylineUnits(x.units)) by {
        if x.scale == 2 {
          EvensBranchPrints(x);
        }
      }
      FormatMoneyline(Dec(0, 0))
    else if Comp(x, Dec(200, 2), 2) >= 0 then
      var value := BcRound(Mul(Dec(100, 0), Sub(x, Dec(1, 0), 4), 4));
      assert x.scale == 2 ==> FormatMoneyline(value) == MoneylineText(MoneylineUnits(x.units)) by {
        if x.scale == 2 {
          LongBranchPrints(x);
        }
      }
      FormatMoneyline(value)
    else
      var decimalMinus1 := Sub(x, Dec(1, 0), 6);
      assert decimalMinus1.units != 0 by {
        AboveOneLeavesRemainder(x);
      }
      var value := BcRound(Div(Dec(-100, 0), decimalMinus1, 4));
      assert x.scale == 2 ==> FormatMoneyline(value) == MoneylineText(MoneylineUnits(x.units)) by {
        if x.scale == 2 {
          assert x == Dec(x.units, 2);
          CompHundredths(x.units);
          ShortBranchPrints(x.units);
        }
      }
      FormatMoneyline(value)
  }

  /** `moneylineToDecimal`: the sign test truncates the moneyline to an integer. */
  function MoneylineToDecimal(m: Dec): (r: Dec)
    ensures r.scale == 2 && r.units >= 100
  {
    Pow10Small();
    assert Trunc(Dec(0, 0), 0) == 0;
    if Comp(m, Dec(0, 0), 0) > 0 then
      var q := Div(m, Dec(100, 0), 4);
      assert q.units >= 0;
      OnePlusAtLeastOne(q);
      BcRound(Add(q, Dec(1, 0), 4))
    else if Comp(m, Dec(0, 0), 0) < 0 then
      assert m.units != 0;
      var q := Div(Dec(-100, 0), m, 4);
      assert q.units >= 0;
      OnePlusAtLeastOne(q);
      BcRound(Add(q, Dec(1, 0), 4))
    else
      BcRound(Dec(100, 2))
  }

  // ---------------------------------------------------------------------------
  // Lemmas: helpers
  // ---------------------------------------------------------------------------

  lemma NoPlusSign(t: int)
    ensures IntStr(t)[0] != '+' && IntToString(t)[0] != '+'
  {
  }

  /** A number of at least 1 whose hundredths are not exactly 100 is at least 1.01. */
  lemma AboveOneLeavesRemainder(x: Dec)
    requires AtLeastOne(x) && Comp(x, Dec(100, 2), 2) != 0
    ensures Sub(x, Dec(1, 0), 6).units > 0
  {
    Pow10Small();
    var D := Pow10(x.scale);
    assert Trunc(Dec(100, 2), 2) == 100 by {
      DivExact(100, 100);
    }
    TruncTo0And2(x);
    var t := Trunc(x, 2);
    assert t * D <= 100 * x.units < t * D + D;
    MulMono(100, D, x.units);
    assert t >= 100 by {
      if t < 100 {
        MulMono(D, t, 99);
        assert false;
      }
    }
    assert t > 100;
    MulMono(D, 101, t);
    assert 100 * x.units >= 101 * D;
    var num := x.units * Pow10(0) - 1 * D;
    assert num * 100 >= D;
    assert num * Pow10(6) >= D by {
      MulMono(num, 100, 1000000);
    }
  }

  /** Rounding the quotient of 2hn by M that was first truncated, by adding h and
      dividing by 2h, is rounding n / M directly. */
  lemma RoundAfterTrunc(n: int, M: int, h: int)
    requires n >= 0 && M > 0 && h > 0
    ensures ((2 * h * n) / M + h) / (2 * h) == RoundHalfAway(n, M)
  {
    DivAddDiv(2 * h * n, M, h, 2 * h);
    assert 2 * h * n + M * h == h * (2 * n + M);
    assert M * (2 * h) == h * (2 * M);
    DivCancel(2 * n + M, 2 * M, h);
  }

  /** Rounding a fraction scaled by a common factor. */
  lemma RoundCancel(n: int, d: int, m: int)
    requires d > 0 && m > 0
    ensures RoundHalfAway(m * n, m * d) == RoundHalfAway(n, d)
  {
    if n >= 0 {
      assert 2 * (m * n) + m * d == m * (2 * n + d);
      assert 2 * (m * d) == m * (2 * d);
      DivCancel(2 * n + d, 2 * d, m);
    } else {
      assert -2 * (m * n) + m * d == m * (-2 * n + d);
      assert 2 * (m * d) == m * (2 * d);
      DivCancel(-2 * n + d, 2 * d, m);
    }
  }

  /** An exact multiple rounds to itself. */
  lemma RoundExact(q: int, d: int)
    requires d > 0
    ensures RoundHalfAway(q * d, d) == q
  {
    if q >= 0 {
      assert 2 * (q * d) + d == (2 * d) * q + d;
      DivUnique(2 * (q * d) + d, 2 * d, q);
    } else {
      assert -2 * (q * d) + d == (2 * d) * (-q) + d;
      DivUnique(-2 * (q * d) + d, 2 * d, -q);
    }
  }

  // ---------------------------------------------------------------------------
  // Lemmas: the rounding helpers round half away from zero
  // ---------------------------------------------------------------------------

  lemma MulHundred3(x: Dec)
    ensures Mul(x, Dec(100, 0), 3) == Dec(TruncDiv(100000 * x.units, Pow10(x.scale)), 3)
  {
  }

  lemma HalfAtScale3(m: Dec)
    requires m.scale == 3
    ensures Add(m, Dec(5, 1), 3) == Dec(m.units + 500, 3)
    ensures Sub(m, Dec(5, 1), 3) == Dec(m.units - 500, 3)
    ensures Comp(m, Dec(0, 0), 3) >= 0 <==> m.units >= 0
  {
  }

  lemma DivByOneAndHundred(r: Dec, t: int)
    requires r.scale == 3
    ensures Div(r, Dec(1, 0), 0) == Dec(TruncDiv(r.units, 1000), 0)
    ensures Div(Dec(t, 0), Dec(100, 0), 2) == Dec(t, 2)
  {
  }

  /** Truncating 1000 u / D, moving half a unit away from zero and truncating again
      rounds 100 u / D half away from zero. */
  lemma HalfAwayAfterScale3(u: int, D: int)
    requires D > 0
    ensures var mu := TruncDiv(100000 * u, D);
            TruncDiv(if mu >= 0 then mu + 500 else mu - 500, 1000) == RoundHalfAway(100 * u, D)
  {
    var mu := TruncDiv(100000 * u, D);
    if u >= 0 {
      HalfAwayNonNegative(u, D);
    } else if mu == 0 {
      HalfAwayVanishing(u, D);
    } else {
      HalfAwayNonNegative(-u, D);
    }
  }

  /** The non-negative case of HalfAwayAfterScale3. */
  lemma HalfAwayNonNegative(u: int, D: int)
    requires D > 0 && u >= 0
    ensures (TruncDiv(100000 * u, D) + 500) / 1000 == RoundHalfAway(100 * u, D)
    ensures TruncDiv(100000 * u, D) == (100000 * u) / D
  {
    assert 100000 * u == 2 * 500 * (100 * u);
    RoundAfterTrunc(100 * u, D, 500);
  }

  /** A negative u whose scaled quotient truncates to zero rounds to zero. */
  lemma HalfAwayVanishing(u: int, D: int)
    requires D > 0 && u < 0 && TruncDiv(100000 * u, D) == 0
    ensures RoundHalfAway(100 * u, D) == 0
  {
    var w := -u;
    assert TruncDiv(100000 * u, D) == -((100000 * w) / D);
    assert 100000 * w < D;
    assert 200 * w + D < 2 * D;
    DivUnique(200 * w + D, 2 * D, 0);
  }

  /** The bcmath steps of stringToInt on a non-negative decimal. */
  lemma StringToIntSteps(x: Dec)
    requires x.units >= 0
    ensures Div(Add(Mul(x, Dec(100, 0), 2), Dec(5, 1), 2), Dec(1, 0), 0).units == ScaledRound(x)
  {
    Pow10Small();
    var D := Pow10(x.scale);
    var s := Mul(x, Dec(100, 0), 2);
    assert x.units * 100 * Pow10(2) == 2 * 50 * (100 * x.units);
    assert s.units == (2 * 50 * (100 * x.units)) / (D * 1);
    assert (s.units * 10 + 5 * 100) * 100 == (s.units + 50) * 1000;
    DivExact(s.units + 50, 1000);
    assert Add(s, Dec(5, 1), 2) == Dec(s.units + 50, 2);
    RoundAfterTrunc(100 * x.units, D, 50);
  }

  /** Normalising twice is normalising once: a normalised string reads back as the
      same hundredths. */
  lemma NormalizeIdempotent(x: Dec)
    requires x.units >= 0
    ensures IsNumeric(NormalizeDecimal(x))
    ensures NormalizeDecimal(Number(NormalizeDecimal(x))) == NormalizeDecimal(x)
  {
    var k := StringToInt(x);
    ScanIntToString(k);
    Pow10Small();
    assert Number(NormalizeDecimal(x)) == Dec(k, 2);
    assert 100 * k == k * 100;
    RoundExact(k, 100);
  }

  // ---------------------------------------------------------------------------
  // Lemmas: moneyline formatting
  // ---------------------------------------------------------------------------

  /** formatMoneyline of a number with two fraction digits is MoneylineText. */
  lemma FormatMoneylineText(c: int)
    ensures FormatMoneyline(Dec(c, 2)) == MoneylineText(c)
  {
    Pow10Small();
    var v := Dec(c, 2);
    TruncOwnScale(v);
    assert Trunc(Dec(0, 0), 2) == 0;
    var truncated := Div(v, Dec(1, 0), 0);
    assert truncated == Dec(TruncDiv(c, 100), 0);
    TruncWholeTo2(truncated.units);
    var t := TruncDiv(c, 100);
    if c >= 0 {
      assert c % 100 == 0 <==> 100 * t == c;
    } else {
      assert c % 100 == 0 <==> 100 * t == c;
      assert c % 100 == 0 ==> t == c / 100;
    }
    assert (Comp(v, truncated, 2) == 0) <==> c % 100 == 0;
    assert 100 * c == c * 100;
    RoundExact(c, 100);
  }

  /** Formatting is idempotent on what it prints: formatting a factory-printed
      moneyline again gives the same string. */
  lemma MoneylineTextReads(c: int)
    ensures IsNumeric(MoneylineText(c))
    ensures Trunc(Number(MoneylineText(c)), 2) == c
    ensures Trunc(Number(MoneylineText(c)), 0) == TruncDiv(c, 100)
    ensures FormatMoneyline(Number(MoneylineText(c))) == MoneylineText(c)
  {
    Pow10Small();
    if c % 100 == 0 {
      var t := c / 100;
      assert c == 100 * t;
      if c > 0 { ScanPlusIntStr(t); } else { ScanIntStr(t); }
      var v := Dec(t, 0);
      if c > 0 {
        assert MoneylineText(c) == "+" + IntStr(t);
      } else {
        assert MoneylineText(c) == IntStr(t);
      }
      assert Number(MoneylineText(c)) == v;
      TruncWholeTo2(t);
      TruncOwnScale(v);
      DivExact(t, 100);
      assert 100 * t == t * 100;
      FormatMoneylineWhole(t);
    } else {
      if c > 0 {
        ScanPlusIntToString(c);
        assert MoneylineText(c) == "+" + IntToString(c);
      } else {
        ScanIntToString(c);
        assert MoneylineText(c) == IntToString(c);
      }
      assert Number(MoneylineText(c)) == Dec(c, 2);
      TruncOwnScale(Dec(c, 2));
      FormatMoneylineText(c);
    }
  }

  /** A whole number formats as its digits, with `+` when positive. */
  lemma FormatMoneylineWhole(t: int)
    ensures FormatMoneyline(Dec(t, 0)) == MoneylineText(100 * t)
  {
    Pow10Small();
    var v := Dec(t, 0);
    TruncWholeTo2(t);
    TruncOwnScale(v);
    assert Div(v, Dec(1, 0), 0) == v by {
      DivExact(t, 1);
      assert t * 1 * 1 == t * 1;
    }
    assert (100 * t) % 100 == 0 && (100 * t) / 100 == t;
  }

  /** formatMoneyline of any number: `+` when it is positive at two fraction digits;
      no fraction part when it is whole at two fraction digits, otherwise the number
      rounded half away from zero with exactly two fraction digits. */
  lemma FormatMoneylineRule(v: Dec)
    ensures FormatMoneyline(v) == (if Trunc(v, 2) > 0 then "+" else "") +
      (if Trunc(v, 2) == 100 * Trunc(v, 0) then IntStr(Trunc(v, 0))
       else IntToString(RoundHalfAway(100 * v.units, Pow10(v.scale))))
  {
    Pow10Small();
    assert Trunc(Dec(0, 0), 2) == 0;
    var truncated := Div(v, Dec(1, 0), 0);
    assert truncated == Dec(Trunc(v, 0), 0) by {
      assert v.units * Pow10(0) * Pow10(0) == v.units * Pow10(0);
      assert 1 * Pow10(v.scale) == Pow10(v.scale);
    }
    TruncWholeTo2(Trunc(v, 0));
  }

  /** The whole-number test runs at two fraction digits: 150.001 prints as a whole
      number, with its third digit dropped. */
  lemma FormatMoneylineDropsThirdDigit()
    ensures FormatMoneyline(Dec(150001, 3)) == "+" + IntStr(150)
  {
    var v := Dec(150001, 3);
    assert Trunc(v, 2) == 15000 && Trunc(v, 0) == 150 by {
      Pow10Small();
    }
    FormatMoneylineRule(v);
  }

  /** A value that rounds to a whole number but is not whole at two fraction digits
      keeps its fraction part: 150.999 prints as +151.00. */
  lemma FormatMoneylineRoundsUpToWhole()
    ensures FormatMoneyline(Dec(150999, 3)) == "+" + IntToString(15100)
  {
    var v := Dec(150999, 3);
    assert Trunc(v, 2) == 15099 && Trunc(v, 0) == 150 by {
      Pow10Small();
    }
    assert RoundHalfAway(100 * v.units, Pow10(v.scale)) == 15100 by {
      Pow10Small();
    }
    FormatMoneylineRule(v);
  }

  // ---------------------------------------------------------------------------
  // Lemmas: decimal -> moneyline
  // ---------------------------------------------------------------------------

  lemma CompHundredths(k: int)
    ensures Comp(Dec(k, 2), Dec(100, 2), 2) == 0 <==> k == 100
    ensures Comp(Dec(k, 2), Dec(200, 2), 2) >= 0 <==> k >= 200
  {
    TruncOwnScale(Dec(k, 2));
    TruncOwnScale(Dec(100, 2));
    TruncOwnScale(Dec(200, 2));
  }

  /** At 2.00 and above the moneyline is +100(d - 1), computed exactly. */
  lemma MoneylineLongOdds(k: int)
    requires k >= 200
    ensures BcRound(Mul(Dec(100, 0), Sub(Dec(k, 2), Dec(1, 0), 4), 4)) == Dec(100 * (k - 100), 2)
  {
    Pow10Small();
    var dm1 := Sub(Dec(k, 2), Dec(1, 0), 4);
    assert (k * 1 - 1 * 100) * 10000 == ((k - 100) * 100) * 100;
    DivExact((k - 100) * 100, 100);
    assert dm1 == Dec((k - 100) * 100, 4);
    var value := Mul(Dec(100, 0), dm1, 4);
    assert 100 * ((k - 100) * 100) * 10000 == (10000 * (k - 100)) * 10000;
    DivExact(10000 * (k - 100), 10000);
    assert value == Dec(10000 * (k - 100), 4);
    assert 100 * (10000 * (k - 100)) == (100 * (k - 100)) * 10000;
    RoundExact(100 * (k - 100), 10000);
  }

  /** Between 1.00 and 2.00 the moneyline is -100/(d - 1) rounded to hundredths. */
  lemma MoneylineShortOdds(k: int)
    requires 100 < k < 200
    ensures Sub(Dec(k, 2), Dec(1, 0), 6) == Dec((k - 100) * 10000, 6)
    ensures BcRound(Div(Dec(-100, 0), Sub(Dec(k, 2), Dec(1, 0), 6), 4)) == Dec(-RoundHalfAway(1000000, k - 100), 2)
  {
    Pow10Small();
    var j := k - 100;
    var dm1 := Sub(Dec(k, 2), Dec(1, 0), 6);
    assert (k * 1 - 1 * 100) * 1000000 == (j * 10000) * 100;
    DivExact(j * 10000, 100);
    assert dm1 == Dec(j * 10000, 6);
    var value := Div(Dec(-100, 0), dm1, 4);
    assert value.units == TruncDiv(-100 * 1000000 * 10000, j * 10000 * 1);
    assert j * 10000 * 1 == 10000 * j;
    DivCancel(100000000, j, 10000);
    assert 10000 * 100000000 == 100 * 1000000 * 10000;
    var F := 100000000 / j;
    assert value == Dec(-F, 4);
    assert BcRound(value).units == -((2 * 100 * F + 10000) / (2 * 10000));
    assert 2 * 100 * F + 10000 == 200 * (F + 50) && 2 * 10000 == 200 * 100;
    DivCancel(F + 50, 100, 200);
    assert 100000000 == 2 * 50 * 1000000;
    RoundAfterTrunc(1000000, j, 50);
  }

  /** Above 1.00 the moneyline never decreases as the price rises. */
  lemma MoneylineUnitsMonotone(k1: int, k2: int)
    requires 100 < k1 <= k2
    ensures MoneylineUnits(k1) <= MoneylineUnits(k2)
  {
    if k2 < 200 {
      var j1 := k1 - 100;
      var j2 := k2 - 100;
      var r1 := RoundHalfAway(1000000, j1);
      var r2 := RoundHalfAway(1000000, j2);
      if r1 < r2 {
        MulMono(2 * j2, r1 + 1, r2);
        MulMono(2 * r1 + 1, j1, j2);
        assert false;
      }
    }
  }

  /** At 1.00 it does not: 1.00 quotes 0 and 1.01 quotes -10000.00. */
  lemma MoneylineDropsAfterEvens()
    ensures MoneylineUnits(100) > MoneylineUnits(101)
    ensures MoneylineUnits(101) == -1000000
  {
  }

  /** The contract of DecimalToMoneyline at a price of k hundredths. */
  lemma DecimalToMoneylineRule(k: int)
    requires k >= 100
    ensures AtLeastOne(Dec(k, 2))
    ensures DecimalToMoneyline(Dec(k, 2)) == MoneylineText(MoneylineUnits(k))
  {
  }

  /** At 1.00 the factory prints the moneyline 0. */
  lemma EvensBranchPrints(x: Dec)
    requires x.scale == 2 && Comp(x, Dec(100, 2), 2) == 0
    ensures x.units == 100 && FormatMoneyline(Dec(0, 0)) == MoneylineText(MoneylineUnits(x.units))
  {
  }

  /** From 2.00 up the factory prints +100(d - 1). */
  lemma LongBranchPrints(x: Dec)
    requires x.scale == 2 && Comp(x, Dec(200, 2), 2) >= 0
    ensures x.units >= 200
    ensures FormatMoneyline(BcRound(Mul(Dec(100, 0), Sub(x, Dec(1, 0), 4), 4)))
            == MoneylineText(MoneylineUnits(x.units))
  {
    assert x == Dec(x.units, 2);
    CompHundredths(x.units);
    MoneylineLongOdds(x.units);
    FormatMoneylineText(100 * (x.units - 100));
  }

  /** Strictly between 1.00 and 2.00 the factory prints -10^6 / (k - 100) hundredths,
      rounded. */
  lemma ShortBranchPrints(k: int)
    requires 100 < k < 200
    ensures Sub(Dec(k, 2), Dec(1, 0), 6).units != 0
    ensures FormatMoneyline(BcRound(Div(Dec(-100, 0), Sub(Dec(k, 2), Dec(1, 0), 6), 4)))
            == MoneylineText(MoneylineUnits(k))
  {
    MoneylineShortOdds(k);
    FormatMoneylineText(-RoundHalfAway(1000000, k - 100));
  }

  // ---------------------------------------------------------------------------
  // Lemmas: moneyline -> decimal
  // ---------------------------------------------------------------------------

  /** Rounding 1 + f, f given at scale 4, is 1.00 plus f rounded. */
  lemma BcRoundOnePlus(F: int)
    requires F >= 0
    ensures BcRound(Dec(F + 10000, 4)) == Dec(100 + (F + 50) / 100, 2)
  {
    Pow10Small();
    assert 2 * (100 * (F + 10000)) + 10000 == 200 * (F + 50) + 200 * 10000;
    assert 2 * 10000 == 200 * 100;
    DivCancel(F + 50 + 10000, 100, 200);
    assert 200 * (F + 50 + 10000) == 200 * (F + 50) + 200 * 10000;
    assert (F + 50 + 10000) / 100 == (F + 50) / 100 + 100;
  }

  /** Adding 1 at scale 4 to a scale-4 number. */
  lemma AddOneAtScale4(F: int)
    ensures Add(Dec(F, 4), Dec(1, 0), 4) == Dec(F + 10000, 4)
  {
  }

  /** One plus a non-negative quotient kept to four digits rounds to at least 1.00. */
  lemma OnePlusAtLeastOne(q: Dec)
    requires q.scale == 4 && q.units >= 0
    ensures BcRound(Add(q, Dec(1, 0), 4)).units >= 100
  {
    assert q == Dec(q.units, 4);
    AddOneAtScale4(q.units);
    BcRoundOnePlus(q.units);
  }

  /** moneylineToDecimal, over exact arithmetic: m >= 1 gives 1 + m/100 and m <= -1
      gives 1 - 100/m, each rounded to hundredths; anything with integer part 0 gives
      1.00. */
  lemma MoneylineToDecimalRule(m: Dec)
    ensures Trunc(m, 0) > 0 ==> MoneylineToDecimal(m) == Dec(100 + RoundHalfAway(m.units, Pow10(m.scale)), 2)
    ensures Trunc(m, 0) < 0 ==>
      MoneylineToDecimal(m) == Dec(100 + RoundHalfAway(10000 * Pow10(m.scale), -m.units), 2)
    ensures Trunc(m, 0) == 0 ==> MoneylineToDecimal(m) == Dec(100, 2)
  {
    if Trunc(m, 0) > 0 {
      MoneylineToDecimalAbove(m);
    } else if Trunc(m, 0) < 0 {
      MoneylineToDecimalBelow(m);
    } else {
      MoneylineToDecimalZero(m);
    }
  }

  /** A positive moneyline M gives 1 + M/100. */
  lemma MoneylineToDecimalAbove(m: Dec)
    requires Trunc(m, 0) > 0
    ensures MoneylineToDecimal(m) == Dec(100 + RoundHalfAway(m.units, Pow10(m.scale)), 2)
  {
    Pow10Small();
    var D := Pow10(m.scale);
    assert Trunc(Dec(0, 0), 0) == 0;
    assert m.units > 0;
    var q := Div(m, Dec(100, 0), 4);
    assert q.units == (100 * (100 * m.units)) / (100 * D) by {
      assert m.units * 1 * 10000 == 100 * (100 * m.units);
    }
    OnePlusRounded(q, 100 * m.units, 100 * D);
    RoundCancel(m.units, D, 100);
  }

  /** A negative moneyline M gives 1 + 100/|M|. */
  lemma MoneylineToDecimalBelow(m: Dec)
    requires Trunc(m, 0) < 0
    ensures MoneylineToDecimal(m) == Dec(100 + RoundHalfAway(10000 * Pow10(m.scale), -m.units), 2)
  {
    Pow10Small();
    var D := Pow10(m.scale);
    assert Trunc(Dec(0, 0), 0) == 0;
    assert m.units < 0;
    var q := Div(Dec(-100, 0), m, 4);
    assert q.units == (100 * (10000 * D)) / (-m.units) by {
      assert q.units == TruncDiv(-(-100 * D * 10000), -(m.units * 1));
      assert -(-100 * D * 10000) == 100 * (10000 * D);
    }
    OnePlusRounded(q, 10000 * D, -m.units);
  }

  /** A moneyline that truncates to zero gives 1.00. */
  lemma MoneylineToDecimalZero(m: Dec)
    requires Trunc(m, 0) == 0
    ensures MoneylineToDecimal(m) == Dec(100, 2)
  {
  }

  /** One plus a quotient kept to four digits, rounded to two: the quotient n / M
      rounded half away from zero, plus 100 hundredths. */
  lemma OnePlusRounded(q: Dec, n: int, M: int)
    requires q.scale == 4 && n >= 0 && M > 0 && q.units == (100 * n) / M
    ensures BcRound(Add(q, Dec(1, 0), 4)) == Dec(100 + RoundHalfAway(n, M), 2)
  {
    var F := q.units;
    assert q == Dec(F, 4);
    AddOneAtScale4(F);
    BcRoundOnePlus(F);
    RoundAfterTrunc(n, M, 50);
    assert (F + 50) / 100 == RoundHalfAway(n, M) by {
      assert 2 * 50 * n == 100 * n;
    }
  }

  /** The key step of the moneyline round trip: rounding 10^6 / c back, where c is
      10^6 / j rounded, recovers j for every j in 1..99. */
  lemma RoundTwiceRecovers(j: int)
    requires 1 <= j <= 99
    ensures RoundHalfAway(1000000, j) > 0
    ensures RoundHalfAway(1000000, RoundHalfAway(1000000, j)) == j
  {
    var c := RoundHalfAway(1000000, j);
    assert 2 * j * c - j <= 2000000 < 2 * j * c + j;
    assert c > 99 by {
      if c <= 99 {
        MulMono(2 * j, c, 99);
        MulMono(198, j, 99);
        assert false;
      }
    }
    assert 2 * c * j - c <= 2000000 < 2 * c * j + c;
    assert (2 * c) * j <= 2000000 + c < (2 * c) * j + 2 * c;
    DivUnique(2 * 1000000 + c, 2 * c, j);
  }

  /** The round trip from 2.00 up: "+N" reads back as 1 + N/100. */
  lemma RoundTripLong(k: int)
    requires k >= 200
    ensures IsNumeric(MoneylineText(MoneylineUnits(k)))
    ensures MoneylineToDecimal(Number(MoneylineText(MoneylineUnits(k)))) == Dec(k, 2)
  {
    Pow10Small();
    var c := MoneylineUnits(k);
    assert c == 100 * (k - 100);
    assert c % 100 == 0 && c / 100 == k - 100;
    assert MoneylineText(c) == "+" + IntStr(k - 100);
    ScanPlusIntStr(k - 100);
    var m := Dec(k - 100, 0);
    assert Number(MoneylineText(c)) == m;
    TruncOwnScale(m);
    MoneylineToDecimalRule(m);
    assert 1 * (k - 100) == k - 100;
    RoundExact(k - 100, 1);
  }

  /** A printed negative moneyline c/100 (c <= -100) reads back as 1 + 100/|c/100|. */
  lemma ReadBackNegative(c: int)
    requires c <= -100
    ensures IsNumeric(MoneylineText(c))
    ensures MoneylineToDecimal(Number(MoneylineText(c))) == Dec(100 + RoundHalfAway(1000000, -c), 2)
  {
    if c % 100 == 0 {
      TextOfNonPositiveWhole(c);
      ScanIntStr(c / 100);
      NegativeWholeToDecimal(c);
    } else {
      TextOfNonPositiveFraction(c);
      ScanIntToString(c);
      NegativeHundredthsToDecimal(c);
    }
  }

  lemma TextOfNonPositiveWhole(c: int)
    requires c <= 0 && c % 100 == 0
    ensures MoneylineText(c) == IntStr(c / 100)
  {
  }

  lemma TextOfNonPositiveFraction(c: int)
    requires c <= 0 && c % 100 != 0
    ensures MoneylineText(c) == IntToString(c)
  {
  }

  /** moneylineToDecimal of the whole number c/100 for c <= -100. */
  lemma NegativeWholeToDecimal(c: int)
    requires c <= -100 && c % 100 == 0
    ensures MoneylineToDecimal(Dec(c / 100, 0)) == Dec(100 + RoundHalfAway(1000000, -c), 2)
  {
    var t := c / 100;
    assert c == 100 * t && t <= -1;
    var m := Dec(t, 0);
    assert Pow10(0) == 1;
    TruncOwnScale(m);
    MoneylineToDecimalRule(m);
    RoundCancel(10000, -t, 100);
    assert 100 * 10000 == 1000000 && 100 * -t == -c;
  }

  /** moneylineToDecimal of c/100 given with two fraction digits, for c <= -100. */
  lemma NegativeHundredthsToDecimal(c: int)
    requires c <= -100
    ensures MoneylineToDecimal(Dec(c, 2)) == Dec(100 + RoundHalfAway(1000000, -c), 2)
  {
    Pow10Small();
    var m := Dec(c, 2);
    assert Trunc(m, 0) < 0 by {
      TruncTo0And2(m);
      assert TruncDiv(c, 100) <= -1;
    }
    MoneylineToDecimalRule(m);
    assert 10000 * Pow10(m.scale) == 1000000;
  }

  /** The round trip between 1.00 and 2.00: the printed -C reads back as 1 + 100/C. */
  lemma RoundTripShort(k: int)
    requires 100 < k < 200
    ensures IsNumeric(MoneylineText(MoneylineUnits(k)))
    ensures MoneylineToDecimal(Number(MoneylineText(MoneylineUnits(k)))) == Dec(k, 2)
  {
    var j := k - 100;
    RoundTwiceRecovers(j);
    var c := MoneylineUnits(k);
    ShortUnits(k);
    assert RoundHalfAway(1000000, -c) == j;
    ReadBackNegative(c);
  }

  /** Between 1.00 and 2.00 the moneyline is -10^6 / (k - 100) rounded. */
  lemma ShortUnits(k: int)
    requires 100 < k < 200
    ensures MoneylineUnits(k) == -RoundHalfAway(1000000, k - 100)
  {
  }

  /** Reading a factory-printed moneyline back into a decimal recovers the decimal
      it came from: moneylineToDecimal(decimalToMoneyline(d)) == d for every
      two-digit decimal d >= 1.00. */
  lemma MoneylineRoundTrip(k: int)
    requires k >= 100
    ensures IsNumeric(DecimalToMoneyline(Dec(k, 2)))
    ensures MoneylineToDecimal(Number(DecimalToMoneyline(Dec(k, 2)))) == Dec(k, 2)
  {
    DecimalToMoneylineRule(k);
    if k == 100 {
      MoneylineTextReads(0);
      var m := Number(MoneylineText(0));
      MoneylineToDecimalRule(m);
    } else if k >= 200 {
      RoundTripLong(k);
    } else {
      RoundTripShort(k);
    }
  }

  /** Above 1.00 the printed moneyline, read back as a number, never decreases as
      the price rises. */
  lemma DecimalToMoneylineMonotone(k1: int, k2: int)
    requires 100 < k1 <= k2
    ensures IsNumeric(DecimalToMoneyline(Dec(k1, 2))) && IsNumeric(DecimalToMoneyline(Dec(k2, 2)))
    ensures Trunc(Number(DecimalToMoneyline(Dec(k1, 2))), 2) <= Trunc(Number(DecimalToMoneyline(Dec(k2, 2))), 2)
  {
    DecimalToMoneylineRule(k1);
    DecimalToMoneylineRule(k2);
    MoneylineTextReads(MoneylineUnits(k1));
    MoneylineTextReads(MoneylineUnits(k2));
    MoneylineUnitsMonotone(k1, k2);
  }

  /** A formatted moneyline is left as it is by fromMoneyline: formatting is
      idempotent on the factory's own output. */
  lemma FormatMoneylineIdempotent(k: int)
    requires k >= 100
    ensures IsNumeric(DecimalToMoneyline(Dec(k, 2)))
    ensures FormatMoneyline(Number(DecimalToMoneyline(Dec(k, 2)))) == DecimalToMoneyline(Dec(k, 2))
  {
    DecimalToMoneylineRule(k);
    MoneylineTextReads(MoneylineUnits(k));
  }

  /** 1.90 quotes -111.11. */
  lemma DecimalToMoneylineShort()
    ensures MoneylineUnits(190) == -11111 && MoneylineText(-11111) == "-111.11"
  {
    ShortUnits(190);
    assert RoundHalfAway(1000000, 90) == 11111;
    MoneylineTextNegative();
  }

  /** -111.11 in hundredths prints as -111.11. */
  lemma MoneylineTextNegative()
    ensures MoneylineText(-11111) == "-111.11"
  {
    TextOfNonPositiveFraction(-11111);
    assert IntToString(-11111) == "-" + HundredthsDigits(11111);
    assert NatToString(111) == "111";
  }

  /** 2.50 quotes +150. */
  lemma DecimalToMoneylineLong()
    ensures MoneylineUnits(250) == 15000 && MoneylineText(15000) == "+150"
  {
  }

  /** 150 whole prints as +150. */
  lemma MoneylineTextWhole()
    ensures MoneylineText(15000) == "+150"
  {
  }

  /** 150.50 in hundredths prints as +150.50. */
  lemma MoneylineTextFraction()
    ensures MoneylineText(15050) == "+150.50"
  {
  }

  /** 150.50 formats as +150.50. */
  lemma FormatMoneylineFraction()
    ensures FormatMoneyline(Dec(15050, 2)) == "+150.50"
  {
    FormatMoneylineText(15050);
    MoneylineTextFraction();
  }

  /** 150 formats as +150. */
  lemma FormatMoneylineInteger()
    ensures FormatMoneyline(Dec(150, 0)) == "+150"
  {
  }

  /** +150 decodes to 2.50. */
  lemma MoneylineToDecimalPositive()
    ensures MoneylineToDecimal(Dec(150, 0)) == Dec(250, 2)
  {
    Pow10Small();
    MoneylineToDecimalRule(Dec(150, 0));
    TruncTo0And2(Dec(150, 0));
  }

  /** -200 decodes to 1.50. */
  lemma MoneylineToDecimalNegative()
    ensures MoneylineToDecimal(Dec(-200, 0)) == Dec(150, 2)
  {
    Pow10Small();
    MoneylineToDecimalRule(Dec(-200, 0));
    TruncTo0And2(Dec(-200, 0));
  }

  /** 0.50, whose integer part is 0, decodes to 1.00. */
  lemma MoneylineToDecimalBelowOne()
    ensures MoneylineToDecimal(Dec(50, 2)) == Dec(100, 2)
  {
    Pow10Small();
    MoneylineToDecimalRule(Dec(50, 2));
    TruncTo0And2(Dec(50, 2));
  }
}
