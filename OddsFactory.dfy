/** The odds factory: builds an odds record from a decimal price, from a fraction or
    from a moneyline, quoting the fraction through an optional ladder or, without
    one, through a continued-fraction approximation of the price. */
module OddsFactory {
  import opened Results
  import opened Decimals
  import opened BcMath
  import opened FactoryArithmetic
  import opened ContinuedFraction
  import Odds
  import FractionalOdd
  import OddsLadderInterface

  /** `defaultDecimalToFractional` for a price of k hundredths: 0/1 at 1.00, otherwise
      the first convergent of k/100 - 1 within one ten-thousandth of it, relatively. */
  function DefaultFraction(k: int): string
    requires k >= 100
  {
    if k == 100 then "0/1"
    else
      var a := Approximation(k - 100);
      IntStr(a.n) + "/" + IntStr(a.d)
  }

  /** The fractional quote of a price of k hundredths, with or without a ladder. */
  function Fraction(ladder: Option<OddsLadderInterface.Ladder>, k: int): string
    requires k >= 100
  {
    match ladder
    case Some(l) => OddsLadderInterface.Quote(l, k)
    case None => DefaultFraction(k)
  }

  /** The record the factory builds for a price of k hundredths with the given quotes:
      the price and the implied probability printed with two fraction digits. */
  function Record(k: int, fractional: string, moneyline: string): Odds.Odds
    requires k >= 100
  {
    Odds.Odds(IntToString(k), fractional, moneyline, IntToString(RoundHalfAway(1000000, k)))
  }

  class OddsFactory {
    /** The ladder used for fractional quotes; `None` when the factory was built
        without one. */
    const oddsLadder: Option<OddsLadderInterface.Ladder>

    constructor(oddsLadder: Option<OddsLadderInterface.Ladder>)
      ensures this.oddsLadder == oddsLadder
    {
      this.oddsLadder := oddsLadder;
    }

    /** `fromDecimal`: a numeric price of at least 1.0 (compared at two digits) is
        rounded to hundredths, quoted as a fraction and as a moneyline. */
    method FromDecimal(decimal: string) returns (r: Result<Odds.Odds>)
      ensures r.Err? <==> !IsNumeric(decimal) || !AtLeastOne(Number(decimal))
      ensures r.Err? ==> r.error == InvalidDecimal
      ensures r.Ok? ==> ScaledRound(Number(decimal)) >= 100
      ensures r.Ok? ==>
        var k := ScaledRound(Number(decimal));
        r.value == Record(k, Fraction(oddsLadder, k), MoneylineText(MoneylineUnits(k)))
    {
      if !IsNumeric(decimal) || Comp(Number(decimal), Dec(10, 1), 2) < 0 {
        if IsNumeric(decimal) {
          CompWithOne(Number(decimal));
        }
        return Err(InvalidDecimal);
      }
      CompWithOne(Number(decimal));
      var x := Number(decimal);
      Odds.ScaledRoundAtLeastHundred(x);
      var k := StringToInt(x);
      var normalizedDecimal := NormalizeDecimal(x);
      ReadsBack(k);
      var fractional := DecimalToFractional(normalizedDecimal);
      var moneyline := DecimalToMoneyline(Number(normalizedDecimal));
      DecimalToMoneylineRule(k);
      NewFromHundredths(k, fractional, moneyline);
      r := Odds.New(normalizedDecimal, fractional, moneyline);
    }

    /** `fromFractional`: the numerator is checked first, then the denominator; the
        price is n / d + 1 rounded to hundredths, the fraction is kept as n/d. */
    method FromFractional(numerator: int, denominator: int) returns (r: Result<Odds.Odds>)
      ensures numerator < 0 ==> r == Err(InvalidNumerator)
      ensures numerator >= 0 && denominator < 1 ==> r == Err(InvalidDenominator)
      ensures r.Ok? <==> numerator >= 0 && denominator >= 1
      ensures r.Ok? ==>
        var c := 100 + RoundHalfAway(100 * numerator, denominator);
        r.value == Record(c, IntStr(numerator) + "/" + IntStr(denominator), MoneylineText(MoneylineUnits(c)))
      ensures r.Ok? ==>
        var o := FractionalOdd.FractionalOdd(numerator, denominator, "/");
        o.Valid() && r.value.decimal == IntToString(o.ToDecimal()) && r.value.fractional == o.Value()
    {
      if numerator < 0 {
        return Err(InvalidNumerator);
      }
      if denominator < 1 {
        return Err(InvalidDenominator);
      }
      var decimal := BcRound(Add(Div(Dec(numerator, 0), Dec(denominator, 0), 4), Dec(1, 0), 4));
      OnePlusFraction(numerator, denominator);
      FractionalAgreesWithLegacy(numerator, denominator);
      var c := decimal.units;
      var fractional := IntStr(numerator) + "/" + IntStr(denominator);
      ReadsBack(c);
      DecimalToMoneylineRule(c);
      var moneyline := DecimalToMoneyline(Number(IntToString(c)));
      NewFromHundredths(c, fractional, moneyline);
      r := Odds.New(IntToString(c), fractional, moneyline);
    }

    /** `fromMoneyline`: any numeric moneyline is accepted; the price is derived from
        it and the moneyline is reformatted. */
    method FromMoneyline(moneyline: string) returns (r: Result<Odds.Odds>)
      ensures r.Err? <==> !IsNumeric(moneyline)
      ensures r.Err? ==> r.error == InvalidMoneyline
      ensures r.Ok? ==> MoneylineToDecimal(Number(moneyline)).units >= 100
      ensures r.Ok? ==>
        var c := MoneylineToDecimal(Number(moneyline)).units;
        r.value == Record(c, Fraction(oddsLadder, c), FormatMoneyline(Number(moneyline)))
    {
      if !IsNumeric(moneyline) {
        return Err(InvalidMoneyline);
      }
      var m := Number(moneyline);
      var c := MoneylineToDecimal(m).units;
      ReadsBack(c);
      var decimal := IntToString(c);
      var fractional := DecimalToFractional(decimal);
      var moneylineFormatted := FormatMoneyline(m);
      NewFromHundredths(c, fractional, moneylineFormatted);
      r := Odds.New(decimal, fractional, moneylineFormatted);
    }

    /** `decimalToFractional`: the ladder when one was given, the continued fraction
        otherwise. */
    method DecimalToFractional(decimal: string) returns (r: string)
      requires oddsLadder.None? ==> IsNumeric(decimal) && StringToInt(Number(decimal)) >= 100
      ensures oddsLadder.Some? ==> r == OddsLadderInterface.Quote(oddsLadder.value, RoundedHundredths(decimal))
      ensures oddsLadder.None? ==> r == DefaultFraction(StringToInt(Number(decimal)))
    {
      match oddsLadder
      case Some(l) =>
        r := OddsLadderInterface.DecimalToFractional(l, decimal);
      case None =>
        r := DefaultDecimalToFractional(decimal);
    }

    /** `defaultDecimalToFractional` with its default tolerance of one: expands
        v = decimal - 1 as a continued fraction until the convergent n/d satisfies
        |v - n/d| <= v / 10000.  Callers only pass prices of at least 1.00. */
    method DefaultDecimalToFractional(decimal: string) returns (r: string)
      requires IsNumeric(decimal) && StringToInt(Number(decimal)) >= 100
      ensures r == DefaultFraction(StringToInt(Number(decimal)))
    {
      var decimalInt := StringToInt(Number(decimal));
      if decimalInt == 100 {
        return "0/1";
      }
      var vInt := decimalInt - 100;
      var n, n2, d, d2 := 1, 0, 0, 1;
      // b = 1 / v, kept as the exact fraction p / q
      var p, q := 100, vInt;
      ghost var k: nat := 0;
      while true
        invariant p > 0
        invariant CfState(n, n2, d, d2, p, q) == Iterate(vInt, k)
        invariant forall j :: 1 <= j <= k ==> !Within(vInt, Iterate(vInt, j))
        decreases p
      {
        ghost var before := CfState(n, n2, d, d2, p, q);
        IterateNext(vInt, k);
        // b := 1 / b; a := floor(b); b := b - a
        var a := q / p;
        var aux := n;
        n := a * n + n2;
        n2 := aux;
        aux := d;
        d := a * d + d2;
        d2 := aux;
        p, q := q % p, p;
        assert CfState(n, n2, d, d2, p, q) == Step(before);
        k := k + 1;
        if d > 0 && 10000 * Abs(vInt * d - 100 * n) <= vInt * d {
          assert IsFirstWithin(vInt, k);
          DefaultFractionAt(decimalInt, k);
          return IntStr(n) + "/" + IntStr(d);
        }
        if p == 0 {
          ExhaustedIsExact(vInt, k);
          assert false;
        }
      }
    }
  }

  // ---------------------------------------------------------------------------
  // Lemmas
  // ---------------------------------------------------------------------------

  /** The default fraction of a price is the convergent of the pass that first falls
      within tolerance. */
  lemma DefaultFractionAt(price: int, k: nat)
    requires price > 100 && IsFirstWithin(price - 100, k)
    ensures DefaultFraction(price) == IntStr(Iterate(price - 100, k).n) + "/" + IntStr(Iterate(price - 100, k).d)
  {
  }

  /** A pass of the loop from a state with a remainder left is one step. */
  lemma IterateNext(vInt: int, k: nat)
    requires vInt > 0 && Iterate(vInt, k).p > 0
    ensures Iterate(vInt, k + 1) == Step(Iterate(vInt, k))
  {
  }

  /** A price printed with two fraction digits reads back, by bcmath and by the float
      cast alike, as the same number of hundredths. */
  lemma ReadsBack(c: int)
    requires c >= 100
    ensures IsNumeric(IntToString(c)) && Number(IntToString(c)) == Dec(c, 2)
    ensures FloatCast(IntToString(c)) == Dec(c, 2) && AtLeastOne(Dec(c, 2))
    ensures StringToInt(Dec(c, 2)) == c && RoundedHundredths(IntToString(c)) == c
  {
    ScanIntToString(c);
    ScaledRoundOfIntToString(c);
    Pow10Small();
  }

  /** A record built from a price printed from k >= 100 hundredths is always accepted
      and keeps that price. */
  lemma NewFromHundredths(k: int, fractional: string, moneyline: string)
    requires k >= 100
    ensures Odds.New(IntToString(k), fractional, moneyline) == Ok(Record(k, fractional, moneyline))
  {
    ReadsBack(k);
  }

  /** bcmath's n / d + 1 at four digits, rounded to two, is n / d rounded plus one. */
  lemma OnePlusFraction(n: int, d: int)
    requires n >= 0 && d >= 1
    ensures BcRound(Add(Div(Dec(n, 0), Dec(d, 0), 4), Dec(1, 0), 4))
            == Dec(100 + RoundHalfAway(100 * n, d), 2)
  {
    Pow10Small();
    var q := Div(Dec(n, 0), Dec(d, 0), 4);
    assert q.units == (100 * (100 * n)) / d by {
      assert n * 1 * 10000 == 100 * (100 * n);
    }
    OnePlusRounded(q, 100 * n, d);
  }

  /** The price the factory derives from a fraction is the one the legacy fractional
      odd derives, and so is the printed fraction. */
  lemma FractionalAgreesWithLegacy(n: int, d: int)
    requires n >= 0 && d >= 1
    ensures FractionalOdd.FractionalOdd(n, d, "/").Valid()
    ensures FractionalOdd.FractionalOdd(n, d, "/").ToDecimal() == 100 + RoundHalfAway(100 * n, d)
    ensures FractionalOdd.FractionalOdd(n, d, "/").Value() == IntStr(n) + "/" + IntStr(d)
  {
  }

  /** Quoting a price as a moneyline and building again from that moneyline gives
      the same price: the moneyline of a price of k hundredths decodes back to k. */
  lemma DecimalMoneylineRoundTrip(k: int)
    requires k >= 100
    ensures IsNumeric(MoneylineText(MoneylineUnits(k)))
    ensures MoneylineToDecimal(Number(MoneylineText(MoneylineUnits(k)))).units == k
    ensures FormatMoneyline(Number(MoneylineText(MoneylineUnits(k)))) == MoneylineText(MoneylineUnits(k))
  {
    DecimalToMoneylineRule(k);
    MoneylineRoundTrip(k);
    FormatMoneylineIdempotent(k);
  }

  /** Without a ladder the quote of a price above 1.00 is a fraction n/d in lowest
      terms, d >= 1, within one ten-thousandth of decimal - 1, relatively. */
  lemma DefaultFractionApproximates(k: int)
    requires k > 100
    ensures var a := Approximation(k - 100);
      && DefaultFraction(k) == IntStr(a.n) + "/" + IntStr(a.d)
      && a.d >= 1 && Coprime(a.n, a.d)
      && 10000 * Abs((k - 100) * a.d - 100 * a.n) <= (k - 100) * a.d
  {
    ApproximationIsFirstWithin(k - 100);
  }

  /** Without a ladder 1.00 reads 0/1 and 2.00 reads 1/1. */
  lemma DefaultFractionEvens()
    ensures DefaultFraction(100) == "0/1"
    ensures DefaultFraction(200) == "1/1"
  {
    ApproximatesEvens();
    ApproximationAt(100, 1);
  }

  /** Without a ladder 1.50 is approximated by 1/2, 1.33 by 33/100 and 2.33 by
      133/100; `DefaultFraction` prints these numerators and denominators. */
  lemma DefaultApproximations()
    ensures Approximation(50).n == 1 && Approximation(50).d == 2
    ensures Approximation(33).n == 33 && Approximation(33).d == 100
    ensures Approximation(133).n == 133 && Approximation(133).d == 100
  {
    ApproximatesOnePointFive();
    ApproximationAt(50, 2);
    ApproximatesOnePointThirtyThree();
    ApproximationAt(33, 3);
    ApproximatesTwoPointThirtyThree();
    ApproximationAt(133, 3);
  }

  /** From a fraction: 1/2 gives 1.50 and 100/1 gives 101.00. */
  lemma FractionExamples()
    ensures 100 + RoundHalfAway(100 * 1, 2) == 150
    ensures 100 + RoundHalfAway(100 * 100, 1) == 10100
    ensures MoneylineUnits(150) == -20000 && MoneylineUnits(10100) == 1000000
  {
  }
}
