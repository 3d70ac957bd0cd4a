/** The legacy fractional odd: a numerator, a denominator and the bar printed between
    them, with conversions to a decimal price and to a moneyline, both in hundredths. */
module FractionalOdd {
  import opened Results
  import opened Decimals

  datatype FractionalOdd = FractionalOdd(numerator: int, denominator: int, fractionBar: string) {

    /** What the constructor accepts. */
    predicate Valid() {
      numerator >= 0 && denominator >= 1 && (fractionBar == "/" || fractionBar == "-")
    }

    /** `value`: numerator, bar and denominator, e.g. "2/1" or "2-1". */
    function Value(): string {
      IntStr(numerator) + fractionBar + IntStr(denominator)
    }

    /** `toDecimal`: n / d + 1 to two fraction digits, as hundredths. */
    function ToDecimal(): (c: int)
      requires Valid()
      ensures c == 100 + RoundHalfAway(100 * numerator, denominator)
      ensures c >= 100
    {
      RoundShift(100 * numerator, denominator, 100);
      RoundHalfAway(100 * (numerator + denominator), denominator)
    }

    /** `toFractional`: the odd itself. */
    function ToFractional(): (r: FractionalOdd)
      ensures r.Value() == Value()
    {
      this
    }

    /** `toMoneyline` as written: 100 n / d from a ratio of 2 up, -100 d / n below it,
        0 for a zero numerator; in hundredths. */
    function ToMoneyline(): (c: int)
      requires Valid()
      ensures numerator >= 2 * denominator ==> c >= 20000
      ensures 0 < numerator < 2 * denominator ==> c < 0
      ensures numerator == 0 <==> c == 0
    {
      if numerator >= 2 * denominator then
        RoundAtLeast(numerator, denominator, 2);
        RoundHalfAway(10000 * numerator, denominator)
      else if numerator > 0 then
        RoundPositive(denominator, numerator);
        -RoundHalfAway(10000 * denominator, numerator)
      else 0
    }

    /** `toMoneyline` with the threshold at a ratio of 1 (a decimal price of 2.00),
        where the positive branch of a moneyline begins. */
    function ToMoneylineCorrected(): (c: int)
      requires Valid()
      ensures numerator >= denominator ==> c >= 10000
      ensures 0 < numerator < denominator ==> c <= -10000
      ensures numerator == 0 <==> c == 0
    {
      if numerator >= denominator then
        RoundAtLeast(numerator, denominator, 1);
        RoundHalfAway(10000 * numerator, denominator)
      else if numerator > 0 then
        RoundAtLeast(denominator, numerator, 1);
        -RoundHalfAway(10000 * denominator, numerator)
      else 0
    }
  }

  /** The constructor: the numerator is checked first, then the denominator, then the
      bar. */
  function New(numerator: int, denominator: int, fractionBar: string): (r: Result<FractionalOdd>)
    ensures r.Ok? <==> FractionalOdd(numerator, denominator, fractionBar).Valid()
    ensures numerator < 0 ==> r == Err(InvalidNumerator)
    ensures numerator >= 0 && denominator < 1 ==> r == Err(InvalidDenominator)
    ensures numerator >= 0 && denominator >= 1 && r.Err? ==> r == Err(InvalidFractionBar)
    ensures r.Ok? ==> r.value == FractionalOdd(numerator, denominator, fractionBar)
  {
    if numerator < 0 then Err(InvalidNumerator)
    else if denominator < 1 then Err(InvalidDenominator)
    else if fractionBar != "/" && fractionBar != "-" then Err(InvalidFractionBar)
    else Ok(FractionalOdd(numerator, denominator, fractionBar))
  }

  // ---------------------------------------------------------------------------
  // Lemmas
  // ---------------------------------------------------------------------------

  /** Adding a whole number of units commutes with rounding. */
  lemma RoundShift(n: int, d: int, k: int)
    requires n >= 0 && d > 0 && k >= 0
    ensures RoundHalfAway(n + k * d, d) == k + RoundHalfAway(n, d)
  {
    var r := RoundHalfAway(n, d);
    var s := RoundHalfAway(n + k * d, d);
    assert 2 * d * (r + k) - d <= 2 * (n + k * d) < 2 * d * (r + k) + d;
    RoundUnique(n + k * d, d, r + k);
  }

  /** The rounding of n / d is the only integer within half a unit. */
  lemma RoundUnique(n: int, d: int, q: int)
    requires n >= 0 && d > 0 && 2 * d * q - d <= 2 * n < 2 * d * q + d
    ensures RoundHalfAway(n, d) == q
  {
    DivUnique(2 * n + d, 2 * d, q);
  }

  /** 10000 a / b rounds to at least 10000 m when a / b >= m. */
  lemma RoundAtLeast(a: int, b: int, m: int)
    requires b > 0 && m >= 1 && a >= m * b
    ensures RoundHalfAway(10000 * a, b) >= 10000 * m
  {
    var r := RoundHalfAway(10000 * a, b);
    MulMono(20000, m * b, a);
    if r < 10000 * m {
      MulMono(2 * b, r, 10000 * m - 1);
      assert false;
    }
  }

  /** 10000 d / n rounds to a positive value when n < 2 d: a ratio below two never
      gives a zero moneyline. */
  lemma RoundPositive(d: int, n: int)
    requires 0 < n < 2 * d
    ensures RoundHalfAway(10000 * d, n) > 0
  {
  }

  /** The decimal price of a fraction is the one the factory builds from the same
      numerator and denominator: 2/1 gives 3.00 and 1/2 gives 1.50. */
  lemma ToDecimalExamples()
    ensures FractionalOdd(2, 1, "/").ToDecimal() == 300
    ensures FractionalOdd(1, 2, "/").ToDecimal() == 150
  {
  }

  /** 0/1 gives 0, 1/2 gives -200 and 2/1 gives +200. */
  lemma ToMoneylineExamples()
    ensures FractionalOdd(0, 1, "/").ToMoneyline() == 0
    ensures FractionalOdd(1, 2, "/").ToMoneyline() == -20000
    ensures FractionalOdd(2, 1, "/").ToMoneyline() == 20000
  {
  }

  /** The printed value: "2/1" and "2-1". */
  lemma ValueExamples()
    ensures FractionalOdd(2, 1, "/").Value() == "2/1"
    ensures FractionalOdd(2, 1, "-").Value() == "2-1"
  {
  }

  /** As written, 3/2 (a decimal price of 2.50) gives -66.67, a moneyline of magnitude
      below 100, which no price has. */
  lemma ToMoneylineThreeHalves()
    ensures New(3, 2, "/").Ok?
    ensures FractionalOdd(3, 2, "/").ToMoneyline() == -6667
    ensures -10000 < FractionalOdd(3, 2, "/").ToMoneyline() < 10000
  {
  }

  /** With the corrected threshold, 3/2 gives +150.00 and every nonzero fraction gives
      a moneyline of magnitude at least 100, positive exactly from even money up. */
  lemma ToMoneylineCorrectedBounds(o: FractionalOdd)
    requires o.Valid() && o.numerator > 0
    ensures o.ToMoneylineCorrected() >= 10000 || o.ToMoneylineCorrected() <= -10000
    ensures o.ToMoneylineCorrected() > 0 <==> o.numerator >= o.denominator
    ensures FractionalOdd(3, 2, "/").ToMoneylineCorrected() == 15000
  {
  }

  /** The printed value determines the odd: numerator and denominator print as digits
      and the bar is the only other character. */
  lemma ValueInjective(a: FractionalOdd, b: FractionalOdd)
    requires a.Valid() && b.Valid() && a.Value() == b.Value()
    ensures a == b
  {
    var na := IntStr(a.numerator);
    var nb := IntStr(b.numerator);
    SplitAtBar(na, a.fractionBar, IntStr(a.denominator), nb, b.fractionBar, IntStr(b.denominator));
    NatToStringInjective(a.numerator, b.numerator);
    NatToStringInjective(a.denominator, b.denominator);
  }

  /** Two digit strings joined by a one-character non-digit bar split the same way. */
  lemma SplitAtBar(x: string, bar: string, y: string, x2: string, bar2: string, y2: string)
    requires AllDigits(x) && AllDigits(y) && AllDigits(x2) && AllDigits(y2)
    requires |bar| == 1 && |bar2| == 1 && !IsDigit(bar[0]) && !IsDigit(bar2[0])
    requires x + bar + y == x2 + bar2 + y2
    ensures x == x2 && bar == bar2 && y == y2
  {
    var s := x + bar + y;
    assert s == x + (bar + y) == x2 + (bar2 + y2);
    DigitRunOfDigits(x, bar + y);
    DigitRunOfDigits(x2, bar2 + y2);
    assert x == s[..|x|] == x2;
    assert bar == s[|x|..|x| + 1] == bar2;
    assert y == s[|x| + 1..] == y2;
  }

  /** Distinct numbers print differently. */
  lemma NatToStringInjective(m: nat, n: nat)
    requires NatToString(m) == NatToString(n)
    ensures m == n
  {
    DigitsValueOfNatToString(m);
    DigitsValueOfNatToString(n);
  }
}
