/** The immutable odds record: a validated decimal price normalised to two fraction
    digits, the fractional and moneyline quotes stored as given, and the implied
    probability derived from the normalised price. */
module Odds {
  import opened Results
  import opened Decimals

  /** The four read-only fields; the getters of the record are these selectors. */
  datatype Odds = Odds(decimal: string, fractional: string, moneyline: string, probability: string)

  /** 100 / x in hundredths, halves away from zero: the percentage
      `number_format((1 / $x) * 100, 2)`. */
  function ProbabilityHundredths(x: Dec): (p: int)
    requires x.units > 0
    ensures p >= 0
    ensures AtLeastOne(x) ==> p <= 10000
  {
    var p := RoundHalfAway(10000 * Pow10(x.scale), x.units);
    if AtLeastOne(x) then
      ProbabilityAtMostHundred(x.units, Pow10(x.scale), p);
      p
    else p
  }

  /** `calculateProbability`: the implied probability printed with two fraction digits. */
  function CalculateProbability(decimal: string): (r: string)
    requires FloatCast(decimal).units > 0
    ensures IsNumeric(r) && Number(r) == Dec(ProbabilityHundredths(FloatCast(decimal)), 2)
    ensures AtLeastOne(FloatCast(decimal)) ==> 0 <= Number(r).units <= 10000
  {
    ScanIntToString(ProbabilityHundredths(FloatCast(decimal)));
    IntToString(ProbabilityHundredths(FloatCast(decimal)))
  }

  /** `normalizeDecimal`: the price rounded half up to hundredths and printed with
      exactly two fraction digits. */
  function NormalizeDecimal(decimal: string): (r: string)
    ensures IsNumeric(r) && Number(r) == Dec(RoundedHundredths(decimal), 2)
    ensures RoundedHundredths(r) == RoundedHundredths(decimal)
  {
    var k := RoundedHundredths(decimal);
    ScanIntToString(k);
    ScaledRoundOfIntToString(k);
    IntToString(k)
  }

  /** The constructor: fails on a price that is not numeric or is below 1.0, and
      otherwise normalises the price, keeps both quotes verbatim and derives the
      probability from the normalised price. */
  function New(decimal: string, fractional: string, moneyline: string): (r: Result<Odds>)
    ensures r.Err? <==> !IsNumeric(decimal) || !AtLeastOne(FloatCast(decimal))
    ensures r.Err? ==> r.error == InvalidDecimal
    ensures r.Ok? ==> RoundedHundredths(decimal) >= 100
    ensures r.Ok? ==> r.value.decimal == IntToString(RoundedHundredths(decimal))
    ensures r.Ok? ==> r.value.fractional == fractional && r.value.moneyline == moneyline
    ensures r.Ok? ==> r.value.probability == IntToString(RoundHalfAway(1000000, RoundedHundredths(decimal)))
  {
    if !IsNumeric(decimal) || !AtLeastOne(FloatCast(decimal)) then Err(InvalidDecimal)
    else
      var normalized := NormalizeDecimal(decimal);
      var k := RoundedHundredths(decimal);
      ScaledRoundAtLeastHundred(FloatCast(decimal));
      ScanIntToString(k);
      HundredthsProbability(k);
      Ok(Odds(normalized, fractional, moneyline, CalculateProbability(normalized)))
  }

  // ---------------------------------------------------------------------------
  // Lemmas
  // ---------------------------------------------------------------------------

  /** A price of at least one rounds to at least 100 hundredths. */
  lemma ScaledRoundAtLeastHundred(x: Dec)
    requires AtLeastOne(x)
    ensures ScaledRound(x) >= 100
  {
    var D := Pow10(x.scale);
    var r := ScaledRound(x);
    MulMono(100, D, x.units);
    if r < 100 {
      MulMono(2 * D, r, 99);
      assert false;
    }
  }

  /** n / u, for u >= D, rounds to at most 10000 when n = 10000 D. */
  lemma ProbabilityAtMostHundred(u: int, D: int, p: int)
    requires D > 0 && u >= D && p == RoundHalfAway(10000 * D, u)
    ensures p <= 10000
  {
    if p > 10000 {
      MulMono(2 * u, 10001, p);
      MulMono(20000, D, u);
      assert false;
    }
  }

  /** The probability of a price of k hundredths is 10^6 / k rounded. */
  lemma HundredthsProbability(k: int)
    requires k >= 100
    ensures FloatCast(IntToString(k)) == Dec(k, 2)
    ensures ProbabilityHundredths(Dec(k, 2)) == RoundHalfAway(1000000, k)
  {
    ScanIntToString(k);
    Pow10Small();
  }

  /** Constructing again from the stored price gives the same record: the stored
      price is already normalised. */
  lemma NewIdempotent(decimal: string, fractional: string, moneyline: string)
    requires IsNumeric(decimal) && AtLeastOne(FloatCast(decimal))
    ensures New(New(decimal, fractional, moneyline).value.decimal, fractional, moneyline)
            == New(decimal, fractional, moneyline)
  {
  }

  /** The probability is at most 100.00, reached exactly at a price of 1.00, and
      stays above zero up to a price of 20000.00. */
  lemma ProbabilityBounds(k: int)
    requires k >= 100
    ensures 0 <= RoundHalfAway(1000000, k) <= 10000
    ensures RoundHalfAway(1000000, k) == 10000 <==> k == 100
    ensures RoundHalfAway(1000000, k) > 0 <==> k <= 2000000
  {
  }

  /** 1.01 gives 99.01, 1.50 gives 66.67 and 2.00 gives 50.00. */
  lemma ProbabilityExamples()
    ensures RoundHalfAway(1000000, 101) == 9901
    ensures RoundHalfAway(1000000, 150) == 6667
    ensures RoundHalfAway(1000000, 200) == 5000
  {
  }

  /** Prices round half up at the third fraction digit: 2.004 gives 2.00, 2.005 gives
      2.01, and a whole 2 gives 2.00. */
  lemma NormalisationExamples()
    ensures ScaledRound(Dec(2004, 3)) == 200
    ensures ScaledRound(Dec(2005, 3)) == 201
    ensures ScaledRound(Dec(2, 0)) == 200
    ensures IntToString(200) == "2.00" && IntToString(201) == "2.01"
  {
    Pow10Small();
  }

  /** A price that is not numeric is refused: "abc". */
  lemma RejectsNonNumeric()
    ensures New("abc", "", "").Err?
  {
    var s := "abc";
    assert SignLength(s) == 0 && s[0..] == s;
    assert DigitRun(s) == 0;
    assert !IsNumeric(s);
  }

  /** A price below 1.0 is refused: "0". */
  lemma RejectsZero()
    ensures New("0", "", "").Err?
  {
    assert NatToString(0) == "0";
    ScanMagnitudeWhole(0, "0");
    ScanSigned("", "0", Dec(0, 0));
    assert "" + "0" == "0";
  }

  /** A negative price is refused: "-1.5". */
  lemma RejectsNegative()
    ensures New("-1.5", "", "").Err?
  {
    Pow10Small();
    assert NatToString(1) == "1" && "5"[..0] == [];
    ScanMagnitudeFrac(1, "5", "1.5");
    ScanSigned("-", "1.5", Dec(15, 1));
    assert "-" + "1.5" == "-1.5";
  }
}
