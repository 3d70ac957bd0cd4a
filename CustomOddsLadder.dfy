/** The custom ladder: a ten-row table that replaces the standard one, with the scan,
    the fallback and the conversions of the integer-keyed ladder left as they are. */
module CustomOddsLadder {
  import opened Decimals
  import opened OddsLadder

  /** `getLadder`, overridden: 1.20 to 6.00. */
  function GetLadder(): seq<Rung> {
    [ Rung(120, "1/5"), Rung(125, "1/4"), Rung(133, "1/3"), Rung(150, "1/2"),
      Rung(200, "1/1"), Rung(250, "3/2"), Rung(300, "2/1"), Rung(400, "3/1"),
      Rung(500, "4/1"), Rung(600, "5/1") ]
  }

  /** The inherited `decimalToFractional`, scanning the custom table. */
  method DecimalToFractional(decimal: string) returns (r: string)
    ensures r == Quote(GetLadder(), RoundedHundredths(decimal))
  {
    r := OddsLadder.DecimalToFractional(GetLadder(), decimal);
  }

  // ---------------------------------------------------------------------------
  // Lemmas
  // ---------------------------------------------------------------------------

  /** Exactly ten rows, 1.20 through 6.00, strictly increasing. */
  lemma GetLadderShape()
    ensures |GetLadder()| == 10
    ensures GetLadder()[0].threshold == 120 && GetLadder()[9].threshold == 600
    ensures Increasing(GetLadder())
  {
  }

  /** Every price up to 1.20 is quoted 1/5. */
  lemma CustomBelowFirst(k: int)
    requires k <= 120
    ensures Quote(GetLadder(), k) == "1/5"
  {
  }

  /** Prices between two thresholds take the higher one: 1.90 gives 1/1. */
  lemma CustomBetween()
    ensures Quote(GetLadder(), 190) == "1/1"
  {
    var t := GetLadder();
    assert t[3].threshold < 190 <= t[4].threshold && t[4].fraction == "1/1";
    FirstAtLeastIs(t, 190, 4);
  }

  /** 2.40 gives 3/2. */
  lemma CustomBetweenThreeHalves()
    ensures Quote(GetLadder(), 240) == "3/2"
  {
    var t := GetLadder();
    assert t[4].threshold < 240 <= t[5].threshold && t[5].fraction == "3/2";
    FirstAtLeastIs(t, 240, 5);
  }

  /** Up to 6.00 the custom table always has a row; above it the inherited fallback
      applies. */
  lemma CustomFallback(k: int)
    ensures k <= 600 ==> FirstAtLeast(GetLadder(), k) < 10
    ensures k > 600 ==> Quote(GetLadder(), k) == FallbackConversion(k)
  {
    GetLadderShape();
    FallbackExactlyAboveLast(GetLadder(), k);
  }
}
