/** The string-keyed standard ladder: the same scan as the integer-keyed ladder, but
    each key is a decimal string that is converted to hundredths as it is compared. */
module UtilsOddsLadder {
  import opened Decimals
  import OddsLadder

  /** One row: every price whose hundredths are at most those of `key` is quoted as
      `fraction`. */
  datatype KeyedRung = KeyedRung(key: string, fraction: string)

  /** `getLadder`: the standard table keyed by price strings, in groups of eight rows. */
  function GetLadder(): seq<KeyedRung> {
    Rows1() + Rows2() + Rows3() + Rows4() + Rows5() + Rows6()
  }

  /** Rows for 1.02 to 1.09. */
  function Rows1(): seq<KeyedRung> {
    [ KeyedRung("1.02", "1/50"), KeyedRung("1.03", "1/33"), KeyedRung("1.04", "1/25"), KeyedRung("1.05", "1/20"),
      KeyedRung("1.06", "1/17"), KeyedRung("1.07", "1/15"), KeyedRung("1.08", "2/25"), KeyedRung("1.09", "1/12") ]
  }

  /** Rows for 1.10 to 1.25. */
  function Rows2(): seq<KeyedRung> {
    [ KeyedRung("1.10", "1/10"), KeyedRung("1.11", "1/9"), KeyedRung("1.13", "1/8"), KeyedRung("1.14", "1/7"),
      KeyedRung("1.17", "1/6"), KeyedRung("1.20", "1/5"), KeyedRung("1.22", "2/9"), KeyedRung("1.25", "1/4") ]
  }

  /** Rows for 1.29 to 1.62. */
  function Rows3(): seq<KeyedRung> {
    [ KeyedRung("1.29", "2/7"), KeyedRung("1.33", "1/3"), KeyedRung("1.36", "4/11"), KeyedRung("1.40", "2/5"),
      KeyedRung("1.44", "4/9"), KeyedRung("1.50", "1/2"), KeyedRung("1.57", "4/7"), KeyedRung("1.62", "8/13") ]
  }

  /** Rows for 1.67 to 2.38. */
  function Rows4(): seq<KeyedRung> {
    [ KeyedRung("1.67", "4/6"), KeyedRung("1.73", "8/11"), KeyedRung("1.80", "4/5"), KeyedRung("1.91", "10/11"),
      KeyedRung("2.00", "1/1"), KeyedRung("2.10", "11/10"), KeyedRung("2.20", "6/5"), KeyedRung("2.38", "11/8") ]
  }

  /** Rows for 2.50 to 4.50. */
  function Rows5(): seq<KeyedRung> {
    [ KeyedRung("2.50", "3/2"), KeyedRung("2.62", "8/5"), KeyedRung("2.75", "7/4"), KeyedRung("3.00", "2/1"),
      KeyedRung("3.25", "9/4"), KeyedRung("3.50", "5/2"), KeyedRung("4.00", "3/1"), KeyedRung("4.50", "7/2") ]
  }

  /** Rows for 5.00 to 10.00. */
  function Rows6(): seq<KeyedRung> {
    [ KeyedRung("5.00", "4/1"), KeyedRung("6.00", "5/1"), KeyedRung("7.00", "6/1"), KeyedRung("8.00", "7/1"),
      KeyedRung("9.00", "8/1"), KeyedRung("10.00", "9/1") ]
  }

  /** The index of the first row whose key converts to at least k, or |t|. */
  function FirstKeyAtLeast(t: seq<KeyedRung>, k: int): (i: nat)
    ensures i <= |t|
    ensures forall j :: 0 <= j < i ==> RoundedHundredths(t[j].key) < k
    ensures i < |t| ==> k <= RoundedHundredths(t[i].key)
  {
    if |t| == 0 then 0
    else if k <= RoundedHundredths(t[0].key) then 0
    else 1 + FirstKeyAtLeast(t[1..], k)
  }

  /** What a scan over t returns for a price of k hundredths.  The fallback is the
      same code as the integer-keyed ladder's and is shared with it. */
  function Quote(t: seq<KeyedRung>, k: int): string {
    var i := FirstKeyAtLeast(t, k);
    if i < |t| then t[i].fraction else OddsLadder.FallbackConversion(k)
  }

  /** `decimalToFractional`: scan the rows in order, converting each key, and return
      the first whose key reaches the price; fall back when none does. */
  method DecimalToFractional(ladder: seq<KeyedRung>, decimal: string) returns (r: string)
    ensures r == Quote(ladder, RoundedHundredths(decimal))
  {
    var decimalInt := RoundedHundredths(decimal);
    var i := 0;
    while i < |ladder|
      invariant 0 <= i <= |ladder|
      invariant forall j :: 0 <= j < i ==> RoundedHundredths(ladder[j].key) < decimalInt
    {
      var thresholdInt := RoundedHundredths(ladder[i].key);
      if decimalInt <= thresholdInt {
        FirstKeyAtLeastIs(ladder, decimalInt, i);
        return ladder[i].fraction;
      }
      i := i + 1;
    }
    FirstKeyAtLeastIs(ladder, decimalInt, |ladder|);
    return OddsLadder.FallbackConversion(decimalInt);
  }

  // ---------------------------------------------------------------------------
  // Lemmas
  // ---------------------------------------------------------------------------

  lemma FirstKeyAtLeastIs(t: seq<KeyedRung>, k: int, i: nat)
    requires i <= |t|
    requires forall j :: 0 <= j < i ==> RoundedHundredths(t[j].key) < k
    requires i < |t| ==> k <= RoundedHundredths(t[i].key)
    ensures FirstKeyAtLeast(t, k) == i
  {
  }

  /** u is t with every threshold written as its two-digit price string. */
  predicate Mirrors(u: seq<KeyedRung>, t: seq<OddsLadder.Rung>) {
    |u| == |t| && forall i :: 0 <= i < |u| ==>
      u[i].key == IntToString(t[i].threshold) && u[i].fraction == t[i].fraction
  }

  /** Row-by-row check from row i on, computable on literal tables. */
  predicate MirrorsFrom(u: seq<KeyedRung>, t: seq<OddsLadder.Rung>, i: nat)
    decreases |u| - i
  {
    |u| == |t| && (i >= |u| ||
      (u[i].key == IntToString(t[i].threshold) && u[i].fraction == t[i].fraction && MirrorsFrom(u, t, i + 1)))
  }

  lemma {:induction false} MirrorsFromAll(u: seq<KeyedRung>, t: seq<OddsLadder.Rung>, i: nat)
    requires MirrorsFrom(u, t, i)
    ensures |u| == |t|
    ensures forall j :: i <= j < |u| ==> u[j].key == IntToString(t[j].threshold) && u[j].fraction == t[j].fraction
    decreases |u| - i
  {
    if i < |u| {
      MirrorsFromAll(u, t, i + 1);
    }
  }

  lemma MirrorsConcat(u1: seq<KeyedRung>, t1: seq<OddsLadder.Rung>, u2: seq<KeyedRung>, t2: seq<OddsLadder.Rung>)
    requires Mirrors(u1, t1) && Mirrors(u2, t2)
    ensures Mirrors(u1 + u2, t1 + t2)
  {
  }

  lemma Rows1MirrorTail()
    ensures MirrorsFrom(Rows1(), OddsLadder.Rows1(), 4)
  {
  }

  lemma Rows1Mirror()
    ensures Mirrors(Rows1(), OddsLadder.Rows1())
  {
    var u := Rows1();
    var t := OddsLadder.Rows1();
    Rows1MirrorTail();
    assert MirrorsFrom(u, t, 3);
    assert MirrorsFrom(u, t, 2);
    assert MirrorsFrom(u, t, 1);
    assert MirrorsFrom(u, t, 0);
    MirrorsFromAll(u, t, 0);
  }

  lemma Rows2MirrorTail()
    ensures MirrorsFrom(Rows2(), OddsLadder.Rows2(), 4)
  {
  }

  lemma Rows2Mirror()
    ensures Mirrors(Rows2(), OddsLadder.Rows2())
  {
    var u := Rows2();
    var t := OddsLadder.Rows2();
    Rows2MirrorTail();
    assert MirrorsFrom(u, t, 3);
    assert MirrorsFrom(u, t, 2);
    assert MirrorsFrom(u, t, 1);
    assert MirrorsFrom(u, t, 0);
    MirrorsFromAll(u, t, 0);
  }

  lemma Rows3MirrorTail()
    ensures MirrorsFrom(Rows3(), OddsLadder.Rows3(), 4)
  {
  }

  lemma Rows3Mirror()
    ensures Mirrors(Rows3(), OddsLadder.Rows3())
  {
    var u := Rows3();
    var t := OddsLadder.Rows3();
    Rows3MirrorTail();
    assert MirrorsFrom(u, t, 3);
    assert MirrorsFrom(u, t, 2);
    assert MirrorsFrom(u, t, 1);
    assert MirrorsFrom(u, t, 0);
    MirrorsFromAll(u, t, 0);
  }

  lemma Rows4MirrorTail()
    ensures MirrorsFrom(Rows4(), OddsLadder.Rows4(), 4)
  {
  }

  lemma Rows4Mirror()
    ensures Mirrors(Rows4(), OddsLadder.Rows4())
  {
    var u := Rows4();
    var t := OddsLadder.Rows4();
    Rows4MirrorTail();
    assert MirrorsFrom(u, t, 3);
    assert MirrorsFrom(u, t, 2);
    assert MirrorsFrom(u, t, 1);
    assert MirrorsFrom(u, t, 0);
    MirrorsFromAll(u, t, 0);
  }

  lemma Rows5MirrorTail()
    ensures MirrorsFrom(Rows5(), OddsLadder.Rows5(), 4)
  {
  }

  lemma Rows5Mirror()
    ensures Mirrors(Rows5(), OddsLadder.Rows5())
  {
    var u := Rows5();
    var t := OddsLadder.Rows5();
    Rows5MirrorTail();
    assert MirrorsFrom(u, t, 3);
    assert MirrorsFrom(u, t, 2);
    assert MirrorsFrom(u, t, 1);
    assert MirrorsFrom(u, t, 0);
    MirrorsFromAll(u, t, 0);
  }

  lemma Rows6MirrorTail()
    ensures MirrorsFrom(Rows6(), OddsLadder.Rows6(), 4)
  {
  }

  lemma Rows6Mirror()
    ensures Mirrors(Rows6(), OddsLadder.Rows6())
  {
    var u := Rows6();
    var t := OddsLadder.Rows6();
    Rows6MirrorTail();
    assert MirrorsFrom(u, t, 3);
    assert MirrorsFrom(u, t, 2);
    assert MirrorsFrom(u, t, 1);
    assert MirrorsFrom(u, t, 0);
    MirrorsFromAll(u, t, 0);
  }

  /** The 46 keys are exactly the integer thresholds, written with two fraction digits,
      with the same fractions. */
  lemma LaddersMirror()
    ensures Mirrors(GetLadder(), OddsLadder.GetLadder())
  {
    Rows1Mirror();
    Rows2Mirror();
    Rows3Mirror();
    Rows4Mirror();
    Rows5Mirror();
    Rows6Mirror();
    MirrorsConcat(Rows1(), OddsLadder.Rows1(), Rows2(), OddsLadder.Rows2());
    MirrorsConcat(Rows1() + Rows2(), OddsLadder.Rows1() + OddsLadder.Rows2(), Rows3(), OddsLadder.Rows3());
    MirrorsConcat(Rows1() + Rows2() + Rows3(), OddsLadder.Rows1() + OddsLadder.Rows2() + OddsLadder.Rows3(),
                  Rows4(), OddsLadder.Rows4());
    MirrorsConcat(Rows1() + Rows2() + Rows3() + Rows4(),
                  OddsLadder.Rows1() + OddsLadder.Rows2() + OddsLadder.Rows3() + OddsLadder.Rows4(),
                  Rows5(), OddsLadder.Rows5());
    MirrorsConcat(Rows1() + Rows2() + Rows3() + Rows4() + Rows5(),
                  OddsLadder.Rows1() + OddsLadder.Rows2() + OddsLadder.Rows3() + OddsLadder.Rows4() + OddsLadder.Rows5(),
                  Rows6(), OddsLadder.Rows6());
  }

  /** A mirrored table converts every key back to its threshold, so both scans stop
      at the same row. */
  lemma MirroredScansAgree(u: seq<KeyedRung>, t: seq<OddsLadder.Rung>, k: int)
    requires Mirrors(u, t)
    ensures FirstKeyAtLeast(u, k) == OddsLadder.FirstAtLeast(t, k)
    ensures Quote(u, k) == OddsLadder.Quote(t, k)
  {
    forall i | 0 <= i < |u|
      ensures RoundedHundredths(u[i].key) == t[i].threshold
    {
      ScaledRoundOfIntToString(t[i].threshold);
    }
    FirstKeyAtLeastIs(u, k, OddsLadder.FirstAtLeast(t, k));
  }

  /** The string-keyed and integer-keyed standard ladders quote every price alike. */
  lemma StandardLaddersAgree(k: int)
    ensures Quote(GetLadder(), k) == OddsLadder.Quote(OddsLadder.GetLadder(), k)
  {
    LaddersMirror();
    MirroredScansAgree(GetLadder(), OddsLadder.GetLadder(), k);
  }

  /** Prices with more than two fraction digits are rounded half up before the scan:
      1.015, 1.105 and 1.101 are looked up as 1.02, 1.11 and 1.10. */
  lemma RoundedBeforeLookup()
    ensures ScaledRound(Dec(1015, 3)) == 102
    ensures ScaledRound(Dec(1105, 3)) == 111
    ensures ScaledRound(Dec(1101, 3)) == 110
  {
  }

  /** On the standard table, which this ladder agrees with at every price, 1.02 reads
      1/50. */
  lemma RoundedLookupLow()
    ensures OddsLadder.Quote(OddsLadder.GetLadder(), 102) == "1/50"
  {
  }

  /** On the standard table 1.10 reads 1/10. */
  lemma RoundedLookupTen()
    ensures OddsLadder.Quote(OddsLadder.GetLadder(), 110) == "1/10"
  {
    var t := OddsLadder.GetLadder();
    assert t[7].threshold == 109 && t[8] == OddsLadder.Rung(110, "1/10");
    OddsLadder.FirstAtLeastIs(t, 110, 8);
  }

  /** On the standard table 1.11 reads 1/9. */
  lemma RoundedLookupNine()
    ensures OddsLadder.Quote(OddsLadder.GetLadder(), 111) == "1/9"
  {
    var t := OddsLadder.GetLadder();
    assert t[8].threshold == 110 && t[9] == OddsLadder.Rung(111, "1/9");
    OddsLadder.FirstAtLeastIs(t, 111, 9);
  }

  /** A string "1.ddd" reads as 1 + ddd/1000. */
  lemma ReadsOnePoint(s: string, f: nat)
    requires |s| == 5 && s[0] == '1' && s[1] == '.' && AllDigits(s[2..])
    requires f == 100 * DigitValue(s[2]) + 10 * DigitValue(s[3]) + DigitValue(s[4])
    ensures FloatCast(s) == Dec(1000 + f, 3)
  {
    Pow10Small();
    var frac := s[2..];
    var two := frac[..2];
    var one := two[..1];
    assert one == [s[2]] && one[..0] == [] && two[1] == s[3] && frac[2] == s[4];
    assert DigitsValue(one) == DigitValue(s[2]);
    assert DigitsValue(two) == 10 * DigitValue(s[2]) + DigitValue(s[3]);
    assert DigitsValue(frac) == 10 * DigitsValue(two) + DigitValue(s[4]);
    assert NatToString(1) == "1";
    assert s == NatToString(1) + "." + frac;
    ScanMagnitudeFrac(1, frac, s);
    ScanSigned("", s, Dec(1000 + f, 3));
    assert "" + s == s;
  }

  /** Every price string that rounds to 1.02, "1.015" among them, reads 1/50 on
      this ladder. */
  lemma RoundedQuoteLow(s: string)
    requires RoundedHundredths(s) == 102
    ensures Quote(GetLadder(), RoundedHundredths(s)) == "1/50"
  {
    StandardLaddersAgree(RoundedHundredths(s));
    RoundedLookupLow();
  }

  /** "1.015" rounds half up to 1.02 before the scan. */
  lemma RoundsUpToOnePointZeroTwo()
    ensures RoundedHundredths("1.015") == 102
  {
    ReadsOnePoint("1.015", 15);
    RoundedBeforeLookup();
  }

  /** Every price string that rounds to 1.11, "1.105" among them, reads 1/9. */
  lemma RoundedQuoteNine(s: string)
    requires RoundedHundredths(s) == 111
    ensures Quote(GetLadder(), RoundedHundredths(s)) == "1/9"
  {
    StandardLaddersAgree(RoundedHundredths(s));
    RoundedLookupNine();
  }

  /** "1.105" rounds half up to 1.11. */
  lemma RoundsUpToOnePointOneOne()
    ensures RoundedHundredths("1.105") == 111
  {
    ReadsOnePoint("1.105", 105);
    RoundedBeforeLookup();
  }

  /** Every price string that rounds to 1.10, "1.101" among them, reads 1/10. */
  lemma RoundedQuoteTen(s: string)
    requires RoundedHundredths(s) == 110
    ensures Quote(GetLadder(), RoundedHundredths(s)) == "1/10"
  {
    StandardLaddersAgree(RoundedHundredths(s));
    RoundedLookupTen();
  }

  /** "1.101" rounds down to 1.10. */
  lemma RoundsDownToOnePointOne()
    ensures RoundedHundredths("1.101") == 110
  {
    ReadsOnePoint("1.101", 101);
    RoundedBeforeLookup();
  }
}
