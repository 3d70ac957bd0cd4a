/** The integer-keyed odds ladder: a table of decimal thresholds in hundredths, each
    with the fraction quoted for every price up to it, scanned in table order; prices
    above the last threshold fall back to a whole-number fraction. */
module OddsLadder {
  import opened Decimals

  /** One row of a ladder: every price whose hundredths are at most `threshold` is
      quoted as `fraction`. */
  datatype Rung = Rung(threshold: int, fraction: string)

  /** Thresholds strictly increase along the table. */
  predicate Increasing(t: seq<Rung>) {
    forall i, j :: 0 <= i < j < |t| ==> t[i].threshold < t[j].threshold
  }

  /** Each threshold is below the next one. */
  predicate StepsUp(t: seq<Rung>) {
    forall i :: 0 <= i < |t| - 1 ==> t[i].threshold < t[i + 1].threshold
  }

  /** `getLadder`: the standard table, 1.02 to 10.00, written in groups of eight rows. */
  function GetLadder(): seq<Rung> {
    Rows1() + Rows2() + Rows3() + Rows4() + Rows5() + Rows6()
  }

  /** Rows for 1.02 to 1.09. */
  function Rows1(): seq<Rung> {
    [ Rung(102, "1/50"), Rung(103, "1/33"), Rung(104, "1/25"), Rung(105, "1/20"),
      Rung(106, "1/17"), Rung(107, "1/15"), Rung(108, "2/25"), Rung(109, "1/12") ]
  }

  /** Rows for 1.10 to 1.25. */
  function Rows2(): seq<Rung> {
    [ Rung(110, "1/10"), Rung(111, "1/9"), Rung(113, "1/8"), Rung(114, "1/7"),
      Rung(117, "1/6"), Rung(120, "1/5"), Rung(122, "2/9"), Rung(125, "1/4") ]
  }

  /** Rows for 1.29 to 1.62. */
  function Rows3(): seq<Rung> {
    [ Rung(129, "2/7"), Rung(133, "1/3"), Rung(136, "4/11"), Rung(140, "2/5"),
      Rung(144, "4/9"), Rung(150, "1/2"), Rung(157, "4/7"), Rung(162, "8/13") ]
  }

  /** Rows for 1.67 to 2.38. */
  function Rows4(): seq<Rung> {
    [ Rung(167, "4/6"), Rung(173, "8/11"), Rung(180, "4/5"), Rung(191, "10/11"),
      Rung(200, "1/1"), Rung(210, "11/10"), Rung(220, "6/5"), Rung(238, "11/8") ]
  }

  /** Rows for 2.50 to 4.50. */
  function Rows5(): seq<Rung> {
    [ Rung(250, "3/2"), Rung(262, "8/5"), Rung(275, "7/4"), Rung(300, "2/1"),
      Rung(325, "9/4"), Rung(350, "5/2"), Rung(400, "3/1"), Rung(450, "7/2") ]
  }

  /** Rows for 5.00 to 10.00. */
  function Rows6(): seq<Rung> {
    [ Rung(500, "4/1"), Rung(600, "5/1"), Rung(700, "6/1"), Rung(800, "7/1"),
      Rung(900, "8/1"), Rung(1000, "9/1") ]
  }

  /** The index of the first row whose threshold reaches k, or |t| when none does. */
  function FirstAtLeast(t: seq<Rung>, k: int): (i: nat)
    ensures i <= |t|
    ensures forall j :: 0 <= j < i ==> t[j].threshold < k
    ensures i < |t| ==> k <= t[i].threshold
  {
    if |t| == 0 then 0
    else if k <= t[0].threshold then 0
    else 1 + FirstAtLeast(t[1..], k)
  }

  /** `fallbackConversion`, after its `stringToInt`: the whole units of profit over
      one, (k - 100) / 100 truncated toward zero by `intval`, over 1. */
  function FallbackConversion(k: int): (r: string)
    ensures k >= 100 ==> r == IntStr((k - 100) / 100) + "/1"
  {
    IntStr(TruncDiv(k - 100, 100)) + "/1"
  }

  /** What a scan over t returns for a price of k hundredths. */
  function Quote(t: seq<Rung>, k: int): string {
    var i := FirstAtLeast(t, k);
    if i < |t| then t[i].fraction else FallbackConversion(k)
  }

  /** `decimalToFractional`: the first row, in table order, whose threshold is at least
      the rounded hundredths of decimal; the fallback when there is none.  Any table
      can be scanned: subclasses supply their own. */
  method DecimalToFractional(ladder: seq<Rung>, decimal: string) returns (r: string)
    ensures r == Quote(ladder, RoundedHundredths(decimal))
    ensures var k := RoundedHundredths(decimal);
      (exists i :: 0 <= i < |ladder| && k <= ladder[i].threshold && r == ladder[i].fraction
                   && forall j :: 0 <= j < i ==> ladder[j].threshold < k)
      || ((forall j :: 0 <= j < |ladder| ==> ladder[j].threshold < k) && r == FallbackConversion(k))
  {
    var decimalInt := RoundedHundredths(decimal);
    var i := 0;
    while i < |ladder|
      invariant 0 <= i <= |ladder|
      invariant forall j :: 0 <= j < i ==> ladder[j].threshold < decimalInt
    {
      if decimalInt <= ladder[i].threshold {
        FirstAtLeastIs(ladder, decimalInt, i);
        return ladder[i].fraction;
      }
      i := i + 1;
    }
    FirstAtLeastIs(ladder, decimalInt, |ladder|);
    return FallbackConversion(decimalInt);
  }

  // ---------------------------------------------------------------------------
  // Lemmas
  // ---------------------------------------------------------------------------

  /** A row that every earlier row stays below, and that reaches k, is the first. */
  lemma FirstAtLeastIs(t: seq<Rung>, k: int, i: nat)
    requires i <= |t|
    requires forall j :: 0 <= j < i ==> t[j].threshold < k
    requires i < |t| ==> k <= t[i].threshold
    ensures FirstAtLeast(t, k) == i
  {
  }

  /** A larger price never selects an earlier row. */
  lemma FirstAtLeastMonotone(t: seq<Rung>, k1: int, k2: int)
    requires k1 <= k2
    ensures FirstAtLeast(t, k1) <= FirstAtLeast(t, k2)
  {
  }

  /** Thresholds rising row by row rise across the whole table. */
  lemma {:induction false} StepsUpIncreasing(t: seq<Rung>)
    requires StepsUp(t)
    ensures Increasing(t)
  {
    if |t| >= 2 {
      StepsUpIncreasing(t[1..]);
      forall i, j | 0 <= i < j < |t|
        ensures t[i].threshold < t[j].threshold
      {
        if i > 0 {
          assert t[i].threshold == t[1..][i - 1].threshold;
          assert t[j].threshold == t[1..][j - 1].threshold;
        } else if j > 1 {
          assert t[1].threshold == t[1..][0].threshold;
          assert t[j].threshold == t[1..][j - 1].threshold;
        }
      }
    }
  }

  /** On a strictly increasing table, a price exactly at a threshold takes that row. */
  lemma AtThreshold(t: seq<Rung>, i: nat)
    requires Increasing(t) && i < |t|
    ensures FirstAtLeast(t, t[i].threshold) == i
  {
  }

  /** Prices at or below the first threshold take the first row. */
  lemma BelowFirstRow(t: seq<Rung>, k: int)
    requires |t| > 0 && k <= t[0].threshold
    ensures FirstAtLeast(t, k) == 0
  {
  }

  /** The scan falls back exactly when the price is above the last threshold. */
  lemma FallbackExactlyAboveLast(t: seq<Rung>, k: int)
    requires |t| > 0 && Increasing(t)
    ensures FirstAtLeast(t, k) == |t| <==> k > t[|t| - 1].threshold
  {
  }

  /** Row-by-row check from row i on, computable on a literal table. */
  predicate StepsUpFrom(t: seq<Rung>, i: nat)
    decreases |t| - i
  {
    i + 1 >= |t| || (t[i].threshold < t[i + 1].threshold && StepsUpFrom(t, i + 1))
  }

  lemma {:induction false} StepsUpFromAll(t: seq<Rung>, i: nat)
    requires StepsUpFrom(t, i)
    ensures forall j :: i <= j < |t| - 1 ==> t[j].threshold < t[j + 1].threshold
    decreases |t| - i
  {
    if i + 1 < |t| {
      StepsUpFromAll(t, i + 1);
    }
  }

  /** Two rising tables, the first ending below the start of the second, rise when
      joined. */
  lemma StepsUpConcat(a: seq<Rung>, b: seq<Rung>)
    requires StepsUp(a) && StepsUp(b) && |a| > 0 && |b| > 0
    requires a[|a| - 1].threshold < b[0].threshold
    ensures StepsUp(a + b)
  {
  }

  /** A group of rows, checked row by row. */
  lemma GroupStepsUp(p: seq<Rung>)
    requires StepsUpFrom(p, 0)
    ensures StepsUp(p)
  {
    StepsUpFromAll(p, 0);
  }

  /** The standard table has 46 rows from 1.02 to 10.00, strictly increasing. */
  lemma GetLadderShape()
    ensures |GetLadder()| == 46
    ensures GetLadder()[0].threshold == 102 && GetLadder()[45].threshold == 1000
    ensures Increasing(GetLadder())
  {
    var p1 := Rows1();
    assert StepsUpFrom(p1, 6);
    assert StepsUpFrom(p1, 5);
    assert StepsUpFrom(p1, 4);
    assert StepsUpFrom(p1, 3);
    assert StepsUpFrom(p1, 2);
    assert StepsUpFrom(p1, 1);
    assert StepsUpFrom(p1, 0);
    GroupStepsUp(p1);
    var p2 := Rows2();
    assert StepsUpFrom(p2, 6);
    assert StepsUpFrom(p2, 5);
    assert StepsUpFrom(p2, 4);
    assert StepsUpFrom(p2, 3);
    assert StepsUpFrom(p2, 2);
    assert StepsUpFrom(p2, 1);
    assert StepsUpFrom(p2, 0);
    GroupStepsUp(p2);
    var p3 := Rows3();
    assert StepsUpFrom(p3, 6);
    assert StepsUpFrom(p3, 5);
    assert StepsUpFrom(p3, 4);
    assert StepsUpFrom(p3, 3);
    assert StepsUpFrom(p3, 2);
    assert StepsUpFrom(p3, 1);
    assert StepsUpFrom(p3, 0);
    GroupStepsUp(p3);
    var p4 := Rows4();
    assert StepsUpFrom(p4, 6);
    assert StepsUpFrom(p4, 5);
    assert StepsUpFrom(p4, 4);
    assert StepsUpFrom(p4, 3);
    assert StepsUpFrom(p4, 2);
    assert StepsUpFrom(p4, 1);
    assert StepsUpFrom(p4, 0);
    GroupStepsUp(p4);
    var p5 := Rows5();
    assert StepsUpFrom(p5, 6);
    assert StepsUpFrom(p5, 5);
    assert StepsUpFrom(p5, 4);
    assert StepsUpFrom(p5, 3);
    assert StepsUpFrom(p5, 2);
    assert StepsUpFrom(p5, 1);
    assert StepsUpFrom(p5, 0);
    GroupStepsUp(p5);
    var p6 := Rows6();
    assert StepsUpFrom(p6, 4);
    assert StepsUpFrom(p6, 3);
    assert StepsUpFrom(p6, 2);
    assert StepsUpFrom(p6, 1);
    assert StepsUpFrom(p6, 0);
    GroupStepsUp(p6);
    StepsUpConcat(p1, p2);
    StepsUpConcat(p1 + p2, p3);
    StepsUpConcat(p1 + p2 + p3, p4);
    StepsUpConcat(p1 + p2 + p3 + p4, p5);
    StepsUpConcat(p1 + p2 + p3 + p4 + p5, p6);
    StepsUpIncreasing(GetLadder());
  }

  /** Anything rounding to 1.02 or less is quoted 1/50, and a price at a threshold
      takes its own row. */
  lemma StandardBoundaries(k: int, i: nat)
    requires i < 46
    ensures k <= 102 ==> Quote(GetLadder(), k) == "1/50"
    ensures k == GetLadder()[i].threshold ==> Quote(GetLadder(), k) == GetLadder()[i].fraction
  {
    GetLadderShape();
    AtThreshold(GetLadder(), i);
  }

  /** Up to 10.00 the standard ladder never falls back; above it, it always does. */
  lemma StandardFallback(k: int)
    ensures k <= 1000 ==> FirstAtLeast(GetLadder(), k) < 46
    ensures k > 1000 ==> Quote(GetLadder(), k) == FallbackConversion(k)
  {
    GetLadderShape();
    FallbackExactlyAboveLast(GetLadder(), k);
  }

  /** Between two thresholds the higher one is taken: 2.01 gives 11/10. */
  lemma StandardBetween()
    ensures Quote(GetLadder(), 201) == "11/10"
  {
    var t := GetLadder();
    assert t[28].threshold == 200 && t[29] == Rung(210, "11/10");
    FirstAtLeastIs(t, 201, 29);
  }

  /** 1.95 gives 1/1. */
  lemma StandardBetweenEvens()
    ensures Quote(GetLadder(), 195) == "1/1"
  {
    var t := GetLadder();
    assert t[27].threshold == 191 && t[28] == Rung(200, "1/1");
    FirstAtLeastIs(t, 195, 28);
  }

  /** The fallback quotes the whole units of profit: 7.00 gives 6/1, 11.50 gives 10/1,
      15.25 gives 14/1, 50.00 gives 49/1 and 100.00 gives 99/1. */
  lemma FallbackExamples()
    ensures FallbackConversion(700) == "6/1" && FallbackConversion(1150) == "10/1"
    ensures FallbackConversion(1525) == "14/1" && FallbackConversion(5000) == "49/1"
    ensures FallbackConversion(10000) == "99/1"
  {
    assert IntStr(6) == "6" && IntStr(10) == "10" && IntStr(14) == "14";
    assert IntStr(49) == "49" && IntStr(99) == "99";
  }

  /** Scaling the two-digit rendering of k gives back k: the ladder's own
      `stringToInt(intToString(k))`. */
  lemma RenderThenScale(k: int)
    ensures RoundedHundredths(IntToString(k)) == k
  {
    ScaledRoundOfIntToString(k);
  }
}
