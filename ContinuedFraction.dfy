/** The continued-fraction expansion behind the factory's default decimal-to-fraction
    conversion, over exact integers.  The engine expands v = vInt / 100 (vInt the
    hundredths of decimal - 1) and keeps the convergents n/d, n2/d2; its float
    remainder b is kept here exactly as the fraction p/q. */
module ContinuedFraction {

  /** One state of the expansion: convergent n/d, the previous one n2/d2, and the
      remainder b = p/q that the next step inverts. */
  datatype CfState = CfState(n: int, n2: int, d: int, d2: int, p: int, q: int)

  /** Before the first step: n/d = 1/0, n2/d2 = 0/1 and b = 1/v = 100/vInt. */
  function Init(vInt: int): CfState {
    CfState(1, 0, 0, 1, 100, vInt)
  }

  /** One pass of the loop body: b := 1/b, a := floor(b), shift the convergents, b -= a. */
  function Step(s: CfState): (r: CfState)
    requires s.p > 0 && s.q >= 0
    ensures 0 <= r.p < s.p && r.q == s.p
  {
    var a := s.q / s.p;
    CfState(a * s.n + s.n2, s.n, a * s.d + s.d2, s.d, s.q % s.p, s.p)
  }

  /** The state after k passes; an exhausted remainder (p = 0) stays put. */
  function Iterate(vInt: int, k: nat): (s: CfState)
    requires vInt > 0
    ensures s.p >= 0 && s.q > 0
  {
    if k == 0 then Init(vInt)
    else
      var s := Iterate(vInt, k - 1);
      if s.p == 0 then s else Step(s)
  }

  function Abs(x: int): nat {
    if x < 0 then -x else x
  }

  /** The loop's exit test |v - n/d| <= v / 10000, cleared of denominators
      (v = vInt / 100, d > 0). */
  predicate Within(vInt: int, s: CfState) {
    s.d > 0 && 10000 * Abs(vInt * s.d - 100 * s.n) <= vInt * s.d
  }

  /** k is the pass after which the do-while loop stops: the first that is within
      tolerance. */
  predicate IsFirstWithin(vInt: int, k: nat)
    requires vInt > 0
  {
    k >= 1 && Within(vInt, Iterate(vInt, k)) && forall j :: 1 <= j < k ==> !Within(vInt, Iterate(vInt, j))
  }

  /** What the expansion keeps true: b = p/q is the exact remainder of v, with the
      convergent matrix of determinant +-1. */
  predicate Invariant(vInt: int, s: CfState) {
    && s.q > 0 && s.p >= 0 && s.d >= 0 && s.d2 >= 0
    && vInt * (s.q * s.d + s.p * s.d2) == 100 * (s.q * s.n + s.p * s.n2)
    && (s.n * s.d2 - s.n2 * s.d == 1 || s.n * s.d2 - s.n2 * s.d == -1)
  }

  /** g divides x. */
  predicate Divides(g: int, x: int)
    requires g > 0
  {
    x % g == 0
  }

  /** n/d is in lowest terms. */
  ghost predicate Coprime(n: int, d: int) {
    forall g :: g > 1 ==> !(Divides(g, n) && Divides(g, d))
  }

  /** The first pass after `from` whose convergent is within tolerance. */
  function SearchFrom(vInt: int, from: nat): (k: nat)
    requires vInt > 0
    requires from == 0 || !Within(vInt, Iterate(vInt, from))
    ensures k > from && Within(vInt, Iterate(vInt, k))
    ensures forall j :: from < j < k ==> !Within(vInt, Iterate(vInt, j))
    decreases Iterate(vInt, from).p
  {
    var s := Iterate(vInt, from);
    assert s.p > 0 by {
      if from > 0 && s.p == 0 {
        ExhaustedIsExact(vInt, from);
        assert false;
      }
    }
    if Within(vInt, Iterate(vInt, from + 1)) then from + 1 else SearchFrom(vInt, from + 1)
  }

  /** The convergent the engine returns for vInt. */
  function Approximation(vInt: int): (s: CfState)
    requires vInt > 0
  {
    Iterate(vInt, SearchFrom(vInt, 0))
  }

  // ---------------------------------------------------------------------------
  // Lemmas
  // ---------------------------------------------------------------------------

  /** One step keeps the remainder exact and the determinant +-1. */
  lemma StepKeepsInvariant(vInt: int, s: CfState)
    requires Invariant(vInt, s) && s.p > 0
    ensures Invariant(vInt, Step(s))
  {
    var a := s.q / s.p;
    var r := s.q % s.p;
    ShiftKeepsInvariant(vInt, s, a, r);
  }

  /** The step with its quotient a and remainder r named, free of division. */
  lemma ShiftKeepsInvariant(vInt: int, s: CfState, a: int, r: int)
    requires Invariant(vInt, s) && s.p > 0 && s.q == a * s.p + r && a >= 0 && r >= 0
    ensures Invariant(vInt, CfState(a * s.n + s.n2, s.n, a * s.d + s.d2, s.d, r, s.p))
  {
    StepCombination(a, s.p, r, s.d, s.d2);
    StepCombination(a, s.p, r, s.n, s.n2);
    StepDeterminant(a, s.n, s.n2, s.d, s.d2);
    assert a * s.d >= 0;
  }

  /** With q = a p + r, shifting (x, x2) to (a x + x2, x) keeps q x + p x2. */
  lemma StepCombination(a: int, p: int, r: int, x: int, x2: int)
    ensures p * (a * x + x2) + r * x == (a * p + r) * x + p * x2
  {
  }

  /** Shifting the convergents negates the determinant. */
  lemma StepDeterminant(a: int, n: int, n2: int, d: int, d2: int)
    ensures (a * n + n2) * d - n * (a * d + d2) == -(n * d2 - n2 * d)
  {
  }

  lemma {:induction false} IterateInvariant(vInt: int, k: nat)
    requires vInt > 0
    ensures Invariant(vInt, Iterate(vInt, k))
  {
    if k > 0 {
      IterateInvariant(vInt, k - 1);
      var s := Iterate(vInt, k - 1);
      if s.p > 0 { StepKeepsInvariant(vInt, s); }
    }
  }

  /** After the first pass the convergent has a positive denominator. */
  lemma {:induction false} DenominatorPositive(vInt: int, k: nat)
    requires vInt > 0 && k >= 1
    ensures Iterate(vInt, k).d >= 1
    ensures k >= 2 ==> Iterate(vInt, k).p < Iterate(vInt, k).q
  {
    if k == 1 {
      assert Iterate(vInt, 1) == Step(Init(vInt));
    } else {
      DenominatorPositive(vInt, k - 1);
      IterateInvariant(vInt, k - 1);
      var s := Iterate(vInt, k - 1);
      if s.p > 0 {
        if k - 1 == 1 {
          assert s == Step(Init(vInt));
        }
        QuotientGrowsDenominator(s.q, s.p, s.d, s.d2);
      }
    }
  }

  /** Once the remainder is below one, the next partial quotient is at least one and
      the denominator cannot shrink. */
  lemma QuotientGrowsDenominator(q: int, p: int, d: int, d2: int)
    requires 0 < p < q && d >= 1 && d2 >= 0
    ensures (q / p) * d + d2 >= d
  {
  }

  /** An exhausted remainder means the convergent is v itself, so the loop stops. */
  lemma ExhaustedIsExact(vInt: int, k: nat)
    requires vInt > 0 && k >= 1 && Iterate(vInt, k).p == 0
    ensures vInt * Iterate(vInt, k).d == 100 * Iterate(vInt, k).n
    ensures Within(vInt, Iterate(vInt, k))
  {
    IterateInvariant(vInt, k);
    DenominatorPositive(vInt, k);
    ExactState(vInt, Iterate(vInt, k));
  }

  lemma ExactState(vInt: int, s: CfState)
    requires vInt > 0 && Invariant(vInt, s) && s.p == 0 && s.d >= 1
    ensures vInt * s.d == 100 * s.n && Within(vInt, s)
  {
  }

  lemma MulCancel(c: int, x: int, y: int)
    requires c > 0 && c * x == c * y
    ensures x == y
  {
  }

  lemma MulMonoStrict(c: int, a: int, b: int)
    requires c > 0 && a < b
    ensures c * a < c * b
  {
  }

  /** The loop stops at one pass only: the first pass within tolerance is unique. */
  lemma FirstWithinUnique(vInt: int, k1: nat, k2: nat)
    requires vInt > 0 && IsFirstWithin(vInt, k1) && IsFirstWithin(vInt, k2)
    ensures k1 == k2
  {
  }

  /** The approximation is the first convergent within tolerance, in lowest terms. */
  lemma ApproximationIsFirstWithin(vInt: int)
    requires vInt > 0
    ensures IsFirstWithin(vInt, SearchFrom(vInt, 0))
    ensures Approximation(vInt).d >= 1
    ensures 10000 * Abs(vInt * Approximation(vInt).d - 100 * Approximation(vInt).n) <= vInt * Approximation(vInt).d
    ensures Coprime(Approximation(vInt).n, Approximation(vInt).d)
  {
    var k := SearchFrom(vInt, 0);
    IterateInvariant(vInt, k);
    DeterminantCoprime(Approximation(vInt));
  }

  /** A determinant of +-1 leaves no common factor. */
  lemma DeterminantCoprime(s: CfState)
    requires s.n * s.d2 - s.n2 * s.d == 1 || s.n * s.d2 - s.n2 * s.d == -1
    ensures Coprime(s.n, s.d)
  {
    forall g | g > 1
      ensures !(Divides(g, s.n) && Divides(g, s.d))
    {
      if Divides(g, s.n) && Divides(g, s.d) {
        var t := CommonDivisorDividesDeterminant(g, s);
        NoUnitMultiple(g, t);
        assert false;
      }
    }
  }

  /** A common divisor of n and d divides n * d2 - n2 * d. */
  lemma CommonDivisorDividesDeterminant(g: int, s: CfState) returns (t: int)
    requires g > 0 && Divides(g, s.n) && Divides(g, s.d)
    ensures s.n * s.d2 - s.n2 * s.d == g * t
  {
    var a := s.n / g;
    var b := s.d / g;
    assert s.n == g * a && s.d == g * b;
    t := a * s.d2 - s.n2 * b;
    assert s.n * s.d2 == g * (a * s.d2);
    assert s.n2 * s.d == g * (s.n2 * b);
  }

  /** No multiple of g > 1 is 1 or -1. */
  lemma NoUnitMultiple(g: int, t: int)
    requires g > 1
    ensures g * t != 1 && g * t != -1
  {
  }

  // ---------------------------------------------------------------------------
  // Worked expansions
  // ---------------------------------------------------------------------------

  /** A loop that stops after the first pass. */
  lemma FirstWithinAtOne(vInt: int)
    requires vInt > 0 && Within(vInt, Iterate(vInt, 1))
    ensures IsFirstWithin(vInt, 1)
  {
  }

  /** A loop that stops after the second pass. */
  lemma FirstWithinAtTwo(vInt: int)
    requires vInt > 0 && !Within(vInt, Iterate(vInt, 1)) && Within(vInt, Iterate(vInt, 2))
    ensures IsFirstWithin(vInt, 2)
  {
  }

  /** A loop that stops after the third pass. */
  lemma FirstWithinAtThree(vInt: int)
    requires vInt > 0 && !Within(vInt, Iterate(vInt, 1)) && !Within(vInt, Iterate(vInt, 2))
    requires Within(vInt, Iterate(vInt, 3))
    ensures IsFirstWithin(vInt, 3)
  {
  }

  /** 1.33 gives 33/100 (0/1, 1/3, then 33/100). */
  lemma ApproximatesOnePointThirtyThree()
    ensures IsFirstWithin(33, 3)
    ensures Iterate(33, 3).n == 33 && Iterate(33, 3).d == 100
  {
    var s1 := CfState(0, 1, 1, 0, 33, 100);
    assert Iterate(33, 1) == s1;
    var s2 := CfState(1, 0, 3, 1, 1, 33);
    assert Step(s1) == s2;
    assert Iterate(33, 2) == s2;
    var s3 := CfState(33, 1, 100, 3, 0, 1);
    assert Step(s2) == s3;
    assert Iterate(33, 3) == s3;
    FirstWithinAtThree(33);
  }

  /** The pass the loop stops at determines the approximation. */
  lemma ApproximationAt(vInt: int, k: nat)
    requires vInt > 0 && IsFirstWithin(vInt, k)
    ensures Approximation(vInt) == Iterate(vInt, k)
  {
  }

  /** 2.33 gives 133/100 (1/1, 4/3, then 133/100). */
  lemma ApproximatesTwoPointThirtyThree()
    ensures IsFirstWithin(133, 3)
    ensures Iterate(133, 3).n == 133 && Iterate(133, 3).d == 100
  {
    var s1 := CfState(1, 1, 1, 0, 33, 100);
    assert Iterate(133, 1) == s1;
    var s2 := CfState(4, 1, 3, 1, 1, 33);
    assert Step(s1) == s2;
    assert Iterate(133, 2) == s2;
    var s3 := CfState(133, 4, 100, 3, 0, 1);
    assert Step(s2) == s3;
    assert Iterate(133, 3) == s3;
    FirstWithinAtThree(133);
  }

  /** 1.50 gives 1/2. */
  lemma ApproximatesOnePointFive()
    ensures IsFirstWithin(50, 2) && Iterate(50, 2).n == 1 && Iterate(50, 2).d == 2
  {
    var s1 := CfState(0, 1, 1, 0, 50, 100);
    assert Iterate(50, 1) == s1;
    var s2 := CfState(1, 0, 2, 1, 0, 50);
    assert Step(s1) == s2;
    assert Iterate(50, 2) == s2;
    FirstWithinAtTwo(50);
  }

  /** 2.00 gives 1/1. */
  lemma ApproximatesEvens()
    ensures IsFirstWithin(100, 1) && Iterate(100, 1).n == 1 && Iterate(100, 1).d == 1
  {
  }
}
