/** The bcmath operations the conversion engine uses.  bcmath computes every result
    exactly and then truncates it toward zero to the scale the caller asks for; the
    strings it passes between calls are represented here by their exact values. */
module BcMath {
  import opened Decimals

  /** The number x truncated toward zero to k fraction digits, as a count of 10^-k. */
  function Trunc(x: Dec, k: nat): (r: int)
    ensures x.units >= 0 ==> 0 <= r * Pow10(x.scale) <= x.units * Pow10(k) < r * Pow10(x.scale) + Pow10(x.scale)
    ensures x.units < 0 ==> r * Pow10(x.scale) - Pow10(x.scale) < x.units * Pow10(k) <= r * Pow10(x.scale) <= 0
  {
    TruncDiv(x.units * Pow10(k), Pow10(x.scale))
  }

  /** The exact quotient num / den, truncated toward zero to k fraction digits. */
  function Truncated(num: int, den: int, k: nat): (r: Dec)
    requires den != 0
    ensures r.scale == k
    ensures den > 0 ==> r.units == TruncDiv(num * Pow10(k), den)
    ensures den < 0 ==> r.units == TruncDiv(-(num * Pow10(k)), -den)
  {
    Dec(Quot(num * Pow10(k), den), k)
  }

  /** `bcadd(a, b, k)` */
  function Add(a: Dec, b: Dec, k: nat): (r: Dec)
    ensures r.scale == k
  {
    Truncated(a.units * Pow10(b.scale) + b.units * Pow10(a.scale), Pow10(a.scale) * Pow10(b.scale), k)
  }

  /** `bcsub(a, b, k)` */
  function Sub(a: Dec, b: Dec, k: nat): (r: Dec)
    ensures r.scale == k
  {
    Truncated(a.units * Pow10(b.scale) - b.units * Pow10(a.scale), Pow10(a.scale) * Pow10(b.scale), k)
  }

  /** `bcmul(a, b, k)` */
  function Mul(a: Dec, b: Dec, k: nat): (r: Dec)
    ensures r.scale == k
  {
    Truncated(a.units * b.units, Pow10(a.scale) * Pow10(b.scale), k)
  }

  /** `bcdiv(a, b, k)`; bcmath refuses a zero divisor. */
  function Div(a: Dec, b: Dec, k: nat): (r: Dec)
    requires b.units != 0
    ensures r.scale == k
  {
    Truncated(a.units * Pow10(b.scale), b.units * Pow10(a.scale), k)
  }

  /** `bccomp(a, b, k)`: both operands are truncated to k fraction digits first. */
  function Comp(a: Dec, b: Dec, k: nat): (r: int)
    ensures r == -1 || r == 0 || r == 1
    ensures r < 0 <==> Trunc(a, k) < Trunc(b, k)
    ensures r == 0 <==> Trunc(a, k) == Trunc(b, k)
  {
    var x := Trunc(a, k);
    var y := Trunc(b, k);
    if x < y then -1 else if x == y then 0 else 1
  }

  // ---------------------------------------------------------------------------
  // Lemmas
  // ---------------------------------------------------------------------------

  /** Reading a number at its own scale changes nothing. */
  lemma TruncOwnScale(x: Dec)
    ensures Trunc(x, x.scale) == x.units
  {
    DivExact(x.units, Pow10(x.scale));
  }

  /** Truncating an integer-valued number to two digits gives its hundredths. */
  lemma TruncWholeTo2(t: int)
    ensures Trunc(Dec(t, 0), 2) == 100 * t
  {
  }

  /** Truncating to none or two fraction digits, the forms the engine compares at. */
  lemma TruncTo0And2(x: Dec)
    ensures Trunc(x, 0) == TruncDiv(x.units, Pow10(x.scale))
    ensures Trunc(x, 2) == TruncDiv(100 * x.units, Pow10(x.scale))
  {
  }

  /** x >= 1 exactly when its two-digit truncation reaches 1.00: the test
      `bccomp($x, '1.0', 2) < 0` rejects precisely the numbers below one. */
  lemma CompWithOne(x: Dec)
    ensures Comp(x, Dec(10, 1), 2) < 0 <==> !AtLeastOne(x)
  {
    Pow10Small();
    assert Trunc(Dec(10, 1), 2) == 100 by {
      DivExact(100, 10);
    }
    var D := Pow10(x.scale);
    var t := Trunc(x, 2);
    if x.units >= D {
      MulMono(100, D, x.units);
      assert t * D + D > 100 * x.units >= 100 * D;
      if t < 100 {
        MulMono(D, t, 99);
        assert false;
      }
    } else if x.units >= 0 {
      assert t * D <= 100 * x.units < 100 * D;
      if t >= 100 {
        MulMono(D, 100, t);
        assert false;
      }
    }
  }
}
