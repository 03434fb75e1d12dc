/**
 Rounding to 32-bit floats, to nearest with ties to even. Exponents are not bounded: nothing that is
 modelled comes near underflow or overflow.
 */
module Floats {
  import opened Reals

  /** A significand has 24 bits. */
  const LIMIT := 0x100_0000
  const HALF_LIMIT := 0x80_0000

  function NearestEven(x: real): int {
    var below := x.Floor;
    var rest := x - below as real;
    if rest < 0.5 || (rest == 0.5 && below % 2 == 0) then below else below + 1
  }

  lemma {:induction false} NearestEvenIsNear(x: real)
    ensures -0.5 <= NearestEven(x) as real - x <= 0.5
  {
  }

  lemma {:induction false} NearestEvenKeepsBounds(x: real, k: int)
    ensures x <= k as real ==> NearestEven(x) <= k
    ensures x >= k as real ==> NearestEven(x) >= k
    ensures NearestEven(k as real) == k
  {
  }

  /** How many doublings or halvings, at most, bring `x` to where the unit in the last place is one. */
  function Distance(x: real): nat
    requires x >= 0.0
  {
    if x >= LIMIT as real then x.Floor else if x == 0.0 then 0 else (HALF_LIMIT as real / x).Floor
  }

  lemma {:induction false} DoublingIsCloser(x: real)
    requires 0.0 < x < HALF_LIMIT as real
    ensures Distance(2.0 * x) < Distance(x)
  {
    var q := HALF_LIMIT as real / x;
    FactorAboveOne(q, x);
    assert HALF_LIMIT as real / (2.0 * x) == q / 2.0;
  }

  lemma {:induction false} FactorAboveOne(q: real, x: real)
    requires x > 0.0 && q * x > x
    ensures q > 1.0
  {
  }

  lemma {:induction false} HalvingIsCloser(x: real)
    requires x >= LIMIT as real
    ensures Distance(x / 2.0) < Distance(x)
  {
    var half := x / 2.0;
    if half < LIMIT as real {
      AtMostOne(HALF_LIMIT as real / half, half);
    }
  }

  lemma {:induction false} AtMostOne(q: real, x: real)
    requires x >= HALF_LIMIT as real && q * x == HALF_LIMIT as real
    ensures q <= 1.0
  {
    assert (1.0 - q) * x >= 0.0;
  }

  function Magnitude(x: real): real
    requires x >= 0.0
    decreases Distance(x)
  {
    if x == 0.0 then 0.0
    else if x >= LIMIT as real then
      HalvingIsCloser(x);
      2.0 * Magnitude(x / 2.0)
    else if x >= HALF_LIMIT as real then NearestEven(x) as real
    else
      DoublingIsCloser(x);
      Magnitude(2.0 * x) / 2.0
  }

  function Float(x: real): real {
    if x < 0.0 then -Magnitude(-x) else Magnitude(x)
  }

  /** Numbers that 32-bit floats represent. */
  predicate IsFloat(x: real) {
    Float(x) == x
  }

  // ----- Scaling by powers of two

  function Scaled(x: real, n: nat): real {
    if n == 0 then x else 2.0 * Scaled(x, n - 1)
  }

  lemma {:induction false} FloatDoubles(x: real)
    ensures Float(2.0 * x) == 2.0 * Float(x)
  {
  }

  lemma {:induction false} FloatScales(x: real, n: nat)
    ensures Float(Scaled(x, n)) == Scaled(Float(x), n)
  {
    if n > 0 {
      FloatScales(x, n - 1);
      FloatDoubles(Scaled(x, n - 1));
    }
  }

  /** Scaling by the size of a significand. */
  lemma {:induction false} FloatOfFraction(x: real)
    ensures Float(16777216.0 * x) == 16777216.0 * Float(x)
  {
    FloatScales(x, 24);
    ScaledByBytes(x);
    ScaledByBytes(Float(x));
  }

  lemma {:induction false} ScaledByBytes(x: real)
    ensures Scaled(x, 24) == 16777216.0 * x
  {
    ScaledByByte(x, 0);
    ScaledByByte(x, 8);
    ScaledByByte(x, 16);
  }

  lemma {:induction false} ScaledByByte(x: real, n: nat)
    ensures Scaled(x, n + 8) == 256.0 * Scaled(x, n)
  {
    assert Scaled(x, n + 2) == 4.0 * Scaled(x, n);
    assert Scaled(x, n + 4) == 4.0 * Scaled(x, n + 2);
    assert Scaled(x, n + 6) == 4.0 * Scaled(x, n + 4);
    assert Scaled(x, n + 8) == 4.0 * Scaled(x, n + 6);
  }

  // ----- Where floats are exact

  lemma {:induction false} IntegersAreFloats(k: int)
    requires -LIMIT <= k <= LIMIT
    ensures IsFloat(k as real)
  {
    IntegerMagnitude(if k < 0 then -k else k);
  }

  lemma {:induction false} IntegerMagnitude(k: nat)
    requires k <= LIMIT
    ensures Magnitude(k as real) == k as real
    decreases LIMIT - k
  {
    if 0 < k < HALF_LIMIT {
      IntegerMagnitude(2 * k);
    } else {
      NearestEvenKeepsBounds(k as real, k);
      NearestEvenKeepsBounds(HALF_LIMIT as real, HALF_LIMIT);
    }
  }

  /** Multiples of 2 to the power -24 up to one are floats. */
  lemma {:induction false} FractionsAreFloats(k: int)
    requires -LIMIT <= k <= LIMIT
    ensures IsFloat(k as real / 16777216.0)
  {
    FloatOfFraction(k as real / 16777216.0);
    IntegersAreFloats(k);
  }

  /** Between one half and one, rounding is to the nearest such multiple. */
  lemma {:induction false} FloatBelowOne(y: real)
    requires HALF_LIMIT as real <= y < LIMIT as real
    ensures Float(y / 16777216.0) == NearestEven(y) as real / 16777216.0
  {
    FloatOfFraction(y / 16777216.0);
  }

  lemma {:induction false} FloatsAreFloats(x: real)
    ensures IsFloat(Float(x))
  {
    MagnitudesAreFloats(if x < 0.0 then -x else x);
  }

  lemma {:induction false} MagnitudesAreFloats(x: real)
    requires x >= 0.0
    ensures Magnitude(x) >= 0.0 && Magnitude(Magnitude(x)) == Magnitude(x)
    decreases Distance(x)
  {
    if x >= LIMIT as real {
      HalvingIsCloser(x);
      MagnitudesAreFloats(x / 2.0);
      HalvesAndDoubles(Magnitude(x / 2.0));
    } else if x >= HALF_LIMIT as real {
      NearestEvenKeepsBounds(x, HALF_LIMIT);
      NearestEvenKeepsBounds(x, LIMIT);
      IntegerMagnitude(NearestEven(x));
    } else if x > 0.0 {
      DoublingIsCloser(x);
      MagnitudesAreFloats(2.0 * x);
      HalvesAndDoubles(Magnitude(2.0 * x));
    }
  }

  lemma {:induction false} HalvesAndDoubles(x: real)
    requires x >= 0.0 && Magnitude(x) == x
    ensures Magnitude(2.0 * x) == 2.0 * x && Magnitude(x / 2.0) == x / 2.0
  {
    FloatDoubles(x);
    FloatDoubles(x / 2.0);
    assert 2.0 * (x / 2.0) == x;
  }

  /** A float below one is below it by at least a unit in the last place. */
  lemma {:induction false} FloatsBelowOne(x: real)
    requires IsFloat(x) && x < 1.0
    ensures x <= 1.0 - 1.0 / 16777216.0
  {
    if x >= 0.5 {
      FloatBelowOne(16777216.0 * x);
    }
  }

  // ----- How near floats are

  lemma {:induction false} MagnitudeIsNear(x: real)
    requires 0.0 <= x < LIMIT as real
    ensures Abs(Magnitude(x) - x) <= 0.5
    decreases Distance(x)
  {
    if x >= HALF_LIMIT as real {
      NearestEvenIsNear(x);
    } else if x > 0.0 {
      DoublingIsCloser(x);
      MagnitudeIsNear(2.0 * x);
    }
  }

  lemma {:induction false} FloatIsNear(x: real)
    requires Abs(x) < LIMIT as real
    ensures Abs(Float(x) - x) <= 0.5
  {
    MagnitudeIsNear(Abs(x));
  }

  /** Below one, rounding errs by at most 2 to the power -25. */
  lemma {:induction false} SmallFloatIsNear(x: real)
    requires Abs(x) < 1.0
    ensures Abs(Float(x) - x) <= 0.5 / 16777216.0
  {
    FloatOfFraction(x);
    FloatIsNear(16777216.0 * x);
  }

  /** Rounding does not pass an integer of 24 bits. */
  lemma {:induction false} FloatStaysBelow(x: real, k: int)
    requires 0.0 <= x <= k as real && k <= LIMIT
    ensures 0.0 <= Float(x) <= k as real
    decreases Distance(x)
  {
    if x >= LIMIT as real {
      IntegersAreFloats(k);
    } else if x >= HALF_LIMIT as real {
      NearestEvenKeepsBounds(x, k);
      NearestEvenKeepsBounds(x, 0);
    } else if x > 0.0 {
      DoublingIsCloser(x);
      FloatStaysBelow(2.0 * x, if 2 * k <= LIMIT then 2 * k else LIMIT);
    }
  }

  /** A number of at least one and below two does not round below one. */
  lemma {:induction false} FloatStaysAbove(x: real)
    requires 1.0 <= x < 2.0
    ensures Float(x) >= 1.0
  {
    FloatDoubles(x / 2.0);
    FloatBelowOne(16777216.0 * (x / 2.0));
    NearestEvenKeepsBounds(16777216.0 * (x / 2.0), HALF_LIMIT);
  }

  /** Up to eight, rounding errs by at most 2 to the power -22, and up to two by at most 2 to the power -24. */
  lemma {:induction false} FloatIsNearUpTo(x: real)
    requires Abs(x) < 8.0
    ensures Abs(Float(x) - x) <= 4.0 / 16777216.0
    ensures Abs(x) < 2.0 ==> Abs(Float(x) - x) <= 1.0 / 16777216.0
  {
    FloatDoubles(x / 2.0);
    FloatDoubles(x / 4.0);
    FloatDoubles(x / 8.0);
    SmallFloatIsNear(x / 8.0);
    if Abs(x) < 2.0 {
      SmallFloatIsNear(x / 2.0);
    }
  }

  lemma {:induction false} FloatIsOdd(x: real)
    ensures Float(-x) == -Float(x)
  {
  }
}
