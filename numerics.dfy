/** The arithmetic the canonicaliser relies on, over exact reals.
    Decimal rounding is Python's round-half-to-even carried out on exact values;
    everything that depends on the IEEE-754 representation (the ".7g" read-back,
    the normalisation epsilon, machine epsilon, the logarithm, the number of safe
    decimal digits) is kept abstract in an `Env` supplied by the caller. */
module Numerics {

  function Abs(x: real): (r: real)
    ensures r >= 0.0 && (r == x || r == -x)
  {
    if x < 0.0 then -x else x
  }

  /** 10 to the power n, as a real. */
  function Scale(n: nat): (p: real)
    ensures p >= 1.0
  {
    if n == 0 then 1.0 else 10.0 * Scale(n - 1)
  }

  /** x with its decimal point moved n places to the right. */
  function Shifted(x: real, n: nat): real
  {
    x * Scale(n)
  }

  /** The integer nearest to y; a tie goes to the even neighbour. */
  function RoundHalfEven(y: real): (r: int)
    ensures -0.5 <= r as real - y <= 0.5
  {
    var f := y.Floor;
    var frac := y - f as real;
    if frac < 0.5 then f
    else if frac > 0.5 then f + 1
    else if f % 2 == 0 then f
    else f + 1
  }

  /** Python's `round(x, n)`: x rounded to n decimal places. */
  function Round(x: real, n: nat): real
  {
    RoundHalfEven(Shifted(x, n)) as real / Scale(n)
  }

  /** Rounding to whole numbers never moves a value by more than one half. */
  lemma RoundToWhole(x: real)
    ensures Abs(Round(x, 0) - x) <= 0.5
  {
    assert Scale(0) == 1.0;
    assert Shifted(x, 0) == x;
    assert Round(x, 0) == RoundHalfEven(x) as real;
  }

  /** Rounding commutes with negation, so `round(abs(x), n) == abs(round(x, n))`. */
  lemma RoundOdd(x: real, n: nat)
    ensures Round(-x, n) == -Round(x, n)
    ensures Round(Abs(x), n) == Abs(Round(x, n))
  {
    var p := Scale(n);
    var y := Shifted(x, n);
    assert Shifted(-x, n) == -y;
    RoundHalfEvenOdd(y);
    var q := RoundHalfEven(y) as real;
    assert Round(x, n) == q / p;
    assert Round(-x, n) == (-q) / p;
    NegateQuotient(q, p);
    if x < 0.0 {
      assert y <= 0.0 by { NonPositiveProduct(x, p); }
      SignOfQuotient(-q, p);
    } else {
      assert y >= 0.0;
      SignOfQuotient(q, p);
    }
  }

  lemma NegateQuotient(q: real, p: real)
    requires p > 0.0
    ensures (-q) / p == -(q / p)
  {
  }

  lemma SignOfQuotient(q: real, p: real)
    requires q >= 0.0 && p > 0.0
    ensures q / p >= 0.0
  {
  }

  lemma NonPositiveProduct(x: real, p: real)
    requires x < 0.0 && p > 0.0
    ensures x * p <= 0.0
  {
  }

  lemma RoundHalfEvenOdd(y: real)
    ensures RoundHalfEven(-y) == -RoundHalfEven(y)
  {
    var f := y.Floor;
    var g := (-y).Floor;
    if y == f as real {
      assert g == -f;
    } else {
      assert g == -f - 1;
      assert (-y) - g as real == 1.0 - (y - f as real);
      if y - f as real == 0.5 {
        assert f % 2 == 0 <==> g % 2 != 0;
      }
    }
  }

  /** The floating-point environment: what the source reads from `sys.float_info`,
      `neat.math_util` and `math`, without modelling how doubles compute it. */
  datatype Env = Env(
    dig: nat,                  // decimal digits a double carries safely (sys.float_info.dig)
    normEpsilon: real,         // NORM_EPSILON
    sqrtEpsilon: real,         // square root of the machine epsilon
    sevenDigits: real -> real, // x printed with ".7g" and read back as a number
    log2: real -> real         // math.log(x, 2)
  )
}
