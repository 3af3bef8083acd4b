/** Single-argument formulae of the lambda toolkit (src/sci/math/lambda/formula.rs). */
module LambdaFormula {

  /** A formula of one scalar argument. */
  datatype Formula =
    | X
    | Constant(c: real)
    | Linear(c: real, m: real)
    | Polynomial(cs: seq<real>)
    | Recovery(c: real, r: real)
    | Bifurcation(t: real, a: real, b: real)

  /** `powi`: x raised to a natural power. */
  function Pow(x: real, i: nat): real {
    if i == 0 then 1.0 else x * Pow(x, i - 1)
  }

  /** The polynomial sum cs[0] + cs[1]*x + ... + cs[n-1]*x^(n-1), accumulated in coefficient order. */
  function PolySum(cs: seq<real>, x: real): real {
    if |cs| == 0 then 0.0
    else PolySum(cs[..|cs| - 1], x) + cs[|cs| - 1] * Pow(x, |cs| - 1)
  }

  /** Horner's rule, an independent way to evaluate the same polynomial. */
  function Horner(cs: seq<real>, x: real): real {
    if |cs| == 0 then 0.0 else cs[0] + x * Horner(cs[1..], x)
  }

  /** The value of a formula at x. */
  function Value(f: Formula, x: real): real {
    match f
    case X => x
    case Constant(c) => c
    case Linear(c, m) => x * m + c
    case Polynomial(cs) => PolySum(cs, x)
    case Recovery(c, r) => (c - x) * r
    case Bifurcation(t, a, b) => if x < t then a else b
  }

  /** `Formula::y`: every arm is an expression except the polynomial, which sums term by term. */
  method Y(f: Formula, x: real) returns (y: real)
    ensures y == Value(f, x)
  {
    match f {
      case X =>
        y := x;
      case Constant(c) =>
        y := c;
      case Linear(c, m) =>
        y := x * m + c;
      case Polynomial(cs) =>
        var sum := 0.0;
        for i := 0 to |cs|
          invariant sum == PolySum(cs[..i], x)
        {
          assert cs[..i + 1][..i] == cs[..i];
          sum := sum + cs[i] * Pow(x, i);
        }
        assert cs[..|cs|] == cs;
        y := sum;
      case Recovery(c, r) =>
        y := (c - x) * r;
      case Bifurcation(t, a, b) =>
        y := if x < t then a else b;
    }
  }

  /** Appending a coefficient to Horner's rule adds its term at the top power. */
  lemma {:induction false} HornerSnoc(cs: seq<real>, c: real, x: real)
    ensures Horner(cs + [c], x) == Horner(cs, x) + c * Pow(x, |cs|)
    decreases |cs|
  {
    if |cs| == 0 {
      assert Horner([c], x) == c + x * Horner([], x);
    } else {
      var rest := cs[1..];
      assert (cs + [c])[1..] == rest + [c];
      HornerSnoc(rest, c, x);
      var h, p := Horner(rest, x), Pow(x, |rest|);
      assert Horner(cs + [c], x) == cs[0] + x * (h + c * p);
      Distribute(x, h, c, p);
      assert Pow(x, |cs|) == x * p;
    }
  }

  lemma Distribute(x: real, h: real, c: real, p: real)
    ensures x * (h + c * p) == x * h + c * (x * p)
  {
  }

  /** The term-by-term sum agrees with Horner's rule for every coefficient list. */
  lemma {:induction false} PolySumIsHorner(cs: seq<real>, x: real)
    ensures PolySum(cs, x) == Horner(cs, x)
    decreases |cs|
  {
    if |cs| > 0 {
      var n := |cs| - 1;
      PolySumIsHorner(cs[..n], x);
      HornerSnoc(cs[..n], cs[n], x);
      assert cs[..n] + [cs[n]] == cs;
    }
  }

  /** A polynomial with no coefficients is zero everywhere. */
  lemma PolynomialEmpty(x: real)
    ensures Value(Polynomial([]), x) == 0.0
  {
  }

  /** A polynomial with one coefficient is that constant. */
  lemma PolynomialConstant(c: real, x: real)
    ensures Value(Polynomial([c]), x) == Value(Constant(c), x)
  {
    assert [c][..0] == [];
    assert PolySum([c], x) == PolySum([], x) + c * Pow(x, 0);
  }

  /** A polynomial with two coefficients is the linear formula with that offset and gradient. */
  lemma PolynomialLinear(c: real, m: real, x: real)
    ensures Value(Polynomial([c, m]), x) == Value(Linear(c, m), x)
  {
    assert [c, m][..1] == [c];
    assert [c][..0] == [];
    assert PolySum([c], x) == PolySum([], x) + c * Pow(x, 0);
    assert PolySum([c, m], x) == PolySum([c], x) + m * Pow(x, 1);
    assert Pow(x, 1) == x * Pow(x, 0);
  }

  /** Trailing zero coefficients do not change a polynomial. */
  lemma PolynomialTrailingZero(cs: seq<real>, x: real)
    ensures Value(Polynomial(cs + [0.0]), x) == Value(Polynomial(cs), x)
  {
    assert (cs + [0.0])[..|cs|] == cs;
  }

  /** Recovery vanishes at its target value and has the sign of r on the side below it. */
  lemma RecoveryAtTarget(c: real, r: real, x: real)
    ensures Value(Recovery(c, r), c) == 0.0
    ensures x < c && r > 0.0 ==> Value(Recovery(c, r), x) > 0.0
  {
  }

  /** A bifurcation takes only its two values, switching exactly at the threshold. */
  lemma BifurcationSwitches(t: real, a: real, b: real, x: real)
    ensures Value(Bifurcation(t, a, b), x) == a || Value(Bifurcation(t, a, b), x) == b
    ensures Value(Bifurcation(t, a, b), t) == b
  {
  }
}
