/** Single-argument formulae of the function toolkit (src/sci/math/func/formula.rs). */
module FuncFormula {
  import LambdaFormula

  /** A formula of one scalar argument. */
  datatype Formula =
    | Constant(c: real)
    | Linear(c: real, m: real)
    | Bifurcation(t: real, under: real, over: real)

  /**
   * `Formula::y`: total over every variant; it agrees with the lambda
   * toolkit's formula of the same name, and a bifurcation takes one of its
   * two values.
   */
  function Y(f: Formula, x: real): (y: real)
    ensures y == LambdaFormula.Value(AsLambda(f), x)
    ensures f.Bifurcation? ==> y == f.under || y == f.over
  {
    match f
    case Constant(c) => c
    case Linear(c, m) => x * m + c
    case Bifurcation(t, under, over) => if x < t then under else over
  }

  /** The same formula in the lambda toolkit, which has these three variants among others. */
  function AsLambda(f: Formula): LambdaFormula.Formula {
    match f
    case Constant(c) => LambdaFormula.Constant(c)
    case Linear(c, m) => LambdaFormula.Linear(c, m)
    case Bifurcation(t, under, over) => LambdaFormula.Bifurcation(t, under, over)
  }

  /** A flat line is a constant. */
  lemma FlatLinearIsConstant(c: real, x: real)
    ensures Y(Linear(c, 0.0), x) == Y(Constant(c), x)
  {
  }

  /** A linear formula with non-negative gradient never decreases. */
  lemma {:induction false} LinearMonotone(c: real, m: real, x1: real, x2: real)
    requires m >= 0.0 && x1 <= x2
    ensures Y(Linear(c, m), x1) <= Y(Linear(c, m), x2)
  {
    assert x2 * m - x1 * m == (x2 - x1) * m;
  }

  /** At the threshold a bifurcation already takes its over value, and below it the under value. */
  lemma BifurcationAtThreshold(t: real, under: real, over: real, x: real)
    ensures Y(Bifurcation(t, under, over), t) == over
    ensures x < t ==> Y(Bifurcation(t, under, over), x) == under
  {
  }
}
