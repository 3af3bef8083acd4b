/** Formulae of several scalar arguments (src/sci/math/lambda/multivariate.rs). */
module Multivariate {
  import opened Wrappers

  /**
   * A formula over an argument list. The `new_*` constructors of the source
   * build exactly one variant from their fields, which is what these
   * datatype constructors do.
   */
  datatype Multivariate =
    | Sum
    | Constant(v: real)
    | ScaledFirstOrder(k: real, a: nat)
    | ScaledSecondOrder(k: real, a: nat, b: nat)
    | ScaledThirdOrder(k: real, a: nat, b: nat, c: nat)
    | Weight(ws: seq<real>)
    | ScaledWeight(k: real, ws: seq<real>)

  /** Why a formula rejects its arguments: an index past the end, or weights of another length. */
  datatype Failure = InvalidIndex | LengthMismatch

  /** The sum of a list. */
  function Total(xs: seq<real>): real {
    if |xs| == 0 then 0.0 else xs[0] + Total(xs[1..])
  }

  /** The dot product of two lists of the same length. */
  function Dot(xs: seq<real>, ws: seq<real>): real
    requires |xs| == |ws|
  {
    if |xs| == 0 then 0.0 else xs[0] * ws[0] + Dot(xs[1..], ws[1..])
  }

  /** Whether a formula accepts an argument list of length n: its indices are in range and its weights have length n. */
  predicate Accepts(f: Multivariate, n: nat) {
    match f
    case Sum => true
    case Constant(_) => true
    case ScaledFirstOrder(_, a) => a < n
    case ScaledSecondOrder(_, a, b) => a < n && b < n
    case ScaledThirdOrder(_, a, b, c) => a < n && b < n && c < n
    case Weight(ws) => |ws| == n
    case ScaledWeight(_, ws) => |ws| == n
  }

  /**
   * `Multivariate::y`. An index past the end (where the source panics with
   * "Invalid index.") and a weight list of another length (where its
   * assertion fails) are reported as failures.
   */
  function Y(f: Multivariate, xs: seq<real>): (r: Result<real, Failure>)
    ensures r.Ok? <==> Accepts(f, |xs|)
    ensures r.Err? && (f.Weight? || f.ScaledWeight?) ==> r.error == LengthMismatch
    ensures r.Err? && !(f.Weight? || f.ScaledWeight?) ==> r.error == InvalidIndex
    ensures r.Ok? && f.Constant? ==> r.value == f.v
    ensures r.Ok? && f.Sum? ==> r.value == Total(xs)
  {
    match f
    case Sum => Ok(Total(xs))
    case Constant(c) => Ok(c)
    case ScaledFirstOrder(k, a) =>
      if a < |xs| then Ok(xs[a] * k) else Err(InvalidIndex)
    case ScaledSecondOrder(k, a, b) =>
      if a < |xs| && b < |xs| then Ok(xs[a] * xs[b] * k) else Err(InvalidIndex)
    case ScaledThirdOrder(k, a, b, c) =>
      if a < |xs| && b < |xs| && c < |xs| then Ok(xs[a] * xs[b] * xs[c] * k) else Err(InvalidIndex)
    case Weight(ws) =>
      if |xs| == |ws| then Ok(Dot(xs, ws)) else Err(LengthMismatch)
    case ScaledWeight(k, ws) =>
      if |xs| == |ws| then Ok(Dot(xs, ws) * k) else Err(LengthMismatch)
  }

  /** A list of n ones. */
  function Ones(n: nat): (os: seq<real>)
    ensures |os| == n && forall i | 0 <= i < n :: os[i] == 1.0
  {
    if n == 0 then [] else [1.0] + Ones(n - 1)
  }

  /** Weighting every argument by one is their sum. */
  lemma {:induction false} DotOnes(xs: seq<real>)
    ensures Dot(xs, Ones(|xs|)) == Total(xs)
    decreases |xs|
  {
    if |xs| > 0 {
      assert Ones(|xs|)[1..] == Ones(|xs| - 1);
      DotOnes(xs[1..]);
    }
  }

  /** The sum formula is the weight formula with unit weights. */
  lemma SumIsUnitWeight(xs: seq<real>)
    ensures Y(Sum, xs) == Y(Weight(Ones(|xs|)), xs)
  {
    DotOnes(xs);
  }

  /** A scaled weighting with scale one is the plain weighting, on every argument list. */
  lemma ScaledWeightUnit(ws: seq<real>, xs: seq<real>)
    ensures Y(ScaledWeight(1.0, ws), xs) == Y(Weight(ws), xs)
  {
  }

  /** Every entry of a list multiplied by s. */
  function ScaleAll(xs: seq<real>, s: real): (ys: seq<real>)
    ensures |ys| == |xs| && forall i | 0 <= i < |xs| :: ys[i] == s * xs[i]
  {
    if |xs| == 0 then [] else [s * xs[0]] + ScaleAll(xs[1..], s)
  }

  /** Weighting is linear in the arguments: scaling them all scales the result. */
  lemma {:induction false} DotScales(xs: seq<real>, ws: seq<real>, s: real)
    requires |xs| == |ws|
    ensures Dot(ScaleAll(xs, s), ws) == s * Dot(xs, ws)
    decreases |xs|
  {
    if |xs| > 0 {
      assert ScaleAll(xs, s)[1..] == ScaleAll(xs[1..], s);
      DotScales(xs[1..], ws[1..], s);
      assert ScaleAll(xs, s)[0] * ws[0] == s * (xs[0] * ws[0]);
    }
  }

  /** Scaling the arguments of a weight formula scales its value. */
  lemma WeightScales(ws: seq<real>, xs: seq<real>, s: real)
    requires |xs| == |ws|
    ensures Y(Weight(ws), ScaleAll(xs, s)).value == s * Y(Weight(ws), xs).value
  {
    DotScales(xs, ws, s);
  }

  /** The first-, second- and third-order formulae are the scaled products of the entries they index. */
  lemma ScaledOrdersAgree(k: real, a: nat, xs: seq<real>)
    requires a < |xs|
    ensures Y(ScaledSecondOrder(k, a, a), xs).value == Y(ScaledFirstOrder(k, a), xs).value * xs[a]
    ensures Y(ScaledThirdOrder(k, a, a, a), xs).value == Y(ScaledSecondOrder(k, a, a), xs).value * xs[a]
  {
    assert xs[a] * xs[a] * k == xs[a] * k * xs[a];
    assert xs[a] * xs[a] * xs[a] * k == xs[a] * xs[a] * k * xs[a];
  }
}
