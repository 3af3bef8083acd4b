/** Linear-to-three-dimensional index decomposition (src/tools/lin/index.rs). */
module LinIndex {

  /** A `[usize; 3]` index or resolution, in x, y, z order. */
  datatype Index3 = Index3(x: nat, y: nat, z: nat)

  /**
   * `three_dim`: splits a linear index into x, y, z with z varying fastest.
   * The y and z resolutions are divisors, so they must be non-zero; the x
   * resolution is never read.
   */
  function ThreeDim(n: nat, res: Index3): (r: Index3)
    requires res.y > 0 && res.z > 0
    ensures r.z < res.z && r.y < res.y
  {
    Index3(n / (res.y * res.z), (n / res.z) % res.y, n % res.z)
  }

  /** Integer division by a product is division by each factor in turn. */
  lemma {:induction false} DivDiv(n: nat, a: nat, b: nat)
    requires a > 0 && b > 0
    ensures n / (a * b) == (n / b) / a
  {
    var m, t := n / b, n % b;
    var q, r := m / a, m % a;
    assert n == m * b + t;
    assert m == q * a + r;
    Regroup(q, a, r, b, t);
    LowerPart(r, a, b, t);
    DivUnique(n, a * b, q, r * b + t);
  }

  /** (q*a + r)*b + t regrouped as a multiple of a*b plus the rest. */
  lemma Regroup(q: int, a: int, r: int, b: int, t: int)
    ensures (q * a + r) * b + t == q * (a * b) + (r * b + t)
  {
  }

  /** A remainder modulo a, scaled by b, plus a remainder modulo b, is a remainder modulo a*b. */
  lemma LowerPart(r: int, a: int, b: int, t: int)
    requires 0 <= r < a && 0 <= t < b
    ensures 0 <= r * b + t < a * b
  {
    assert r * b <= (a - 1) * b;
  }

  /** Quotient and remainder are determined by n == q * d + r with 0 <= r < d. */
  lemma {:induction false} DivUnique(n: nat, d: nat, q: int, r: int)
    requires d > 0 && 0 <= r < d && n == q * d + r
    ensures n / d == q && n % d == r
  {
    var q', r' := n / d, n % d;
    assert n == q' * d + r';
    assert (q' - q) * d == r - r' by {
      assert q' * d - q * d == (q' - q) * d;
    }
    if q' - q >= 1 {
      MulAtLeast(q' - q, d);
    } else if q - q' >= 1 {
      MulAtLeast(q - q', d);
    }
  }

  lemma MulAtLeast(k: int, d: nat)
    requires k >= 1
    ensures k * d >= d
  {
  }

  /** Round trip: the three components recombine into the linear index. */
  lemma {:induction false} ThreeDimRecombines(n: nat, res: Index3)
    requires res.y > 0 && res.z > 0
    ensures var r := ThreeDim(n, res);
      r.x * res.y * res.z + r.y * res.z + r.z == n
  {
    var r := ThreeDim(n, res);
    DivDiv(n, res.y, res.z);
    assert n / res.z == r.x * res.y + r.y;
    assert n == (n / res.z) * res.z + r.z;
    assert (r.x * res.y + r.y) * res.z == r.x * res.y * res.z + r.y * res.z;
  }

  /** A linear index inside the grid gives an x component inside the grid. */
  lemma {:induction false} ThreeDimInRange(n: nat, res: Index3)
    requires res.y > 0 && res.z > 0
    requires n < res.x * res.y * res.z
    ensures ThreeDim(n, res).x < res.x
  {
    var r := ThreeDim(n, res);
    ThreeDimRecombines(n, res);
  }

  /** Inverse: decomposing the linear index of an in-range triple gives the triple back. */
  lemma {:induction false} ThreeDimInverse(x: nat, y: nat, z: nat, res: Index3)
    requires res.y > 0 && res.z > 0
    requires y < res.y && z < res.z
    ensures ThreeDim(x * res.y * res.z + y * res.z + z, res) == Index3(x, y, z)
  {
    var n := x * res.y * res.z + y * res.z + z;
    var q := x * res.y + y;
    assert n == q * res.z + z by {
      assert (x * res.y + y) * res.z == x * res.y * res.z + y * res.z;
    }
    DivUnique(n, res.z, q, z);
    DivUnique(q, res.y, x, y);
    DivDiv(n, res.y, res.z);
  }

  /** The x resolution does not influence the decomposition. */
  lemma ThreeDimIgnoresX(n: nat, res: Index3, otherX: nat)
    requires res.y > 0 && res.z > 0
    ensures ThreeDim(n, res) == ThreeDim(n, res.(x := otherX))
  {
  }
}
