/**
 * Three-dimensional grids of accumulated values as the MCRT output keeps
 * them (`ndarray::Array3<f64>`), stored flat in row-major order with the z
 * index varying fastest, as `three_dim` decomposes it.
 */
module GridData {
  import opened LinIndex

  /** The number of cells of a grid with the given resolution. */
  function Cells(res: Index3): nat {
    res.x * res.y * res.z
  }

  /** A grid of n zeros. */
  function Zeros(n: nat): (z: seq<real>)
    ensures |z| == n && forall i | 0 <= i < n :: z[i] == 0.0
  {
    seq(n, _ => 0.0)
  }

  /** The element-wise sum of two grids of the same shape. */
  function Plus(a: seq<real>, b: seq<real>): (c: seq<real>)
    requires |a| == |b|
    ensures |c| == |a| && forall i | 0 <= i < |a| :: c[i] == a[i] + b[i]
  {
    seq(|a|, i requires 0 <= i < |a| => a[i] + b[i])
  }

  /** Adding a zero grid changes nothing. */
  lemma PlusZeros(a: seq<real>)
    ensures Plus(a, Zeros(|a|)) == a
  {
  }

  /** Merging is order-independent: the element-wise sum commutes. */
  lemma PlusCommutes(a: seq<real>, b: seq<real>)
    requires |a| == |b|
    ensures Plus(a, b) == Plus(b, a)
  {
  }

  /** `+=` on two grids of the same shape: adds the second into the first, cell by cell. */
  method AddInto(a: array<real>, b: array<real>)
    requires a != b && a.Length == b.Length
    modifies a
    ensures a[..] == Plus(old(a[..]), b[..])
  {
    for i := 0 to a.Length
      invariant forall j | 0 <= j < i :: a[j] == old(a[j]) + b[j]
      invariant forall j | i <= j < a.Length :: a[j] == old(a[j])
    {
      a[i] := a[i] + b[i];
    }
  }
}
