/** The regular voxel grid (src/sci/math/geom/dom/grid/mod.rs). */
module RegularGrid {
  import opened Wrappers
  import opened Vectors
  import opened Boxes
  import opened LinIndex

  /** Grid settings: the boundary and the number of voxels along each axis. */
  datatype Settings = Settings(bound: Aabb, res: Index3)

  /** A regular grid: boundary, resolution and the size of one voxel. */
  datatype Grid = Grid(bound: Aabb, res: Index3, voxelSize: Vec3)

  /** Every axis has at least one voxel. */
  predicate ResPositive(res: Index3) { res.x > 0 && res.y > 0 && res.z > 0 }

  /** A grid as `Grid::new` builds it from settings with a proper boundary. */
  predicate Valid(g: Grid) {
    && Proper(g.bound)
    && ResPositive(g.res)
    && VoxelsTile(g.bound, g.res, g.voxelSize)
  }

  /** `res` voxels of size `vs` laid side by side span the boundary exactly on every axis. */
  predicate VoxelsTile(bound: Aabb, res: Index3, vs: Vec3) {
    var w := Widths(bound);
    vs.x * res.x as real == w.x && vs.y * res.y as real == w.y && vs.z * res.z as real == w.z
  }

  /**
   * `Grid::new`: copies the boundary and resolution and divides the widths,
   * component by component, by the resolution. It never fails.
   */
  method New(sett: Settings) returns (g: Grid)
    requires ResPositive(sett.res)
    ensures g.bound == sett.bound && g.res == sett.res
    ensures VoxelsTile(g.bound, g.res, g.voxelSize)
    ensures Proper(sett.bound) ==> Valid(g) && g.voxelSize.Positive()
  {
    var w := Widths(sett.bound);
    var ws := [w.x, w.y, w.z];
    var ns := [sett.res.x as real, sett.res.y as real, sett.res.z as real];
    var voxelSize := new real[3];
    voxelSize[0], voxelSize[1], voxelSize[2] := ws[0], ws[1], ws[2];
    for i := 0 to 3
      invariant forall j | 0 <= j < i :: voxelSize[j] == ws[j] / ns[j]
      invariant forall j | i <= j < 3 :: voxelSize[j] == ws[j]
    {
      voxelSize[i] := voxelSize[i] / ns[i];
    }
    g := Grid(sett.bound, sett.res, Vec3(voxelSize[0], voxelSize[1], voxelSize[2]));
    QuotientsTile(sett.bound, sett.res, g.voxelSize);
  }

  /** Dividing each width by its resolution gives voxels that tile the boundary. */
  lemma QuotientsTile(bound: Aabb, res: Index3, vs: Vec3)
    requires ResPositive(res)
    requires var w := Widths(bound);
      vs == Vec3(w.x / res.x as real, w.y / res.y as real, w.z / res.z as real)
    ensures VoxelsTile(bound, res, vs)
    ensures Proper(bound) ==> vs.Positive()
  {
    var w := Widths(bound);
    DivMulCancel(w.x, res.x as real);
    DivMulCancel(w.y, res.y as real);
    DivMulCancel(w.z, res.z as real);
    if Proper(bound) {
      PositiveQuotient(w.x, res.x as real, vs.x);
      PositiveQuotient(w.y, res.y as real, vs.y);
      PositiveQuotient(w.z, res.z as real, vs.z);
    }
  }

  lemma DivMulCancel(a: real, b: real)
    requires b != 0.0
    ensures (a / b) * b == a
  {
  }

  lemma DivSelf(d: real)
    requires d != 0.0
    ensures d / d == 1.0
  {
  }

  lemma MulStrictMono(a: real, b: real, c: real)
    requires a < b && c > 0.0
    ensures a * c < b * c
  {
  }

  lemma PositiveQuotient(w: real, n: real, v: real)
    requires w > 0.0 && n > 0.0 && v * n == w
    ensures v > 0.0
  {
    if v <= 0.0 {
      MulNonPos(v, n);
    }
  }

  lemma MulNonPos(v: real, n: real)
    requires v <= 0.0 && n > 0.0
    ensures v * n <= 0.0
  {
  }

  /** `total_cells`: the number of voxels. */
  function TotalCells(g: Grid): (n: nat)
    ensures n > 0 <==> ResPositive(g.res)
  {
    g.res.x * g.res.y * g.res.z
  }

  /** Each linear cell number below `total_cells` names a distinct in-range voxel index. */
  lemma {:induction false} TotalCellsEnumerated(g: Grid, n: nat, m: nat)
    requires ResPositive(g.res) && n < TotalCells(g) && m < TotalCells(g)
    ensures var i := ThreeDim(n, g.res); i.x < g.res.x && i.y < g.res.y && i.z < g.res.z
    ensures n != m ==> ThreeDim(n, g.res) != ThreeDim(m, g.res)
  {
    ThreeDimInRange(n, g.res);
    ThreeDimRecombines(n, g.res);
    ThreeDimRecombines(m, g.res);
  }

  /**
   * The index along one axis: the floor of the fractional position times the
   * resolution, converted to an unsigned integer.
   */
  function AxisIndex(lo: real, hi: real, p: real, n: nat): (i: nat)
    requires lo < hi && lo <= p <= hi
    ensures i <= n
    ensures n > 0 ==> (i == n <==> p == hi)
  {
    var t := ((p - lo) / (hi - lo)) * n as real;
    AxisFraction(lo, hi, p, n);
    FloorBelow(t, n);
    t.Floor
  }

  lemma FloorBelow(t: real, n: nat)
    requires 0.0 <= t <= n as real
    ensures 0 <= t.Floor <= n && (t.Floor == n <==> t == n as real)
  {
  }

  lemma AxisFraction(lo: real, hi: real, p: real, n: nat)
    requires lo < hi && lo <= p <= hi
    ensures var t := ((p - lo) / (hi - lo)) * n as real;
      0.0 <= t <= n as real && (n > 0 ==> (t == n as real <==> p == hi))
  {
    var d := hi - lo;
    var f := (p - lo) / d;
    DivMulCancel(p - lo, d);
    assert f * d == p - lo;
    if f > 1.0 { MulStrictMono(1.0, f, d); }
    if f < 0.0 { MulStrictMono(f, 0.0, d); }
    assert 0.0 <= f <= 1.0;
    if f < 1.0 { MulStrictMono(f, 1.0, d); }
    if p == hi { DivSelf(d); }
    if f == 1.0 { assert f * d == d; }
    assert f == 1.0 <==> p == hi;
    var t := f * n as real;
    if n > 0 {
      if f < 1.0 { MulStrictMono(f, 1.0, n as real); }
      MulUnitInterval(f, n as real);
    } else {
      assert t == 0.0;
    }
  }

  lemma MulUnitInterval(f: real, n: real)
    requires 0.0 <= f <= 1.0 && n > 0.0
    ensures 0.0 <= f * n <= n
  {
  }

  /**
   * `gen_index`: the voxel index of a point inside the (inclusive) boundary,
   * and None outside it. Each component is at most the resolution and equals
   * it only on the maximum face.
   */
  function GenIndex(g: Grid, p: Vec3): (r: Option<Index3>)
    requires Valid(g)
    ensures r.None? <==> !Contains(g.bound, p)
    ensures r.Some? ==> r.value.x <= g.res.x && r.value.y <= g.res.y && r.value.z <= g.res.z
    ensures r.Some? ==> (r.value.x == g.res.x <==> p.x == g.bound.maxs.x)
    ensures r.Some? ==> (r.value.y == g.res.y <==> p.y == g.bound.maxs.y)
    ensures r.Some? ==> (r.value.z == g.res.z <==> p.z == g.bound.maxs.z)
  {
    if Contains(g.bound, p) then
      var mins, maxs := g.bound.mins, g.bound.maxs;
      Some(Index3(
        AxisIndex(mins.x, maxs.x, p.x, g.res.x),
        AxisIndex(mins.y, maxs.y, p.y, g.res.y),
        AxisIndex(mins.z, maxs.z, p.z, g.res.z)))
    else
      None
  }

  /**
   * The voxel box `gen_index_voxel` builds for an index, as written: the
   * z offset is added to the x coordinate and z is never offset.
   */
  function VoxelAsWritten(g: Grid, index: Index3): Aabb {
    var min := g.bound.mins;
    var min := min.(x := min.x + g.voxelSize.x * index.x as real);
    var min := min.(y := min.y + g.voxelSize.y * index.y as real);
    var min := min.(x := min.x + g.voxelSize.z * index.z as real);
    Aabb(min, min.Add(g.voxelSize))
  }

  /**
   * `gen_index_voxel`, corrected: the index `gen_index` gives together with
   * the box of one voxel's extent at that index, or None when the point is
   * outside the grid. The third offset goes to z, where the source writes x
   * (see `VoxelAsWritten`).
   */
  method GenIndexVoxel(g: Grid, p: Vec3) returns (r: Option<(Index3, Aabb)>)
    requires Valid(g)
    ensures r.None? <==> GenIndex(g, p).None?
    ensures r.Some? ==> r.value.0 == GenIndex(g, p).value
    ensures r.Some? ==> Widths(r.value.1) == g.voxelSize && Proper(r.value.1)
    ensures r.Some? ==> r.value.1 == Voxel(g, r.value.0) && Contains(r.value.1, p)
  {
    var index := GenIndex(g, p);
    if index.Some? {
      var i := index.value;
      var min := g.bound.mins;
      min := min.(x := min.x + g.voxelSize.x * i.x as real);
      min := min.(y := min.y + g.voxelSize.y * i.y as real);
      min := min.(z := min.z + g.voxelSize.z * i.z as real);
      VoxelSizePositive(g);
      IntendedVoxelContainsPoint(g, p);
      r := Some((i, Boxes.New(min, min.Add(g.voxelSize))));
    } else {
      r := None;
    }
  }

  /** The voxels of a valid grid have positive extent on every axis. */
  lemma VoxelSizePositive(g: Grid)
    requires Valid(g)
    ensures g.voxelSize.Positive()
  {
    var w := Widths(g.bound);
    PositiveQuotient(w.x, g.res.x as real, g.voxelSize.x);
    PositiveQuotient(w.y, g.res.y as real, g.voxelSize.y);
    PositiveQuotient(w.z, g.res.z as real, g.voxelSize.z);
  }

  /**
   * A point on one voxel of a 1 x 1 x 2 grid over the unit cube that the
   * as-written voxel does not contain.
   */
  lemma VoxelAsWrittenMissesPoint(g: Grid, p: Vec3)
    requires g == Grid(Aabb(Vec3(0.0, 0.0, 0.0), Vec3(1.0, 1.0, 1.0)), Index3(1, 1, 2), Vec3(1.0, 1.0, 0.5))
    requires p == Vec3(0.0, 0.0, 0.75)
    ensures Valid(g) && Contains(g.bound, p)
    ensures GenIndex(g, p) == Some(Index3(0, 0, 1))
    ensures !Contains(VoxelAsWritten(g, Index3(0, 0, 1)), p)
  {
    assert AxisIndex(0.0, 1.0, 0.75, 2) == 1 by {
      assert ((0.75 - 0.0) / (1.0 - 0.0)) * 2 as real == 1.5;
    }
    assert AxisIndex(0.0, 1.0, 0.0, 1) == 0 by {
      assert ((0.0 - 0.0) / (1.0 - 0.0)) * 1 as real == 0.0;
    }
    assert VoxelAsWritten(g, Index3(0, 0, 1)).mins.x == 0.5;
  }

  /** The voxel box as evidently intended: each axis offset by its own index. */
  function Voxel(g: Grid, index: Index3): Aabb {
    var min := g.bound.mins.Add(Vec3(g.voxelSize.x * index.x as real,
                                     g.voxelSize.y * index.y as real,
                                     g.voxelSize.z * index.z as real));
    Aabb(min, min.Add(g.voxelSize))
  }

  /** A point lies in the voxel its axis index names. */
  lemma AxisVoxel(lo: real, hi: real, p: real, n: nat, v: real, k: nat)
    requires lo < hi && lo <= p <= hi && n > 0 && v * n as real == hi - lo
    requires k == AxisIndex(lo, hi, p, n)
    ensures lo + v * k as real <= p <= lo + v * k as real + v
  {
    AxisVoxelFloor(lo, hi, p, n, v);
  }

  lemma AxisVoxelFloor(lo: real, hi: real, p: real, n: nat, v: real)
    requires lo < hi && lo <= p <= hi && n > 0 && v * n as real == hi - lo
    ensures var i := AxisIndex(lo, hi, p, n) as real; lo + v * i <= p <= lo + v * i + v
  {
    var i := AxisIndex(lo, hi, p, n) as real;
    var f := (p - lo) / (hi - lo);
    var t := f * n as real;
    assert i <= t < i + 1.0;
    assert v * t == p - lo by {
      Reassociate(v, f, n as real);
      DivMulCancel(p - lo, hi - lo);
    }
    assert v > 0.0 by { PositiveQuotient(hi - lo, n as real, v); }
    MulMonoLe(i, t, v);
    MulStrictMono(t, i + 1.0, v);
    assert (i + 1.0) * v == v * i + v;
  }

  lemma Reassociate(v: real, f: real, n: real)
    ensures v * (f * n) == f * (v * n)
  {
  }

  lemma MulMonoLe(a: real, b: real, c: real)
    requires a <= b && c > 0.0
    ensures a * c <= b * c
  {
  }

  /** The intended voxel of the index `gen_index` gives for a point contains that point. */
  lemma IntendedVoxelContainsPoint(g: Grid, p: Vec3)
    requires Valid(g) && Contains(g.bound, p)
    ensures Contains(Voxel(g, GenIndex(g, p).value), p)
    ensures Widths(Voxel(g, GenIndex(g, p).value)) == g.voxelSize
  {
    var mins, maxs := g.bound.mins, g.bound.maxs;
    var idx := GenIndex(g, p).value;
    AxisVoxel(mins.x, maxs.x, p.x, g.res.x, g.voxelSize.x, idx.x);
    AxisVoxel(mins.y, maxs.y, p.y, g.res.y, g.voxelSize.y, idx.y);
    AxisVoxel(mins.z, maxs.z, p.z, g.res.z, g.voxelSize.z, idx.z);
    VoxelHolds(g, idx, p);
  }

  /** A point between the offset corner and one voxel beyond it on every axis lies in that voxel. */
  lemma VoxelHolds(g: Grid, idx: Index3, p: Vec3)
    requires var lo, v := g.bound.mins, g.voxelSize;
      && lo.x + v.x * idx.x as real <= p.x <= lo.x + v.x * idx.x as real + v.x
      && lo.y + v.y * idx.y as real <= p.y <= lo.y + v.y * idx.y as real + v.y
      && lo.z + v.z * idx.z as real <= p.z <= lo.z + v.z * idx.z as real + v.z
    ensures Contains(Voxel(g, idx), p)
    ensures Widths(Voxel(g, idx)) == g.voxelSize
  {
  }
}
