/**
 * Smooth triangle meshes (src/geom/surf/mesh.rs): the bounding box, the total
 * area, the overlap test and the transformation. The Wavefront OBJ loader is
 * in module MeshLoad.
 */
module Meshes {
  import opened Vectors
  import opened Boxes

  /**
   * A smooth triangle: three vertices and a normal at each. The flat
   * triangle's plane normal is derived from the vertices and is not kept.
   */
  datatype SmoothTriangle = SmoothTriangle(v0: Vec3, v1: Vec3, v2: Vec3, n0: Vec3, n1: Vec3, n2: Vec3) {
    function Verts(): seq<Vec3> { [v0, v1, v2] }
  }

  /** A mesh: its bounding box and its component triangles. */
  datatype Mesh = Mesh(aabb: Aabb, tris: seq<SmoothTriangle>)

  /** Every vertex of the triangles, triangle by triangle and in vertex order. */
  function AllVerts(tris: seq<SmoothTriangle>): (vs: seq<Vec3>)
    ensures |vs| == 3 * |tris|
  {
    if |tris| == 0 then [] else AllVerts(tris[..|tris| - 1]) + tris[|tris| - 1].Verts()
  }

  /** Vertex `j` of triangle `i` sits at position `3i + j` of the vertex list. */
  lemma {:induction false} AllVertsAt(tris: seq<SmoothTriangle>, i: nat, j: nat)
    requires i < |tris| && j < 3
    ensures AllVerts(tris)[3 * i + j] == tris[i].Verts()[j]
  {
    var n := |tris| - 1;
    if i < n {
      AllVertsAt(tris[..n], i, j);
    }
  }

  /** The smallest box holding every vertex: the componentwise fold of the vertices. */
  function BoundingBox(tris: seq<SmoothTriangle>): Aabb
    requires |tris| > 0
  {
    Aabb(MinFold(AllVerts(tris)), MaxFold(AllVerts(tris)))
  }

  /** Every vertex of every triangle lies inside the bounding box. */
  lemma BoundingBoxEncloses(tris: seq<SmoothTriangle>, i: nat, j: nat)
    requires i < |tris| && j < 3
    ensures Contains(BoundingBox(tris), tris[i].Verts()[j])
  {
    FoldsBound(AllVerts(tris));
    AllVertsAt(tris, i, j);
  }

  /** Each face of the bounding box touches some vertex. */
  lemma BoundingBoxTight(tris: seq<SmoothTriangle>)
    requires |tris| > 0
    ensures var b := BoundingBox(tris);
      && (exists i, j | 0 <= i < |tris| && 0 <= j < 3 :: tris[i].Verts()[j].x == b.mins.x)
      && (exists i, j | 0 <= i < |tris| && 0 <= j < 3 :: tris[i].Verts()[j].y == b.mins.y)
      && (exists i, j | 0 <= i < |tris| && 0 <= j < 3 :: tris[i].Verts()[j].z == b.mins.z)
      && (exists i, j | 0 <= i < |tris| && 0 <= j < 3 :: tris[i].Verts()[j].x == b.maxs.x)
      && (exists i, j | 0 <= i < |tris| && 0 <= j < 3 :: tris[i].Verts()[j].y == b.maxs.y)
      && (exists i, j | 0 <= i < |tris| && 0 <= j < 3 :: tris[i].Verts()[j].z == b.maxs.z)
  {
    var vs := AllVerts(tris);
    FoldsAttained(vs);
    forall k | 0 <= k < |vs|
      ensures exists i, j | 0 <= i < |tris| && 0 <= j < 3 :: tris[i].Verts()[j] == vs[k]
    {
      AllVertsAt(tris, k / 3, k % 3);
    }
  }

  /**
   * One component of the bounding-box update: a value below the running
   * minimum lowers it, and otherwise a value above the running maximum
   * raises it. The `else` is sound because the minimum never exceeds the maximum.
   */
  method UpdateAxis(lo: real, hi: real, v: real) returns (lo': real, hi': real)
    requires lo <= hi
    ensures lo' == (if v < lo then v else lo) && hi' == (if v > hi then v else hi)
    ensures lo' <= hi'
  {
    lo', hi' := lo, hi;
    if lo > v {
      lo' := v;
    } else if hi < v {
      hi' := v;
    }
  }

  /**
   * `Mesh::init_aabb`: starts both corners at the first vertex of the first
   * triangle and widens them over every vertex of every triangle.
   * It panics on an empty triangle list.
   */
  method InitAabb(tris: seq<SmoothTriangle>) returns (b: Aabb)
    requires |tris| > 0
    ensures b == BoundingBox(tris)
  {
    var first := tris[0].v0;
    var mins, maxs := first, first;
    for i := 0 to |tris|
      invariant mins == MinFold([first] + AllVerts(tris[..i]))
      invariant maxs == MaxFold([first] + AllVerts(tris[..i]))
      invariant mins.LessEq(maxs)
    {
      ghost var seen := [first] + AllVerts(tris[..i]);
      mins, maxs := WidenOverVerts(mins, maxs, tris[i].Verts(), seen);
      AllVertsStep(tris, i, first);
    }
    assert tris[..|tris|] == tris;
    AllVertsAt(tris, 0, 0);
    FoldsIgnoreRepeat(first, AllVerts(tris));
    b := Aabb(mins, maxs);
  }

  /** The inner loop of `init_aabb`: widens the running corners over the vertices of one triangle. */
  method WidenOverVerts(mins: Vec3, maxs: Vec3, vs: seq<Vec3>, ghost seen: seq<Vec3>) returns (mins': Vec3, maxs': Vec3)
    requires |seen| > 0
    requires mins == MinFold(seen) && maxs == MaxFold(seen) && mins.LessEq(maxs)
    ensures mins' == MinFold(seen + vs) && maxs' == MaxFold(seen + vs) && mins'.LessEq(maxs')
  {
    mins', maxs' := mins, maxs;
    assert seen + vs[..0] == seen;
    for j := 0 to |vs|
      invariant mins' == MinFold(seen + vs[..j])
      invariant maxs' == MaxFold(seen + vs[..j])
      invariant mins'.LessEq(maxs')
    {
      var v := vs[j];
      var x0, x1 := UpdateAxis(mins'.x, maxs'.x, v.x);
      var y0, y1 := UpdateAxis(mins'.y, maxs'.y, v.y);
      var z0, z1 := UpdateAxis(mins'.z, maxs'.z, v.z);
      FoldsSnoc(seen + vs[..j], v);
      assert seen + vs[..j + 1] == (seen + vs[..j]) + [v];
      mins', maxs' := Vec3(x0, y0, z0), Vec3(x1, y1, z1);
    }
    assert vs[..|vs|] == vs;
  }

  lemma AllVertsStep(tris: seq<SmoothTriangle>, i: nat, first: Vec3)
    requires i < |tris|
    ensures [first] + AllVerts(tris[..i + 1]) == ([first] + AllVerts(tris[..i])) + tris[i].Verts()
  {
    assert tris[..i + 1][..i] == tris[..i];
  }

  /** Starting a fold at a point that the list already holds does not change it. */
  lemma FoldsIgnoreRepeat(v: Vec3, vs: seq<Vec3>)
    requires v in vs
    ensures MinFold([v] + vs) == MinFold(vs) && MaxFold([v] + vs) == MaxFold(vs)
  {
    FoldsSameElements([v] + vs, vs);
  }

  /** Folds over two lists holding the same points agree. */
  lemma FoldsSameElements(us: seq<Vec3>, vs: seq<Vec3>)
    requires |us| > 0 && |vs| > 0
    requires forall u :: u in us <==> u in vs
    ensures MinFold(us) == MinFold(vs) && MaxFold(us) == MaxFold(vs)
  {
    FoldsOfSubset(us, vs);
    FoldsOfSubset(vs, us);
  }

  /** Folding over a list whose points all occur in another gives a narrower range. */
  lemma {:induction false} FoldsOfSubset(us: seq<Vec3>, vs: seq<Vec3>)
    requires |us| > 0 && |vs| > 0
    requires forall u | u in us :: u in vs
    ensures MinFold(vs).LessEq(MinFold(us)) && MaxFold(us).LessEq(MaxFold(vs))
  {
    var n := |us| - 1;
    FoldsBound(vs);
    assert us[n] in vs;
    if n > 0 {
      var init := us[..n];
      forall u | u in init ensures u in vs {
        assert u in us;
      }
      FoldsOfSubset(init, vs);
    }
  }

  /** `Mesh::new`: keeps the triangles and computes their bounding box. */
  method New(tris: seq<SmoothTriangle>) returns (m: Mesh)
    requires |tris| > 0
    ensures m.tris == tris && m.aabb == BoundingBox(tris)
  {
    var aabb := InitAabb(tris);
    m := Mesh(aabb, tris);
  }

  /** The sum of the triangle areas, added in list order. */
  function TotalArea(tris: seq<SmoothTriangle>, triArea: SmoothTriangle -> real): real
  {
    if |tris| == 0 then 0.0 else TotalArea(tris[..|tris| - 1], triArea) + triArea(tris[|tris| - 1])
  }

  /** The total area of two lists joined is the sum of their totals. */
  lemma {:induction false} TotalAreaAppend(ts: seq<SmoothTriangle>, us: seq<SmoothTriangle>, triArea: SmoothTriangle -> real)
    ensures TotalArea(ts + us, triArea) == TotalArea(ts, triArea) + TotalArea(us, triArea)
  {
    if |us| > 0 {
      var n := |us| - 1;
      assert (ts + us)[..|ts + us| - 1] == ts + us[..n];
      TotalAreaAppend(ts, us[..n], triArea);
    } else {
      assert ts + us == ts;
    }
  }

  /** With non-negative triangle areas the total is non-negative and at least each single area. */
  lemma {:induction false} TotalAreaBounds(tris: seq<SmoothTriangle>, triArea: SmoothTriangle -> real, i: nat)
    requires forall t :: triArea(t) >= 0.0
    requires i < |tris|
    ensures TotalArea(tris, triArea) >= triArea(tris[i]) >= 0.0
  {
    var n := |tris| - 1;
    TotalAreaNonNegative(tris[..n], triArea);
    if i < n {
      TotalAreaBounds(tris[..n], triArea, i);
    }
  }

  lemma {:induction false} TotalAreaNonNegative(tris: seq<SmoothTriangle>, triArea: SmoothTriangle -> real)
    requires forall t :: triArea(t) >= 0.0
    ensures TotalArea(tris, triArea) >= 0.0
  {
    if |tris| > 0 {
      TotalAreaNonNegative(tris[..|tris| - 1], triArea);
    }
  }

  /** `Mesh::area`: accumulates the area of each triangle, the area itself being given. */
  method Area(m: Mesh, triArea: SmoothTriangle -> real) returns (area: real)
    ensures area == TotalArea(m.tris, triArea)
  {
    area := 0.0;
    for i := 0 to |m.tris|
      invariant area == TotalArea(m.tris[..i], triArea)
    {
      assert m.tris[..i + 1][..i] == m.tris[..i];
      area := area + triArea(m.tris[i]);
    }
    assert m.tris[..|m.tris|] == m.tris;
  }

  /**
   * `Mesh::overlap`: false when the mesh's box misses the given box, and
   * otherwise whether some triangle overlaps it, stopping at the first that does.
   * The box-box and triangle-box tests are given.
   */
  method Overlap(m: Mesh, aabb: Aabb, boxOverlap: (Aabb, Aabb) -> bool, triOverlap: (SmoothTriangle, Aabb) -> bool)
    returns (r: bool)
    ensures r <==> boxOverlap(m.aabb, aabb) && exists i | 0 <= i < |m.tris| :: triOverlap(m.tris[i], aabb)
    ensures !boxOverlap(m.aabb, aabb) ==> !r
  {
    if !boxOverlap(m.aabb, aabb) {
      return false;
    }
    for i := 0 to |m.tris|
      invariant forall k | 0 <= k < i :: !triOverlap(m.tris[k], aabb)
    {
      if triOverlap(m.tris[i], aabb) {
        return true;
      }
    }
    return false;
  }

  /**
   * `Mesh::transform`: transforms each triangle in turn, then recomputes the
   * bounding box from the transformed triangles. The transformation of one
   * triangle is given.
   */
  method Transform(m: Mesh, trans: SmoothTriangle -> SmoothTriangle) returns (r: Mesh)
    requires |m.tris| > 0
    ensures |r.tris| == |m.tris|
    ensures forall i | 0 <= i < |m.tris| :: r.tris[i] == trans(m.tris[i])
    ensures r.aabb == BoundingBox(r.tris)
  {
    var tris := m.tris;
    for i := 0 to |tris|
      invariant |tris| == |m.tris|
      invariant forall k | 0 <= k < i :: tris[k] == trans(m.tris[k])
      invariant forall k | i <= k < |tris| :: tris[k] == m.tris[k]
    {
      tris := tris[i := trans(tris[i])];
    }
    var aabb := InitAabb(tris);
    r := Mesh(aabb, tris);
  }
}
