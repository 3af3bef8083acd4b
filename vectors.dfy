/**
 * Three-component vectors and points (nalgebra's `Vector3<f64>` and
 * `Point3<f64>`), over the reals.
 */
module Vectors {

  datatype Vec3 = Vec3(x: real, y: real, z: real) {

    function Add(o: Vec3): Vec3 { Vec3(x + o.x, y + o.y, z + o.z) }

    function Sub(o: Vec3): Vec3 { Vec3(x - o.x, y - o.y, z - o.z) }

    function Scale(k: real): Vec3 { Vec3(x * k, y * k, z * k) }

    /** nalgebra's `<` on points: every component strictly less. */
    predicate Less(o: Vec3) { x < o.x && y < o.y && z < o.z }

    /** nalgebra's `<=` on points: every component less or equal. */
    predicate LessEq(o: Vec3) { x <= o.x && y <= o.y && z <= o.z }

    predicate Positive() { x > 0.0 && y > 0.0 && z > 0.0 }
  }

  /** Componentwise minimum of two vectors. */
  function Min(a: Vec3, b: Vec3): (m: Vec3)
    ensures m.LessEq(a) && m.LessEq(b)
    ensures (m.x == a.x || m.x == b.x) && (m.y == a.y || m.y == b.y) && (m.z == a.z || m.z == b.z)
  {
    Vec3(if b.x < a.x then b.x else a.x, if b.y < a.y then b.y else a.y, if b.z < a.z then b.z else a.z)
  }

  /** Componentwise maximum of two vectors. */
  function Max(a: Vec3, b: Vec3): (m: Vec3)
    ensures a.LessEq(m) && b.LessEq(m)
    ensures (m.x == a.x || m.x == b.x) && (m.y == a.y || m.y == b.y) && (m.z == a.z || m.z == b.z)
  {
    Vec3(if b.x > a.x then b.x else a.x, if b.y > a.y then b.y else a.y, if b.z > a.z then b.z else a.z)
  }

  /** The componentwise minimum of a non-empty list of points, folded from the left. */
  function MinFold(vs: seq<Vec3>): Vec3
    requires |vs| > 0
  {
    if |vs| == 1 then vs[0] else Min(MinFold(vs[..|vs| - 1]), vs[|vs| - 1])
  }

  /** The componentwise maximum of a non-empty list of points, folded from the left. */
  function MaxFold(vs: seq<Vec3>): Vec3
    requires |vs| > 0
  {
    if |vs| == 1 then vs[0] else Max(MaxFold(vs[..|vs| - 1]), vs[|vs| - 1])
  }

  /** The folded minimum is below every point and the folded maximum above every point. */
  lemma {:induction false} FoldsBound(vs: seq<Vec3>)
    requires |vs| > 0
    ensures forall i | 0 <= i < |vs| :: MinFold(vs).LessEq(vs[i]) && vs[i].LessEq(MaxFold(vs))
  {
    if |vs| > 1 {
      var init := vs[..|vs| - 1];
      FoldsBound(init);
      forall i | 0 <= i < |vs| - 1
        ensures MinFold(vs).LessEq(vs[i]) && vs[i].LessEq(MaxFold(vs))
      {
        assert vs[i] == init[i];
      }
    }
  }

  /** Each component of the folded minimum and maximum is attained by some point of the list. */
  lemma {:induction false} FoldsAttained(vs: seq<Vec3>)
    requires |vs| > 0
    ensures exists i | 0 <= i < |vs| :: MinFold(vs).x == vs[i].x
    ensures exists i | 0 <= i < |vs| :: MinFold(vs).y == vs[i].y
    ensures exists i | 0 <= i < |vs| :: MinFold(vs).z == vs[i].z
    ensures exists i | 0 <= i < |vs| :: MaxFold(vs).x == vs[i].x
    ensures exists i | 0 <= i < |vs| :: MaxFold(vs).y == vs[i].y
    ensures exists i | 0 <= i < |vs| :: MaxFold(vs).z == vs[i].z
  {
    var n := |vs| - 1;
    if n == 0 {
      assert MinFold(vs) == vs[0] == MaxFold(vs);
    } else {
      var init := vs[..n];
      FoldsAttained(init);
      forall i | 0 <= i < n ensures init[i] == vs[i] { }
      assert vs[n] == vs[n];
    }
  }

  /** Appending a point folds it into the running minimum and maximum. */
  lemma FoldsSnoc(vs: seq<Vec3>, v: Vec3)
    requires |vs| > 0
    ensures MinFold(vs + [v]) == Min(MinFold(vs), v)
    ensures MaxFold(vs + [v]) == Max(MaxFold(vs), v)
  {
    assert (vs + [v])[..|vs|] == vs;
  }
}
