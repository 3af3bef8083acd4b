/** Axis-aligned bounding boxes (src/geom/surf/aabb.rs). */
module Boxes {
  import opened Vectors

  /** A box given by its minimum and maximum corners. */
  datatype Aabb = Aabb(mins: Vec3, maxs: Vec3)

  /** The condition `Aabb::new` asserts: the minimum corner lies strictly below the maximum one. */
  predicate Proper(b: Aabb) { b.mins.Less(b.maxs) }

  /** `Aabb::new`: builds the box from its corners, which must be ordered. */
  function New(mins: Vec3, maxs: Vec3): (b: Aabb)
    requires mins.Less(maxs)
    ensures Proper(b)
    ensures Contains(b, mins) && Contains(b, maxs)
    ensures Widths(b).Positive()
  {
    Aabb(mins, maxs)
  }

  /** `Aabb::new_centred`: the box around `centre` with the given positive half widths. */
  function NewCentred(centre: Vec3, hws: Vec3): (b: Aabb)
    requires hws.Positive()
    ensures Proper(b)
    ensures Centre(b) == centre && HalfWidths(b) == hws
  {
    New(centre.Sub(hws), centre.Add(hws))
  }

  /** Extent of the box along each axis. */
  function Widths(b: Aabb): (w: Vec3)
    ensures b.mins.Add(w) == b.maxs
    ensures Proper(b) ==> w.Positive()
  {
    b.maxs.Sub(b.mins)
  }

  /** Half of the extent along each axis. */
  function HalfWidths(b: Aabb): (h: Vec3)
    ensures h.Add(h) == Widths(b)
    ensures b.mins.Add(h).Add(h) == b.maxs
  {
    Widths(b).Scale(0.5)
  }

  /** The midpoint of the two corners (`nalgebra::center`). */
  function Centre(b: Aabb): (c: Vec3)
    ensures c.Sub(b.mins) == b.maxs.Sub(c)
    ensures c == b.mins.Add(HalfWidths(b))
  {
    Vec3((b.mins.x + b.maxs.x) / 2.0, (b.mins.y + b.maxs.y) / 2.0, (b.mins.z + b.maxs.z) / 2.0)
  }

  /** Surface area, computed as the source does with fused multiply-adds. */
  function Area(b: Aabb): (a: real)
    ensures var w := Widths(b); a == 2.0 * (w.x * w.y + w.y * w.z + w.z * w.x)
    ensures Proper(b) ==> a > 0.0
  {
    var ws := Widths(b);
    2.0 * (ws.z * ws.x + (ws.x * ws.y + ws.y * ws.z))
  }

  /** Volume: the product of the widths. */
  function Vol(b: Aabb): (v: real)
    ensures Proper(b) ==> v > 0.0
  {
    var ws := Widths(b);
    ws.x * ws.y * ws.z
  }

  /** Inclusive containment on every axis; only a box with ordered corners contains anything. */
  predicate Contains(b: Aabb, p: Vec3)
    ensures Contains(b, p) ==> b.mins.LessEq(b.maxs)
  {
    b.mins.LessEq(p) && p.LessEq(b.maxs)
  }

  /** A box whose corners are ordered contains both corners and its centre. */
  lemma ContainsCorners(b: Aabb)
    requires b.mins.LessEq(b.maxs)
    ensures Contains(b, b.mins) && Contains(b, b.maxs) && Contains(b, Centre(b))
  {
  }
}
