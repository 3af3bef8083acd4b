/**
 * The octree cell shared by the tree (src/sci/math/geom/dom/tree/mod.rs) and
 * the adaptive grid (src/geom/dom/grid/adaptive/mod.rs): both declare the
 * same four variants. A branching cell has eight children, listed in the
 * order nnn, pnn, npn, ppn, nnp, pnp, npp, ppp, where the letters say
 * whether the child lies on the negative or the positive half of the x, y
 * and z axes.
 */
module Octree {
  import opened Vectors
  import opened Boxes
  import opened Groups
  import opened Meshes

  datatype Cell =
    | Root(boundary: Aabb, children: seq<Cell>)
    | Branch(boundary: Aabb, children: seq<Cell>)
    | Leaf(boundary: Aabb, tris: seq<(Group, SmoothTriangle)>)
    | Empty(boundary: Aabb)

  /** Bit `i` of a child number: whether the child lies on the positive side of axis `i`. */
  function Bit(k: nat, i: nat): (b: bool)
    requires k < 8 && i < 3
    ensures b <==> (k / (if i == 0 then 1 else if i == 1 then 2 else 4)) % 2 == 1
  {
    if i == 0 then k % 2 == 1 else if i == 1 then (k / 2) % 2 == 1 else k >= 4
  }

  /**
   * Child `k` of a cell: the box of half the parent's widths whose minimum
   * corner is the parent's, moved by one half width along each axis whose bit is set.
   */
  function Octant(parent: Aabb, k: nat): Aabb
    requires k < 8
  {
    var h := HalfWidths(parent);
    var m := parent.mins;
    var lo := Vec3(if Bit(k, 0) then m.x + h.x else m.x,
                   if Bit(k, 1) then m.y + h.y else m.y,
                   if Bit(k, 2) then m.z + h.z else m.z);
    Aabb(lo, lo.Add(h))
  }

  /** An octant has half its parent's widths and lies inside the parent; it is proper when the parent is. */
  lemma OctantInside(parent: Aabb, k: nat)
    requires k < 8
    ensures Octant(parent, k).maxs == Octant(parent, k).mins.Add(HalfWidths(parent))
    ensures parent.mins.LessEq(parent.maxs) ==> parent.mins.LessEq(Octant(parent, k).mins) && Octant(parent, k).maxs.LessEq(parent.maxs)
    ensures Proper(parent) ==> Proper(Octant(parent, k))
  {
  }

  /**
   * The structure the constructors build: a root only at the top, every
   * branching cell with eight children, and child `k` covering octant `k`
   * of its parent.
   */
  predicate WellFormed(c: Cell)
    decreases c
  {
    (c.Root? || c.Branch?) ==>
      && |c.children| == 8
      && forall k | 0 <= k < 8 ::
        && !c.children[k].Root?
        && c.children[k].boundary == Octant(c.boundary, k)
        && WellFormed(c.children[k])
  }
}
