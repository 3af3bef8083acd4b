/** Locating the terminal cell that holds a point (src/geom/dom/grid/adaptive/search.rs). */
module AdaptiveSearch {
  import opened Vectors
  import opened Boxes
  import opened Octree

  /**
   * The child to descend into: 1 if the point is at or beyond the centre on
   * x, plus 2 for y, plus 4 for z. It names the octant the constructors put
   * at that position, and that octant holds the point.
   */
  function ChildIndex(b: Aabb, pos: Vec3): (k: nat)
    ensures k < 8
    ensures Bit(k, 0) <==> pos.x >= Centre(b).x
    ensures Bit(k, 1) <==> pos.y >= Centre(b).y
    ensures Bit(k, 2) <==> pos.z >= Centre(b).z
    ensures Contains(b, pos) ==> Contains(Octant(b, k), pos)
  {
    var c := Centre(b);
    var index := if pos.x >= c.x then 1 else 0;
    var index := if pos.y >= c.y then index + 2 else index;
    if pos.z >= c.z then index + 4 else index
  }

  /** `d` is `c` or lies below it. */
  predicate Descends(d: Cell, c: Cell)
    decreases c
  {
    d == c || ((c.Root? || c.Branch?) && exists k | 0 <= k < |c.children| :: Descends(d, c.children[k]))
  }

  /**
   * `find_terminal_cell`: a terminal cell returns itself, and a branching
   * cell hands the search to the child holding the point. The point must lie
   * inside the cell. The result is a terminal cell below the start that
   * holds the point; the source wraps it in an option that is never empty.
   */
  function FindTerminalCell(c: Cell, pos: Vec3): (t: Cell)
    requires WellFormed(c) && Contains(c.boundary, pos)
    ensures t.Leaf? || t.Empty?
    ensures Contains(t.boundary, pos)
    ensures Descends(t, c)
    decreases c
  {
    match c
    case Leaf(_, _) => c
    case Empty(_) => c
    case Root(b, cs) => FindTerminalCell(cs[ChildIndex(b, pos)], pos)
    case Branch(b, cs) => FindTerminalCell(cs[ChildIndex(b, pos)], pos)
  }
}
