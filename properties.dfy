/** Counting the cells of an adaptive grid (legacy/dom/grid/adaptive/properties.rs). */
module CellProperties {
  import opened Octree
  import opened Boxes

  /** Every branching cell has children: the source's child arrays always hold eight. */
  predicate Branching(c: Cell)
    decreases c
  {
    (c.Root? || c.Branch?) ==> |c.children| > 0 && forall k | 0 <= k < |c.children| :: Branching(c.children[k])
  }

  /**
   * `max_depth`: a terminal cell counts one level, a branch one more than its
   * deepest child, and the root no level of its own.
   */
  function MaxDepth(c: Cell): (d: nat)
    requires Branching(c)
    ensures d >= 1
    decreases c
  {
    match c
    case Root(_, cs) => DeepestChild(cs)
    case Branch(_, cs) => 1 + DeepestChild(cs)
    case Leaf(_, _) => 1
    case Empty(_) => 1
  }

  /** The greatest depth among the children. */
  function DeepestChild(cs: seq<Cell>): (d: nat)
    requires |cs| > 0 && forall k | 0 <= k < |cs| :: Branching(cs[k])
    ensures d >= 1
    ensures forall k | 0 <= k < |cs| :: MaxDepth(cs[k]) <= d
    ensures exists k | 0 <= k < |cs| :: MaxDepth(cs[k]) == d
    decreases cs, 0
  {
    var first := MaxDepth(cs[0]);
    if |cs| == 1 then first
    else
      var rest := DeepestChild(cs[1..]);
      assert forall k | 1 <= k < |cs| :: cs[k] == cs[1..][k - 1];
      if first >= rest then first else rest
  }

  /** A cell spanning at most `bound` levels. */
  predicate CellWithin(c: Cell, bound: int) {
    Branching(c) && MaxDepth(c) <= bound
  }

  /** Children, at least one, each spanning at most `bound` levels. */
  predicate ChildrenWithin(cs: seq<Cell>, bound: int) {
    |cs| > 0 && (forall k | 0 <= k < |cs| :: Branching(cs[k])) && DeepestChild(cs) <= bound
  }

  /** A terminal cell spans one level, and a branch one more than its children. */
  lemma DepthBelow(c: Cell, b: Aabb, cs: seq<Cell>, inner: int, bound: int)
    requires bound >= 1 && inner + 1 <= bound
    requires (c.Leaf? || c.Empty?) || (c == Branch(b, cs) && ChildrenWithin(cs, inner))
    ensures CellWithin(c, bound)
  {
  }

  /** A bound on every child's depth bounds the deepest child. */
  lemma DeepestAtMost(cs: seq<Cell>, bound: int)
    requires |cs| > 0 && forall k | 0 <= k < |cs| :: CellWithin(cs[k], bound)
    ensures ChildrenWithin(cs, bound)
  {
  }

  /** `num_cells`: every cell counts once, branching cells adding their children. */
  function NumCells(c: Cell): (n: nat)
    ensures n >= 1
    ensures (c.Root? || c.Branch?) ==> n > |c.children|
    decreases c
  {
    match c
    case Root(_, cs) => 1 + SumCells(cs)
    case Branch(_, cs) => 1 + SumCells(cs)
    case Leaf(_, _) => 1
    case Empty(_) => 1
  }

  function SumCells(cs: seq<Cell>): (n: nat)
    ensures n >= |cs|
    decreases cs, 0
  {
    if |cs| == 0 then 0 else NumCells(cs[0]) + SumCells(cs[1..])
  }

  /**
   * `num_leaf_cells`: a populated leaf counts one, an empty cell none,
   * branching cells their children. Leaf cells are cells: there are never
   * more leaves than cells, and fewer once the tree branches.
   */
  function NumLeafCells(c: Cell): (n: nat)
    ensures n <= NumCells(c)
    ensures (c.Root? || c.Branch?) ==> n < NumCells(c)
    decreases c
  {
    match c
    case Root(_, cs) => SumLeafCells(cs)
    case Branch(_, cs) => SumLeafCells(cs)
    case Leaf(_, _) => 1
    case Empty(_) => 0
  }

  function SumLeafCells(cs: seq<Cell>): (n: nat)
    ensures n <= SumCells(cs)
    decreases cs, 0
  {
    if |cs| == 0 then 0 else NumLeafCells(cs[0]) + SumLeafCells(cs[1..])
  }

  /** `num_tri_refs`: the lengths of the leaf triangle lists added up; a tree without leaves refers to no triangle. */
  function NumTriRefs(c: Cell): (n: nat)
    ensures NumLeafCells(c) == 0 ==> n == 0
    decreases c
  {
    match c
    case Root(_, cs) => SumTriRefs(cs)
    case Branch(_, cs) => SumTriRefs(cs)
    case Leaf(_, tris) => |tris|
    case Empty(_) => 0
  }

  function SumTriRefs(cs: seq<Cell>): (n: nat)
    ensures SumLeafCells(cs) == 0 ==> n == 0
    decreases cs, 0
  {
    if |cs| == 0 then 0 else NumTriRefs(cs[0]) + SumTriRefs(cs[1..])
  }

  /** Every leaf holds at least one triangle: the constructors make a cell with none `Empty`. */
  predicate Populated(c: Cell)
    decreases c
  {
    match c
    case Root(_, cs) => forall k | 0 <= k < |cs| :: Populated(cs[k])
    case Branch(_, cs) => forall k | 0 <= k < |cs| :: Populated(cs[k])
    case Leaf(_, tris) => |tris| > 0
    case Empty(_) => true
  }

  /** With populated leaves there are at least as many triangle references as leaves. */
  lemma {:induction false} RefsAtLeastLeaves(c: Cell)
    requires Populated(c)
    ensures NumLeafCells(c) <= NumTriRefs(c)
    decreases c
  {
    match c
    case Root(_, cs) => RefsAtLeastLeavesAll(cs);
    case Branch(_, cs) => RefsAtLeastLeavesAll(cs);
    case Leaf(_, _) =>
    case Empty(_) =>
  }

  lemma {:induction false} RefsAtLeastLeavesAll(cs: seq<Cell>)
    requires forall k | 0 <= k < |cs| :: Populated(cs[k])
    ensures SumLeafCells(cs) <= SumTriRefs(cs)
    decreases cs, 0
  {
    if |cs| > 0 {
      RefsAtLeastLeaves(cs[0]);
      assert forall k | 0 <= k < |cs| - 1 :: cs[1..][k] == cs[k + 1];
      RefsAtLeastLeavesAll(cs[1..]);
    }
  }
}
