/**
 * Building the octree (src/sci/math/geom/dom/tree/construct.rs). A cell
 * keeps the candidate triangles that overlap its detection volume (its
 * boundary expanded by the padding); it is empty when none does, a leaf when
 * few enough do or the depth limit is reached, and otherwise it branches
 * into its eight octants. The adaptive grid's constructor
 * (src/geom/dom/grid/adaptive/constructor.rs) has the same `init_child` and
 * `init_children` and uses the ones defined here.
 *
 * Triangle/box overlap and box expansion are geometry outside this model and
 * are given as functions.
 */
module TreeConstruct {
  import opened Wrappers
  import opened Vectors
  import opened Boxes
  import opened Groups
  import opened Meshes
  import opened Scenes
  import opened Octree
  import opened CellProperties

  /** The construction settings: detection padding, target triangles per leaf and depth limit. */
  datatype Settings = Settings(padding: real, tarTris: nat, maxDepth: int)

  /** A triangle of some group, as the cells hold them. */
  type Tagged = (Group, SmoothTriangle)

  // ---------------------------------------------------------------- filtering

  /** The candidates that overlap the volume, in candidate order. */
  function Overlapping(cands: seq<Tagged>, vol: Aabb, overlap: (SmoothTriangle, Aabb) -> bool): (r: seq<Tagged>)
    ensures |r| <= |cands|
    ensures forall t :: t in r <==> t in cands && overlap(t.1, vol)
  {
    if |cands| == 0 then []
    else
      var n := |cands| - 1;
      var init := Overlapping(cands[..n], vol, overlap);
      assert forall t :: t in cands <==> t in cands[..n] || t == cands[n] by {
        assert cands == cands[..n] + [cands[n]];
      }
      init + (if overlap(cands[n].1, vol) then [cands[n]] else [])
  }

  /** The filtering loop of `init_child`: pushes each candidate that overlaps the volume. */
  method Filter(cands: seq<Tagged>, vol: Aabb, overlap: (SmoothTriangle, Aabb) -> bool) returns (tris: seq<Tagged>)
    ensures tris == Overlapping(cands, vol, overlap)
  {
    tris := [];
    for i := 0 to |cands|
      invariant tris == Overlapping(cands[..i], vol, overlap)
    {
      assert cands[..i + 1][..i] == cands[..i];
      if overlap(cands[i].1, vol) {
        tris := tris + [cands[i]];
      }
    }
    assert cands[..|cands|] == cands;
  }

  // ---------------------------------------------------------------- the cells built

  /** The cell `init_child` builds at the given depth. */
  function ChildSpec(sett: Settings, boundary: Aabb, depth: int, cands: seq<Tagged>,
                     overlap: (SmoothTriangle, Aabb) -> bool, expand: (Aabb, real) -> Aabb): Cell
    requires depth <= sett.maxDepth
    decreases sett.maxDepth - depth, 0
  {
    var tris := Overlapping(cands, expand(boundary, sett.padding), overlap);
    if |tris| == 0 then Empty(boundary)
    else if |tris| <= sett.tarTris || depth >= sett.maxDepth then Leaf(boundary, tris)
    else Branch(boundary, ChildrenSpec(sett, boundary, depth + 1, tris, overlap, expand))
  }

  /** The eight cells `init_children` builds, one per octant, in octant order. */
  function ChildrenSpec(sett: Settings, parent: Aabb, depth: int, cands: seq<Tagged>,
                        overlap: (SmoothTriangle, Aabb) -> bool, expand: (Aabb, real) -> Aabb): seq<Cell>
    requires depth <= sett.maxDepth
    decreases sett.maxDepth - depth, 1
  {
    seq(8, k requires 0 <= k < 8 => ChildSpec(sett, Octant(parent, k), depth, cands, overlap, expand))
  }

  /**
   * `init_child`: filters the candidates against the detection volume, then
   * returns an empty cell, a leaf of the overlapping triangles, or a branch
   * whose children are built one level deeper from those triangles.
   */
  method InitChild(sett: Settings, boundary: Aabb, depth: int, cands: seq<Tagged>,
                   overlap: (SmoothTriangle, Aabb) -> bool, expand: (Aabb, real) -> Aabb)
    returns (c: Cell)
    requires depth <= sett.maxDepth
    ensures c == ChildSpec(sett, boundary, depth, cands, overlap, expand)
    decreases sett.maxDepth - depth, 0
  {
    var detectionVol := expand(boundary, sett.padding);
    var tris := Filter(cands, detectionVol, overlap);
    if |tris| == 0 {
      return Empty(boundary);
    }
    if |tris| <= sett.tarTris || depth >= sett.maxDepth {
      return Leaf(boundary, tris);
    }
    var children := InitChildren(sett, boundary, depth + 1, tris, overlap, expand);
    return Branch(boundary, children);
  }

  /**
   * `init_children`: builds the child whose minimum corner is the parent's
   * moved by a half width along each chosen axis, for the eight choices in
   * the order nnn, pnn, npn, ppn, nnp, pnp, npp, ppp.
   */
  method InitChildren(sett: Settings, parent: Aabb, depth: int, cands: seq<Tagged>,
                      overlap: (SmoothTriangle, Aabb) -> bool, expand: (Aabb, real) -> Aabb)
    returns (cs: seq<Cell>)
    requires depth <= sett.maxDepth
    ensures cs == ChildrenSpec(sett, parent, depth, cands, overlap, expand)
    decreases sett.maxDepth - depth, 1
  {
    var nnn := InitChild(sett, Octant(parent, 0), depth, cands, overlap, expand);
    var pnn := InitChild(sett, Octant(parent, 1), depth, cands, overlap, expand);
    var npn := InitChild(sett, Octant(parent, 2), depth, cands, overlap, expand);
    var ppn := InitChild(sett, Octant(parent, 3), depth, cands, overlap, expand);
    var nnp := InitChild(sett, Octant(parent, 4), depth, cands, overlap, expand);
    var pnp := InitChild(sett, Octant(parent, 5), depth, cands, overlap, expand);
    var npp := InitChild(sett, Octant(parent, 6), depth, cands, overlap, expand);
    var ppp := InitChild(sett, Octant(parent, 7), depth, cands, overlap, expand);
    cs := [nnn, pnn, npn, ppn, nnp, pnp, npp, ppp];
    ListsChildren(sett, parent, depth, cands, overlap, expand, nnn, pnn, npn, ppn, nnp, pnp, npp, ppp);
  }

  /** The eight children built one by one, listed in octant order, are the children list. */
  lemma ListsChildren(sett: Settings, parent: Aabb, depth: int, cands: seq<Tagged>,
                      overlap: (SmoothTriangle, Aabb) -> bool, expand: (Aabb, real) -> Aabb,
                      c0: Cell, c1: Cell, c2: Cell, c3: Cell, c4: Cell, c5: Cell, c6: Cell, c7: Cell)
    requires depth <= sett.maxDepth
    requires c0 == ChildSpec(sett, Octant(parent, 0), depth, cands, overlap, expand)
    requires c1 == ChildSpec(sett, Octant(parent, 1), depth, cands, overlap, expand)
    requires c2 == ChildSpec(sett, Octant(parent, 2), depth, cands, overlap, expand)
    requires c3 == ChildSpec(sett, Octant(parent, 3), depth, cands, overlap, expand)
    requires c4 == ChildSpec(sett, Octant(parent, 4), depth, cands, overlap, expand)
    requires c5 == ChildSpec(sett, Octant(parent, 5), depth, cands, overlap, expand)
    requires c6 == ChildSpec(sett, Octant(parent, 6), depth, cands, overlap, expand)
    requires c7 == ChildSpec(sett, Octant(parent, 7), depth, cands, overlap, expand)
    ensures [c0, c1, c2, c3, c4, c5, c6, c7] == ChildrenSpec(sett, parent, depth, cands, overlap, expand)
  {
    EachChild(sett, parent, depth, cands, overlap, expand);
    ListEight(ChildrenSpec(sett, parent, depth, cands, overlap, expand), c0, c1, c2, c3, c4, c5, c6, c7);
  }

  /** The eight places of the children list, spelled out. */
  lemma EachChild(sett: Settings, parent: Aabb, depth: int, cands: seq<Tagged>,
                  overlap: (SmoothTriangle, Aabb) -> bool, expand: (Aabb, real) -> Aabb)
    requires depth <= sett.maxDepth
    ensures var cs := ChildrenSpec(sett, parent, depth, cands, overlap, expand);
      && |cs| == 8
      && cs[0] == ChildSpec(sett, Octant(parent, 0), depth, cands, overlap, expand)
      && cs[1] == ChildSpec(sett, Octant(parent, 1), depth, cands, overlap, expand)
      && cs[2] == ChildSpec(sett, Octant(parent, 2), depth, cands, overlap, expand)
      && cs[3] == ChildSpec(sett, Octant(parent, 3), depth, cands, overlap, expand)
      && cs[4] == ChildSpec(sett, Octant(parent, 4), depth, cands, overlap, expand)
      && cs[5] == ChildSpec(sett, Octant(parent, 5), depth, cands, overlap, expand)
      && cs[6] == ChildSpec(sett, Octant(parent, 6), depth, cands, overlap, expand)
      && cs[7] == ChildSpec(sett, Octant(parent, 7), depth, cands, overlap, expand)
  {
  }

  /** A list of eight that holds the given values at its eight places is their list. */
  lemma ListEight<T>(s: seq<T>, a0: T, a1: T, a2: T, a3: T, a4: T, a5: T, a6: T, a7: T)
    requires |s| == 8
    requires s[0] == a0 && s[1] == a1 && s[2] == a2 && s[3] == a3
    requires s[4] == a4 && s[5] == a5 && s[6] == a6 && s[7] == a7
    ensures s == [a0, a1, a2, a3, a4, a5, a6, a7]
  {
  }

  /** The octants spelled out with the half widths added where each child lies on the positive side. */
  lemma OctantsAre(parent: Aabb)
    ensures var h := HalfWidths(parent); var m := parent.mins;
      && Octant(parent, 0) == Aabb(Vec3(m.x, m.y, m.z), Vec3(m.x, m.y, m.z).Add(h))
      && Octant(parent, 1) == Aabb(Vec3(m.x + h.x, m.y, m.z), Vec3(m.x + h.x, m.y, m.z).Add(h))
      && Octant(parent, 2) == Aabb(Vec3(m.x, m.y + h.y, m.z), Vec3(m.x, m.y + h.y, m.z).Add(h))
      && Octant(parent, 3) == Aabb(Vec3(m.x + h.x, m.y + h.y, m.z), Vec3(m.x + h.x, m.y + h.y, m.z).Add(h))
      && Octant(parent, 4) == Aabb(Vec3(m.x, m.y, m.z + h.z), Vec3(m.x, m.y, m.z + h.z).Add(h))
      && Octant(parent, 5) == Aabb(Vec3(m.x + h.x, m.y, m.z + h.z), Vec3(m.x + h.x, m.y, m.z + h.z).Add(h))
      && Octant(parent, 6) == Aabb(Vec3(m.x, m.y + h.y, m.z + h.z), Vec3(m.x, m.y + h.y, m.z + h.z).Add(h))
      && Octant(parent, 7) == Aabb(Vec3(m.x + h.x, m.y + h.y, m.z + h.z), Vec3(m.x + h.x, m.y + h.y, m.z + h.z).Add(h))
  {
  }

  // ---------------------------------------------------------------- properties of the cells built

  /**
   * The classification of a child: empty exactly when no candidate overlaps
   * its detection volume; a leaf exactly when some does and either few
   * enough do or the depth limit is reached, holding precisely the
   * overlapping candidates; a branch otherwise, only below the depth limit.
   */
  lemma ChildKind(sett: Settings, boundary: Aabb, depth: int, cands: seq<Tagged>,
                  overlap: (SmoothTriangle, Aabb) -> bool, expand: (Aabb, real) -> Aabb)
    requires depth <= sett.maxDepth
    ensures var c := ChildSpec(sett, boundary, depth, cands, overlap, expand);
      var vol := expand(boundary, sett.padding);
      && c.boundary == boundary
      && (c.Empty? <==> forall t | t in cands :: !overlap(t.1, vol))
      && (c.Leaf? ==> forall t :: t in c.tris <==> t in cands && overlap(t.1, vol))
      && (c.Leaf? <==> !c.Empty? && (|Overlapping(cands, vol, overlap)| <= sett.tarTris || depth >= sett.maxDepth))
      && (c.Branch? ==> depth < sett.maxDepth && |Overlapping(cands, vol, overlap)| > sett.tarTris)
      && !c.Root?
  {
    var vol := expand(boundary, sett.padding);
    var tris := Overlapping(cands, vol, overlap);
    if |tris| > 0 {
      assert tris[0] in tris;
    }
  }

  /** Every cell built has the octree's shape: eight children, each covering its octant. */
  lemma {:induction false} ChildWellFormed(sett: Settings, boundary: Aabb, depth: int, cands: seq<Tagged>,
                                           overlap: (SmoothTriangle, Aabb) -> bool, expand: (Aabb, real) -> Aabb)
    requires depth <= sett.maxDepth
    ensures WellFormed(ChildSpec(sett, boundary, depth, cands, overlap, expand))
    decreases sett.maxDepth - depth, 2
  {
    var tris := Overlapping(cands, expand(boundary, sett.padding), overlap);
    if |tris| > 0 && |tris| > sett.tarTris && depth < sett.maxDepth {
      BranchWellFormed(sett, boundary, depth, cands, tris, overlap, expand);
    } else {
      ChildIsTerminal(sett, boundary, depth, cands, tris, overlap, expand);
    }
  }

  /** The shape of a child that branches. */
  lemma {:induction false} BranchWellFormed(sett: Settings, boundary: Aabb, depth: int, cands: seq<Tagged>, tris: seq<Tagged>,
                                            overlap: (SmoothTriangle, Aabb) -> bool, expand: (Aabb, real) -> Aabb)
    requires depth < sett.maxDepth
    requires tris == Overlapping(cands, expand(boundary, sett.padding), overlap)
    requires |tris| > sett.tarTris && |tris| > 0
    ensures WellFormed(ChildSpec(sett, boundary, depth, cands, overlap, expand))
    decreases sett.maxDepth - depth, 1
  {
    ChildIsBranch(sett, boundary, depth, cands, tris, overlap, expand);
    ChildrenWellFormed(sett, boundary, depth + 1, tris, overlap, expand);
    ShapedBranch(boundary, ChildrenSpec(sett, boundary, depth + 1, tris, overlap, expand));
  }

  /** Eight well-formed children, each covering its octant of `parent` and none a root. */
  predicate ChildrenShaped(parent: Aabb, cs: seq<Cell>) {
    && |cs| == 8
    && forall k | 0 <= k < 8 :: !cs[k].Root? && cs[k].boundary == Octant(parent, k) && WellFormed(cs[k])
  }

  lemma ShapedBranch(b: Aabb, cs: seq<Cell>)
    requires ChildrenShaped(b, cs)
    ensures WellFormed(Branch(b, cs)) && WellFormed(Root(b, cs))
  {
  }

  /** A child covers the volume it is built for and is never a root. */
  lemma ChildCovers(sett: Settings, boundary: Aabb, depth: int, cands: seq<Tagged>,
                    overlap: (SmoothTriangle, Aabb) -> bool, expand: (Aabb, real) -> Aabb)
    requires depth <= sett.maxDepth
    ensures ChildSpec(sett, boundary, depth, cands, overlap, expand).boundary == boundary
    ensures !ChildSpec(sett, boundary, depth, cands, overlap, expand).Root?
  {
  }

  lemma {:induction false} ChildrenWellFormed(sett: Settings, parent: Aabb, depth: int, cands: seq<Tagged>,
                                              overlap: (SmoothTriangle, Aabb) -> bool, expand: (Aabb, real) -> Aabb)
    requires depth <= sett.maxDepth
    ensures ChildrenShaped(parent, ChildrenSpec(sett, parent, depth, cands, overlap, expand))
    decreases sett.maxDepth - depth, 3
  {
    var cs := ChildrenSpec(sett, parent, depth, cands, overlap, expand);
    ChildrenAt(sett, parent, depth, cands, overlap, expand);
    forall k | 0 <= k < 8
      ensures !cs[k].Root? && cs[k].boundary == Octant(parent, k) && WellFormed(cs[k])
    {
      ChildWellFormed(sett, Octant(parent, k), depth, cands, overlap, expand);
      ChildCovers(sett, Octant(parent, k), depth, cands, overlap, expand);
    }
  }

  /** The children built at a level are the eight octant children, in octant order. */
  lemma ChildrenAt(sett: Settings, parent: Aabb, depth: int, cands: seq<Tagged>,
                   overlap: (SmoothTriangle, Aabb) -> bool, expand: (Aabb, real) -> Aabb)
    requires depth <= sett.maxDepth
    ensures |ChildrenSpec(sett, parent, depth, cands, overlap, expand)| == 8
    ensures forall k | 0 <= k < 8 ::
      ChildrenSpec(sett, parent, depth, cands, overlap, expand)[k] == ChildSpec(sett, Octant(parent, k), depth, cands, overlap, expand)
  {
  }

  /** A child that does not stop at a leaf or an empty cell is a branch over the children one level deeper. */
  lemma ChildIsBranch(sett: Settings, boundary: Aabb, depth: int, cands: seq<Tagged>, tris: seq<Tagged>,
                      overlap: (SmoothTriangle, Aabb) -> bool, expand: (Aabb, real) -> Aabb)
    requires depth < sett.maxDepth
    requires tris == Overlapping(cands, expand(boundary, sett.padding), overlap)
    requires |tris| > sett.tarTris && |tris| > 0
    ensures ChildSpec(sett, boundary, depth, cands, overlap, expand) == Branch(boundary, ChildrenSpec(sett, boundary, depth + 1, tris, overlap, expand))
  {
  }

  /** Otherwise the child is terminal. */
  lemma ChildIsTerminal(sett: Settings, boundary: Aabb, depth: int, cands: seq<Tagged>, tris: seq<Tagged>,
                        overlap: (SmoothTriangle, Aabb) -> bool, expand: (Aabb, real) -> Aabb)
    requires depth <= sett.maxDepth
    requires tris == Overlapping(cands, expand(boundary, sett.padding), overlap)
    requires |tris| == 0 || |tris| <= sett.tarTris || depth >= sett.maxDepth
    ensures ChildSpec(sett, boundary, depth, cands, overlap, expand).Leaf? || ChildSpec(sett, boundary, depth, cands, overlap, expand).Empty?
  {
  }

  /**
   * The depth bound: a cell built at `depth` spans at most
   * `max_depth - depth + 1` levels, since only cells above the limit branch.
   */
  lemma {:induction false} ChildDepth(sett: Settings, boundary: Aabb, depth: int, cands: seq<Tagged>,
                                      overlap: (SmoothTriangle, Aabb) -> bool, expand: (Aabb, real) -> Aabb)
    requires depth <= sett.maxDepth
    ensures CellWithin(ChildSpec(sett, boundary, depth, cands, overlap, expand), sett.maxDepth - depth + 1)
    decreases sett.maxDepth - depth, 2
  {
    var tris := Overlapping(cands, expand(boundary, sett.padding), overlap);
    if |tris| > 0 && |tris| > sett.tarTris && depth < sett.maxDepth {
      BranchDepth(sett, boundary, depth, cands, tris, overlap, expand);
    } else {
      ChildIsTerminal(sett, boundary, depth, cands, tris, overlap, expand);
      DepthBelow(ChildSpec(sett, boundary, depth, cands, overlap, expand), boundary, [], 0, sett.maxDepth - depth + 1);
    }
  }

  /** The depth bound for a child that branches. */
  lemma {:induction false} BranchDepth(sett: Settings, boundary: Aabb, depth: int, cands: seq<Tagged>, tris: seq<Tagged>,
                                       overlap: (SmoothTriangle, Aabb) -> bool, expand: (Aabb, real) -> Aabb)
    requires depth < sett.maxDepth
    requires tris == Overlapping(cands, expand(boundary, sett.padding), overlap)
    requires |tris| > sett.tarTris && |tris| > 0
    ensures CellWithin(ChildSpec(sett, boundary, depth, cands, overlap, expand), sett.maxDepth - depth + 1)
    decreases sett.maxDepth - depth, 1
  {
    var cs := ChildrenSpec(sett, boundary, depth + 1, tris, overlap, expand);
    assert CellWithin(Branch(boundary, cs), sett.maxDepth - depth + 1) by {
      ChildrenDepth(sett, boundary, depth + 1, tris, overlap, expand);
      DepthBelow(Branch(boundary, cs), boundary, cs, sett.maxDepth - depth, sett.maxDepth - depth + 1);
    }
    ChildIsBranch(sett, boundary, depth, cands, tris, overlap, expand);
  }

  lemma {:induction false} ChildrenDepth(sett: Settings, parent: Aabb, depth: int, cands: seq<Tagged>,
                                         overlap: (SmoothTriangle, Aabb) -> bool, expand: (Aabb, real) -> Aabb)
    requires depth <= sett.maxDepth
    ensures ChildrenWithin(ChildrenSpec(sett, parent, depth, cands, overlap, expand), sett.maxDepth - depth + 1)
    decreases sett.maxDepth - depth, 3
  {
    var cs := ChildrenSpec(sett, parent, depth, cands, overlap, expand);
    ChildrenAt(sett, parent, depth, cands, overlap, expand);
    forall k | 0 <= k < 8
      ensures CellWithin(cs[k], sett.maxDepth - depth + 1)
    {
      ChildDepth(sett, Octant(parent, k), depth, cands, overlap, expand);
    }
    DeepestAtMost(cs, sett.maxDepth - depth + 1);
  }

  /**
   * The leaves of a built cell are populated with candidates from `all`,
   * each overlapping the leaf's own detection volume.
   */
  ghost predicate LeavesFrom(c: Cell, all: seq<Tagged>, sett: Settings,
                             overlap: (SmoothTriangle, Aabb) -> bool, expand: (Aabb, real) -> Aabb)
    decreases c
  {
    match c
    case Root(_, cs) => forall k | 0 <= k < |cs| :: LeavesFrom(cs[k], all, sett, overlap, expand)
    case Branch(_, cs) => forall k | 0 <= k < |cs| :: LeavesFrom(cs[k], all, sett, overlap, expand)
    case Leaf(b, tris) =>
      && |tris| > 0
      && forall t | t in tris :: t in all && overlap(t.1, expand(b, sett.padding))
    case Empty(_) => true
  }

  /** A cell built from candidates drawn from `all` has its leaves filled from `all`. */
  lemma {:induction false} ChildLeaves(sett: Settings, boundary: Aabb, depth: int, cands: seq<Tagged>, all: seq<Tagged>,
                                       overlap: (SmoothTriangle, Aabb) -> bool, expand: (Aabb, real) -> Aabb)
    requires depth <= sett.maxDepth
    requires forall t | t in cands :: t in all
    ensures LeavesFrom(ChildSpec(sett, boundary, depth, cands, overlap, expand), all, sett, overlap, expand)
    decreases sett.maxDepth - depth, 0
  {
    var tris := Overlapping(cands, expand(boundary, sett.padding), overlap);
    if |tris| > 0 && !(|tris| <= sett.tarTris || depth >= sett.maxDepth) {
      var cs := ChildrenSpec(sett, boundary, depth + 1, tris, overlap, expand);
      assert ChildSpec(sett, boundary, depth, cands, overlap, expand) == Branch(boundary, cs);
      ChildrenLeaves(sett, boundary, depth + 1, tris, all, overlap, expand);
      assert LeavesFrom(Branch(boundary, cs), all, sett, overlap, expand);
    }
  }

  lemma {:induction false} ChildrenLeaves(sett: Settings, parent: Aabb, depth: int, cands: seq<Tagged>, all: seq<Tagged>,
                                          overlap: (SmoothTriangle, Aabb) -> bool, expand: (Aabb, real) -> Aabb)
    requires depth <= sett.maxDepth
    requires forall t | t in cands :: t in all
    ensures forall k | 0 <= k < 8 :: LeavesFrom(ChildrenSpec(sett, parent, depth, cands, overlap, expand)[k], all, sett, overlap, expand)
    decreases sett.maxDepth - depth, 1
  {
    forall k | 0 <= k < 8
      ensures LeavesFrom(ChildSpec(sett, Octant(parent, k), depth, cands, overlap, expand), all, sett, overlap, expand)
    {
      ChildLeaves(sett, Octant(parent, k), depth, cands, all, overlap, expand);
    }
  }

  /** Leaves filled from candidates are populated. */
  lemma {:induction false} LeavesFromPopulated(c: Cell, all: seq<Tagged>, sett: Settings,
                                               overlap: (SmoothTriangle, Aabb) -> bool, expand: (Aabb, real) -> Aabb)
    requires LeavesFrom(c, all, sett, overlap, expand)
    ensures Populated(c)
    decreases c
  {
    match c
    case Root(_, cs) =>
      forall k | 0 <= k < |cs| ensures Populated(cs[k]) {
        LeavesFromPopulated(cs[k], all, sett, overlap, expand);
      }
    case Branch(_, cs) =>
      forall k | 0 <= k < |cs| ensures Populated(cs[k]) {
        LeavesFromPopulated(cs[k], all, sett, overlap, expand);
      }
    case Leaf(_, _) =>
    case Empty(_) =>
  }

  /** A root over the children built at `depth`: the shape, depth bound and leaf contents the construction guarantees. */
  lemma RootShape(sett: Settings, boundary: Aabb, depth: int, cands: seq<Tagged>,
                  overlap: (SmoothTriangle, Aabb) -> bool, expand: (Aabb, real) -> Aabb)
    requires depth <= sett.maxDepth
    ensures var c := Root(boundary, ChildrenSpec(sett, boundary, depth, cands, overlap, expand));
      && WellFormed(c)
      && Branching(c) && MaxDepth(c) <= sett.maxDepth - depth + 1
      && LeavesFrom(c, cands, sett, overlap, expand)
      && Populated(c)
  {
    var cs := ChildrenSpec(sett, boundary, depth, cands, overlap, expand);
    var c := Root(boundary, cs);
    ChildrenWellFormed(sett, boundary, depth, cands, overlap, expand);
    ShapedBranch(boundary, cs);
    ChildrenDepth(sett, boundary, depth, cands, overlap, expand);
    ChildrenLeaves(sett, boundary, depth, cands, cands, overlap, expand);
    LeavesFromPopulated(c, cands, sett, overlap, expand);
  }

  // ---------------------------------------------------------------- the tree root

  /** The meshes of a surface set (one mesh per group) in ascending group order. */
  function InOrder(surfs: map<Group, Mesh>): (ms: seq<Mesh>)
    ensures |ms| == |SortedKeys(surfs)|
    ensures forall i | 0 <= i < |ms| :: ms[i] == surfs[SortedKeys(surfs)[i]]
  {
    var ks := SortedKeys(surfs);
    seq(|ks|, i requires 0 <= i < |ks| => surfs[ks[i]])
  }

  /** The union of the mesh boxes of a non-empty surface set. */
  function MeshBounds(surfs: map<Group, Mesh>): Aabb
    requires |surfs| > 0
  {
    SortedKeysCount(surfs);
    Union(MeshBoxes(InOrder(surfs)))
  }

  /** The mesh bounds reach at least as far as every mesh box. */
  lemma MeshBoundsEncloses(surfs: map<Group, Mesh>, g: Group)
    requires g in surfs
    ensures |surfs| > 0
    ensures MeshBounds(surfs).mins.LessEq(surfs[g].aabb.mins) && surfs[g].aabb.maxs.LessEq(MeshBounds(surfs).maxs)
  {
    var ks := SortedKeys(surfs);
    var i :| 0 <= i < |ks| && ks[i] == g;
    SortedKeysCount(surfs);
    UnionEncloses(MeshBoxes(InOrder(surfs)), i);
  }

  /**
   * `init_boundary` of the tree: widens the corners over the box of each
   * group's mesh in ascending group order. It panics on an empty surface set.
   */
  method InitBoundary(surfs: map<Group, Mesh>) returns (b: Aabb)
    requires |surfs| > 0
    ensures b == MeshBounds(surfs)
  {
    var keys := SortedKeys(surfs);
    ghost var ms := InOrder(surfs);
    var mins: Option<Vec3>, maxs: Option<Vec3> := None, None;
    for i := 0 to |keys|
      invariant (mins, maxs) == Corners(MeshBoxes(ms[..i]))
    {
      var mesh := surfs[keys[i]];
      assert mesh == ms[i];
      mins, maxs := Widen(mins, maxs, mesh.aabb, MeshBoxes(ms[..i]));
      MeshBoxesPrefix(ms, i);
    }
    BoundsFromCorners(surfs, mins, maxs);
    b := Aabb(mins.value, maxs.value);
  }

  lemma MeshBoxesPrefix(ms: seq<Mesh>, i: nat)
    requires i < |ms|
    ensures MeshBoxes(ms[..i + 1]) == MeshBoxes(ms[..i]) + [ms[i].aabb]
  {
    PrefixSnoc(ms, i);
    MeshBoxesSnoc(ms[..i], ms[i]);
  }

  /** Corners widened over every mesh of a non-empty surface set are the mesh bounds. */
  lemma BoundsFromCorners(surfs: map<Group, Mesh>, mins: Option<Vec3>, maxs: Option<Vec3>)
    requires |surfs| > 0
    requires (mins, maxs) == Corners(MeshBoxes(InOrder(surfs)[..|SortedKeys(surfs)|]))
    ensures mins.Some? && maxs.Some? && Aabb(mins.value, maxs.value) == MeshBounds(surfs)
  {
    var ms := InOrder(surfs);
    assert ms[..|SortedKeys(surfs)|] == ms;
    SortedKeysCount(surfs);
    CornersOfUnion(MeshBoxes(ms));
  }

  lemma PrefixSnoc<T>(s: seq<T>, i: nat)
    requires i < |s|
    ensures s[..i + 1] == s[..i] + [s[i]]
  {
  }

  /** The triangles of a mesh, each tagged with its group. */
  function Tag(g: Group, tris: seq<SmoothTriangle>): (r: seq<Tagged>)
    ensures |r| == |tris| && forall i | 0 <= i < |tris| :: r[i] == (g, tris[i])
  {
    seq(|tris|, i requires 0 <= i < |tris| => (g, tris[i]))
  }

  /** The tagged triangles of the given groups, group after group. */
  function FlattenKeys(surfs: map<Group, Mesh>, ks: seq<Group>): seq<Tagged>
    requires forall k | k in ks :: k in surfs
  {
    if |ks| == 0 then [] else FlattenKeys(surfs, ks[..|ks| - 1]) + Tag(ks[|ks| - 1], surfs[ks[|ks| - 1]].tris)
  }

  lemma FlattenKeysStep(surfs: map<Group, Mesh>, ks: seq<Group>, i: nat)
    requires forall k | k in ks :: k in surfs
    requires i < |ks|
    ensures FlattenKeys(surfs, ks[..i + 1]) == FlattenKeys(surfs, ks[..i]) + Tag(ks[i], surfs[ks[i]].tris)
  {
    assert ks[..i + 1][..i] == ks[..i];
  }

  /** Every tagged triangle of a surface set, in ascending group order. */
  function Flatten(surfs: map<Group, Mesh>): seq<Tagged>
  {
    FlattenKeys(surfs, SortedKeys(surfs))
  }

  lemma {:induction false} FlattenKeysHas(surfs: map<Group, Mesh>, ks: seq<Group>, g: Group, t: SmoothTriangle)
    requires forall k | k in ks :: k in surfs
    ensures (g, t) in FlattenKeys(surfs, ks) <==> g in ks && t in surfs[g].tris
  {
    if |ks| > 0 {
      var n := |ks| - 1;
      FlattenKeysHas(surfs, ks[..n], g, t);
      assert ks == ks[..n] + [ks[n]];
      var tagged := Tag(ks[n], surfs[ks[n]].tris);
      if (g, t) in tagged {
        var i :| 0 <= i < |tagged| && tagged[i] == (g, t);
      }
      if g == ks[n] && t in surfs[g].tris {
        var i :| 0 <= i < |surfs[g].tris| && surfs[g].tris[i] == t;
        assert tagged[i] == (g, t);
      }
    }
  }

  /** The flattened list holds exactly the triangles of every mesh, tagged with their group. */
  lemma FlattenHas(surfs: map<Group, Mesh>, g: Group, t: SmoothTriangle)
    ensures (g, t) in Flatten(surfs) <==> g in surfs && t in surfs[g].tris
  {
    FlattenKeysHas(surfs, SortedKeys(surfs), g, t);
  }

  /** The inner flattening loop: pushes each triangle with the given group. */
  method PushTagged(tris: seq<Tagged>, group: Group, meshTris: seq<SmoothTriangle>) returns (r: seq<Tagged>)
    ensures r == tris + Tag(group, meshTris)
  {
    r := tris;
    for j := 0 to |meshTris|
      invariant r == tris + Tag(group, meshTris[..j])
    {
      assert Tag(group, meshTris[..j + 1]) == Tag(group, meshTris[..j]) + [(group, meshTris[j])];
      r := r + [(group, meshTris[j])];
    }
    assert meshTris[..|meshTris|] == meshTris;
  }

  /** The flattening loops of `new_root`: pushes each triangle of each mesh with its group. */
  method FlattenTris(surfs: map<Group, Mesh>) returns (tris: seq<Tagged>)
    ensures tris == Flatten(surfs)
  {
    var keys := SortedKeys(surfs);
    tris := [];
    for i := 0 to |keys|
      invariant tris == FlattenKeys(surfs, keys[..i])
    {
      FlattenKeysStep(surfs, keys, i);
      tris := PushTagged(tris, keys[i], surfs[keys[i]].tris);
    }
    assert keys[..|keys|] == keys;
  }

  /**
   * `new_root` of the tree: the union of the mesh boxes expanded by the
   * padding is the root boundary, and the root's children are built at
   * depth 1 from every tagged triangle. The depth limit must be at least 1.
   */
  method NewRoot(sett: Settings, surfs: map<Group, Mesh>,
                 overlap: (SmoothTriangle, Aabb) -> bool, expand: (Aabb, real) -> Aabb)
    returns (c: Cell)
    requires |surfs| > 0
    requires 1 <= sett.maxDepth
    ensures c.Root? && c.boundary == expand(MeshBounds(surfs), sett.padding)
    ensures c.children == ChildrenSpec(sett, c.boundary, 1, Flatten(surfs), overlap, expand)
    ensures WellFormed(c) && Branching(c) && MaxDepth(c) <= sett.maxDepth
    ensures LeavesFrom(c, Flatten(surfs), sett, overlap, expand)
  {
    var boundary := InitBoundary(surfs);
    boundary := expand(boundary, sett.padding);
    var tris := FlattenTris(surfs);
    var children := InitChildren(sett, boundary, 1, tris, overlap, expand);
    c := Root(boundary, children);
    RootShape(sett, boundary, 1, tris, overlap, expand);
  }
}
