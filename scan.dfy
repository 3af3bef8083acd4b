/**
 * Tracing a ray through the adaptive grid
 * (src/sci/math/geom/dom/grid/adaptive/scan.rs): the hit scan of one
 * terminal cell and the walk from cell to cell. The triangle hit test
 * (distance and side) and the ray/box distance are geometry outside this
 * model and are given as functions; the side of a hit is left abstract.
 */
module AdaptiveScan {
  import opened Wrappers
  import opened Vectors
  import opened Boxes
  import opened Groups
  import opened Meshes
  import opened Octree
  import opened TreeConstruct
  import opened AdaptiveSearch

  /** A ray: its position and direction. */
  datatype Ray = Ray(pos: Vec3, dir: Vec3)

  /** `Ray::travel`: moves the position the given distance along the direction. */
  function Travel(r: Ray, d: real): (r': Ray)
    ensures r'.dir == r.dir && r'.pos.Sub(r.pos) == r.dir.Scale(d)
  {
    Ray(r.pos.Add(r.dir.Scale(d)), r.dir)
  }

  /** A surface hit: the group hit, the distance along the ray and the side struck. */
  datatype Hit<S> = Hit(group: Group, dist: real, side: S)

  /** The result of a cell scan: a surface, the cell boundary, or both within the bump distance. */
  datatype Scan<S> = Surface(hit: Hit<S>) | Boundary(dist: real) | Both(hit: Hit<S>, dist: real)

  /** The geometric fact the scan relies on: a ray starting inside a box reaches its boundary. */
  ghost predicate ReachesBoundary(boxDist: (Aabb, Ray) -> Option<real>) {
    forall b: Aabb, r: Ray :: Contains(b, r.pos) ==> boxDist(b, r).Some?
  }

  // ---------------------------------------------------------------- the nearest hit

  /** The hit distance of triangle `i`, when it is hit. */
  function HitDist<S>(tris: seq<Tagged>, i: nat, ray: Ray, distSide: (SmoothTriangle, Ray) -> Option<(real, S)>): Option<real>
    requires i < |tris|
  {
    match distSide(tris[i].1, ray)
    case None => None
    case Some((d, _)) => Some(d)
  }

  /**
   * The nearest hit over the triangles in list order: a hit replaces the
   * current one only when strictly nearer, so ties keep the earlier triangle.
   */
  function Nearest<S>(tris: seq<Tagged>, ray: Ray, distSide: (SmoothTriangle, Ray) -> Option<(real, S)>): Option<Hit<S>>
  {
    if |tris| == 0 then None
    else
      var n := |tris| - 1;
      var prev := Nearest(tris[..n], ray, distSide);
      match distSide(tris[n].1, ray)
      case None => prev
      case Some((d, side)) => if prev.None? || d < prev.value.dist then Some(Hit(tris[n].0, d, side)) else prev
  }

  /** There is a nearest hit exactly when some triangle is hit. */
  lemma {:induction false} NearestNone<S>(tris: seq<Tagged>, ray: Ray, distSide: (SmoothTriangle, Ray) -> Option<(real, S)>)
    ensures Nearest(tris, ray, distSide).None? <==> forall i | 0 <= i < |tris| :: HitDist(tris, i, ray, distSide).None?
  {
    if |tris| > 0 {
      var n := |tris| - 1;
      NearestNone(tris[..n], ray, distSide);
      assert forall j | 0 <= j < n :: HitDist(tris, j, ray, distSide) == HitDist(tris[..n], j, ray, distSide);
      if HitDist(tris, n, ray, distSide).Some? {
        assert distSide(tris[n].1, ray).Some?;
        assert Nearest(tris, ray, distSide).Some?;
      } else {
        assert Nearest(tris, ray, distSide) == Nearest(tris[..n], ray, distSide);
      }
    }
  }

  /** The nearest hit is no farther than any hit. */
  lemma {:induction false} NearestMin<S>(tris: seq<Tagged>, ray: Ray, distSide: (SmoothTriangle, Ray) -> Option<(real, S)>)
    requires Nearest(tris, ray, distSide).Some?
    ensures forall j | 0 <= j < |tris| && HitDist(tris, j, ray, distSide).Some? ::
      Nearest(tris, ray, distSide).value.dist <= HitDist(tris, j, ray, distSide).value
  {
    var n := |tris| - 1;
    var init := tris[..n];
    assert forall j | 0 <= j < n :: HitDist(tris, j, ray, distSide) == HitDist(init, j, ray, distSide);
    var prev := Nearest(init, ray, distSide);
    NearestNone(init, ray, distSide);
    if prev.Some? {
      NearestMin(init, ray, distSide);
    }
  }

  /**
   * Triangle `i` gives hit `h`, and every earlier triangle is either missed
   * or hit strictly farther away.
   */
  ghost predicate FirstMinAt<S>(tris: seq<Tagged>, i: nat, ray: Ray, distSide: (SmoothTriangle, Ray) -> Option<(real, S)>, h: Hit<S>) {
    && i < |tris|
    && distSide(tris[i].1, ray) == Some((h.dist, h.side))
    && h.group == tris[i].0
    && forall j | 0 <= j < i :: HitDist(tris, j, ray, distSide).Some? ==> HitDist(tris, j, ray, distSide).value > h.dist
  }

  /** The nearest hit is that of the first triangle hit at the least distance. */
  lemma {:induction false} NearestIsFirst<S>(tris: seq<Tagged>, ray: Ray, distSide: (SmoothTriangle, Ray) -> Option<(real, S)>)
    requires Nearest(tris, ray, distSide).Some?
    ensures exists i :: FirstMinAt(tris, i, ray, distSide, Nearest(tris, ray, distSide).value)
  {
    var n := |tris| - 1;
    var init := tris[..n];
    assert forall j | 0 <= j < n :: HitDist(tris, j, ray, distSide) == HitDist(init, j, ray, distSide);
    var prev := Nearest(init, ray, distSide);
    var h := Nearest(tris, ray, distSide).value;
    var ds := distSide(tris[n].1, ray);
    NearestNone(init, ray, distSide);
    if ds.Some? && (prev.None? || ds.value.0 < prev.value.dist) {
      if prev.Some? {
        NearestMin(init, ray, distSide);
      }
      assert FirstMinAt(tris, n, ray, distSide, h);
    } else {
      assert prev == Some(h);
      NearestIsFirst(init, ray, distSide);
      var i :| FirstMinAt(init, i, ray, distSide, h);
      assert FirstMinAt(tris, i, ray, distSide, h);
    }
  }

  // ---------------------------------------------------------------- the hit scan

  /** The scan of a terminal cell, whose boundary the ray must reach. */
  function ScanOf<S>(cell: Cell, ray: Ray, bump: real, distSide: (SmoothTriangle, Ray) -> Option<(real, S)>,
                     boxDist: (Aabb, Ray) -> Option<real>): Scan<S>
    requires cell.Leaf? || cell.Empty?
    requires boxDist(cell.boundary, ray).Some?
  {
    var bd := boxDist(cell.boundary, ray).value;
    if cell.Empty? then Boundary(bd)
    else
      match Nearest(cell.tris, ray, distSide)
      case None => Boundary(bd)
      case Some(hit) =>
        if hit.dist < bd - bump then Surface(hit)
        else if hit.dist < bd + bump then Both(hit, bd)
        else Boundary(bd)
  }

  /**
   * `hit_scan`: finds the nearest triangle hit of a leaf, then reports a
   * surface when it is nearer than the boundary by more than the bump
   * distance, both when it is within the bump distance of the boundary, and
   * the boundary otherwise or when nothing is hit. An empty cell reports its
   * boundary. Scanning a branching cell panics.
   */
  method HitScan<S>(cell: Cell, ray: Ray, bump: real, distSide: (SmoothTriangle, Ray) -> Option<(real, S)>,
                    boxDist: (Aabb, Ray) -> Option<real>)
    returns (s: Scan<S>)
    requires cell.Leaf? || cell.Empty?
    requires Contains(cell.boundary, ray.pos) && ReachesBoundary(boxDist)
    ensures s == ScanOf(cell, ray, bump, distSide, boxDist)
  {
    match cell {
      case Leaf(boundary, tris) =>
        var nearest: Option<Hit<S>> := None;
        for i := 0 to |tris|
          invariant nearest == Nearest(tris[..i], ray, distSide)
        {
          assert tris[..i + 1][..i] == tris[..i];
          var ds := distSide(tris[i].1, ray);
          if ds.Some? {
            var (dist, side) := ds.value;
            if nearest.None? || dist < nearest.value.dist {
              nearest := Some(Hit(tris[i].0, dist, side));
            }
          }
        }
        assert tris[..|tris|] == tris;
        var boundaryDist := boxDist(boundary, ray).value;
        if nearest.Some? {
          var hit := nearest.value;
          if hit.dist < boundaryDist - bump {
            return Surface(hit);
          } else if hit.dist < boundaryDist + bump {
            return Both(hit, boundaryDist);
          }
        }
        return Boundary(boundaryDist);
      case Empty(boundary) =>
        return Boundary(boxDist(boundary, ray).value);
    }
  }

  /** The triangles a terminal cell scans: a leaf's, and none for an empty cell. */
  function CellTris(cell: Cell): seq<Tagged> {
    if cell.Leaf? then cell.tris else []
  }

  /**
   * What a scan reports, in terms of the triangle hits: a surface exactly
   * when some triangle is hit nearer than the boundary less the bump, the
   * boundary exactly when every hit (if any) is at or beyond the boundary
   * plus the bump, and both otherwise; a reported hit is the first nearest one.
   */
  lemma ScanClassified<S>(cell: Cell, ray: Ray, bump: real, distSide: (SmoothTriangle, Ray) -> Option<(real, S)>,
                          boxDist: (Aabb, Ray) -> Option<real>)
    requires cell.Leaf? || cell.Empty?
    requires boxDist(cell.boundary, ray).Some?
    requires bump > 0.0
    ensures ScanOf(cell, ray, bump, distSide, boxDist).Surface? <==>
      exists i | 0 <= i < |CellTris(cell)| :: HitDist(CellTris(cell), i, ray, distSide).Some? &&
        HitDist(CellTris(cell), i, ray, distSide).value < boxDist(cell.boundary, ray).value - bump
    ensures ScanOf(cell, ray, bump, distSide, boxDist).Boundary? <==>
      forall i | 0 <= i < |CellTris(cell)| :: HitDist(CellTris(cell), i, ray, distSide).Some? ==>
        HitDist(CellTris(cell), i, ray, distSide).value >= boxDist(cell.boundary, ray).value + bump
    ensures !ScanOf(cell, ray, bump, distSide, boxDist).Surface? ==>
      ScanOf(cell, ray, bump, distSide, boxDist).dist == boxDist(cell.boundary, ray).value
    ensures !ScanOf(cell, ray, bump, distSide, boxDist).Boundary? ==>
      exists i :: FirstMinAt(CellTris(cell), i, ray, distSide, ScanOf(cell, ray, bump, distSide, boxDist).hit)
  {
    var tris := CellTris(cell);
    NearestNone(tris, ray, distSide);
    if Nearest(tris, ray, distSide).Some? {
      NearestMin(tris, ray, distSide);
      NearestIsFirst(tris, ray, distSide);
      var i :| FirstMinAt(tris, i, ray, distSide, Nearest(tris, ray, distSide).value);
      assert HitDist(tris, i, ray, distSide) == Some(Nearest(tris, ray, distSide).value.dist);
    }
  }

  // ---------------------------------------------------------------- the walk

  /** One step of the walk: it ends with what was seen, or goes on from a new ray position. */
  datatype Step<S> = Done(seen: Option<Hit<S>>) | Continue(ray: Ray, travelled: real)

  /**
   * Scan the terminal cell holding the position: a surface (alone or with
   * the boundary) ends the walk with its distance plus the distance
   * travelled so far; the boundary moves the ray past it by the bump
   * distance, ending the walk with nothing once the ray has left the root.
   */
  function NextStep<S>(root: Cell, ray: Ray, bump: real, travelled: real,
                       distSide: (SmoothTriangle, Ray) -> Option<(real, S)>, boxDist: (Aabb, Ray) -> Option<real>): (st: Step<S>)
    requires WellFormed(root) && Contains(root.boundary, ray.pos) && ReachesBoundary(boxDist)
    ensures st.Continue? ==> Contains(root.boundary, st.ray.pos)
  {
    var cell := FindTerminalCell(root, ray.pos);
    StepOf(root.boundary, ray, bump, travelled, ScanOf(cell, ray, bump, distSide, boxDist))
  }

  /**
   * What one scan decides: a surface hit ends the walk with the distance
   * travelled so far added; otherwise the ray moves past the cell boundary,
   * and the walk ends when that leaves the root.
   */
  function StepOf<S>(bounds: Aabb, ray: Ray, bump: real, travelled: real, scan: Scan<S>): (st: Step<S>)
    ensures st.Continue? ==> Contains(bounds, st.ray.pos)
    ensures st.Continue? <==> scan.Boundary? && Contains(bounds, Travel(ray, scan.dist + bump).pos)
  {
    match scan
    case Surface(hit) => Done(Some(hit.(dist := hit.dist + travelled)))
    case Both(hit, _) => Done(Some(hit.(dist := hit.dist + travelled)))
    case Boundary(dist) =>
      var next := Travel(ray, dist + bump);
      if !Contains(bounds, next.pos) then Done(None)
      else Continue(next, travelled + (dist + bump))
  }

  /** The walk from a position inside the root, scanning at most `fuel` cells. */
  function Walk<S>(root: Cell, ray: Ray, bump: real, travelled: real, fuel: nat,
                   distSide: (SmoothTriangle, Ray) -> Option<(real, S)>, boxDist: (Aabb, Ray) -> Option<real>): Option<Hit<S>>
    requires WellFormed(root) && Contains(root.boundary, ray.pos) && ReachesBoundary(boxDist)
    decreases fuel
  {
    if fuel == 0 then None
    else
      match NextStep(root, ray, bump, travelled, distSide, boxDist)
      case Done(seen) => seen
      case Continue(next, t) => Walk(root, next, bump, t, fuel - 1, distSide, boxDist)
  }

  /**
   * Where the walk of `observe` starts: at the ray itself when it starts
   * inside the root, otherwise just past the root boundary when the ray
   * reaches it and the bumped position lies inside; nowhere else.
   */
  function Entry(bounds: Aabb, ray: Ray, bump: real, boxDist: (Aabb, Ray) -> Option<real>): (e: Option<(Ray, real)>)
    ensures e.Some? ==> Contains(bounds, e.value.0.pos)
    ensures Contains(bounds, ray.pos) ==> e == Some((ray, 0.0))
    ensures !Contains(bounds, ray.pos) && boxDist(bounds, ray).None? ==> e.None?
  {
    if Contains(bounds, ray.pos) then Some((ray, 0.0))
    else
      match boxDist(bounds, ray)
      case None => None
      case Some(dist) =>
        var next := Travel(ray, dist + bump);
        if !Contains(bounds, next.pos) then None
        else Some((next, 0.0 + (dist + bump)))
  }

  /** What `observe` sees: nothing when the ray never enters the root, otherwise the walk from where it enters. */
  function Observed<S>(root: Cell, ray: Ray, bump: real, fuel: nat,
                       distSide: (SmoothTriangle, Ray) -> Option<(real, S)>, boxDist: (Aabb, Ray) -> Option<real>): Option<Hit<S>>
    requires WellFormed(root) && ReachesBoundary(boxDist)
  {
    match Entry(root.boundary, ray, bump, boxDist)
    case None => None
    case Some((next, t)) => Walk(root, next, bump, t, fuel, distSide, boxDist)
  }

  /**
   * `observe`: moves a ray that starts outside the grid onto it, then scans
   * cell after cell, returning the first surface hit with the total distance
   * travelled added, or nothing once the ray leaves the grid. The loop is
   * bounded by `fuel` scans.
   */
  method Observe<S>(root: Cell, start: Ray, bump: real, fuel: nat,
                    distSide: (SmoothTriangle, Ray) -> Option<(real, S)>, boxDist: (Aabb, Ray) -> Option<real>)
    returns (r: Option<Hit<S>>)
    requires WellFormed(root) && ReachesBoundary(boxDist)
    ensures r == Observed(root, start, bump, fuel, distSide, boxDist)
    ensures !Contains(root.boundary, start.pos) && boxDist(root.boundary, start).None? ==> r.None?
  {
    var entry := Enter(root.boundary, start, bump, boxDist);
    if entry.None? {
      return None;
    }
    r := WalkFrom(root, entry.value.0, bump, entry.value.1, fuel, distSide, boxDist);
  }

  /** The part of `observe` before its loop: moving a ray that starts outside onto the root. */
  method Enter(bounds: Aabb, start: Ray, bump: real, boxDist: (Aabb, Ray) -> Option<real>) returns (e: Option<(Ray, real)>)
    ensures e == Entry(bounds, start, bump, boxDist)
  {
    var ray := start;
    var distTravelled := 0.0;
    if !Contains(bounds, ray.pos) {
      var dist := boxDist(bounds, ray);
      if dist.None? {
        return None;
      }
      var d := dist.value + bump;
      ray := Travel(ray, d);
      distTravelled := distTravelled + d;
      if !Contains(bounds, ray.pos) {
        return None;
      }
    }
    return Some((ray, distTravelled));
  }

  /** The scanning loop of `observe`, from a position inside the root. */
  method WalkFrom<S>(root: Cell, start: Ray, bump: real, travelled: real, fuel: nat,
                     distSide: (SmoothTriangle, Ray) -> Option<(real, S)>, boxDist: (Aabb, Ray) -> Option<real>)
    returns (r: Option<Hit<S>>)
    requires WellFormed(root) && Contains(root.boundary, start.pos) && ReachesBoundary(boxDist)
    ensures r == Walk(root, start, bump, travelled, fuel, distSide, boxDist)
  {
    var ray := start;
    var distTravelled := travelled;
    var n := fuel;
    while n > 0
      invariant Contains(root.boundary, ray.pos)
      invariant Walk(root, ray, bump, distTravelled, n, distSide, boxDist) == Walk(root, start, bump, travelled, fuel, distSide, boxDist)
      decreases n
    {
      var st := TakeStep(root, ray, bump, distTravelled, distSide, boxDist);
      WalkUnfold(root, ray, bump, distTravelled, n, distSide, boxDist);
      if st.Done? {
        return st.seen;
      }
      ray, distTravelled := st.ray, st.travelled;
      n := n - 1;
    }
    return None;
  }

  /** A walk with scans left takes one step, then stops or walks on with one scan fewer. */
  lemma WalkUnfold<S>(root: Cell, ray: Ray, bump: real, travelled: real, fuel: nat,
                      distSide: (SmoothTriangle, Ray) -> Option<(real, S)>, boxDist: (Aabb, Ray) -> Option<real>)
    requires WellFormed(root) && Contains(root.boundary, ray.pos) && ReachesBoundary(boxDist)
    requires fuel > 0
    ensures var st := NextStep(root, ray, bump, travelled, distSide, boxDist);
      Walk(root, ray, bump, travelled, fuel, distSide, boxDist)
        == if st.Done? then st.seen else Walk(root, st.ray, bump, st.travelled, fuel - 1, distSide, boxDist)
  {
  }

  /** One pass of the `observe` loop: scan the terminal cell at the position, then stop or move on. */
  method TakeStep<S>(root: Cell, ray: Ray, bump: real, travelled: real,
                     distSide: (SmoothTriangle, Ray) -> Option<(real, S)>, boxDist: (Aabb, Ray) -> Option<real>)
    returns (st: Step<S>)
    requires WellFormed(root) && Contains(root.boundary, ray.pos) && ReachesBoundary(boxDist)
    ensures st == NextStep(root, ray, bump, travelled, distSide, boxDist)
  {
    var cell := FindTerminalCell(root, ray.pos);
    var scan := HitScan(cell, ray, bump, distSide, boxDist);
    st := Decide(root.boundary, ray, bump, travelled, scan);
  }

  /** The branch of the `observe` loop that follows a scan. */
  method Decide<S>(bounds: Aabb, ray: Ray, bump: real, travelled: real, scan: Scan<S>) returns (st: Step<S>)
    ensures st == StepOf(bounds, ray, bump, travelled, scan)
  {
    match scan {
      case Surface(hit) =>
        return Done(Some(hit.(dist := hit.dist + travelled)));
      case Both(hit, _) =>
        return Done(Some(hit.(dist := hit.dist + travelled)));
      case Boundary(dist) =>
        var d := dist + bump;
        var next := Travel(ray, d);
        if !Contains(bounds, next.pos) {
          return Done(None);
        }
        return Continue(next, travelled + d);
    }
  }

  /** More scans never change a walk that has found a hit. */
  lemma {:induction false} WalkFuelStable<S>(root: Cell, ray: Ray, bump: real, travelled: real, fuel: nat,
                                             distSide: (SmoothTriangle, Ray) -> Option<(real, S)>, boxDist: (Aabb, Ray) -> Option<real>)
    requires WellFormed(root) && Contains(root.boundary, ray.pos) && ReachesBoundary(boxDist)
    requires Walk(root, ray, bump, travelled, fuel, distSide, boxDist).Some?
    ensures Walk(root, ray, bump, travelled, fuel + 1, distSide, boxDist) == Walk(root, ray, bump, travelled, fuel, distSide, boxDist)
    decreases fuel
  {
    var st := NextStep(root, ray, bump, travelled, distSide, boxDist);
    assert fuel > 0;
    WalkUnfold(root, ray, bump, travelled, fuel, distSide, boxDist);
    WalkUnfold(root, ray, bump, travelled, fuel + 1, distSide, boxDist);
    if st.Continue? {
      WalkFuelStable(root, st.ray, bump, st.travelled, fuel - 1, distSide, boxDist);
    }
  }

  /** With positive hit distances and non-negative boundary distances, a scan reports them so. */
  lemma ScanDistances<S>(cell: Cell, ray: Ray, bump: real, distSide: (SmoothTriangle, Ray) -> Option<(real, S)>,
                         boxDist: (Aabb, Ray) -> Option<real>)
    requires cell.Leaf? || cell.Empty?
    requires boxDist(cell.boundary, ray).Some?
    requires forall t: SmoothTriangle, r: Ray | distSide(t, r).Some? :: distSide(t, r).value.0 > 0.0
    requires forall b: Aabb, r: Ray | boxDist(b, r).Some? :: boxDist(b, r).value >= 0.0
    ensures !ScanOf(cell, ray, bump, distSide, boxDist).Surface? ==> ScanOf(cell, ray, bump, distSide, boxDist).dist >= 0.0
    ensures !ScanOf(cell, ray, bump, distSide, boxDist).Boundary? ==> ScanOf(cell, ray, bump, distSide, boxDist).hit.dist > 0.0
  {
    var tris := CellTris(cell);
    if Nearest(tris, ray, distSide).Some? {
      NearestIsFirst(tris, ray, distSide);
      var i: nat :| FirstMinAt(tris, i, ray, distSide, Nearest(tris, ray, distSide).value);
      assert distSide(tris[i].1, ray).Some?;
    }
  }

  /**
   * With positive hit distances, non-negative boundary distances and a
   * positive bump, each step goes on from farther along, and a hit found
   * lies beyond the distance already travelled.
   */
  lemma NextStepAdvances<S>(root: Cell, ray: Ray, bump: real, travelled: real,
                            distSide: (SmoothTriangle, Ray) -> Option<(real, S)>, boxDist: (Aabb, Ray) -> Option<real>)
    requires WellFormed(root) && Contains(root.boundary, ray.pos) && ReachesBoundary(boxDist)
    requires bump > 0.0
    requires forall t: SmoothTriangle, r: Ray | distSide(t, r).Some? :: distSide(t, r).value.0 > 0.0
    requires forall b: Aabb, r: Ray | boxDist(b, r).Some? :: boxDist(b, r).value >= 0.0
    ensures var st := NextStep(root, ray, bump, travelled, distSide, boxDist);
      && (st.Continue? ==> st.travelled > travelled)
      && (st.Done? && st.seen.Some? ==> st.seen.value.dist > travelled)
  {
    var cell := FindTerminalCell(root, ray.pos);
    ScanDistances(cell, ray, bump, distSide, boxDist);
  }

  /** The hit a walk finds lies beyond the distance already travelled. */
  lemma {:induction false} WalkBeyondTravelled<S>(root: Cell, ray: Ray, bump: real, travelled: real, fuel: nat,
                                                  distSide: (SmoothTriangle, Ray) -> Option<(real, S)>, boxDist: (Aabb, Ray) -> Option<real>)
    requires WellFormed(root) && Contains(root.boundary, ray.pos) && ReachesBoundary(boxDist)
    requires bump > 0.0
    requires forall t: SmoothTriangle, r: Ray | distSide(t, r).Some? :: distSide(t, r).value.0 > 0.0
    requires forall b: Aabb, r: Ray | boxDist(b, r).Some? :: boxDist(b, r).value >= 0.0
    ensures Walk(root, ray, bump, travelled, fuel, distSide, boxDist).Some? ==>
      Walk(root, ray, bump, travelled, fuel, distSide, boxDist).value.dist > travelled
    decreases fuel
  {
    if fuel > 0 {
      var st := NextStep(root, ray, bump, travelled, distSide, boxDist);
      NextStepAdvances(root, ray, bump, travelled, distSide, boxDist);
      if st.Continue? {
        WalkBeyondTravelled(root, st.ray, bump, st.travelled, fuel - 1, distSide, boxDist);
      }
    }
  }
}
