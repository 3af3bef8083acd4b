/**
 * Building the adaptive grid (src/geom/dom/grid/adaptive/constructor.rs).
 * Its cells are built exactly as the tree's (`TreeConstruct.InitChild` and
 * `TreeConstruct.InitChildren`); what differs is the root: the surfaces are
 * lists of meshes per group, the padding is applied inside `init_boundary`,
 * and the root's children start at depth 0.
 */
module AdaptiveConstruct {
  import opened Vectors
  import opened Boxes
  import opened Groups
  import opened Meshes
  import opened Scenes
  import opened Octree
  import opened CellProperties
  import opened TreeConstruct

  /**
   * `init_boundary` of the adaptive grid: the same widening loop over every
   * mesh of every group as the scene's, followed by the padding.
   */
  method InitBoundary(sett: Settings, surfs: map<Group, seq<Mesh>>, expand: (Aabb, real) -> Aabb) returns (b: Aabb)
    requires HasMesh(surfs)
    ensures b == expand(Boundary(surfs), sett.padding)
  {
    b := Scenes.InitBoundary(surfs);
    b := expand(b, sett.padding);
  }

  /** The tagged triangles of a list of meshes of one group, mesh after mesh. */
  function TagMeshes(g: Group, ms: seq<Mesh>): seq<Tagged>
  {
    if |ms| == 0 then [] else TagMeshes(g, ms[..|ms| - 1]) + Tag(g, ms[|ms| - 1].tris)
  }

  /** The tagged triangles of the given groups, group after group. */
  function FlattenGroups(surfs: map<Group, seq<Mesh>>, ks: seq<Group>): seq<Tagged>
    requires forall k | k in ks :: k in surfs
  {
    if |ks| == 0 then [] else FlattenGroups(surfs, ks[..|ks| - 1]) + TagMeshes(ks[|ks| - 1], surfs[ks[|ks| - 1]])
  }

  lemma TagMeshesStep(g: Group, ms: seq<Mesh>, j: nat)
    requires j < |ms|
    ensures TagMeshes(g, ms[..j + 1]) == TagMeshes(g, ms[..j]) + Tag(g, ms[j].tris)
  {
    assert ms[..j + 1][..j] == ms[..j];
  }

  lemma FlattenGroupsStep(surfs: map<Group, seq<Mesh>>, ks: seq<Group>, i: nat)
    requires forall k | k in ks :: k in surfs
    requires i < |ks|
    ensures FlattenGroups(surfs, ks[..i + 1]) == FlattenGroups(surfs, ks[..i]) + TagMeshes(ks[i], surfs[ks[i]])
  {
    assert ks[..i + 1][..i] == ks[..i];
  }

  /** Every tagged triangle of every mesh, in ascending group order. */
  function Flatten(surfs: map<Group, seq<Mesh>>): seq<Tagged>
  {
    FlattenGroups(surfs, SortedKeys(surfs))
  }

  lemma {:induction false} TagMeshesHas(g: Group, ms: seq<Mesh>, h: Group, t: SmoothTriangle)
    ensures (h, t) in TagMeshes(g, ms) <==> h == g && exists i | 0 <= i < |ms| :: t in ms[i].tris
  {
    if |ms| > 0 {
      var n := |ms| - 1;
      TagMeshesHas(g, ms[..n], h, t);
      var tagged := Tag(g, ms[n].tris);
      if (h, t) in tagged {
        var j :| 0 <= j < |tagged| && tagged[j] == (h, t);
        assert t in ms[n].tris;
      }
      if h == g && t in ms[n].tris {
        var j :| 0 <= j < |ms[n].tris| && ms[n].tris[j] == t;
        assert tagged[j] == (h, t);
      }
      if h == g && exists i | 0 <= i < |ms| :: t in ms[i].tris {
        var i :| 0 <= i < |ms| && t in ms[i].tris;
        if i < n {
          assert ms[..n][i] == ms[i];
        }
      }
      if h == g && exists i | 0 <= i < n :: t in ms[..n][i].tris {
        var i :| 0 <= i < n && t in ms[..n][i].tris;
        assert ms[i] == ms[..n][i];
      }
    }
  }

  lemma {:induction false} FlattenGroupsHas(surfs: map<Group, seq<Mesh>>, ks: seq<Group>, g: Group, t: SmoothTriangle)
    requires forall k | k in ks :: k in surfs
    ensures (g, t) in FlattenGroups(surfs, ks) <==> g in ks && exists i | 0 <= i < |surfs[g]| :: t in surfs[g][i].tris
  {
    if |ks| > 0 {
      var n := |ks| - 1;
      FlattenGroupsHas(surfs, ks[..n], g, t);
      assert ks == ks[..n] + [ks[n]];
      TagMeshesHas(ks[n], surfs[ks[n]], g, t);
    }
  }

  /** The flattened list holds exactly the triangles of every mesh of every group, tagged with their group. */
  lemma FlattenHas(surfs: map<Group, seq<Mesh>>, g: Group, t: SmoothTriangle)
    ensures (g, t) in Flatten(surfs) <==> g in surfs && exists i | 0 <= i < |surfs[g]| :: t in surfs[g][i].tris
  {
    FlattenGroupsHas(surfs, SortedKeys(surfs), g, t);
  }

  /** The loop over the meshes of one group: pushes each mesh's triangles with the group. */
  method PushMeshes(tris: seq<Tagged>, group: Group, meshes: seq<Mesh>) returns (r: seq<Tagged>)
    ensures r == tris + TagMeshes(group, meshes)
  {
    r := tris;
    assert meshes[..0] == [];
    for j := 0 to |meshes|
      invariant r == tris + TagMeshes(group, meshes[..j])
    {
      TagMeshesStep(group, meshes, j);
      r := PushTagged(r, group, meshes[j].tris);
    }
    assert meshes[..|meshes|] == meshes;
  }

  /** The flattening loops of `new_root`: every triangle of every mesh of every group, with its group. */
  method FlattenTris(surfs: map<Group, seq<Mesh>>) returns (tris: seq<Tagged>)
    ensures tris == Flatten(surfs)
  {
    var keys := SortedKeys(surfs);
    tris := [];
    for i := 0 to |keys|
      invariant tris == FlattenGroups(surfs, keys[..i])
    {
      var group := keys[i];
      FlattenGroupsStep(surfs, keys, i);
      tris := PushMeshes(tris, group, surfs[group]);
    }
    assert keys[..|keys|] == keys;
  }

  /**
   * `new_root` of the adaptive grid: the padded union of the mesh boxes is
   * the root boundary, and the root's children are built at depth 0 from
   * every tagged triangle. The depth limit must not be negative.
   */
  method NewRoot(sett: Settings, surfs: map<Group, seq<Mesh>>,
                 overlap: (SmoothTriangle, Aabb) -> bool, expand: (Aabb, real) -> Aabb)
    returns (c: Cell)
    requires HasMesh(surfs)
    requires 0 <= sett.maxDepth
    ensures c.Root? && c.boundary == expand(Boundary(surfs), sett.padding)
    ensures c.children == ChildrenSpec(sett, c.boundary, 0, Flatten(surfs), overlap, expand)
    ensures WellFormed(c) && Branching(c) && MaxDepth(c) <= sett.maxDepth + 1
    ensures LeavesFrom(c, Flatten(surfs), sett, overlap, expand)
  {
    var boundary := InitBoundary(sett, surfs, expand);
    var tris := FlattenTris(surfs);
    var children := InitChildren(sett, boundary, 0, tris, overlap, expand);
    c := Root(boundary, children);
    RootShape(sett, boundary, 0, tris, overlap, expand);
  }
}
