/**
 * Scenes (src/geom/dom/collect/scene.rs): meshes grouped by surface group,
 * with a boundary enclosing every mesh box. The union of boxes defined here
 * is also the boundary of the two octree constructors.
 */
module Scenes {
  import opened Wrappers
  import opened Vectors
  import opened Boxes
  import opened Groups
  import opened Meshes

  /** A scene: the boundary and the meshes of each group. */
  datatype Scene = Scene(boundary: Aabb, surfs: map<Group, seq<Mesh>>)

  // ---------------------------------------------------------------- union of boxes

  function Lows(boxes: seq<Aabb>): (vs: seq<Vec3>)
    ensures |vs| == |boxes| && forall i | 0 <= i < |boxes| :: vs[i] == boxes[i].mins
  {
    seq(|boxes|, i requires 0 <= i < |boxes| => boxes[i].mins)
  }

  function Highs(boxes: seq<Aabb>): (vs: seq<Vec3>)
    ensures |vs| == |boxes| && forall i | 0 <= i < |boxes| :: vs[i] == boxes[i].maxs
  {
    seq(|boxes|, i requires 0 <= i < |boxes| => boxes[i].maxs)
  }

  /** The box from the least of the minimum corners to the greatest of the maximum corners. */
  function Union(boxes: seq<Aabb>): Aabb
    requires |boxes| > 0
  {
    Aabb(MinFold(Lows(boxes)), MaxFold(Highs(boxes)))
  }

  /** The union reaches at least as far as each box on every side. */
  lemma UnionEncloses(boxes: seq<Aabb>, i: nat)
    requires i < |boxes|
    ensures Union(boxes).mins.LessEq(boxes[i].mins) && boxes[i].maxs.LessEq(Union(boxes).maxs)
  {
    FoldsBound(Lows(boxes));
    FoldsBound(Highs(boxes));
  }

  /** The union of proper boxes is proper. */
  lemma UnionProper(boxes: seq<Aabb>)
    requires |boxes| > 0 && forall i | 0 <= i < |boxes| :: Proper(boxes[i])
    ensures Proper(Union(boxes))
  {
    UnionEncloses(boxes, 0);
  }

  /** Each side of the union is a side of some box. */
  lemma UnionTight(boxes: seq<Aabb>)
    requires |boxes| > 0
    ensures var u := Union(boxes);
      && (exists i | 0 <= i < |boxes| :: boxes[i].mins.x == u.mins.x)
      && (exists i | 0 <= i < |boxes| :: boxes[i].mins.y == u.mins.y)
      && (exists i | 0 <= i < |boxes| :: boxes[i].mins.z == u.mins.z)
      && (exists i | 0 <= i < |boxes| :: boxes[i].maxs.x == u.maxs.x)
      && (exists i | 0 <= i < |boxes| :: boxes[i].maxs.y == u.maxs.y)
      && (exists i | 0 <= i < |boxes| :: boxes[i].maxs.z == u.maxs.z)
  {
    FoldsAttained(Lows(boxes));
    FoldsAttained(Highs(boxes));
  }

  /** The running corners after the given boxes: none before the first box. */
  function Corners(seen: seq<Aabb>): (Option<Vec3>, Option<Vec3>)
  {
    if |seen| == 0 then (None, None) else (Some(MinFold(Lows(seen))), Some(MaxFold(Highs(seen))))
  }

  /**
   * One step of the boundary loops: the first box sets both corners, and each
   * later box lowers a minimum component below it or raises a maximum
   * component above it.
   */
  method Widen(mins: Option<Vec3>, maxs: Option<Vec3>, box: Aabb, ghost seen: seq<Aabb>)
    returns (mins': Option<Vec3>, maxs': Option<Vec3>)
    requires (mins, maxs) == Corners(seen)
    ensures (mins', maxs') == Corners(seen + [box])
  {
    assert Lows(seen + [box]) == Lows(seen) + [box.mins];
    assert Highs(seen + [box]) == Highs(seen) + [box.maxs];
    if mins.None? {
      mins' := Some(box.mins);
    } else {
      FoldsSnoc(Lows(seen), box.mins);
      mins' := Some(Min(mins.value, box.mins));
    }
    if maxs.None? {
      maxs' := Some(box.maxs);
    } else {
      FoldsSnoc(Highs(seen), box.maxs);
      maxs' := Some(Max(maxs.value, box.maxs));
    }
  }

  // ---------------------------------------------------------------- grouped meshes

  function MeshBoxes(ms: seq<Mesh>): (bs: seq<Aabb>)
    ensures |bs| == |ms| && forall i | 0 <= i < |ms| :: bs[i] == ms[i].aabb
  {
    seq(|ms|, i requires 0 <= i < |ms| => ms[i].aabb)
  }

  /** The meshes of the given groups, group after group. */
  function Grouped(surfs: map<Group, seq<Mesh>>, ks: seq<Group>): seq<Mesh>
    requires forall k | k in ks :: k in surfs
  {
    if |ks| == 0 then [] else Grouped(surfs, ks[..|ks| - 1]) + surfs[ks[|ks| - 1]]
  }

  /** Every mesh of a scene, in ascending group order. */
  function AllMeshes(surfs: map<Group, seq<Mesh>>): seq<Mesh>
  {
    Grouped(surfs, SortedKeys(surfs))
  }

  /** Each mesh of a listed group occurs in the grouped list. */
  lemma {:induction false} GroupedHas(surfs: map<Group, seq<Mesh>>, ks: seq<Group>, g: Group, i: nat)
    requires forall k | k in ks :: k in surfs
    requires g in ks && i < |surfs[g]|
    ensures surfs[g][i] in Grouped(surfs, ks)
  {
    var n := |ks| - 1;
    if ks[n] == g {
      assert surfs[g][i] in surfs[ks[n]];
    } else {
      assert g in ks[..n] by {
        var j :| 0 <= j < |ks| && ks[j] == g;
        assert j < n && ks[..n][j] == g;
      }
      GroupedHas(surfs, ks[..n], g, i);
    }
  }

  /** A scene has some mesh: the boundary loops then set both corners. */
  predicate HasMesh(surfs: map<Group, seq<Mesh>>) {
    exists g | g in surfs :: |surfs[g]| > 0
  }

  /** The union of the boxes of every mesh of the scene. */
  function Boundary(surfs: map<Group, seq<Mesh>>): Aabb
    requires HasMesh(surfs)
  {
    SomeMesh(surfs);
    Union(MeshBoxes(AllMeshes(surfs)))
  }

  lemma SomeMesh(surfs: map<Group, seq<Mesh>>)
    requires HasMesh(surfs)
    ensures |AllMeshes(surfs)| > 0
  {
    var g :| g in surfs && |surfs[g]| > 0;
    GroupedHas(surfs, SortedKeys(surfs), g, 0);
  }

  /** The scene boundary encloses every mesh box of every group. */
  lemma BoundaryEncloses(surfs: map<Group, seq<Mesh>>, g: Group, i: nat)
    requires g in surfs && i < |surfs[g]|
    ensures HasMesh(surfs)
    ensures Boundary(surfs).mins.LessEq(surfs[g][i].aabb.mins)
    ensures surfs[g][i].aabb.maxs.LessEq(Boundary(surfs).maxs)
  {
    GroupedHas(surfs, SortedKeys(surfs), g, i);
    var all := AllMeshes(surfs);
    var k :| 0 <= k < |all| && all[k] == surfs[g][i];
    UnionEncloses(MeshBoxes(all), k);
  }

  lemma MeshBoxesSnoc(ms: seq<Mesh>, m: Mesh)
    ensures MeshBoxes(ms + [m]) == MeshBoxes(ms) + [m.aabb]
  {
  }

  /** Widens the corners over the boxes of the meshes of one group, in list order. */
  method WidenOver(mins: Option<Vec3>, maxs: Option<Vec3>, meshes: seq<Mesh>, ghost before: seq<Mesh>)
    returns (mins': Option<Vec3>, maxs': Option<Vec3>)
    requires (mins, maxs) == Corners(MeshBoxes(before))
    ensures (mins', maxs') == Corners(MeshBoxes(before + meshes))
  {
    mins', maxs' := mins, maxs;
    assert before + meshes[..0] == before;
    for mi := 0 to |meshes|
      invariant (mins', maxs') == Corners(MeshBoxes(before + meshes[..mi]))
    {
      ghost var done := before + meshes[..mi];
      mins', maxs' := Widen(mins', maxs', meshes[mi].aabb, MeshBoxes(done));
      MeshBoxesSnoc(done, meshes[mi]);
      assert before + meshes[..mi + 1] == done + [meshes[mi]];
    }
    assert meshes[..|meshes|] == meshes;
  }

  /**
   * `Scene::init_boundary`: visits the meshes group by group in ascending key
   * order, widening the corners over each mesh box. It panics when the scene
   * has no mesh.
   */
  method InitBoundary(surfs: map<Group, seq<Mesh>>) returns (b: Aabb)
    requires HasMesh(surfs)
    ensures b == Boundary(surfs)
  {
    var keys := SortedKeys(surfs);
    var mins: Option<Vec3>, maxs: Option<Vec3> := None, None;
    for gi := 0 to |keys|
      invariant (mins, maxs) == Corners(MeshBoxes(Grouped(surfs, keys[..gi])))
    {
      GroupedStep(surfs, keys, gi);
      mins, maxs := WidenOver(mins, maxs, surfs[keys[gi]], Grouped(surfs, keys[..gi]));
    }
    assert keys[..|keys|] == keys;
    SomeMesh(surfs);
    CornersOfUnion(MeshBoxes(AllMeshes(surfs)));
    b := Aabb(mins.value, maxs.value);
  }

  /** One more group adds its meshes to the end of the grouped list. */
  lemma GroupedStep(surfs: map<Group, seq<Mesh>>, keys: seq<Group>, gi: nat)
    requires forall k | k in keys :: k in surfs
    requires gi < |keys|
    ensures Grouped(surfs, keys[..gi + 1]) == Grouped(surfs, keys[..gi]) + surfs[keys[gi]]
  {
    assert keys[..gi + 1][..gi] == keys[..gi];
  }

  /** Once some box is seen, the corners are those of the union of the boxes seen. */
  lemma CornersOfUnion(boxes: seq<Aabb>)
    requires |boxes| > 0
    ensures Corners(boxes) == (Some(Union(boxes).mins), Some(Union(boxes).maxs))
  {
  }

  /** `Scene::new`: keeps the grouped meshes and computes their boundary. */
  method New(surfs: map<Group, seq<Mesh>>) returns (s: Scene)
    requires HasMesh(surfs)
    ensures s.surfs == surfs && s.boundary == Boundary(surfs)
  {
    var boundary := InitBoundary(surfs);
    s := Scene(boundary, surfs);
  }

  // ---------------------------------------------------------------- loading

  /**
   * The path of a mesh file: `<name>.obj` joined onto the input directory as
   * `Path::join` does on Unix. An absolute file name replaces the directory,
   * and a separator is added unless the directory is empty or already ends with one.
   */
  function ObjPath(inDir: string, name: string): (p: string)
    ensures |p| >= |name| + 4 && p[|p| - |name| - 4..] == name + ".obj"
  {
    var file := name + ".obj";
    if file[0] == '/' then file
    else if |inDir| == 0 || inDir[|inDir| - 1] == '/' then inDir + file
    else inDir + "/" + file
  }

  /** The file names listed for group `g`, in listing order. */
  function Listed(names: seq<(Group, seq<string>)>, g: Group): seq<string>
  {
    if |names| == 0 then []
    else Listed(names[..|names| - 1], g) + (if names[|names| - 1].0 == g then names[|names| - 1].1 else [])
  }

  /** Every listed file name, in listing order. */
  function AllNames(names: seq<(Group, seq<string>)>): seq<string>
  {
    if |names| == 0 then [] else AllNames(names[..|names| - 1]) + names[|names| - 1].1
  }

  /** The meshes of a group match the loads of its listed files, one for one and in order. */
  predicate LoadedAs(ms: seq<Mesh>, inDir: string, ns: seq<string>, load: string -> Result<Mesh, string>) {
    |ms| == |ns| && forall k | 0 <= k < |ns| :: load(ObjPath(inDir, ns[k])) == Ok(ms[k])
  }

  /** The grouped meshes after loading the listed files: one group per group with some file. */
  ghost predicate Collected(surfs: map<Group, seq<Mesh>>, names: seq<(Group, seq<string>)>, inDir: string, load: string -> Result<Mesh, string>) {
    && (forall g :: g in surfs <==> |Listed(names, g)| > 0)
    && (forall g | g in surfs :: LoadedAs(surfs[g], inDir, Listed(names, g), load))
  }

  /** Every listed file loads. */
  predicate AllLoad(ns: seq<string>, inDir: string, load: string -> Result<Mesh, string>) {
    forall k | 0 <= k < |ns| :: load(ObjPath(inDir, ns[k])).Ok?
  }

  lemma AllNamesSnoc(names: seq<(Group, seq<string>)>, entry: (Group, seq<string>))
    ensures AllNames(names + [entry]) == AllNames(names) + entry.1
    ensures forall g :: Listed(names + [entry], g) == Listed(names, g) + (if entry.0 == g then entry.1 else [])
  {
    assert (names + [entry])[..|names|] == names;
  }

  lemma AllNamesStep(names: seq<(Group, seq<string>)>, i: nat)
    requires i < |names|
    ensures AllNames(names[..i + 1]) == AllNames(names[..i]) + names[i].1
  {
    assert names[..i + 1][..i] == names[..i];
  }

  /** The names of a prefix of the listing come first among all names. */
  lemma {:induction false} AllNamesPrefix(names: seq<(Group, seq<string>)>, i: nat)
    requires i <= |names|
    ensures |AllNames(names[..i])| <= |AllNames(names)|
    ensures AllNames(names)[..|AllNames(names[..i])|] == AllNames(names[..i])
    decreases |names| - i
  {
    if i < |names| {
      AllNamesPrefix(names, i + 1);
      assert names[..i + 1] == names[..i] + [names[i]];
      AllNamesSnoc(names[..i], names[i]);
    } else {
      assert names[..i] == names;
    }
  }

  /** Some file is listed, so some group gets a mesh. */
  lemma {:induction false} ListedSome(names: seq<(Group, seq<string>)>)
    requires |AllNames(names)| > 0
    ensures exists g :: |Listed(names, g)| > 0
  {
    var n := |names| - 1;
    if |names[n].1| > 0 {
      assert |Listed(names, names[n].0)| > 0;
    } else {
      ListedSome(names[..n]);
      var g :| |Listed(names[..n], g)| > 0;
      assert |Listed(names, g)| > 0;
    }
  }

  /** Whether every file of two lists loads is whether every file of each does. */
  lemma AllLoadAppend(a: seq<string>, b: seq<string>, inDir: string, load: string -> Result<Mesh, string>)
    ensures AllLoad(a + b, inDir, load) <==> AllLoad(a, inDir, load) && AllLoad(b, inDir, load)
  {
    if AllLoad(a + b, inDir, load) {
      forall k | 0 <= k < |a| ensures load(ObjPath(inDir, a[k])).Ok? {
        assert (a + b)[k] == a[k];
      }
      forall k | 0 <= k < |b| ensures load(ObjPath(inDir, b[k])).Ok? {
        assert (a + b)[|a| + k] == b[k];
      }
    }
  }

  /** A mesh appended to its group, the group being created at its first mesh. */
  function AddMesh(surfs: map<Group, seq<Mesh>>, g: Group, m: Mesh): (r: map<Group, seq<Mesh>>)
    ensures r.Keys == surfs.Keys + {g}
    ensures r[g] == (if g in surfs then surfs[g] else []) + [m]
    ensures forall h | h in surfs && h != g :: r[h] == surfs[h]
  {
    if g in surfs then surfs[g := surfs[g] + [m]] else surfs[g := [m]]
  }

  /** An entry listing no file changes nothing that was collected. */
  lemma CollectedNoFile(surfs: map<Group, seq<Mesh>>, before: seq<(Group, seq<string>)>, g: Group,
                        inDir: string, load: string -> Result<Mesh, string>)
    requires Collected(surfs, before, inDir, load)
    ensures Collected(surfs, before + [(g, [])], inDir, load)
  {
    AllNamesSnoc(before, (g, []));
    forall h ensures Listed(before + [(g, [])], h) == Listed(before, h) {
      assert Listed(before, h) + [] == Listed(before, h);
    }
  }

  /** One more file of the last entry is one more file of its group and of no other. */
  lemma ListedStep(before: seq<(Group, seq<string>)>, g: Group, ns: seq<string>, n: string, h: Group)
    ensures Listed(before + [(g, ns + [n])], h) == Listed(before + [(g, ns)], h) + (if h == g then [n] else [])
  {
    assert (before + [(g, ns + [n])])[..|before|] == before;
    assert (before + [(g, ns)])[..|before|] == before;
  }

  /** Loading one more file of a group appends its mesh to that group and to nothing else. */
  lemma CollectedSnoc(surfs: map<Group, seq<Mesh>>, before: seq<(Group, seq<string>)>, g: Group,
                      ns: seq<string>, n: string, m: Mesh, inDir: string, load: string -> Result<Mesh, string>)
    requires Collected(surfs, before + [(g, ns)], inDir, load)
    requires load(ObjPath(inDir, n)) == Ok(m)
    ensures Collected(AddMesh(surfs, g, m), before + [(g, ns + [n])], inDir, load)
  {
    var surfs' := AddMesh(surfs, g, m);
    var old_ := before + [(g, ns)];
    var new_ := before + [(g, ns + [n])];
    forall h ensures h in surfs' <==> |Listed(new_, h)| > 0 {
      ListedStep(before, g, ns, n, h);
    }
    forall h | h in surfs' ensures LoadedAs(surfs'[h], inDir, Listed(new_, h), load) {
      ListedStep(before, g, ns, n, h);
      if h == g {
        var prev := if g in surfs then surfs[g] else [];
        assert LoadedAs(prev, inDir, Listed(old_, g), load);
        LoadedAsSnoc(prev, m, inDir, Listed(old_, g), n, load);
      }
    }
  }

  lemma LoadedAsSnoc(ms: seq<Mesh>, m: Mesh, inDir: string, ns: seq<string>, n: string, load: string -> Result<Mesh, string>)
    requires LoadedAs(ms, inDir, ns, load) && load(ObjPath(inDir, n)) == Ok(m)
    ensures LoadedAs(ms + [m], inDir, ns + [n], load)
  {
    forall k | 0 <= k < |ns + [n]| ensures load(ObjPath(inDir, (ns + [n])[k])) == Ok((ms + [m])[k]) {
      if k < |ns| {
        assert (ns + [n])[k] == ns[k];
      }
    }
  }

  /**
   * The loop over the files of one group: loads each in turn and appends its
   * mesh, returning the first load error.
   */
  method LoadGroup(inDir: string, group: Group, meshNames: seq<string>, load: string -> Result<Mesh, string>,
                   surfs: map<Group, seq<Mesh>>, ghost before: seq<(Group, seq<string>)>)
    returns (r: Result<map<Group, seq<Mesh>>, string>)
    requires Collected(surfs, before, inDir, load)
    ensures r.Ok? <==> AllLoad(meshNames, inDir, load)
    ensures r.Err? ==> exists j | 0 <= j < |meshNames| ::
      && AllLoad(meshNames[..j], inDir, load)
      && load(ObjPath(inDir, meshNames[j])) == Err(r.error)
    ensures r.Ok? ==> Collected(r.value, before + [(group, meshNames)], inDir, load)
  {
    var acc := surfs;
    CollectedNoFile(surfs, before, group, inDir, load);
    assert meshNames[..0] == [];
    for j := 0 to |meshNames|
      invariant AllLoad(meshNames[..j], inDir, load)
      invariant Collected(acc, before + [(group, meshNames[..j])], inDir, load)
    {
      var mesh := load(ObjPath(inDir, meshNames[j]));
      if mesh.Err? {
        FailsAt(meshNames, j, mesh.error, inDir, load);
        return Err(mesh.error);
      }
      LoadsSnoc(meshNames, j, inDir, load);
      CollectedSnoc(acc, before, group, meshNames[..j], meshNames[j], mesh.value, inDir, load);
      acc := AddMesh(acc, group, mesh.value);
    }
    assert meshNames[..|meshNames|] == meshNames;
    return Ok(acc);
  }

  /** A failing file of entry `i` is a failing file of the whole listing, after files that all load. */
  lemma FirstFailure(names: seq<(Group, seq<string>)>, i: nat, j: nat, e: string,
                     inDir: string, load: string -> Result<Mesh, string>)
    requires i < |names| && j < |names[i].1|
    requires AllLoad(AllNames(names[..i]), inDir, load)
    requires AllLoad(names[i].1[..j], inDir, load)
    requires load(ObjPath(inDir, names[i].1[j])) == Err(e)
    ensures exists k | 0 <= k < |AllNames(names)| ::
      && AllLoad(AllNames(names)[..k], inDir, load)
      && load(ObjPath(inDir, AllNames(names)[k])) == Err(e)
    ensures !AllLoad(AllNames(names), inDir, load)
  {
    var prefix := AllNames(names[..i]);
    var ns := names[i].1;
    var all := AllNames(names);
    assert all[..|prefix| + |ns|] == prefix + ns by {
      AllNamesStep(names, i);
      AllNamesPrefix(names, i + 1);
    }
    PrefixSplit(all, prefix, ns, j);
    assert AllLoad(all[..|prefix| + j], inDir, load) by {
      AllLoadAppend(prefix, ns[..j], inDir, load);
    }
    FailsAt(all, |prefix| + j, e, inDir, load);
  }

  /** Where a list starts with `prefix + ns`, the `j`-th name of `ns` sits after the whole prefix. */
  lemma PrefixSplit(all: seq<string>, prefix: seq<string>, ns: seq<string>, j: nat)
    requires j < |ns| && |prefix| + |ns| <= |all|
    requires all[..|prefix| + |ns|] == prefix + ns
    ensures all[|prefix| + j] == ns[j]
    ensures all[..|prefix| + j] == prefix + ns[..j]
  {
    assert all[|prefix| + j] == (prefix + ns)[|prefix| + j];
    assert all[..|prefix| + j] == (prefix + ns)[..|prefix| + j];
  }

  /** One more file that loads extends a run of files that all load. */
  lemma LoadsSnoc(ns: seq<string>, j: nat, inDir: string, load: string -> Result<Mesh, string>)
    requires j < |ns| && AllLoad(ns[..j], inDir, load)
    requires load(ObjPath(inDir, ns[j])).Ok?
    ensures ns[..j + 1] == ns[..j] + [ns[j]]
    ensures AllLoad(ns[..j + 1], inDir, load)
  {
    assert ns[..j + 1] == ns[..j] + [ns[j]];
  }

  /** A file that fails after files that all load is a first failure. */
  lemma FailsAt(all: seq<string>, k: nat, e: string, inDir: string, load: string -> Result<Mesh, string>)
    requires k < |all| && AllLoad(all[..k], inDir, load)
    requires load(ObjPath(inDir, all[k])) == Err(e)
    ensures exists k' | 0 <= k' < |all| ::
      && AllLoad(all[..k'], inDir, load)
      && load(ObjPath(inDir, all[k'])) == Err(e)
    ensures !AllLoad(all, inDir, load)
  {
    assert !load(ObjPath(inDir, all[k])).Ok?;
  }

  /**
   * `Scene::load`: loads `<in_dir>/<name>.obj` for each listed name, group by
   * group, appending each mesh to its group (created at its first mesh), and
   * returns the first load error. The mesh loader is given. The scene then
   * panics when no file is listed at all.
   */
  method Load(inDir: string, names: seq<(Group, seq<string>)>, load: string -> Result<Mesh, string>)
    returns (r: Result<Scene, string>)
    requires |AllNames(names)| > 0
    ensures r.Ok? <==> AllLoad(AllNames(names), inDir, load)
    ensures r.Err? ==> exists k | 0 <= k < |AllNames(names)| ::
      && AllLoad(AllNames(names)[..k], inDir, load)
      && load(ObjPath(inDir, AllNames(names)[k])) == Err(r.error)
    ensures r.Ok? ==> Collected(r.value.surfs, names, inDir, load)
    ensures r.Ok? ==> HasMesh(r.value.surfs) && r.value.boundary == Boundary(r.value.surfs)
  {
    var surfs: map<Group, seq<Mesh>> := map[];
    for i := 0 to |names|
      invariant AllLoad(AllNames(names[..i]), inDir, load)
      invariant Collected(surfs, names[..i], inDir, load)
    {
      var (group, meshNames) := names[i];
      var res := LoadGroup(inDir, group, meshNames, load, surfs, names[..i]);
      AllNamesStep(names, i);
      AllLoadAppend(AllNames(names[..i]), meshNames, inDir, load);
      if res.Err? {
        ghost var j :| 0 <= j < |meshNames| && AllLoad(meshNames[..j], inDir, load)
          && load(ObjPath(inDir, meshNames[j])) == Err(res.error);
        FirstFailure(names, i, j, res.error, inDir, load);
        return Err(res.error);
      }
      assert names[..i + 1] == names[..i] + [(group, meshNames)];
      surfs := res.value;
    }
    assert names[..|names|] == names;
    ListedSome(names);
    var s := New(surfs);
    return Ok(s);
  }
}
