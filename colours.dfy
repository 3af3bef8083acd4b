/** The colour gradients form (src/file/form/colours.rs). */
module Colours {
  import opened Wrappers
  import opened Groups
  import opened GroupMaps

  /** A listed colour: red, green, blue and alpha components. */
  type Colour = (real, real, real, real)

  /** A linear sRGB colour with alpha. */
  datatype LinSrgba = LinSrgba(r: real, g: real, b: real, a: real)

  /** A gradient through evenly spaced colours, kept as its colour list. */
  datatype Gradient = Gradient(colours: seq<LinSrgba>)

  /** The gradient through the listed colours, in order, mapping components 0 to 3 to r, g, b and a. */
  function ToGradient(cols: seq<Colour>): (g: Gradient)
    ensures |g.colours| == |cols|
    ensures forall i | 0 <= i < |cols| ::
      g.colours[i] == LinSrgba(cols[i].0, cols[i].1, cols[i].2, cols[i].3)
  {
    Gradient(seq(|cols|, i requires 0 <= i < |cols| => LinSrgba(cols[i].0, cols[i].1, cols[i].2, cols[i].3)))
  }

  /** Why building stops; each stands for a panic of the source. */
  datatype BuildError =
    | DuplicateGroup(group: Group)  // a group listed a second time
    | NoColours(group: Group)       // a gradient through no colours, which `Gradient::new` refuses

  /** The entries before `j` build: no group repeats and each lists at least one colour. */
  ghost predicate BuildsUpTo(grads: seq<(Group, seq<Colour>)>, j: nat)
    requires j <= |grads|
  {
    NoDuplicates(grads[..j]) && forall i | 0 <= i < j :: |grads[i].1| > 0
  }

  /**
   * Entry `j` is where building stops with error `e`: the entries before it
   * build, and its group was listed before (checked first) or else it lists
   * no colour.
   */
  ghost predicate StopsAt(grads: seq<(Group, seq<Colour>)>, j: nat, e: BuildError) {
    && j < |grads|
    && BuildsUpTo(grads, j)
    && if exists i | 0 <= i < j :: grads[i].0 == grads[j].0 then e == DuplicateGroup(grads[j].0)
       else |grads[j].1| == 0 && e == NoColours(grads[j].0)
  }

  /**
   * `Colours::build`: one gradient per listed group, in list order, refusing
   * a group listed twice and a group listed with no colour. The render-side
   * colour set wrapping the map is not part of this model; the result is its
   * map.
   */
  method Build(grads: seq<(Group, seq<Colour>)>) returns (r: Result<map<Group, Gradient>, BuildError>)
    ensures r.Ok? <==> NoDuplicates(grads) && forall i | 0 <= i < |grads| :: |grads[i].1| > 0
    ensures r.Ok? ==> r.value.Keys == Listed(grads) && |r.value| == |grads|
    ensures r.Ok? ==> forall i | 0 <= i < |grads| :: r.value[grads[i].0] == ToGradient(grads[i].1)
    ensures r.Err? ==> exists j: nat :: StopsAt(grads, j, r.error)
  {
    BuildsAll(grads);
    var m: map<Group, Gradient> := map[];
    for i := 0 to |grads|
      invariant BuildsUpTo(grads, i) && Built(grads, i, m)
    {
      var (group, cols) := grads[i];
      if group in m {
        StopDuplicate(grads, i, m);
        StopBlocks(grads, i, DuplicateGroup(group), |grads|);
        return Err(DuplicateGroup(group));
      }
      if |cols| == 0 {
        StopEmpty(grads, i, m);
        StopBlocks(grads, i, NoColours(group), |grads|);
        return Err(NoColours(group));
      }
      BuildStep(grads, i, m);
      m := m[group := ToGradient(cols)];
    }
    assert grads[..|grads|] == grads;
    return Ok(m);
  }

  /** The map built from the entries before `i`: their groups as keys, each with the gradient through its colours. */
  ghost predicate Built(grads: seq<(Group, seq<Colour>)>, i: nat, m: map<Group, Gradient>)
    requires i <= |grads|
  {
    && m.Keys == Listed(grads[..i]) && |m| == i
    && forall k | 0 <= k < i :: grads[k].0 in m && m[grads[k].0] == ToGradient(grads[k].1)
  }

  /** Inserting an entry whose group is new and whose colours are not empty extends the build by one. */
  lemma BuildStep(grads: seq<(Group, seq<Colour>)>, i: nat, m: map<Group, Gradient>)
    requires i < |grads| && BuildsUpTo(grads, i) && Built(grads, i, m)
    requires grads[i].0 !in m && |grads[i].1| > 0
    ensures BuildsUpTo(grads, i + 1) && Built(grads, i + 1, m[grads[i].0 := ToGradient(grads[i].1)])
  {
    InsertStep(grads, i, m, ToGradient(grads[i].1));
  }

  /** An entry whose group is already a key is where building stops. */
  lemma StopDuplicate(grads: seq<(Group, seq<Colour>)>, i: nat, m: map<Group, Gradient>)
    requires i < |grads| && BuildsUpTo(grads, i) && Built(grads, i, m)
    requires grads[i].0 in m
    ensures StopsAt(grads, i, DuplicateGroup(grads[i].0))
  {
    DuplicateAt(grads, i, m);
  }

  /** An entry with a new group and no colours is where building stops. */
  lemma StopEmpty(grads: seq<(Group, seq<Colour>)>, i: nat, m: map<Group, Gradient>)
    requires i < |grads| && BuildsUpTo(grads, i) && Built(grads, i, m)
    requires grads[i].0 !in m && |grads[i].1| == 0
    ensures StopsAt(grads, i, NoColours(grads[i].0))
  {
  }

  /** A build succeeds exactly when no group repeats and every group lists a colour. */
  lemma BuildsAll(grads: seq<(Group, seq<Colour>)>)
    ensures BuildsUpTo(grads, |grads|) <==> NoDuplicates(grads) && forall i | 0 <= i < |grads| :: |grads[i].1| > 0
  {
    assert grads[..|grads|] == grads;
  }

  /** Building stops at one entry only. */
  lemma {:induction false} StopsOnce(grads: seq<(Group, seq<Colour>)>, j: nat, k: nat, e: BuildError, f: BuildError)
    requires StopsAt(grads, j, e) && StopsAt(grads, k, f)
    ensures j == k && e == f
  {
    if j < k {
      StopBlocks(grads, j, e, k);
    } else if k < j {
      StopBlocks(grads, k, f, j);
    }
  }

  /** Entries from a stopping point on do not all build. */
  lemma StopBlocks(grads: seq<(Group, seq<Colour>)>, j: nat, e: BuildError, k: nat)
    requires StopsAt(grads, j, e) && j < k <= |grads|
    ensures !BuildsUpTo(grads, k)
  {
    if exists i | 0 <= i < j :: grads[i].0 == grads[j].0 {
      var i :| 0 <= i < j && grads[i].0 == grads[j].0;
      assert grads[..k][i].0 == grads[..k][j].0;
    }
  }
}
