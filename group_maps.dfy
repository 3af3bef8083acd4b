/**
 * Building a group-keyed map from a list of (group, value) pairs, refusing
 * a group listed twice: the loop shared by the attribute and colour
 * builders.
 */
module GroupMaps {
  import opened Wrappers
  import opened Groups

  /** No group is listed twice. */
  predicate NoDuplicates<V>(pairs: seq<(Group, V)>) {
    forall i, j | 0 <= i < j < |pairs| :: pairs[i].0 != pairs[j].0
  }

  /** The groups listed. */
  function Listed<V>(pairs: seq<(Group, V)>): set<Group> {
    set i | 0 <= i < |pairs| :: pairs[i].0
  }

  /** Entry j is the first whose group was already listed before it. */
  ghost predicate FirstDuplicate<V>(pairs: seq<(Group, V)>, j: nat) {
    && j < |pairs|
    && NoDuplicates(pairs[..j])
    && exists i | 0 <= i < j :: pairs[i].0 == pairs[j].0
  }

  /**
   * The build loop: inserts each pair in list order after checking that its
   * group is not yet a key. A group listed twice is where the source panics
   * (naming the group); here it is the error, naming the same group.
   */
  method Build<V>(pairs: seq<(Group, V)>) returns (r: Result<map<Group, V>, Group>)
    ensures r.Ok? <==> NoDuplicates(pairs)
    ensures r.Ok? ==> r.value.Keys == Listed(pairs) && |r.value| == |pairs|
    ensures r.Ok? ==> forall i | 0 <= i < |pairs| :: r.value[pairs[i].0] == pairs[i].1
    ensures r.Err? ==> exists j: nat :: FirstDuplicate(pairs, j) && pairs[j].0 == r.error
  {
    var m: map<Group, V> := map[];
    for i := 0 to |pairs|
      invariant NoDuplicates(pairs[..i])
      invariant m.Keys == Listed(pairs[..i]) && |m| == i
      invariant forall j | 0 <= j < i :: pairs[j].0 in m && m[pairs[j].0] == pairs[j].1
    {
      var (group, value) := pairs[i];
      if group in m {
        DuplicateAt(pairs, i, m);
        return Err(group);
      }
      InsertStep(pairs, i, m, value);
      ValuesStep(pairs, i, m);
      m := m[group := value];
    }
    assert pairs[..|pairs|] == pairs;
    return Ok(m);
  }

  /** Inserting pair i, whose group is not yet a key, extends the map built from the pairs before it by one. */
  lemma InsertStep<V, W>(pairs: seq<(Group, V)>, i: nat, m: map<Group, W>, w: W)
    requires i < |pairs| && pairs[i].0 !in m
    requires NoDuplicates(pairs[..i]) && m.Keys == Listed(pairs[..i]) && |m| == i
    ensures NoDuplicates(pairs[..i + 1])
    ensures m[pairs[i].0 := w].Keys == Listed(pairs[..i + 1])
    ensures |m[pairs[i].0 := w]| == i + 1
  {
    var g := pairs[i].0;
    assert Listed(pairs[..i + 1]) == Listed(pairs[..i]) + {g} by {
      assert forall j | 0 <= j < i :: pairs[..i + 1][j] == pairs[..i][j];
    }
    StillUnique(pairs, i, m.Keys);
    assert m[g := w].Keys == m.Keys + {g};
  }

  /** A pair whose group is not among the groups before it keeps the list free of duplicates. */
  lemma StillUnique<V>(pairs: seq<(Group, V)>, i: nat, keys: set<Group>)
    requires i < |pairs| && pairs[i].0 !in keys
    requires NoDuplicates(pairs[..i]) && keys == Listed(pairs[..i])
    ensures NoDuplicates(pairs[..i + 1])
  {
    var p := pairs[..i + 1];
    forall j, k | 0 <= j < k < i + 1 ensures p[j].0 != p[k].0 {
      if k == i {
        assert pairs[j].0 in Listed(pairs[..i]) by {
          assert pairs[..i][j] == pairs[j];
        }
      } else {
        assert pairs[..i][j] == pairs[j] && pairs[..i][k] == pairs[k];
      }
    }
  }

  /** Pair i's group already a key of the map built from the pairs before it: pair i is the first duplicate. */
  lemma DuplicateAt<V, W>(pairs: seq<(Group, V)>, i: nat, m: map<Group, W>)
    requires i < |pairs| && pairs[i].0 in m
    requires NoDuplicates(pairs[..i]) && m.Keys == Listed(pairs[..i])
    ensures FirstDuplicate(pairs, i)
  {
    assert pairs[i].0 in Listed(pairs[..i]);
    var k :| 0 <= k < i && pairs[..i][k].0 == pairs[i].0;
    assert pairs[k].0 == pairs[i].0;
  }

  /** Inserting pair i, whose group is not yet a key, keeps the values of the pairs before it. */
  lemma ValuesStep<V>(pairs: seq<(Group, V)>, i: nat, m: map<Group, V>)
    requires i < |pairs| && pairs[i].0 !in m
    requires forall j | 0 <= j < i :: pairs[j].0 in m && m[pairs[j].0] == pairs[j].1
    ensures forall j | 0 <= j < i + 1 :: m[pairs[i].0 := pairs[i].1][pairs[j].0] == pairs[j].1
  {
  }
}
