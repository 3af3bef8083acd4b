/** The rendering attributes form (legacy/attributes.rs). */
module Attributes {
  import opened Wrappers
  import opened Groups
  import opened GroupMaps

  /**
   * `Attributes::build`: one attribute per listed group, refusing a group
   * listed twice. The attribute type is left abstract; it is copied as is.
   */
  method Build<A>(attributes: seq<(Group, A)>) returns (r: Result<map<Group, A>, Group>)
    ensures r.Ok? <==> NoDuplicates(attributes)
    ensures r.Ok? ==> r.value.Keys == Listed(attributes) && |r.value| == |attributes|
    ensures r.Ok? ==> forall i | 0 <= i < |attributes| :: r.value[attributes[i].0] == attributes[i].1
    ensures r.Err? ==> exists j: nat :: FirstDuplicate(attributes, j) && attributes[j].0 == r.error
  {
    r := GroupMaps.Build(attributes);
  }

  /** An empty list builds the empty map. */
  method BuildEmpty<A>() returns (r: Result<map<Group, A>, Group>)
    ensures r == Ok(map[])
  {
    r := Build([]);
    assert Listed<A>([]) == {};
  }
}
