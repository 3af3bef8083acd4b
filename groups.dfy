/**
 * Groups and group-keyed maps. The source keys its surfaces, attributes and
 * colour gradients by group in a `BTreeMap`, which iterates in ascending key
 * order; here a group is a natural number and a map is a Dafny `map`, with
 * `SortedKeys` giving the iteration order.
 */
module Groups {

  /** A surface group identifier. */
  type Group = nat

  /** The least element of a non-empty set of groups. */
  function MinKey(s: set<Group>): (k: Group)
    requires s != {}
    ensures k in s && forall j | j in s :: k <= j
  {
    HasLeast(s);
    var k :| Least(k, s);
    k
  }

  /** `k` is a member of `s` no greater than any other. */
  predicate Least(k: Group, s: set<Group>) {
    k in s && forall j | j in s :: k <= j
  }

  lemma {:induction false} HasLeast(s: set<Group>)
    requires s != {}
    ensures exists k :: Least(k, s)
    decreases s
  {
    var x :| x in s;
    var rest := s - {x};
    if rest == {} {
      assert Least(x, s) by {
        assert s == {x};
      }
    } else {
      HasLeast(rest);
      var r :| Least(r, rest);
      var m := if x < r then x else r;
      assert Least(m, s) by {
        forall j | j in s ensures m <= j {
          if j != x {
            assert j in rest;
          }
        }
      }
    }
  }

  /** The keys of a map in ascending order: the order a `BTreeMap` iterates in. */
  function SortedKeys<V>(m: map<Group, V>): (ks: seq<Group>)
    ensures forall k :: k in ks <==> k in m
    ensures forall i, j | 0 <= i < j < |ks| :: ks[i] < ks[j]
  {
    Ascending(m.Keys)
  }

  /** The elements of a set of groups in ascending order. */
  function Ascending(s: set<Group>): (ks: seq<Group>)
    ensures forall k :: k in ks <==> k in s
    ensures forall i, j | 0 <= i < j < |ks| :: ks[i] < ks[j]
    decreases s
  {
    if s == {} then []
    else
      var k := MinKey(s);
      var tail := Ascending(s - {k});
      AscendingCons(k, tail);
      [k] + tail
  }

  lemma AscendingCons(k: Group, tail: seq<Group>)
    requires forall j | j in tail :: k < j
    requires forall i, j | 0 <= i < j < |tail| :: tail[i] < tail[j]
    ensures forall i, j | 0 <= i < j < |[k] + tail| :: ([k] + tail)[i] < ([k] + tail)[j]
  {
    var ks := [k] + tail;
    forall i, j | 0 <= i < j < |ks| ensures ks[i] < ks[j] {
      assert ks[j] == tail[j - 1];
      assert tail[j - 1] in tail;
      if i > 0 {
        assert ks[i] == tail[i - 1];
      }
    }
  }

  /** Sorted keys list each key exactly once. */
  lemma SortedKeysCount<V>(m: map<Group, V>)
    ensures |SortedKeys(m)| == |m.Keys|
  {
    var ks := SortedKeys(m);
    DistinctCount(ks, m.Keys);
  }

  lemma {:induction false} DistinctCount(ks: seq<Group>, s: set<Group>)
    requires forall i, j | 0 <= i < j < |ks| :: ks[i] < ks[j]
    requires forall k :: k in ks <==> k in s
    ensures |ks| == |s|
    decreases |ks|
  {
    if |ks| > 0 {
      var n := |ks| - 1;
      var init := ks[..n];
      assert forall k :: k in init <==> k in s - {ks[n]} by {
        forall k ensures k in init <==> k in s - {ks[n]} {
          if k in init {
            var i :| 0 <= i < n && init[i] == k;
            assert ks[i] < ks[n];
          }
          if k in s - {ks[n]} {
            assert k in ks;
            var i :| 0 <= i < |ks| && ks[i] == k;
            assert i < n;
            assert init[i] == k;
          }
        }
      }
      DistinctCount(init, s - {ks[n]});
    } else {
      assert forall k :: k !in s;
      assert s == {};
    }
  }
}
