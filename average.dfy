/** A rolling average (src/tools/data/average.rs). */
module RollingAverage {

  /** The sum of the values, in the order they were added. */
  function Total(vs: seq<real>): real {
    if |vs| == 0 then 0.0 else Total(vs[..|vs| - 1]) + vs[|vs| - 1]
  }

  /** A running total and count of the values added so far. */
  class Average {
    var total: real
    var counts: int
    /** The values added so far, in order. */
    ghost var added: seq<real>

    /** The total is the sum of the values added and the count is how many there were. */
    ghost predicate Valid()
      reads this
    {
      total == Total(added) && counts == |added|
    }

    /** `Average::default`: nothing added yet. */
    constructor ()
      ensures Valid() && added == []
      ensures total == 0.0 && counts == 0
    {
      total := 0.0;
      counts := 0;
      added := [];
    }

    /** `+= v`: adds v to the total and one to the count. */
    method AddAssign(v: real)
      requires Valid()
      modifies this
      ensures Valid() && added == old(added) + [v]
      ensures total == old(total) + v && counts == old(counts) + 1
    {
      assert (added + [v])[..|added|] == added;
      total := total + v;
      counts := counts + 1;
      added := added + [v];
    }

    /** `ave`: the total divided by the count, which must be non-zero. */
    function Ave(): (a: real)
      reads this
      requires counts != 0
      ensures a * (counts as real) == total
    {
      total / counts as real
    }

    /** The average of the values added lies between any bounds on them. */
    lemma AveWithin(lo: real, hi: real)
      requires Valid() && counts > 0
      requires forall i | 0 <= i < |added| :: lo <= added[i] <= hi
      ensures lo <= Ave() <= hi
    {
      TotalWithin(added, lo, hi);
      var n := counts as real;
      assert Ave() * n == total;
    }
  }

  /** The total of n values lies between n times any lower bound and n times any upper bound on them. */
  lemma {:induction false} TotalWithin(vs: seq<real>, lo: real, hi: real)
    requires forall i | 0 <= i < |vs| :: lo <= vs[i] <= hi
    ensures (|vs| as real) * lo <= Total(vs) <= (|vs| as real) * hi
    decreases |vs|
  {
    if |vs| > 0 {
      var n := |vs| - 1;
      TotalWithin(vs[..n], lo, hi);
      assert (|vs| as real) * lo == (n as real) * lo + lo;
      assert (|vs| as real) * hi == (n as real) * hi + hi;
    }
  }

  /** Adding a single value to a fresh average gives that value back as the average. */
  method AverageOfOne(v: real) returns (a: real)
    ensures a == v
  {
    var avg := new Average();
    avg.AddAssign(v);
    a := avg.Ave();
  }
}
