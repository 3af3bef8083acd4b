/** The MCRT emission record (src/sim/mcrt/data.rs). */
module McrtData {
  import opened LinIndex
  import opened GridData

  /** The weight of photons emitted in each cell of a grid of resolution `res`. */
  class Data {
    const res: Index3
    const emittedPhotons: array<real>

    /** The grid has one entry per cell of its resolution. */
    ghost predicate Valid()
      reads this
    {
      emittedPhotons.Length == Cells(res)
    }

    /** `Data::new`: an all-zero grid of the given resolution. */
    constructor (res: Index3)
      ensures Valid() && this.res == res
      ensures fresh(emittedPhotons) && emittedPhotons[..] == Zeros(Cells(res))
    {
      this.res := res;
      emittedPhotons := new real[Cells(res)](_ => 0.0);
    }

    /** `+= &rhs`: adds the other record into this one, cell by cell; the other is only read. */
    method AddAssign(rhs: Data)
      requires Valid() && rhs.Valid() && res == rhs.res && emittedPhotons != rhs.emittedPhotons
      modifies emittedPhotons
      ensures Valid()
      ensures emittedPhotons[..] == Plus(old(emittedPhotons[..]), rhs.emittedPhotons[..])
      ensures rhs.emittedPhotons[..] == old(rhs.emittedPhotons[..])
    {
      AddInto(emittedPhotons, rhs.emittedPhotons);
    }
  }

  /** Adding a freshly built record of the same resolution leaves a record unchanged. */
  method AddFreshUnchanged(d: Data)
    requires d.Valid()
    modifies d.emittedPhotons
    ensures d.emittedPhotons[..] == old(d.emittedPhotons[..])
  {
    ghost var before := d.emittedPhotons[..];
    var zero := new Data(d.res);
    d.AddAssign(zero);
    PlusZeros(before);
  }
}
