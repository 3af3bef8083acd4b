/** The MCRT output record (src/sim/mcrt/output.rs). */
module McrtOutput {
  import opened Wrappers
  import opened Vectors
  import opened Boxes
  import opened LinIndex
  import opened GridData

  /** The measured volume, its cell volume, five accumulated grids and the tracked photon paths. */
  class Output {
    const boundary: Aabb
    const res: Index3
    var cellVol: real
    const emittedPhotons: array<real>
    const distTravelled: array<real>
    const energy: array<real>
    const absorptions: array<real>
    const shifts: array<real>
    var paths: seq<seq<Vec3>>

    /** The five grids. */
    ghost function Grids(): set<array<real>>
      reads this
    {
      {emittedPhotons, distTravelled, energy, absorptions, shifts}
    }

    /** The five grids are distinct and each has one entry per cell. */
    ghost predicate Valid()
      reads this
    {
      && emittedPhotons != distTravelled && emittedPhotons != energy && emittedPhotons != absorptions
      && emittedPhotons != shifts && distTravelled != energy && distTravelled != absorptions
      && distTravelled != shifts && energy != absorptions && energy != shifts && absorptions != shifts
      && emittedPhotons.Length == Cells(res) && distTravelled.Length == Cells(res)
      && energy.Length == Cells(res) && absorptions.Length == Cells(res) && shifts.Length == Cells(res)
    }

    /**
     * `Output::new`: five zero-filled grids of the given resolution, which
     * must be non-zero on every axis, no paths, and the cell volume as the
     * boundary volume shared out over the cells.
     */
    constructor (boundary: Aabb, res: Index3)
      requires res.x > 0 && res.y > 0 && res.z > 0
      ensures Valid() && fresh(Grids())
      ensures this.boundary == boundary && this.res == res && paths == []
      ensures cellVol * (Cells(res) as real) == Vol(boundary)
      ensures emittedPhotons[..] == Zeros(Cells(res)) && distTravelled[..] == Zeros(Cells(res))
      ensures energy[..] == Zeros(Cells(res)) && absorptions[..] == Zeros(Cells(res))
      ensures shifts[..] == Zeros(Cells(res))
    {
      this.boundary := boundary;
      this.res := res;
      var n := Cells(res);
      cellVol := Vol(boundary) / n as real;
      emittedPhotons := new real[n](_ => 0.0);
      distTravelled := new real[n](_ => 0.0);
      energy := new real[n](_ => 0.0);
      absorptions := new real[n](_ => 0.0);
      shifts := new real[n](_ => 0.0);
      paths := [];
    }

    /**
     * `+= rhs`: adds the five grids of the other output into these, cell by
     * cell, and moves its paths onto the end of these. The boundary, the
     * cell volume and the grids of the other output are left alone.
     */
    method AddAssign(rhs: Output)
      requires Valid() && rhs.Valid() && rhs != this && res == rhs.res
      requires Grids() !! rhs.Grids()
      modifies this, Grids(), rhs
      ensures Valid() && rhs.Valid()
      ensures cellVol == old(cellVol)
      ensures emittedPhotons[..] == Plus(old(emittedPhotons[..]), rhs.emittedPhotons[..])
      ensures distTravelled[..] == Plus(old(distTravelled[..]), rhs.distTravelled[..])
      ensures energy[..] == Plus(old(energy[..]), rhs.energy[..])
      ensures absorptions[..] == Plus(old(absorptions[..]), rhs.absorptions[..])
      ensures shifts[..] == Plus(old(shifts[..]), rhs.shifts[..])
      ensures paths == old(paths) + old(rhs.paths) && rhs.paths == []
      ensures rhs.cellVol == old(rhs.cellVol)
      ensures forall g | g in rhs.Grids() :: g[..] == old(g[..])
    {
      AddInto(emittedPhotons, rhs.emittedPhotons);
      AddInto(distTravelled, rhs.distTravelled);
      AddInto(energy, rhs.energy);
      AddInto(absorptions, rhs.absorptions);
      AddInto(shifts, rhs.shifts);
      paths := paths + rhs.paths;
      rhs.paths := [];
    }

    /** `save`: every write is disabled, so it does nothing and reports success. */
    method Save(outDir: string) returns (r: Result<(), string>)
      ensures r.Ok?
    {
      r := Ok(());
    }
  }
}
