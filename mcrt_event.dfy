/** The three-way event decision of a photon step in the MCRT simulation (src/sim/mcrt/event.rs). */
module McrtEvent {
  import opened Wrappers
  import AdaptiveScan
  import McrtHit

  /** The event a photon meets first: a voxel boundary, a scattering point or a surface hit. */
  datatype Event<S> = Voxel(dist: real) | Scattering(dist: real) | Surface(hit: AdaptiveScan.Hit<S>)

  /** The distance at which the event happens. */
  function Dist<S>(e: Event<S>): real {
    if e.Surface? then e.hit.dist else e.dist
  }

  /**
   * `Event::new`: the nearest of the voxel boundary, the scattering point and
   * the surface hit, if any. A surface wins only when strictly nearer than
   * both others; between voxel and scattering the voxel wins ties. The bump
   * distance is only checked, never used.
   */
  function New<S>(voxelDist: real, scatDist: real, surfHit: Option<AdaptiveScan.Hit<S>>, bumpDist: real): (e: Event<S>)
    requires voxelDist > 0.0 && scatDist > 0.0 && bumpDist > 0.0
    ensures e.Surface? <==> surfHit.Some? && surfHit.value.dist < McrtHit.Min(voxelDist, scatDist)
    ensures e.Surface? ==> e.hit == surfHit.value
    ensures e.Voxel? <==> !e.Surface? && voxelDist <= scatDist
    ensures e.Voxel? ==> e.dist == voxelDist
    ensures e.Scattering? ==> e.dist == scatDist
    ensures Dist(e) <= voxelDist && Dist(e) <= scatDist
    ensures surfHit.Some? ==> Dist(e) <= surfHit.value.dist
  {
    if surfHit.Some? then
      var hit := surfHit.value;
      if voxelDist <= scatDist then
        if hit.dist < voxelDist then Surface(hit) else Voxel(voxelDist)
      else
        if hit.dist < scatDist then Surface(hit) else Scattering(scatDist)
    else if voxelDist <= scatDist then Voxel(voxelDist)
    else Scattering(scatDist)
  }

  /** With no surface in the way, the event is the one `Hit::new` picks, at the same distance. */
  lemma NoSurfaceIsHit<S>(voxelDist: real, scatDist: real, bumpDist: real)
    requires voxelDist > 0.0 && scatDist > 0.0 && bumpDist > 0.0
    ensures var e := New<S>(voxelDist, scatDist, None, bumpDist);
      var h := McrtHit.New(voxelDist, scatDist, bumpDist);
      && (e.Voxel? <==> h.Voxel?)
      && !e.Surface?
      && Dist(e) == h.dist
  {
  }
}
