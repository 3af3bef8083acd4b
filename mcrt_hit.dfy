/** The voxel-or-scatter decision of a photon step in the MCRT simulation (src/sim/mcrt/hit.rs). */
module McrtHit {

  /** The nearer of two distances; the first wins a tie. */
  function Min(a: real, b: real): (m: real)
    ensures m <= a && m <= b && (m == a || m == b)
  {
    if a <= b then a else b
  }

  /** What a photon meets first when no surface is in the way. */
  datatype Hit = Voxel(dist: real) | Scattering(dist: real)

  /**
   * `Hit::new`: the voxel boundary when it is no farther than the
   * scattering point, the scattering point otherwise. The bump distance is
   * only checked, never used.
   */
  function New(voxelDist: real, scatDist: real, bumpDist: real): (h: Hit)
    requires voxelDist > 0.0 && scatDist > 0.0 && bumpDist > 0.0
    ensures h.Voxel? <==> voxelDist <= scatDist
    ensures h.dist == Min(voxelDist, scatDist)
    ensures h.dist > 0.0
  {
    if voxelDist <= scatDist then Voxel(voxelDist) else Scattering(scatDist)
  }
}
