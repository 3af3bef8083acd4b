/** The camera sensor (src/sim/render/camera/sensor.rs): resolution and super-sampling. */
module Cameras {
  import opened Wrappers
  import RenderRun
  import LinIndex

  /**
   * A sensor: horizontal and vertical resolution and an optional
   * super-sampling power. The fields are only read after construction.
   */
  datatype Sensor = Sensor(res: (nat, nat), superSamplePower: Option<int>)

  /** The constraint `Sensor::new` asserts: a super-sampling power, when given, exceeds one. */
  predicate Valid(s: Sensor) {
    s.superSamplePower.Some? ==> s.superSamplePower.value > 1
  }

  /**
   * `Sensor::new`. `vtRes` is the aspect ratio's vertical-resolution rule
   * (`AspectRatio::vt_res`), which is not part of this model.
   */
  function NewSensor(vtRes: nat -> nat, hrRes: nat, superSamplePower: Option<int>): (s: Sensor)
    requires superSamplePower.None? || superSamplePower.value > 1
    ensures Valid(s)
    ensures s.res.0 == hrRes && s.res.1 == vtRes(hrRes)
    ensures s.superSamplePower == superSamplePower
  {
    Sensor((hrRes, vtRes(hrRes)), superSamplePower)
  }

  /** `num_pixels`: the number of pixels of the image. */
  function NumPixels(s: Sensor): (n: nat)
    ensures n == 0 <==> s.res.0 == 0 || s.res.1 == 0
  {
    s.res.0 * s.res.1
  }

  /**
   * The pixel numbers below `num_pixels` are exactly the pixels of the
   * image: each maps to a column and row inside it, and each column and row
   * is reached by one pixel number.
   */
  lemma {:induction false} NumPixelsCoversImage(s: Sensor, p: nat, x: nat, y: nat)
    requires s.res.0 > 0
    ensures p < NumPixels(s) ==>
      RenderRun.PixelCoord(p, s.res.0).0 < s.res.0 && RenderRun.PixelCoord(p, s.res.0).1 < s.res.1
    ensures x < s.res.0 && y < s.res.1 ==>
      x + y * s.res.0 < NumPixels(s) && RenderRun.PixelCoord(x + y * s.res.0, s.res.0) == (x, y)
  {
    if p < NumPixels(s) {
      RenderRun.PixelCoordInImage(p, s.res.0, s.res.1);
    }
    if x < s.res.0 && y < s.res.1 {
      var h := s.res.0;
      assert x + y * h < h * s.res.1 by {
        assert y * h <= (s.res.1 - 1) * h by { RenderRun.MulMono(y, s.res.1 - 1, h); }
        assert (s.res.1 - 1) * h == h * s.res.1 - h;
      }
      LinIndex.DivUnique(x + y * h, h, y, x);
    }
  }

  /**
   * `super_samples`: the square of the power when one is set, one otherwise;
   * on a constructed sensor that is one, or at least four.
   */
  function SuperSamples(s: Sensor): (n: int)
    ensures s.superSamplePower.None? ==> n == 1
    ensures s.superSamplePower.Some? ==> n == s.superSamplePower.value * s.superSamplePower.value
    ensures Valid(s) ==> n == 1 || n >= 4
  {
    if s.superSamplePower.Some? then
      var power := s.superSamplePower.value;
      power * power
    else
      1
  }
}
