/**
 * Pixel bookkeeping of the renderer's run loop (src/sim/render/run.rs): the
 * pixel orders, the pixel coordinates of a linear pixel number, the flipped
 * preview-buffer index and the packing of 8-bit colour channels.
 */
module RenderRun {

  /** Every pixel number below `n` appears exactly once in `o`. */
  predicate IsPixelPermutation(o: seq<nat>, n: nat) {
    && |o| == n
    && (forall i | 0 <= i < |o| :: o[i] < n)
    && (forall i, j | 0 <= i < j < |o| :: o[i] != o[j])
  }

  /** `Order::Forward`: the pixel numbers `0..num_pixels` collected in order. */
  function Forward(n: nat): (o: seq<nat>)
    ensures IsPixelPermutation(o, n)
    ensures forall i, j | 0 <= i < j < |o| :: o[i] < o[j]
  {
    seq(n, i => i)
  }

  /** The set of pixel numbers below `n`. */
  function Below(n: nat): (s: set<nat>)
    ensures |s| == n && forall k: nat :: k in s <==> k < n
  {
    if n == 0 then {} else Below(n - 1) + {n - 1}
  }

  /** A permutation of `0..n` contains every pixel number below `n`, so every pixel is rendered. */
  lemma {:induction false} PermutationCoversAll(o: seq<nat>, n: nat, p: nat)
    requires IsPixelPermutation(o, n)
    requires p < n
    ensures p in o
  {
    // The elements of o are n distinct numbers below n, so they are all of them.
    var seen := set i | 0 <= i < |o| :: o[i];
    var all := Below(n);
    assert seen <= all;
    assert |seen| == n by { DistinctImageSize(o); }
    assert all == seen + (all - seen);
    assert |all - seen| == 0;
    assert p in seen;
    var i :| 0 <= i < |o| && o[i] == p;
  }

  lemma {:induction false} DistinctImageSize(o: seq<nat>)
    requires forall i, j | 0 <= i < j < |o| :: o[i] != o[j]
    ensures |set i | 0 <= i < |o| :: o[i]| == |o|
  {
    if |o| > 0 {
      var o' := o[..|o| - 1];
      DistinctImageSize(o');
      assert (set i | 0 <= i < |o| :: o[i]) == (set i | 0 <= i < |o'| :: o'[i]) + {o[|o| - 1]};
      assert o[|o| - 1] !in (set i | 0 <= i < |o'| :: o'[i]);
    }
  }

  /**
   * `Order::Backward`: the forward order collected into a vector that is then
   * reversed in place.
   */
  method Backward(n: nat) returns (o: seq<nat>)
    ensures |o| == n && forall i | 0 <= i < n :: o[i] == Forward(n)[n - 1 - i]
    ensures IsPixelPermutation(o, n)
    ensures forall i, j | 0 <= i < j < |o| :: o[i] > o[j]
  {
    var a := new nat[n](i => i);
    var lo, hi := 0, n;
    while lo + 1 < hi
      invariant 0 <= lo <= hi <= n && lo + hi == n
      invariant forall k | 0 <= k < lo :: a[k] == n - 1 - k
      invariant forall k | hi <= k < n :: a[k] == n - 1 - k
      invariant forall k | lo <= k < hi :: a[k] == k
    {
      a[lo], a[hi - 1] := a[hi - 1], a[lo];
      lo, hi := lo + 1, hi - 1;
    }
    o := a[..];
  }

  /** The pixel coordinates `[p % h_res, p / h_res]` of pixel number `p`. */
  function PixelCoord(p: nat, hRes: nat): (xy: (nat, nat))
    requires hRes > 0
    ensures xy.0 < hRes && xy.0 + xy.1 * hRes == p
  {
    (p % hRes, p / hRes)
  }

  /** A pixel of an `hRes` by `vRes` image lies on one of its `vRes` rows. */
  lemma {:induction false} PixelCoordInImage(p: nat, hRes: nat, vRes: nat)
    requires hRes > 0 && p < hRes * vRes
    ensures PixelCoord(p, hRes).1 < vRes
  {
    var xy := PixelCoord(p, hRes);
    if xy.1 >= vRes {
      assert xy.1 * hRes >= vRes * hRes by { MulMono(vRes, xy.1, hRes); }
    }
  }

  lemma MulMono(a: nat, b: nat, c: nat)
    requires a <= b
    ensures a * c <= b * c
  {
  }

  /** The preview windows draw pixel `p` at `total_pixels - (p + 1)`, flipping the image. */
  function BufferIndex(p: nat, total: nat): (k: nat)
    requires p < total
    ensures k < total && k + p == total - 1
  {
    total - (p + 1)
  }

  /** The flip is its own inverse, hence a bijection of `0..total`, and it reverses order. */
  lemma BufferIndexFlips(p: nat, q: nat, total: nat)
    requires p < total && q < total
    ensures BufferIndex(BufferIndex(p, total), total) == p
    ensures p < q <==> BufferIndex(p, total) > BufferIndex(q, total)
  {
  }

  /** `from_u8_rgb`: packs three 8-bit channels as 0x00RRGGBB. */
  function FromU8Rgb(r: bv8, g: bv8, b: bv8): (c: bv32)
    ensures c < 0x100_0000
    ensures (c >> 16) as bv8 == r && ((c >> 8) & 0xFF) as bv8 == g && (c & 0xFF) as bv8 == b
  {
    ((r as bv32) << 16) | ((g as bv32) << 8) | (b as bv32)
  }

  /** The packed value is r * 2^16 + g * 2^8 + b (the sum cannot wrap in 32 bits). */
  lemma FromU8RgbValue(r: bv8, g: bv8, b: bv8)
    ensures FromU8Rgb(r, g, b) == (r as bv32) * 0x1_0000 + (g as bv32) * 0x100 + (b as bv32)
  {
  }

  /** The pixel rendered for slot `q` of a block that starts at `bufferStart` in `order`. */
  function PixelAt(order: seq<nat>, bufferStart: nat, q: nat): nat
    requires q + bufferStart < |order|
  {
    order[q + bufferStart]
  }

  /** The packed colour `shade` gives pixel `p` from its coordinates. */
  function Colour(shade: (nat, nat) -> bv32, p: nat, hRes: nat): bv32
    requires hRes > 0
  {
    var xy := PixelCoord(p, hRes);
    shade(xy.0, xy.1)
  }

  /** The preview-buffer slots written by slots `start..q` of a block. */
  function Written(order: seq<nat>, bufferStart: nat, start: nat, q: nat, total: nat): set<nat>
    requires bufferStart + q <= |order|
    requires forall i | 0 <= i < |order| :: order[i] < total
  {
    set q' | start <= q' < q :: BufferIndex(PixelAt(order, bufferStart, q'), total)
  }

  /**
   * The preview-buffer writes of one block of `render_pix`: slot `q` of the
   * block renders pixel `order[q + bufferStart]` and stores its packed colour
   * at the flipped index; nothing else in the buffer changes. `shade` stands
   * for the engine, which is not part of this model.
   */
  method PaintBlock(buffer: array<bv32>, order: seq<nat>, bufferStart: nat, start: nat, end: nat,
                    hRes: nat, shade: (nat, nat) -> bv32)
    requires hRes > 0 && IsPixelPermutation(order, buffer.Length)
    requires start <= end && bufferStart + end <= |order|
    modifies buffer
    ensures forall q | start <= q < end ::
      buffer[BufferIndex(PixelAt(order, bufferStart, q), buffer.Length)]
        == Colour(shade, PixelAt(order, bufferStart, q), hRes)
    ensures forall k | 0 <= k < buffer.Length && k !in Written(order, bufferStart, start, end, buffer.Length) ::
      buffer[k] == old(buffer[k])
  {
    var total := buffer.Length;
    for q := start to end
      invariant forall q' | start <= q' < q ::
        buffer[BufferIndex(PixelAt(order, bufferStart, q'), total)] == Colour(shade, PixelAt(order, bufferStart, q'), hRes)
      invariant forall k | 0 <= k < total && k !in Written(order, bufferStart, start, q, total) ::
        buffer[k] == old(buffer[k])
    {
      var p := order[q + bufferStart];
      var pixel := PixelCoord(p, hRes);
      buffer[BufferIndex(p, total)] := shade(pixel.0, pixel.1);
      assert PixelAt(order, bufferStart, q) == p;
      assert Written(order, bufferStart, start, q + 1, total)
          == Written(order, bufferStart, start, q, total) + {BufferIndex(p, total)};
      forall q' | start <= q' < q
        ensures PixelAt(order, bufferStart, q') != p
      {
        assert order[q' + bufferStart] != order[q + bufferStart];
      }
    }
  }
}
