/** The per-coordinate kernels. One unit of work handles pixel `(x, y)`: it checks
    the coordinate against the image, reads only the input image and writes only the
    samples of `out` at `(x, y)`. The effect of a unit on the whole output buffer is
    the function `Step`; each kernel method is proved to have exactly that effect. */
module GpuCuda {
  import opened Pixel
  import opened Images

  /** Position `n` of the buffer is one of the samples of pixel `(x, y)`, and `(x, y)`
      passes the kernel's bounds check. On a valid image every such position lies
      inside the buffer: the bounds check keeps every write in range. */
  predicate Owns(img: Image, x: nat, y: nat, n: int)
    ensures Owns(img, x, y, n) && img.Valid() ==> 0 <= n < |img.data|
  {
    if x < img.height && y < img.width && 0 < img.channels then
      var base := (x * img.width + y) * img.channels;
      IndexBound(img.height, img.width, img.channels, x, y, img.channels - 1);
      base <= n < base + img.channels
    else
      false
  }

  /** The output buffer after unit `(x, y)` has run on `o`. */
  function Step(img: Image, o: seq<int>, e: Enhancement, x: nat, y: nat): (r: seq<int>)
    requires |o| == |img.data|
    ensures |r| == |o|
  {
    seq(|o|, n requires 0 <= n < |o| => if Owns(img, x, y, n) then Apply(e, img.data[n]) else o[n])
  }

  /** `brightness_kernel` for the unit at `(x, y)`. */
  method BrightnessKernel(img: Image, out: array<int>, value: int, x: nat, y: nat)
    requires img.Valid() && out.Length == |img.data|
    modifies out
    ensures out[..] == Step(img, old(out[..]), Offset(value), x, y)
  {
    if x < img.height && y < img.width {
      var base := (x * img.width + y) * img.channels;
      if img.channels == 3 {
        for c := 0 to 3
          invariant forall n :: 0 <= n < out.Length ==>
                      out[n] == if base <= n < base + c then Bright(img.data[n], value) else old(out[n])
        {
          var n := img.Index(x, y, c);
          var px := img.data[n] + value;
          out[n] := Clip(px);
        }
      } else {
        var n := img.Index(x, y, 0);
        var px := img.data[n] + value;
        out[n] := Clip(px);
      }
    }
  }

  /** `contrast_kernel` for the unit at `(x, y)`. */
  method ContrastKernel(img: Image, out: array<int>, factor: real, x: nat, y: nat)
    requires img.Valid() && out.Length == |img.data|
    modifies out
    ensures out[..] == Step(img, old(out[..]), Scale(factor), x, y)
  {
    if x < img.height && y < img.width {
      var base := (x * img.width + y) * img.channels;
      if img.channels == 3 {
        for c := 0 to 3
          invariant forall n :: 0 <= n < out.Length ==>
                      out[n] == if base <= n < base + c then Contrast(img.data[n], factor) else old(out[n])
        {
          var n := img.Index(x, y, c);
          var px := Midpoint as real + factor * ((img.data[n] - Midpoint) as real);
          out[n] := ClipReal(px).Floor;
          assert out[n] == Contrast(img.data[n], factor);
        }
      } else {
        var n := img.Index(x, y, 0);
        var px := Midpoint as real + factor * ((img.data[n] - Midpoint) as real);
        out[n] := ClipReal(px).Floor;
        assert out[n] == Contrast(img.data[n], factor);
      }
    }
  }

  // ----- properties of a unit -----

  /** A unit whose coordinate fails the bounds check writes nothing. */
  lemma StepOutOfRange(img: Image, o: seq<int>, e: Enhancement, x: nat, y: nat)
    requires |o| == |img.data| && (x >= img.height || y >= img.width)
    ensures Step(img, o, e, x, y) == o
  {
    assert forall n :: 0 <= n < |o| ==> !Owns(img, x, y, n);
  }

  /** An in-range unit writes the formula's value, a sample, into every channel of
      `(x, y)`, and leaves every position of every other pixel unchanged. */
  lemma StepAtPixel(img: Image, o: seq<int>, e: Enhancement, x: nat, y: nat)
    requires img.Valid() && |o| == |img.data| && x < img.height && y < img.width
    ensures forall k: nat :: k < img.channels ==>
              Step(img, o, e, x, y)[img.Index(x, y, k)] == Apply(e, img.data[img.Index(x, y, k)])
              && IsSample(Step(img, o, e, x, y)[img.Index(x, y, k)])
    ensures forall n: nat :: n < |o| && img.PixelOf(n) != (x, y) ==> Step(img, o, e, x, y)[n] == o[n]
  {
    forall n: nat | n < |o| && img.PixelOf(n) != (x, y)
      ensures !Owns(img, x, y, n)
    {
      PixelOfBase(img, x, y, n);
    }
  }

  /** An RGB unit handles exactly channels 0, 1 and 2 of its coordinate. */
  lemma RgbUnitChannels(img: Image, x: nat, y: nat, n: int)
    requires img.Valid() && img.channels == 3 && x < img.height && y < img.width
    ensures Owns(img, x, y, n) <==>
            n == img.Index(x, y, 0) || n == img.Index(x, y, 1) || n == img.Index(x, y, 2)
  {
  }

  /** Running two units in either order gives the same buffer: no unit reads `out`, and
      every unit writes into a position only the formula's value for that position. */
  lemma StepsCommute(img: Image, o: seq<int>, e: Enhancement, x1: nat, y1: nat, x2: nat, y2: nat)
    requires |o| == |img.data|
    ensures Step(img, Step(img, o, e, x1, y1), e, x2, y2) == Step(img, Step(img, o, e, x2, y2), e, x1, y1)
  {
    var a := Step(img, Step(img, o, e, x1, y1), e, x2, y2);
    var b := Step(img, Step(img, o, e, x2, y2), e, x1, y1);
    forall n | 0 <= n < |o|
      ensures a[n] == b[n]
    {
    }
  }

  /** Running a unit twice is the same as running it once. */
  lemma StepIdempotent(img: Image, o: seq<int>, e: Enhancement, x: nat, y: nat)
    requires |o| == |img.data|
    ensures Step(img, Step(img, o, e, x, y), e, x, y) == Step(img, o, e, x, y)
  {
    var a := Step(img, Step(img, o, e, x, y), e, x, y);
    forall n | 0 <= n < |o|
      ensures a[n] == Step(img, o, e, x, y)[n]
    {
    }
  }
}
