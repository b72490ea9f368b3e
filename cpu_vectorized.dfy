/** The vectorized engine: each operation is one whole-buffer expression,
    `np.clip(...)` followed by `astype(np.uint8)`, written here as element-wise
    functions over the flat buffer. */
module CpuVectorized {
  import opened Pixel
  import opened Images

  // ----- whole-buffer operations -----

  /** `buffer + value`, computed in wide integers. */
  function AddScalar(a: seq<int>, value: int): (r: seq<int>)
    ensures |r| == |a| && forall n :: 0 <= n < |a| ==> r[n] == a[n] + value
  {
    seq(|a|, n requires 0 <= n < |a| => a[n] + value)
  }

  /** `128 + factor * (buffer - 128)`, computed in floating point. */
  function ScaleAboutMidpoint(a: seq<int>, factor: real): (r: seq<real>)
    ensures |r| == |a|
    ensures forall n :: 0 <= n < |a| ==> r[n] == Midpoint as real + factor * ((a[n] - Midpoint) as real)
  {
    seq(|a|, n requires 0 <= n < |a| => Midpoint as real + factor * ((a[n] - Midpoint) as real))
  }

  /** `np.clip(buffer, 0, 255)` on an integer buffer. */
  function ClipAll(a: seq<int>): (r: seq<int>)
    ensures |r| == |a| && forall n :: 0 <= n < |a| ==> r[n] == Clip(a[n])
  {
    seq(|a|, n requires 0 <= n < |a| => Clip(a[n]))
  }

  /** `np.clip(buffer, 0, 255)` on a floating-point buffer. */
  function ClipAllReal(a: seq<real>): (r: seq<real>)
    ensures |r| == |a| && forall n :: 0 <= n < |a| ==> r[n] == ClipReal(a[n])
  {
    seq(|a|, n requires 0 <= n < |a| => ClipReal(a[n]))
  }

  /** `astype(np.uint8)` on an integer buffer: reduction modulo 256. */
  function AsUint8(a: seq<int>): (r: seq<int>)
    ensures |r| == |a| && forall n :: 0 <= n < |a| ==> IsSample(r[n])
  {
    seq(|a|, n requires 0 <= n < |a| => a[n] % 256)
  }

  /** `astype(np.uint8)` on a floating-point buffer whose values are representable:
      truncation toward zero, which on non-negative values is `Floor`. */
  function AsUint8Real(a: seq<real>): (r: seq<int>)
    requires forall n :: 0 <= n < |a| ==> 0.0 <= a[n] < 256.0
    ensures |r| == |a| && forall n :: 0 <= n < |a| ==> IsSample(r[n])
  {
    seq(|a|, n requires 0 <= n < |a| => a[n].Floor)
  }

  // ----- the two operations -----

  /** `brightness_vectorized`: `np.clip(image + value, 0, 255).astype(np.uint8)`. */
  function BrightnessVectorized(image: Image, value: int): (r: Image)
    requires image.Valid()
    ensures r.SameShape(image) && r.Valid()
  {
    image.(data := AsUint8(ClipAll(AddScalar(image.data, value))))
  }

  /** `contrast_vectorized`: `np.clip(128 + factor * (image - 128), 0, 255).astype(np.uint8)`. */
  function ContrastVectorized(image: Image, factor: real): (r: Image)
    requires image.Valid()
    ensures r.SameShape(image) && r.Valid()
  {
    image.(data := AsUint8Real(ClipAllReal(ScaleAboutMidpoint(image.data, factor))))
  }

  // ----- properties -----

  /** The clipped brightness buffer is already in [0, 255], so the uint8 cast loses nothing. */
  lemma BrightnessCastLossless(a: seq<int>, value: int)
    ensures AsUint8(ClipAll(AddScalar(a, value))) == ClipAll(AddScalar(a, value))
  {
    var clipped := ClipAll(AddScalar(a, value));
    forall n | 0 <= n < |a|
      ensures AsUint8(clipped)[n] == clipped[n]
    {
      assert IsSample(clipped[n]);
    }
  }

  /** Element-wise equal to the serial engine: `Clip(sample + value)` at every position. */
  lemma BrightnessMatchesSerial(image: Image, value: int)
    requires image.Valid()
    ensures BrightnessVectorized(image, value) == Transform(image, Offset(value))
  {
    BrightnessCastLossless(image.data, value);
    assert BrightnessVectorized(image, value).data == Transform(image, Offset(value)).data;
  }

  /** Element-wise equal to the serial engine under the same clip-then-truncate policy. */
  lemma ContrastMatchesSerial(image: Image, factor: real)
    requires image.Valid()
    ensures ContrastVectorized(image, factor) == Transform(image, Scale(factor))
  {
    var r := ContrastVectorized(image, factor);
    forall n | 0 <= n < |image.data|
      ensures r.data[n] == Contrast(image.data[n], factor)
    {
    }
    assert r.data == Transform(image, Scale(factor)).data;
  }

  /** Brightness of the vectorized engine is monotone in every sample. */
  lemma BrightnessMonotone(image: Image, other: Image, value: int, n: nat)
    requires image.Valid() && other.Valid() && image.SameShape(other)
    requires n < |image.data| && image.data[n] <= other.data[n]
    ensures BrightnessVectorized(image, value).data[n] <= BrightnessVectorized(other, value).data[n]
  {
    BrightnessMatchesSerial(image, value);
    BrightnessMatchesSerial(other, value);
    BrightMonotone(image.data[n], other.data[n], value);
  }

  /** The 2x2 grayscale image `[[10, 250], [0, 128]]`: offset 20 gives
      `[[30, 255], [20, 148]]`, factor 2 gives `[[0, 255], [0, 128]]`. */
  lemma ConcreteScenario()
    ensures Image(2, 2, 1, [10, 250, 0, 128]).Valid()
    ensures BrightnessVectorized(Image(2, 2, 1, [10, 250, 0, 128]), 20).data == [30, 255, 20, 148]
    ensures ContrastVectorized(Image(2, 2, 1, [10, 250, 0, 128]), 2.0).data == [0, 255, 0, 128]
  {
    var img := Image(2, 2, 1, [10, 250, 0, 128]);
    assert img.Valid();
    BrightnessMatchesSerial(img, 20);
    ContrastMatchesSerial(img, 2.0);
    var b := Transform(img, Offset(20)).data;
    assert b[0] == 30 && b[1] == 255 && b[2] == 20 && b[3] == 148;
    var c := Transform(img, Scale(2.0)).data;
    assert c[0] == 0 && c[1] == 255 && c[2] == 0 && c[3] == 128;
  }
}
