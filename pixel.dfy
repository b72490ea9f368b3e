/** The per-sample formulas shared by the serial, vectorized and kernel engines.
    A sample is an integer in [0, 255]; intermediate values are unbounded, which
    is the wide-precision arithmetic the engines' documentation promises. */
module Pixel {

  const MaxSample: int := 255
  const Midpoint: int := 128

  /** An unsigned 8-bit sample value. */
  predicate IsSample(x: int) {
    0 <= x <= MaxSample
  }

  /** `min(255, max(0, x))`: saturate an integer to the sample range. */
  function Clip(x: int): (r: int)
    ensures IsSample(r)
    ensures IsSample(x) ==> r == x
    ensures x < 0 ==> r == 0
    ensures x > MaxSample ==> r == MaxSample
  {
    var low := if 0 < x then x else 0;
    if MaxSample < low then MaxSample else low
  }

  /** The same saturation on the floating-point intermediate of the contrast formula. */
  function ClipReal(x: real): (r: real)
    ensures 0.0 <= r <= MaxSample as real
    ensures 0.0 <= x <= MaxSample as real ==> r == x
    ensures x < 0.0 ==> r == 0.0
    ensures x > MaxSample as real ==> r == MaxSample as real
  {
    var low := if 0.0 < x then x else 0.0;
    if MaxSample as real < low then MaxSample as real else low
  }

  /** Brightness: `clip(p + value)`. */
  function Bright(p: int, value: int): (r: int)
    ensures IsSample(r)
  {
    Clip(p + value)
  }

  /** Contrast: `clip(128 + factor * (p - 128))`, stored into an 8-bit sample.
      Storing a non-negative float into a uint8 truncates it, which is `Floor`. */
  function Contrast(p: int, factor: real): (r: int)
    ensures IsSample(r)
  {
    ClipReal(Midpoint as real + factor * ((p - Midpoint) as real)).Floor
  }

  /** An enhancement together with its parameter: what a caller hands to any engine. */
  datatype Enhancement = Offset(value: int) | Scale(factor: real)

  function Apply(e: Enhancement, p: int): (r: int)
    ensures IsSample(r)
  {
    match e
    case Offset(value) => Bright(p, value)
    case Scale(factor) => Contrast(p, factor)
  }

  // ----- properties of the formulas -----

  /** Clip returns the sample closest to its argument. */
  lemma ClipNearest(x: int, y: int)
    requires IsSample(y)
    ensures var d := Clip(x) - x; var d' := y - x;
            (if d < 0 then -d else d) <= (if d' < 0 then -d' else d')
  {
  }

  /** Clip is monotone. */
  lemma ClipMonotone(x: int, y: int)
    requires x <= y
    ensures Clip(x) <= Clip(y)
  {
  }

  /** An offset of zero leaves a sample unchanged. */
  lemma BrightZero(p: int)
    requires IsSample(p)
    ensures Bright(p, 0) == p
  {
  }

  /** A white sample stays white under any brightening, a black one stays black
      under any darkening. */
  lemma BrightSaturates(p: int, value: int)
    ensures p == MaxSample && value > 0 ==> Bright(p, value) == MaxSample
    ensures p == 0 && value < 0 ==> Bright(p, value) == 0
  {
  }

  /** Brightness is monotone in the sample. */
  lemma BrightMonotone(p: int, q: int, value: int)
    requires p <= q
    ensures Bright(p, value) <= Bright(q, value)
  {
    ClipMonotone(p + value, q + value);
  }

  /** The midpoint 128 is a fixed point of every contrast factor. */
  lemma ContrastMidpoint(factor: real)
    ensures Contrast(Midpoint, factor) == Midpoint
  {
  }

  /** Factor 1 leaves a sample unchanged. */
  lemma ContrastUnit(p: int)
    requires IsSample(p)
    ensures Contrast(p, 1.0) == p
  {
    assert Midpoint as real + 1.0 * ((p - Midpoint) as real) == p as real;
  }

  /** A non-negative offset never darkens a sample: the sum is clipped, never wrapped. */
  lemma BrightNeverDarkens(p: int, value: int)
    requires IsSample(p) && value >= 0
    ensures p <= Bright(p, value)
  {
  }

  /** A non-negative factor keeps every sample on its own side of the midpoint:
      darker samples stay at or below 128, lighter ones at or above. */
  lemma ContrastKeepsSide(p: int, factor: real)
    requires IsSample(p) && factor >= 0.0
    ensures p <= Midpoint ==> Contrast(p, factor) <= Midpoint
    ensures p >= Midpoint ==> Contrast(p, factor) >= Midpoint
  {
    var d := (p - Midpoint) as real;
    if p <= Midpoint {
      assert factor * d <= 0.0 by {
        assert -d >= 0.0;
        assert factor * (-d) == -(factor * d);
        assert factor * (-d) >= 0.0;
      }
    } else {
      assert factor * d >= 0.0;
    }
  }
}
