/** The NumPy code as written adds and subtracts on uint8 operands, and a uint8
    array combined with a Python integer in [0, 255] stays uint8: the intermediate
    wraps modulo 256 before `np.clip` runs. This module models that arithmetic and
    exhibits an input on which it departs from the documented clipping. */
module Uint8AsWritten {
  import opened Pixel

  /** `image + value` with `value` in [0, 255], taken modulo 256, then clipped. */
  function BrightAsWritten(p: int, value: int): (r: int)
    requires IsSample(p) && IsSample(value)
    ensures IsSample(r)
    ensures p + value <= MaxSample ==> r == Bright(p, value)
    ensures p + value > MaxSample ==> r == p + value - 256 && r < p
  {
    assert p + value > MaxSample ==> (p + value) % 256 == p + value - 256;
    Clip((p + value) % 256)
  }

  /** `128 + factor * (image - 128)` with the difference taken modulo 256, then clipped. */
  function ContrastAsWritten(p: int, factor: real): (r: int)
    requires IsSample(p)
    ensures IsSample(r)
    ensures p >= Midpoint ==> r == Contrast(p, factor)
  {
    assert p >= Midpoint ==> (p - Midpoint) % 256 == p - Midpoint;
    ClipReal(Midpoint as real + factor * (((p - Midpoint) % 256) as real)).Floor
  }

  /** Every sample below the midpoint lands at or above it under any non-negative
      factor: the wrapped difference `p + 128` is never negative. This is the
      opposite of `Pixel.ContrastKeepsSide` for every darker sample. */
  lemma ContrastAsWrittenCrosses(p: int, factor: real)
    requires IsSample(p) && p < Midpoint && factor >= 0.0
    ensures ContrastAsWritten(p, factor) >= Midpoint
  {
    assert (p - Midpoint) % 256 == p + Midpoint;
    var d := (p + Midpoint) as real;
    assert factor * d >= 0.0;
  }

  /** Sample 250 with offset 20: the wrapped sum is 14, darker than the input, where
      the documented clip gives 255. */
  lemma BrightAsWrittenWraps()
    ensures BrightAsWritten(250, 20) == 14 && BrightAsWritten(250, 20) < 250
    ensures Bright(250, 20) == MaxSample
  {
  }

  /** Sample 10 with factor 2: the wrapped difference is 138, so the result is 255,
      on the wrong side of the midpoint, where the documented clip gives 0. */
  lemma ContrastAsWrittenWraps()
    ensures ContrastAsWritten(10, 2.0) == MaxSample && ContrastAsWritten(10, 2.0) > Midpoint
    ensures Contrast(10, 2.0) == 0
  {
    assert (10 - Midpoint) % 256 == 138;
  }
}
