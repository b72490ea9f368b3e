/** The serial engine: copy the image, then rewrite every sample of the copy in
    row-major order with explicit nested loops. */
module CpuSerial {
  import opened Pixel
  import opened Images

  /** One step of the row-major sweep: `(i*w + j)*c + c == (i*w + j + 1)*c`, and a
      finished row `i` ends where row `i + 1` begins. */
  lemma RowMajorSteps(w: nat, c: nat, i: nat, j: nat)
    ensures (i * w + j) * c + c == (i * w + (j + 1)) * c
    ensures (i * w + w) * c == (i + 1) * w * c
  {
  }

  /** `brightness_cpu`: every sample of the result is `Clip(sample + value)`;
      the copy is the only buffer written. */
  method BrightnessCpu(image: Image, value: int) returns (output: Image)
    requires image.Valid()
    ensures output.SameShape(image) && output.Valid()
    ensures forall i: nat, j: nat, k: nat :: i < image.height && j < image.width && k < image.channels ==>
              output.data[image.Index(i, j, k)] == Clip(image.data[image.Index(i, j, k)] + value)
    ensures output == Transform(image, Offset(value))
  {
    var height, width, ch := image.height, image.width, image.channels;
    var out := new int[|image.data|](n requires 0 <= n < |image.data| => image.data[n]);
    for i := 0 to height
      // rows below i are done, rows at or above i still hold the input copy
      invariant forall n :: 0 <= n < out.Length ==>
                  out[n] == if n < i * width * ch then Bright(image.data[n], value) else image.data[n]
    {
      for j := 0 to width
        invariant forall n :: 0 <= n < out.Length ==>
                    out[n] == if n < (i * width + j) * ch then Bright(image.data[n], value) else image.data[n]
      {
        RowMajorSteps(width, ch, i, j);
        if ch == 3 {
          for c := 0 to 3
            invariant forall n :: 0 <= n < out.Length ==>
                        out[n] == if n < (i * width + j) * ch + c then Bright(image.data[n], value) else image.data[n]
          {
            var n := image.Index(i, j, c);
            var px := image.data[n] + value;
            out[n] := Clip(px);
          }
        } else {
          var n := image.Index(i, j, 0);
          var px := image.data[n] + value;
          out[n] := Clip(px);
        }
      }
      RowMajorSteps(width, ch, i, width);
    }
    output := Image(height, width, ch, out[..]);
    assert output.data == Transform(image, Offset(value)).data;
  }

  /** `contrast_cpu`: every sample of the result is `Contrast(sample, factor)`;
      the copy is the only buffer written. */
  method ContrastCpu(image: Image, factor: real) returns (output: Image)
    requires image.Valid()
    ensures output.SameShape(image) && output.Valid()
    ensures forall i: nat, j: nat, k: nat :: i < image.height && j < image.width && k < image.channels ==>
              output.data[image.Index(i, j, k)] == Contrast(image.data[image.Index(i, j, k)], factor)
    ensures output == Transform(image, Scale(factor))
  {
    var height, width, ch := image.height, image.width, image.channels;
    var out := new int[|image.data|](n requires 0 <= n < |image.data| => image.data[n]);
    for i := 0 to height
      invariant forall n :: 0 <= n < out.Length ==>
                  out[n] == if n < i * width * ch then Contrast(image.data[n], factor) else image.data[n]
    {
      for j := 0 to width
        invariant forall n :: 0 <= n < out.Length ==>
                    out[n] == if n < (i * width + j) * ch then Contrast(image.data[n], factor) else image.data[n]
      {
        RowMajorSteps(width, ch, i, j);
        if ch == 3 {
          for c := 0 to 3
            invariant forall n :: 0 <= n < out.Length ==>
                        out[n] == if n < (i * width + j) * ch + c then Contrast(image.data[n], factor) else image.data[n]
          {
            var n := image.Index(i, j, c);
            var px := Midpoint as real + factor * ((image.data[n] - Midpoint) as real);
            out[n] := ClipReal(px).Floor;
            assert out[n] == Contrast(image.data[n], factor);
          }
        } else {
          var n := image.Index(i, j, 0);
          var px := Midpoint as real + factor * ((image.data[n] - Midpoint) as real);
          out[n] := ClipReal(px).Floor;
          assert out[n] == Contrast(image.data[n], factor);
        }
      }
      RowMajorSteps(width, ch, i, width);
    }
    output := Image(height, width, ch, out[..]);
    assert output.data == Transform(image, Scale(factor)).data;
  }
}
