/** Images as dense row-major buffers, their index arithmetic, and the reference
    meaning of an enhancement: every sample replaced by the formula applied to it. */
module Images {
  import opened Pixel

  /** An 8-bit image of `height` rows, `width` columns and `channels` samples per
      pixel (1 for grayscale, 3 for RGB). Sample `(i, j, k)` sits at `(i*width + j)*channels + k`. */
  datatype Image = Image(height: nat, width: nat, channels: nat, data: seq<int>) {

    /** What a uint8 array of this shape guarantees: a buffer of exactly
        `height*width*channels` samples, each in [0, 255]. */
    predicate Valid() {
      && (channels == 1 || channels == 3)
      && |data| == height * width * channels
      && forall n :: 0 <= n < |data| ==> IsSample(data[n])
    }

    predicate SameShape(other: Image) {
      height == other.height && width == other.width && channels == other.channels
      && |data| == |other.data|
    }

    /** The flat position of sample `(i, j, k)`; it always lies inside the buffer. */
    function Index(i: nat, j: nat, k: nat): (n: nat)
      requires Valid()
      requires i < height && j < width && k < channels
      ensures n < |data|
    {
      IndexBound(height, width, channels, i, j, k);
      (i * width + j) * channels + k
    }

    /** The pixel coordinate `(row, column)` that the flat position `n` belongs to. */
    function PixelOf(n: nat): (nat, nat)
      requires Valid() && width > 0
    {
      (n / channels / width, n / channels % width)
    }
  }

  // ----- row-major index arithmetic -----

  /** `n == q*d + r` with `0 <= r < d` determines quotient and remainder. */
  lemma DivModUnique(n: int, d: int, q: int, r: int)
    requires 0 < d && 0 <= r < d && n == q * d + r
    ensures n / d == q && n % d == r
  {
    var q', r' := n / d, n % d;
    assert n == q' * d + r';
    if q' < q {
      MulLeq(q' + 1, q, d);
      assert false;
    } else if q < q' {
      MulLeq(q + 1, q', d);
      assert false;
    }
  }

  lemma MulLeq(a: int, b: int, d: int)
    requires a <= b && 0 <= d
    ensures a * d <= b * d
  {
    assert b * d - a * d == (b - a) * d;
  }

  /** Every in-range coordinate lands inside an `h*w*c` buffer. */
  lemma IndexBound(h: nat, w: nat, c: nat, i: nat, j: nat, k: nat)
    requires i < h && j < w && k < c
    ensures (i * w + j) * c + k < h * w * c
  {
    MulLeq(i + 1, h, w);
    assert (i + 1) * w == i * w + w;
    MulLeq(i * w + j + 1, h * w, c);
    assert (i * w + j + 1) * c == (i * w + j) * c + c;
  }

  /** The samples of pixel `(x, y)` are exactly the flat positions whose pixel is `(x, y)`. */
  lemma PixelOfBase(img: Image, x: nat, y: nat, n: nat)
    requires img.Valid() && x < img.height && y < img.width
    ensures var base := (x * img.width + y) * img.channels;
            (base <= n < base + img.channels) <==> img.PixelOf(n) == (x, y)
  {
    var w, c := img.width, img.channels;
    var base := (x * w + y) * c;
    if base <= n < base + c {
      DivModUnique(n, c, x * w + y, n - base);
      DivModUnique(n / c, w, x, y);
    }
    if img.PixelOf(n) == (x, y) {
      DivModUnique(n / c, w, n / c / w, n / c % w);
      assert n / c == x * w + y;
      DivModUnique(n, c, n / c, n % c);
    }
  }

  /** Every position of a valid buffer belongs to an in-range pixel. */
  lemma PixelOfInRange(img: Image, n: nat)
    requires img.Valid() && img.width > 0 && n < |img.data|
    ensures img.PixelOf(n).0 < img.height && img.PixelOf(n).1 < img.width
  {
    var h, w, c := img.height, img.width, img.channels;
    var q := n / c;
    DivModUnique(n, c, q, n % c);
    if h * w <= q {
      MulLeq(h * w, q, c);
    }
    assert q < h * w;
    DivModUnique(q, w, q / w, q % w);
    if h <= q / w {
      MulLeq(h, q / w, w);
    }
  }

  // ----- the reference meaning of an enhancement -----

  /** The image with every sample replaced by `Apply(e, sample)`, shape unchanged. */
  function Transform(img: Image, e: Enhancement): Image {
    img.(data := seq(|img.data|, n requires 0 <= n < |img.data| => Apply(e, img.data[n])))
  }

  /** The result has the input's height, width and channel count, and is a valid image again. */
  lemma TransformShape(img: Image, e: Enhancement)
    requires img.Valid()
    ensures Transform(img, e).SameShape(img) && Transform(img, e).Valid()
  {
  }

  /** At every in-range coordinate the result holds the formula applied to the input sample. */
  lemma TransformAt(img: Image, e: Enhancement, i: nat, j: nat, k: nat)
    requires img.Valid() && i < img.height && j < img.width && k < img.channels
    ensures Transform(img, e).data[img.Index(i, j, k)] == Apply(e, img.data[img.Index(i, j, k)])
  {
  }

  /** `brightness(image, 0) == image`. */
  lemma BrightnessZeroIdentity(img: Image)
    requires img.Valid()
    ensures Transform(img, Offset(0)) == img
  {
    forall n | 0 <= n < |img.data|
      ensures Transform(img, Offset(0)).data[n] == img.data[n]
    {
      BrightZero(img.data[n]);
    }
  }

  /** `contrast(image, 1.0) == image`, exactly. */
  lemma ContrastUnitIdentity(img: Image)
    requires img.Valid()
    ensures Transform(img, Scale(1.0)) == img
  {
    forall n | 0 <= n < |img.data|
      ensures Transform(img, Scale(1.0)).data[n] == img.data[n]
    {
      ContrastUnit(img.data[n]);
    }
  }

  /** An all-white image stays white under any positive offset, an all-black one
      stays black under any negative offset. */
  lemma BrightnessSaturation(img: Image, value: int)
    requires img.Valid()
    ensures (forall n :: 0 <= n < |img.data| ==> img.data[n] == MaxSample) && value > 0
            ==> Transform(img, Offset(value)) == img
    ensures (forall n :: 0 <= n < |img.data| ==> img.data[n] == 0) && value < 0
            ==> Transform(img, Offset(value)) == img
  {
    forall n | 0 <= n < |img.data|
      ensures Transform(img, Offset(value)).data[n] == Bright(img.data[n], value)
    {
    }
    if value > 0 && forall n :: 0 <= n < |img.data| ==> img.data[n] == MaxSample {
      assert Transform(img, Offset(value)).data == img.data;
    }
    if value < 0 && forall n :: 0 <= n < |img.data| ==> img.data[n] == 0 {
      assert Transform(img, Offset(value)).data == img.data;
    }
  }

  /** A pixel at the midpoint stays there under every contrast factor. */
  lemma ContrastFixesMidpoint(img: Image, factor: real, n: nat)
    requires img.Valid() && n < |img.data| && img.data[n] == Midpoint
    ensures Transform(img, Scale(factor)).data[n] == Midpoint
  {
    Pixel.ContrastMidpoint(factor);
  }
}
