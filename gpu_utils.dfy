/** The launch of a kernel: 16x16 thread blocks, a grid of ceil-divided size along
    each image axis, and every (block, thread) unit run once. The launch is modelled
    as a sequential sweep over the units; the units' independence (`StepsCommute`)
    is what makes any other order, or a concurrent one, give the same buffer. */
module GpuUtils {
  import opened Pixel
  import opened Images
  import opened GpuCuda

  /** `threads_per_block = (16, 16)`. */
  const BlockDim: nat := 16
  const ThreadsPerBlock: nat := BlockDim * BlockDim

  /** `(dim + 16 - 1) // 16`: enough blocks to cover `dim`, and no block wholly beyond it. */
  function BlocksPerGrid(dim: nat): (r: nat)
    ensures r * BlockDim >= dim
    ensures (r - 1) * BlockDim < dim
  {
    (dim + BlockDim - 1) / BlockDim
  }

  /** `blocks_per_grid`: the number of blocks along the row axis and the column axis. */
  datatype Grid = Grid(blocksX: nat, blocksY: nat)

  function GridFor(img: Image): (g: Grid)
    ensures g.blocksX * BlockDim >= img.height && g.blocksY * BlockDim >= img.width
  {
    Grid(BlocksPerGrid(img.height), BlocksPerGrid(img.width))
  }

  function BlockCount(g: Grid): nat {
    g.blocksX * g.blocksY
  }

  /** `cuda.grid(2)` for thread `t` of block `b`: block `b` is `(b / blocksY, b % blocksY)`,
      thread `t` is `(t / 16, t % 16)`, and the coordinate is `(bx*16 + tx, by*16 + ty)`. */
  function CoordinateFor(g: Grid, b: nat, t: nat): (c: (nat, nat))
    requires b < BlockCount(g) && t < ThreadsPerBlock
    ensures c.0 < g.blocksX * BlockDim && c.1 < g.blocksY * BlockDim
  {
    var blockX := b / g.blocksY;
    var blockY := b % g.blocksY;
    var threadX := t / BlockDim;
    var threadY := t % BlockDim;
    BlockInGrid(g, b);
    MulLeq(blockX + 1, g.blocksX, BlockDim);
    MulLeq(blockY + 1, g.blocksY, BlockDim);
    (blockX * BlockDim + threadX, blockY * BlockDim + threadY)
  }

  /** Block `b` of the grid sits at row `b / blocksY` and column `b % blocksY` of it. */
  lemma BlockInGrid(g: Grid, b: nat)
    requires b < BlockCount(g)
    ensures g.blocksY > 0 && b / g.blocksY < g.blocksX && b % g.blocksY < g.blocksY
  {
    if g.blocksY == 0 {
      assert false;
    }
    if g.blocksX <= b / g.blocksY {
      MulLeq(g.blocksX, b / g.blocksY, g.blocksY);
      assert false;
    }
  }

  /** The (block, thread) pair whose coordinate is `(x, y)`. */
  function UnitFor(g: Grid, x: nat, y: nat): (nat, nat)
    requires g.blocksY > 0
  {
    ((x / BlockDim) * g.blocksY + y / BlockDim, (x % BlockDim) * BlockDim + y % BlockDim)
  }

  // ----- coverage of the image by the grid -----

  /** Every in-range pixel is the coordinate of the unit `UnitFor` names, and that unit is in the grid. */
  lemma UnitCoversPixel(img: Image, x: nat, y: nat)
    requires x < img.height && y < img.width
    ensures var g := GridFor(img);
            g.blocksY > 0
            && UnitFor(g, x, y).0 < BlockCount(g) && UnitFor(g, x, y).1 < ThreadsPerBlock
            && CoordinateFor(g, UnitFor(g, x, y).0, UnitFor(g, x, y).1) == (x, y)
  {
    var g := GridFor(img);
    var gx, gy := g.blocksX, g.blocksY;
    var blockX, blockY := x / BlockDim, y / BlockDim;
    var threadX, threadY := x % BlockDim, y % BlockDim;
    if gx <= blockX {
      MulLeq(gx, blockX, BlockDim);
      assert false;
    }
    if gy <= blockY {
      MulLeq(gy, blockY, BlockDim);
      assert false;
    }
    var (b, t) := UnitFor(g, x, y);
    MulLeq(blockX + 1, gx, gy);
    assert b < BlockCount(g);
    DivModUnique(b, gy, blockX, blockY);
    DivModUnique(t, BlockDim, threadX, threadY);
  }

  /** A unit of the grid is the one `UnitFor` names for its own coordinate. */
  lemma UnitOfCoordinate(g: Grid, b: nat, t: nat)
    requires b < BlockCount(g) && t < ThreadsPerBlock
    ensures g.blocksY > 0
    ensures UnitFor(g, CoordinateFor(g, b, t).0, CoordinateFor(g, b, t).1) == (b, t)
  {
    var gy := g.blocksY;
    var blockX, blockY := b / gy, b % gy;
    var threadX, threadY := t / BlockDim, t % BlockDim;
    assert b == blockX * gy + blockY;
    assert t == threadX * BlockDim + threadY;
    var (x, y) := CoordinateFor(g, b, t);
    DivModUnique(x, BlockDim, blockX, threadX);
    DivModUnique(y, BlockDim, blockY, threadY);
  }

  /** Every in-range pixel `(x, y)` equals `(bx*16 + tx, by*16 + ty)` for exactly one
      (block, thread) pair of the grid. */
  lemma ExactlyOneUnit(img: Image, x: nat, y: nat, b: nat, t: nat)
    requires x < img.height && y < img.width
    requires b < BlockCount(GridFor(img)) && t < ThreadsPerBlock
    ensures GridFor(img).blocksY > 0
    ensures CoordinateFor(GridFor(img), b, t) == (x, y) <==> (b, t) == UnitFor(GridFor(img), x, y)
  {
    UnitCoversPixel(img, x, y);
    UnitOfCoordinate(GridFor(img), b, t);
  }

  /** The pixel-to-unit map of the launch, as a pair (block, thread). */
  ghost function UnitOfSample(img: Image, n: nat): (u: (nat, nat))
    requires img.Valid() && n < |img.data|
    ensures u.0 < BlockCount(GridFor(img)) && u.1 < ThreadsPerBlock
  {
    assert img.width > 0;
    PixelOfInRange(img, n);
    UnitCoversPixel(img, img.PixelOf(n).0, img.PixelOf(n).1);
    UnitFor(GridFor(img), img.PixelOf(n).0, img.PixelOf(n).1)
  }

  /** The unit `(b, t)` owns position `n` exactly when `n` belongs to the pixel of that unit. */
  lemma UnitOwns(img: Image, b: nat, t: nat, n: nat)
    requires img.Valid() && n < |img.data|
    requires b < BlockCount(GridFor(img)) && t < ThreadsPerBlock
    ensures Owns(img, CoordinateFor(GridFor(img), b, t).0, CoordinateFor(GridFor(img), b, t).1, n)
            <==> UnitOfSample(img, n) == (b, t)
  {
    var g := GridFor(img);
    var (x, y) := CoordinateFor(g, b, t);
    assert img.width > 0;
    var (px, py) := img.PixelOf(n);
    PixelOfInRange(img, n);
    UnitOfCoordinate(g, b, t);
    UnitCoversPixel(img, px, py);
    if x < img.height && y < img.width {
      PixelOfBase(img, x, y, n);
    }
    PixelOfBase(img, px, py, n);
  }

  // ----- the sequential sweep -----

  /** The buffer after threads `0 .. t-1` of block `b` have run on `o`. */
  function ThreadsOf(img: Image, e: Enhancement, o: seq<int>, b: nat, t: nat): (r: seq<int>)
    requires |o| == |img.data| && b < BlockCount(GridFor(img)) && t <= ThreadsPerBlock
    ensures |r| == |o|
    decreases t
  {
    if t == 0 then o
    else
      var (x, y) := CoordinateFor(GridFor(img), b, t - 1);
      Step(img, ThreadsOf(img, e, o, b, t - 1), e, x, y)
  }

  /** The buffer after every thread of blocks `0 .. b-1` has run on `o`. */
  function BlocksOf(img: Image, e: Enhancement, o: seq<int>, b: nat): (r: seq<int>)
    requires |o| == |img.data| && b <= BlockCount(GridFor(img))
    ensures |r| == |o|
  {
    if b == 0 then o else ThreadsOf(img, e, BlocksOf(img, e, o, b - 1), b - 1, ThreadsPerBlock)
  }

  /** After threads `0 .. t-1` of block `b`, a position holds the formula's value exactly
      when its pixel's unit is one of those threads. */
  lemma {:induction false} ThreadsOfAt(img: Image, e: Enhancement, o: seq<int>, b: nat, t: nat, n: nat)
    requires img.Valid() && |o| == |img.data| && n < |o|
    requires b < BlockCount(GridFor(img)) && t <= ThreadsPerBlock
    ensures ThreadsOf(img, e, o, b, t)[n]
            == if UnitOfSample(img, n).0 == b && UnitOfSample(img, n).1 < t then Apply(e, img.data[n]) else o[n]
  {
    if t > 0 {
      ThreadsOfAt(img, e, o, b, t - 1, n);
      UnitOwns(img, b, t - 1, n);
    }
  }

  /** Running block `b` changes exactly the positions whose unit lies in block `b`. */
  lemma BlockStep(img: Image, e: Enhancement, o: seq<int>, b: nat, n: nat)
    requires img.Valid() && |o| == |img.data| && n < |o|
    requires b < BlockCount(GridFor(img))
    ensures BlocksOf(img, e, o, b + 1)[n]
            == if UnitOfSample(img, n).0 == b then Apply(e, img.data[n]) else BlocksOf(img, e, o, b)[n]
  {
    ThreadsOfAt(img, e, BlocksOf(img, e, o, b), b, ThreadsPerBlock, n);
  }

  /** After blocks `0 .. b-1`, a position holds the formula's value exactly when its
      pixel's unit lies in one of those blocks. */
  lemma {:induction false} BlocksOfAt(img: Image, e: Enhancement, o: seq<int>, b: nat, n: nat)
    requires img.Valid() && |o| == |img.data| && n < |o|
    requires b <= BlockCount(GridFor(img))
    ensures BlocksOf(img, e, o, b)[n] == if UnitOfSample(img, n).0 < b then Apply(e, img.data[n]) else o[n]
  {
    if b > 0 {
      BlocksOfAt(img, e, o, b - 1, n);
      BlockStep(img, e, o, b - 1, n);
    }
  }

  /** Sweeping the whole grid over any starting buffer of the image's size yields the
      enhanced image: every pixel is reached, and what the buffer held before is irrelevant. */
  lemma SweepIsTransform(img: Image, e: Enhancement, o: seq<int>)
    requires img.Valid() && |o| == |img.data|
    ensures BlocksOf(img, e, o, BlockCount(GridFor(img))) == Transform(img, e).data
  {
    var r := BlocksOf(img, e, o, BlockCount(GridFor(img)));
    forall n | 0 <= n < |o|
      ensures r[n] == Transform(img, e).data[n]
    {
      BlocksOfAt(img, e, o, BlockCount(GridFor(img)), n);
    }
  }

  /** The kernel the caller passes to `run_gpu`, with its parameter, run as the unit at `(x, y)`. */
  method RunUnit(e: Enhancement, image: Image, out: array<int>, x: nat, y: nat)
    requires image.Valid() && out.Length == |image.data|
    modifies out
    ensures out[..] == Step(image, old(out[..]), e, x, y)
  {
    match e
    case Offset(value) => BrightnessKernel(image, out, value, x, y);
    case Scale(factor) => ContrastKernel(image, out, factor, x, y);
  }

  /** One block of the launch: threads `0 .. 255` of block `b`, each run as a unit. */
  method RunBlock(e: Enhancement, image: Image, out: array<int>, b: nat)
    requires image.Valid() && out.Length == |image.data| && b < BlockCount(GridFor(image))
    modifies out
    ensures out[..] == ThreadsOf(image, e, old(out[..]), b, ThreadsPerBlock)
  {
    var grid := GridFor(image);
    for t := 0 to ThreadsPerBlock
      invariant out[..] == ThreadsOf(image, e, old(out[..]), b, t)
    {
      var (x, y) := CoordinateFor(grid, b, t);
      RunUnit(e, image, out, x, y);
    }
  }

  /** `run_gpu`: allocate an output buffer of the image's size, launch the kernel over
      every (block, thread) unit of the grid, and hand back the buffer as an image. */
  method RunGpu(e: Enhancement, image: Image) returns (output: Image)
    requires image.Valid()
    ensures output.SameShape(image) && output.Valid()
    ensures output == Transform(image, e)
  {
    var dOut := new int[|image.data|];
    ghost var initial := dOut[..];
    var grid := GridFor(image);
    for b := 0 to BlockCount(grid)
      invariant dOut[..] == BlocksOf(image, e, initial, b)
    {
      RunBlock(e, image, dOut, b);
    }
    SweepIsTransform(image, e, initial);
    TransformShape(image, e);
    output := image.(data := dOut[..]);
  }
}
