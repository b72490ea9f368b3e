# Brightness and contrast on 8-bit images, three ways

This project models the execution-strategy core of a small image-enhancement
benchmark. One per-sample transform is applied to an 8-bit grayscale or RGB
image, and it is applied in three ways:

- **Serial engine** (`brightness_cpu`, `contrast_cpu`). It copies the image and then
  rewrites every (row, column, channel) of the copy in nested loops.
- **Vectorized engine** (`brightness_vectorized`, `contrast_vectorized`). Each
  operation is one whole-array expression: `np.clip(...)` followed by `astype(np.uint8)`.
- **Kernel engine** (`brightness_kernel`, `contrast_kernel`, launched by `run_gpu`).
  There is one unit of work per pixel coordinate `(x, y)`. The launch uses 16×16
  thread blocks and a grid of `ceil(dim / 16)` blocks along each axis.

The formulas are:

- brightness: `clip(p + value)`;
- contrast: `clip(128 + factor * (p - 128))`, stored as an 8-bit sample;
- `clip` bounds a value to [0, 255].

An image is `Images.Image(height, width, channels, data)`. Here `channels` is 1
or 3, and `data` is the flat row-major buffer of `height*width*channels` samples.
Sample `(i, j, k)` sits at position `(i*width + j)*channels + k`. `Images.Transform`
is the reference meaning of an enhancement: every sample is replaced by the formula
applied to it. Each engine is proved equal to that function:

- `CpuSerial.BrightnessCpu` and `CpuSerial.ContrastCpu` are methods. They fill a
  local array, which is the copy, with loop invariants that say rows below `i` are
  done and the rest still hold the input. The input image is a value, so it cannot
  be modified.
- `CpuVectorized.BrightnessVectorized` and `CpuVectorized.ContrastVectorized` are
  pure functions over the buffer. Lemmas prove that the uint8 cast after the clip
  loses nothing and that the result is the serial result, element by element.
- `GpuCuda.BrightnessKernel` and `GpuCuda.ContrastKernel` are methods that modify
  the shared output array at one coordinate. Their effect is the function
  `GpuCuda.Step`.
- `GpuUtils.RunGpu` sweeps every (block, thread) pair in sequence. It has an
  outer loop over the blocks, and `GpuUtils.RunBlock` has an inner loop over the
  threads of one block. Lemmas prove that every in-image pixel belongs to exactly
  one unit and that units outside the image write nothing. As a result, this
  sweep order yields `Transform` whatever the output buffer held before.
  `GpuCuda.StepsCommute` proves that any two units commute. That is why another
  order, or a concurrent launch, gives the same buffer. No lemma folds it over an
  arbitrary reordering of all the units.

Contrast is computed on Dafny `real`s. It is clipped and then truncated with
`Floor`, which is what storing a non-negative float into a uint8 cell does. All
three engines use this same policy.

The code sometimes departs from what its own docstrings suggest. The model
follows whichever of the two is stated here:

1. Rounding: storing the clipped contrast value into a uint8 cell truncates it.
   The model follows the code and truncates.
2. Arithmetic width: the docstrings say "pixel values are clipped to [0, 255]"
   (src/cpu_serial.py:19, :56). That is a clip of the true value of the formula.
   The code computes `image + value` and `image - 128` on uint8 operands, which
   wrap modulo 256 first. `Pixel.Bright`, `Pixel.Contrast`,
   `CpuVectorized.AddScalar` and `CpuVectorized.ScaleAboutMidpoint` follow the
   docstrings and compute in unbounded integers and reals. Only the module
   `Uint8AsWritten` follows the code's 8-bit arithmetic (see Findings).
3. Errors: the model follows the code, which checks nothing and signals no error
   of its own.

## Model

| member | source | states |
|---|---|---|
| `Pixel.Clip` | src/cpu_serial.py:41 | the result is a sample; a sample is returned unchanged; below 0 gives 0, above 255 gives 255 |
| `Pixel.ClipReal` | src/cpu_serial.py:78 | the float clip lands in [0, 255], leaves values already in range unchanged, sends every value below 0 to 0 and every value above 255 to 255 |
| `Pixel.Bright` | src/cpu_serial.py:40-41 | every brightness result lies in [0, 255], for any integer offset |
| `Pixel.Contrast` | src/cpu_serial.py:77-78 | every contrast result lies in [0, 255], for any real factor |
| `Pixel.ClipNearest` | src/cpu_serial.py:41 | the clipped value is the sample nearest to the unclipped one |
| `Pixel.ClipMonotone` | src/cpu_vectorized.py:28 | clipping preserves order |
| `Pixel.BrightZero` | src/cpu_serial.py:40-41 | offset 0 leaves a sample unchanged |
| `Pixel.BrightSaturates` | src/cpu_serial.py:41 | 255 stays 255 for any positive offset; 0 stays 0 for any negative offset |
| `Pixel.BrightMonotone` | src/cpu_vectorized.py:28 | `p <= q` implies `Bright(p, v) <= Bright(q, v)` |
| `Pixel.ContrastMidpoint` | src/cpu_serial.py:77-78 | sample 128 stays 128 for every factor |
| `Pixel.Apply` | src/utils.py:41 | definition: the kernel and parameter a caller hands to `run_gpu` select the brightness or the contrast formula; every result is a sample |
| `Pixel.ContrastUnit` | src/cpu_serial.py:77-78 | factor 1 leaves a sample unchanged, exactly |
| `Pixel.BrightNeverDarkens` | src/cpu_serial.py:16-19 | a non-negative offset never lowers a sample: the sum is clipped, not wrapped |
| `Pixel.ContrastKeepsSide` | src/cpu_serial.py:53-56 | with a non-negative factor, samples at or below 128 stay at or below 128, and samples at or above stay at or above |
| `Images.Image.Index` | src/cpu_serial.py:39-41 | the row-major position of an in-range `(i, j, k)` lies inside the buffer |
| `Images.PixelOfBase` | src/gpu_cuda.py:21-27 | the positions `(x*w + y)*c .. +c` are exactly those whose pixel is `(x, y)` |
| `Images.TransformShape` | src/cpu_serial.py:33-34 | the result has the input's height, width and channel count and is a valid 8-bit image |
| `Images.TransformAt` | src/cpu_serial.py:36-44 | at every in-range coordinate the result is the formula applied to the input sample |
| `Images.BrightnessZeroIdentity` | src/cpu_serial.py:40-44 | `brightness(image, 0) == image` |
| `Images.ContrastUnitIdentity` | src/cpu_serial.py:77-81 | `contrast(image, 1.0) == image` |
| `Images.BrightnessSaturation` | src/cpu_serial.py:40-44 | an all-white image is fixed by any positive offset, an all-black one by any negative offset |
| `Images.ContrastFixesMidpoint` | src/cpu_serial.py:77-81 | a sample equal to 128 is 128 in the result for every factor |
| `CpuSerial.BrightnessCpu` | src/cpu_serial.py:12-46 | same shape, all samples in [0, 255], `output[i,j,k] == Clip(image[i,j,k] + value)` at every coordinate, and the whole result equals `Transform` |
| `CpuSerial.ContrastCpu` | src/cpu_serial.py:49-83 | same shape, all samples in [0, 255], `output[i,j,k] == Contrast(image[i,j,k], factor)` at every coordinate, and the whole result equals `Transform` |
| `CpuVectorized.AddScalar` | src/cpu_vectorized.py:28 | definition of `image + value` on the flat buffer, in unbounded integers; its ensures repeats the comprehension, so it carries no proof |
| `CpuVectorized.ScaleAboutMidpoint` | src/cpu_vectorized.py:47 | definition of `128 + factor * (image - 128)` on the flat buffer, in reals; its ensures repeats the comprehension, so it carries no proof |
| `CpuVectorized.ClipAll` | src/cpu_vectorized.py:28 | definition of `np.clip(..., 0, 255)` on an integer buffer; its ensures repeats the comprehension, so it carries no proof |
| `CpuVectorized.ClipAllReal` | src/cpu_vectorized.py:47 | definition of `np.clip(..., 0, 255)` on a floating-point buffer; its ensures repeats the comprehension, so it carries no proof |
| `CpuVectorized.AsUint8` | src/cpu_vectorized.py:28 | `astype(np.uint8)` on integers, as reduction modulo 256: every result is a sample, whatever the input |
| `CpuVectorized.AsUint8Real` | src/cpu_vectorized.py:47 | `astype(np.uint8)` on floats in [0, 256), as truncation: every result is a sample |
| `CpuVectorized.BrightnessVectorized` | src/cpu_vectorized.py:12-28 | the result has the input's shape and is a valid 8-bit image |
| `CpuVectorized.ContrastVectorized` | src/cpu_vectorized.py:31-47 | the result has the input's shape and is a valid 8-bit image |
| `CpuVectorized.BrightnessCastLossless` | src/cpu_vectorized.py:28 | `astype(np.uint8)` after the clip changes no sample |
| `CpuVectorized.BrightnessMatchesSerial` | src/cpu_vectorized.py:28 | the vectorized brightness equals the serial engine's result element-wise |
| `CpuVectorized.ContrastMatchesSerial` | src/cpu_vectorized.py:47 | the vectorized contrast equals the serial engine's result element-wise, under the same clip-then-truncate policy |
| `CpuVectorized.BrightnessMonotone` | src/cpu_vectorized.py:28 | a sample no larger than another's stays no larger after the vectorized brightness |
| `CpuVectorized.ConcreteScenario` | src/cpu_vectorized.py:28-47 | `[10,250,0,128]` gives `[30,255,20,148]` with offset 20 and `[0,255,0,128]` with factor 2 |
| `GpuCuda.Owns` | src/gpu_cuda.py:20-27 | the write set of unit `(x, y)`: the bounds check holds and `n` is one of the pixel's channel positions; on a valid image every such position lies inside the buffer |
| `GpuCuda.Step` | src/gpu_cuda.py:18-27 | definition of a unit's effect on the whole buffer: owned positions become the formula's value, all others keep theirs; the length is kept. What it means is stated by `StepOutOfRange`, `StepAtPixel` and `UnitOwns` |
| `GpuCuda.BrightnessKernel` | src/gpu_cuda.py:12-27 | the buffer afterwards is `Step` of the buffer before: only the samples of `(x, y)` change, and they become `Clip(img + value)` |
| `GpuCuda.ContrastKernel` | src/gpu_cuda.py:31-47 | the buffer afterwards is `Step` of the buffer before: only the samples of `(x, y)` change, and they become the contrast formula |
| `GpuCuda.StepOutOfRange` | src/gpu_cuda.py:20 | a unit with `x >= height` or `y >= width` writes nothing |
| `GpuCuda.StepAtPixel` | src/gpu_cuda.py:21-27 | an in-range unit writes the formula's value, always a sample, into every channel of `(x, y)`, and leaves every other pixel unchanged |
| `GpuCuda.RgbUnitChannels` | src/gpu_cuda.py:21-22 | an RGB unit touches exactly channels 0, 1 and 2 of its coordinate |
| `GpuCuda.StepsCommute` | src/gpu_cuda.py:18-27 | running any two units in either order gives the same buffer |
| `GpuCuda.StepIdempotent` | src/gpu_cuda.py:18-27 | running a unit twice is the same as running it once |
| `GpuUtils.BlocksPerGrid` | src/utils.py:34-38 | `blocks*16 >= dim` (full coverage) and `(blocks-1)*16 < dim` (no block wholly outside) |
| `GpuUtils.GridFor` | src/utils.py:35-38 | `blocks_per_grid[0]*16 >= height` and `blocks_per_grid[1]*16 >= width` |
| `GpuUtils.CoordinateFor` | src/gpu_cuda.py:18 | `cuda.grid(2)` for thread `t` of block `b`: the coordinate lies inside the grid's extent, `x < blocks_per_grid[0]*16` and `y < blocks_per_grid[1]*16` |
| `GpuUtils.BlockInGrid` | src/utils.py:35-41 | block `b` of a grid with `blocksX*blocksY` blocks has row `b / blocksY < blocksX` and column `b % blocksY < blocksY` |
| `GpuUtils.UnitCoversPixel` | src/utils.py:34-41 | every in-range pixel is the coordinate of a unit inside the grid |
| `GpuUtils.UnitOfCoordinate` | src/gpu_cuda.py:18 | a grid unit is recovered from its own coordinate `(bx*16 + tx, by*16 + ty)` |
| `GpuUtils.ExactlyOneUnit` | src/utils.py:34-41 | an in-range pixel equals the coordinate of a (block, thread) pair if and only if that pair is the one `UnitFor` names |
| `GpuUtils.UnitOwns` | src/gpu_cuda.py:18-27 | unit `(b, t)` writes position `n` if and only if `n` belongs to the pixel whose unit is `(b, t)` |
| `GpuUtils.ThreadsOfAt` | src/utils.py:41 | after the first `t` threads of block `b`, a position holds the formula's value exactly when its unit is among them |
| `GpuUtils.BlockStep` | src/utils.py:41 | running block `b` changes exactly the positions whose unit lies in block `b` |
| `GpuUtils.BlocksOfAt` | src/utils.py:41 | after the first `b` blocks, a position holds the formula's value exactly when its unit lies in one of them |
| `GpuUtils.SweepIsTransform` | src/utils.py:32-41 | sweeping the whole grid over any starting buffer of the right size gives `Transform` |
| `GpuUtils.RunUnit` | src/utils.py:41 | launching the chosen kernel at `(x, y)` has the effect `Step` |
| `GpuUtils.RunBlock` | src/utils.py:41 | running the 256 threads of block `b` in order turns the buffer into `ThreadsOf` of it, the fold of `Step` over those threads |
| `GpuUtils.RunGpu` | src/utils.py:11-45 | the launch output has the input's shape and equals `Transform`, and so equals the serial engine's output |
| `Uint8AsWritten.BrightAsWritten` | src/cpu_vectorized.py:28 | the wrapped sum is a sample; it agrees with `Bright` when the sum does not exceed 255; when the sum exceeds 255 the result is `p + value - 256`, darker than the input |
| `Uint8AsWritten.ContrastAsWritten` | src/cpu_vectorized.py:47 | the wrapped difference gives a sample, and it agrees with `Contrast` for samples at or above 128 |
| `Uint8AsWritten.ContrastAsWrittenCrosses` | src/cpu_vectorized.py:47 | with any non-negative factor, every sample below 128 ends at or above 128 |
| `Uint8AsWritten.BrightAsWrittenWraps` | src/cpu_vectorized.py:28 | 250 with offset 20 gives 14 as written and 255 as documented |
| `Uint8AsWritten.ContrastAsWrittenWraps` | src/cpu_vectorized.py:47 | 10 with factor 2 gives 255 as written and 0 as documented |

## Left out

- Device memory (`cuda.to_device`, `cuda.device_array_like`, `copy_to_host`): these
  are foreign transfers. The output buffer is a new array of the image's size.
  `SweepIsTransform` shows that its initial contents do not matter.
- Timing (`time.time`, `elapsed`): this is wall-clock input. `RunGpu` returns only
  the image.
- Concurrent execution, `cuda.synchronize`, the Numba JIT and the internals of
  `cuda.grid`: the launch is a sequential sweep, blocks in order and threads in order
  within each block. `StepsCommute` proves that any two units commute, which is
  why another order gives the same buffer. No lemma folds that over a whole reordering.
  `CoordinateFor` stands in for `cuda.grid(2)`.
- IEEE-754 behaviour of `factor`: rounding of `factor*(p-128)`, NaN and infinities.
  Contrast is computed on exact reals.
- NumPy dtype promotion and uint8 wraparound: the model uses the documented
  wide-integer clip. The wraparound is recorded under Findings, not modelled as the
  intended behaviour.
- Other array shapes: `Image.Valid()` admits `channels == 1` and `channels == 3`
  only. `channels == 1` stands for a 2-D `(h, w)` array, the grayscale branch.
  It does not stand for an `(h, w, 1)` array, which has `ndim == 3` and takes the
  RGB branch. On an `(h, w, 1)` or `(h, w, 2)` array, `brightness_cpu` and
  `contrast_cpu` index channel 1 or 2 out of bounds and raise `IndexError`
  (src/cpu_serial.py:38-40, :75-77). The kernels read and write past the pixel there
  (src/gpu_cuda.py:21-24). On 4 or more channels the serial engine and the kernels
  rewrite channels 0 to 2 and leave the rest as copied or uninitialised. The vectorized
  engine rewrites every channel, so on such an image the engines disagree. None of
  this is modelled.
- Other element types: the model assumes a uint8 input, as the docstrings do.
- Device failures: allocation in `cuda.to_device` and `cuda.device_array_like`
  can fail, and so can the launch, and Numba would raise the error out of `run_gpu`
  (src/utils.py:31-32, :41). The model assumes allocation and launch succeed.
  An image of height or width 0 gives a grid with no blocks. Such a launch is
  expected to fail, whereas `RunGpu` returns an empty image for it.
- Uint8AsWritten.BrightAsWritten: it models only offsets in [0, 255]. For other
  offsets, NumPy's result type differs between versions: it is either a promotion or
  an overflow error.

## Findings

| source | as written | input that shows it | evidently intended | confidence | as-written member | corrected member |
|---|---|---|---|---|---|---|
| src/cpu_vectorized.py:28 | `image + value` adds a Python int to a uint8 array, so the sum wraps modulo 256 before `np.clip` runs. `px = image[i, j, c] + value` (src/cpu_serial.py:40) does the same under NumPy 2 scalar rules | sample 250, value 20: the wrapped sum is 14 | clip of the true sum, 255; a non-negative offset never darkens a sample | not executed; high for the vectorized line, medium for the serial line (it depends on the NumPy version) | `Uint8AsWritten.BrightAsWritten` (all inputs), `Uint8AsWritten.BrightAsWrittenWraps` (the input) | `Pixel.BrightNeverDarkens` |
| src/cpu_vectorized.py:47 | `image - 128` subtracts on uint8, so samples below 128 wrap to `p + 128` before scaling. `image[i, j, c] - 128` (src/cpu_serial.py:77) does the same under NumPy 2 scalar rules | sample 10, factor 2.0: the wrapped difference is 138, so the result is 255 | `128 + 2*(10-128) = -108`, clipped to 0; with a non-negative factor, a sample stays on its side of 128 | not executed; high for the vectorized line, medium for the serial line (it depends on the NumPy version) | `Uint8AsWritten.ContrastAsWrittenCrosses` (all inputs), `Uint8AsWritten.ContrastAsWrittenWraps` (the input) | `Pixel.ContrastKeepsSide` |
