# Gaussian blur engine (ConvolveEngine) in Dafny

This project models `ConvolveEngine` from `Convolve/Program.cs`. The engine has three parts:

- `ComputeGaussian1DKernel` builds a normalised 1D Gaussian kernel.
- `ComputeGaussian2DKernel` builds a normalised 2D Gaussian kernel.
- `Convolve2D` runs the pixel loop nest. It blurs a 32-bit B, G, R, alpha pixel buffer with the 2D kernel.

Every loop of the core is a Dafny `while` loop over an `array` or `array2`. Each loop is proved against a pure
specification function, and lemmas prove the source's promises about that function.

Modules, one per file:

- `Sums` (`sums.dfy`): real sums over sequences and matrices, added in the order a left-to-right loop adds them.
- `Kernel` (`kernel.dfy`): the weight formulas and the specifications `Gaussian1D` and `Gaussian2D`.
  - It also holds the two builder methods, with their fill and rescale loops.
- `KernelProperties` (`kernel_properties.dfy`): properties of the two kernels.
  - Index layout, positivity, sum 1, symmetry, and radius 0.
- `Convolution` (`convolution.dfy`): the buffer geometry (`Layout`, `Fits`) and the clipping ranges.
  - The channel planes, the window sums in loop order, the clamp and the byte cast.
  - The specification `Blurred` of the whole result buffer, and the method `Convolve2D` with its helper loop methods.
- `BlurProperties` (`blur_properties.dfy`): what `Blurred` promises.
  - With a normalised non-negative kernel the clamp never changes a value.
  - A uniform image is reproduced exactly where the whole kernel fits inside the image.
  - Within radius of any side, a uniform channel value of at least 1 comes out darker, because clipped weights are
    not renormalised. A channel that is 0 everywhere stays 0 everywhere.
  - Radius 0 copies every colour byte.
  - Only the B, G and R bytes of image pixels are read.

`Convolve2D` returns a fresh buffer. Its contents are stated in full:

- bytes 0-2 of every pixel hold the clamped, truncated channel sums over the clipped window;
- byte 3 of every pixel holds 255;
- the row padding past `4 * width` stays 0.

`pixelBuffer` is outside every `modifies` clause, so the model never writes it.

The source's comment at `Convolve/Program.cs:168` says a normalised kernel keeps colour values at or below 255.
`BlurProperties.ClampIsNoOp` proves this over the reals, for every pixel, including pixels whose window is clipped.

A normalised blur might be expected to return a uniform image unchanged. Over exact reals the model does this
everywhere only for a channel that is 0; for any other value it does so only where the whole kernel fits inside the
image:

- `BlurProperties.UniformInterior` proves the interior case.
- `BlurProperties.UniformNeverBrighter` proves that no pixel gets brighter.
- `BlurProperties.EdgeDarkening` proves that at every pixel within radius of any side, with a positive kernel, a
  uniform channel value of at least 1 comes out strictly smaller.
- `BlurProperties.UniformUnchangedIffInterior` puts the two together: such a value is reproduced exactly when the
  pixel is interior.
- `BlurProperties.UniformBlack` proves that a channel that is 0 everywhere stays 0 at every pixel.

The model follows the code's structure here, over exact reals; "## Left out" says where the program's doubles
depart from these lemmas.

## Model

| member | source | states |
|---|---|---|
| Kernel.Profile1D | Convolve/Program.cs:59-67 | the 1D weight c * exp(-(i*i) / (2*sigma*sigma)) with c = 1 / (sigma * sqrt(2*pi)) is positive for every squared offset |
| Kernel.Profile2D | Convolve/Program.cs:87-97 | the 2D weight c * exp(-(x*x + y*y) / (2*sigma*sigma)) with c = 1 / (2*pi*sigma*sigma) is positive for every squared distance |
| Kernel.Raw1DAt | Convolve/Program.cs:55-68 | the filled array has 2*radius+1 slots and offset i in [-radius, radius] sits at slot i + radius with the weight of i*i |
| Kernel.Gaussian1D | Convolve/Program.cs:62-75 | the normalised 1D kernel: every raw weight times 1 / total; its layout, sum and symmetry are the lemmas of `KernelProperties` |
| Kernel.Raw2DAt | Convolve/Program.cs:81-97 | the filled matrix is (2*radius+1) square and offsets (x, y) sit at [y + radius][x + radius] with the weight of x*x + y*y |
| Kernel.Raw1DPositive | Convolve/Program.cs:62-69 | every slot of the filled 1D array is positive |
| Kernel.Raw2DPositive | Convolve/Program.cs:90-99 | every cell of the filled 2D matrix is positive |
| Kernel.Gaussian2D | Convolve/Program.cs:90-108 | the normalised 2D kernel: every raw cell times 1 / total; its layout, positivity, sum and symmetry are the lemmas of `KernelProperties` |
| Kernel.ComputeGaussian1DKernel | Convolve/Program.cs:53-78 | returns a fresh array equal to the raw weights, each times 1 / (their running total) |
| Kernel.Rescale | Convolve/Program.cs:72-75 | the normalisation loop multiplies every entry by the factor, in place |
| Kernel.ComputeGaussian2DKernel | Convolve/Program.cs:80-110 | returns a fresh (2*radius+1)-square array holding every raw cell times 1 / (the running total of all cells) |
| Kernel.Fill2D | Convolve/Program.cs:89-100 | after the fill loops every cell holds its raw weight, and the total is the sum of all cells row by row |
| Kernel.FillRow | Convolve/Program.cs:92-99 | the inner fill loop sets row y to its raw weights, leaves every other row unchanged, and adds the row's sum to the total |
| Kernel.RescaleMatrix | Convolve/Program.cs:101-108 | the 2D normalisation loops multiply every cell by the factor, in place |
| KernelProperties.Gaussian1DLayout | Convolve/Program.cs:55-75 | the 1D kernel has 2*radius+1 entries; entry i + radius is weight(i*i) over the positive total, and it is positive |
| KernelProperties.Gaussian1DSumsToOne | Convolve/Program.cs:62-75 | the entries of the 1D kernel sum to exactly 1 |
| KernelProperties.Gaussian1DSymmetric | Convolve/Program.cs:62-75 | entry radius + i equals entry radius - i |
| KernelProperties.Gaussian2DLayout | Convolve/Program.cs:81-108 | the 2D kernel is (2*radius+1) square; cell [y + r][x + r] is weight(x*x + y*y) over the positive total, and it is positive |
| KernelProperties.Gaussian2DPositive | Convolve/Program.cs:90-108 | every cell of the 2D kernel is positive |
| KernelProperties.Gaussian2DSumsToOne | Convolve/Program.cs:89-108 | the cells of the 2D kernel sum to exactly 1 |
| KernelProperties.Gaussian2DSymmetric | Convolve/Program.cs:91-106 | kernel[y + r][x + r] equals kernel[x + r][y + r] and kernel[-y + r][-x + r] after normalisation |
| KernelProperties.Gaussian2DRadiusZero | Convolve/Program.cs:80-110 | radius 0 gives the 1x1 kernel [[1.0]] |
| BlurProperties.GaussianIsNormalised | Convolve/Program.cs:80-110 | the 2D kernel is square, all its cells are positive, and they sum to 1 |
| Convolution.OffsetInBounds | Convolve/Program.cs:121-164 | with stride >= 4*width and length stride*height, byte ch of any image pixel, at py*stride + px*4 + ch, is a valid index |
| Convolution.KernelStart | Convolve/Program.cs:148-149 | the first clipped offset lies in [-radius, 0], lands inside the image, and is -radius unless it lands on pixel 0 |
| Convolution.KernelLimit | Convolve/Program.cs:150-151 | the last clipped offset lies in [0, radius], lands inside the image, and is radius unless it lands on the last pixel |
| Convolution.ClippedSupport | Convolve/Program.cs:148-156 | an offset lies in the clipped range exactly when it is a kernel offset in [-radius, radius] whose pixel is inside the image |
| Convolution.RowSumStep | Convolve/Program.cs:159-164 | calculationOffset, +1 and +2 are valid indices, and each read adds byte B, G or R of pixel (imgX + kernelX, imgY + kernelY) times kernel cell [kernelY + r][kernelX + r] |
| Convolution.AccumulateRow | Convolve/Program.cs:156-165 | the inner kernel loop adds the row sums of the three channels over the clipped offsets of one kernel row |
| Convolution.AccumulatePixel | Convolve/Program.cs:138-166 | clips the window and returns the B, G and R sums over it, in the order the two kernel loops add them |
| Convolution.Clamp | Convolve/Program.cs:169-171 | the clamped value lies in [0, 255]; it is the value itself inside that range, 255 above it and 0 below it |
| Convolution.ToByte | Convolve/Program.cs:173-175 | the truncating cast of a clamped value v gives the byte b with b <= v < b + 1 |
| Convolution.RowSum | Convolve/Program.cs:156-165 | one channel's sum over kernel row ky, columns lo to hi - 1 in loop order, each source byte times its kernel cell; bounded by `BlurProperties.RowSumBounds` |
| Convolution.WindowSum | Convolve/Program.cs:154-165 | the row sums of kernel rows ylo to yhi - 1, added in loop order; bounded by `BlurProperties.WindowSumBounds` |
| Convolution.ClippedSum | Convolve/Program.cs:148-165 | the window sum over the clipped offsets of a pixel; bounded by `BlurProperties.ClippedSumBounds` |
| Convolution.ChannelByte | Convolve/Program.cs:169-175 | the clamped, truncated clipped sum of one channel; its bounds and uniform-image behaviour are the lemmas of `BlurProperties` |
| Convolution.RowByte | Convolve/Program.cs:173-176 | byte j of a result row: the channel byte for bytes 0-2 of a pixel, 255 for byte 3, 0 past 4 * width |
| Convolution.Blurred | Convolve/Program.cs:121-178 | the result row by row: bytes 0-2 of each pixel are the clamped, truncated channel sums over the clipped window, byte 3 is 255, the row padding is 0; its length is the source buffer's, stride * height |
| Convolution.BlurredPixel | Convolve/Program.cs:173-176 | in the result, byte ch < 3 of every pixel is the clamped, truncated channel sum, and byte 3 is 255 |
| Convolution.BlurredRowPadding | Convolve/Program.cs:122-176 | in the result, every byte of a row past 4*width keeps the 0 the buffer was created with |
| Convolution.BlurredPixelBytes | Convolve/Program.cs:169-176 | given the three sums of pixel (imgX, imgY), the result holds their clamped bytes and alpha 255 at byteOffset .. byteOffset+3 |
| Convolution.WritePixel | Convolve/Program.cs:173-176 | writing B, G, R and 255 at byteOffset extends the finished prefix of the result buffer by one pixel, and the rest stays 0 |
| Convolution.Convolve2D | Convolve/Program.cs:121-178 | returns a fresh buffer of the source's length whose every byte is the one Blurred specifies; the source is not modified |
| BlurProperties.RowSumBounds | Convolve/Program.cs:159-164 | with a non-negative kernel, a row sum lies in [0, 255 times the weight of the cells it visits] |
| BlurProperties.WindowSumBounds | Convolve/Program.cs:154-165 | with a non-negative kernel, a window sum lies in [0, 255 times the window's weight] |
| BlurProperties.ClippedSumBounds | Convolve/Program.cs:148-165 | with a non-negative kernel, the sum over the clipped window lies in [0, 255 times that window's weight] |
| BlurProperties.ClippedWindowWeight | Convolve/Program.cs:148-156 | the clipped window of any pixel weighs between 0 and the kernel's total |
| BlurProperties.FullWindowWeight | Convolve/Program.cs:154-156 | the unclipped window visits every cell of the kernel once, so it weighs the kernel's total |
| BlurProperties.WindowWeightPositive | Convolve/Program.cs:154-156 | a non-empty window of a positive kernel has positive weight |
| BlurProperties.WindowWeightRowSplit | Convolve/Program.cs:154-156 | a window's weight is the sum of the weights of its rows above and below any split row |
| BlurProperties.WindowWeightColumnSplit | Convolve/Program.cs:155-156 | a window's weight is the sum of the weights of its columns left and right of any split column |
| BlurProperties.ClippedWindowBelowOne | Convolve/Program.cs:148-156 | a non-empty window that misses at least one side of a positive kernel summing to 1 weighs less than 1 |
| BlurProperties.BorderWeightBelowOne | Convolve/Program.cs:148-156 | at every pixel within radius of any side, the clipped window of a positive normalised kernel weighs in [0, 1) |
| BlurProperties.ClampIsNoOp | Convolve/Program.cs:168-171 | with a non-negative kernel summing to 1, every channel sum lies in [0, 255], so the clamp returns it unchanged |
| BlurProperties.GaussianClampIsNoOp | Convolve/Program.cs:129-171 | for the Gaussian kernel of any radius, every channel sum lies in [0, 255] |
| BlurProperties.ClippedSumUniform | Convolve/Program.cs:148-165 | on a channel that holds v everywhere, the clipped sum is v times the clipped window's weight |
| BlurProperties.ScaledByte | Convolve/Program.cs:169-175 | a value v scaled by a weight in [0, 1] comes out of the clamp and cast as at most v, and strictly below v when the weight is below 1 and v >= 1 |
| BlurProperties.UniformNeverBrighter | Convolve/Program.cs:148-175 | with a normalised kernel, a uniform channel value v never comes out above v at any pixel |
| BlurProperties.UniformInterior | Convolve/Program.cs:148-175 | where the whole kernel fits inside the image, a uniform channel value v comes out exactly v |
| BlurProperties.EdgeDarkening | Convolve/Program.cs:148-175 | with a positive normalised kernel, a pixel within radius of any side whose uniform channel value is v >= 1 comes out strictly below v |
| BlurProperties.UniformUnchangedIffInterior | Convolve/Program.cs:148-175 | with a positive normalised kernel, a uniform channel value v >= 1 comes out exactly v if and only if the whole kernel fits inside the image at that pixel |
| BlurProperties.UniformBlack | Convolve/Program.cs:148-175 | for any kernel, a channel that is 0 everywhere comes out 0 at every pixel |
| BlurProperties.RadiusZeroIdentity | Convolve/Program.cs:129-175 | with radius 0 every blurred B, G and R byte equals the source byte |
| BlurProperties.BlurredReadsColoursOnly | Convolve/Program.cs:162-164 | two sources that agree on the B, G and R bytes of every pixel give the same result; alpha and padding bytes are never read |

## Left out

- `Program.Main`, `LoadImageFromPath` and saving the result are console and file I/O. They are not part of this model.
- `LockBits`, `UnlockBits`, `Marshal.Copy` and building the result `Bitmap` are calls into System.Drawing.
  - `Convolve2D` takes the pixel buffer unwrapped, with the bitmap's width, height and stride as parameters.
- `Math.Exp`, `Math.Sqrt` and `Math.PI` are a `MathLib` parameter. Only positivity is assumed of them.
- `Math.Exp` underflows to exactly 0.0 in doubles for arguments below about -745, which with a small sigma makes the
  outer kernel cells 0. `PositiveKernel`, the premise of `EdgeDarkening`, `BorderWeightBelowOne` and
  `UniformUnchangedIffInterior`, can then fail for the program; the model's positive `Exp` does not capture this.
- The uniform-image and radius-0 lemmas hold over exact reals and not for the program's doubles, even where every
  premise holds:
  - `RadiusZeroIdentity`, `UniformInterior`: a kernel whose cells sum to just below 1 in doubles loses a whole unit
    at the truncating cast of `Convolve/Program.cs:173-175`. With radius 0 the single cell is `c * (1.0 / c)`, which
    for some sigma (1.32, say) rounds to 0.9999999999999999, so 255 becomes 254 and 1 becomes 0. This also departs
    from the intent that a radius-0 blur returns the source unchanged.
  - `EdgeDarkening`, `UniformUnchangedIffInterior`: cells too small to change the rounded total (sigma 0.1,
    radius 1: outer cells about e^-50 times the centre) leave the centre cell at exactly 1.0 after normalising, so a
    clipped window weighs exactly 1.0 and a border pixel of a uniform channel is not darker.
- Doubles are modelled as exact reals.
  - IEEE-754 rounding is not modelled, so neither are sums that miss 1 by a rounding error.
  - Rounding that could push a channel sum past 255 is not modelled either.
- Integers are unbounded, so 32-bit overflow is not modelled. It could occur in:
  - `radius * 2 + 1`;
  - `i * i` and `x * x + y * y`;
  - `stride * height` and the byte offsets.
- A negative stride (a bottom-up bitmap) is outside the model: `Fits` requires `stride >= 4 * width`.
- The code validates no input. `sigma > 0`, `radius >= 0` and the buffer geometry are `requires` clauses.
- The two-pass separable convolution appears only in a comment at `Convolve/Program.cs:131-132` and is not modelled.
- The comment at `Convolve/Program.cs:86` says the 2D weight is the product of two 1D weights. This is not proved.
  - The proof would need exp(a + b) = exp(a) * exp(b), and `MathLib` does not state it.
- Some inner loops of the source are helper methods, with the statements in the same order:
  - `FillRow` and `Fill2D`;
  - `Rescale` and `RescaleMatrix`;
  - `AccumulateRow` and `AccumulatePixel`;
  - `WritePixel`.
- `ConvolveEngine` has no fields, so its methods are module-level methods rather than a class.
- `pixelBuffer`'s immutability is not a separate lemma. `Convolve2D` has no `modifies` clause on the source.
