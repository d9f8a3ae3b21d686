/** ConvolveEngine.Convolve2D: blurs a 32-bit-per-pixel buffer (bytes B, G, R, alpha per pixel,
    rows stride bytes apart) with the normalised 2D kernel. For each pixel the kernel window is
    clipped to the image, the B, G and R bytes under it are weighted and summed, each sum is clamped
    to [0, 255] and truncated to a byte, and the pixel is written to a fresh zeroed buffer with alpha 255. */
module Convolution {
  import opened Sums
  import opened Kernel

  newtype byte = x: int | 0 <= x < 256

  /** The locked bitmap's geometry: Width and Height in pixels, Stride in bytes per row. */
  datatype Layout = Layout(width: int, height: int, stride: int)

  /** A buffer of the given length holds Height rows of Stride bytes, each row holding Width
      4-byte pixels. */
  predicate Fits(L: Layout, length: int)
  {
    0 <= L.width && 0 <= L.height && 4 * L.width <= L.stride && length == L.stride * L.height
  }

  lemma MulLeft(a: int, b: int, c: int)
    requires 0 <= a <= b && 0 <= c
    ensures 0 <= a * c <= b * c
  {
    assert b * c - a * c == (b - a) * c;
  }

  /** Byte ch of pixel (px, py) sits inside the buffer. */
  lemma OffsetInBounds(L: Layout, length: int, px: int, py: int, ch: int)
    requires Fits(L, length) && 0 <= px < L.width && 0 <= py < L.height && 0 <= ch < 4
    ensures 0 <= py * L.stride + px * 4 + ch < length
  {
    MulLeft(py + 1, L.height, L.stride);
    assert (py + 1) * L.stride == py * L.stride + L.stride;
    MulLeft(0, py, L.stride);
  }

  /** Euclidean division by d recovers quotient and remainder. */
  lemma DivModUnique(q: int, r: int, d: int)
    requires 0 < d && 0 <= r < d
    ensures (q * d + r) / d == q && (q * d + r) % d == r
  {
    var n := q * d + r;
    var q', r' := n / d, n % d;
    assert n == q' * d + r';
    assert (q - q') * d == r' - r;
    if q - q' >= 1 {
      MulLeft(1, q - q', d);
    } else if q' - q >= 1 {
      MulLeft(1, q' - q, d);
    }
  }

  /** First kernel offset the source visits along one axis: -radius, or -img where that would
      fall before the image. */
  function KernelStart(img: int, radius: int): (s: int)
    requires 0 <= img && 0 <= radius
    ensures -radius <= s <= 0 && 0 <= img + s
    ensures s == -radius || img + s == 0
  {
    if img < radius then -img else -radius
  }

  /** Last kernel offset the source visits along one axis: radius, or the one landing on the last
      pixel where radius would pass it. */
  function KernelLimit(img: int, radius: int, size: int): (l: int)
    requires 0 <= img < size && 0 <= radius
    ensures 0 <= l <= radius && img + l <= size - 1
    ensures l == radius || img + l == size - 1
  {
    if img + radius + 1 > size then size - (img + 1) else radius
  }

  /** The clipped range is exactly the kernel offsets whose pixel lies inside the image. */
  lemma ClippedSupport(img: int, radius: int, size: int, k: int)
    requires 0 <= img < size && 0 <= radius
    ensures KernelStart(img, radius) <= k <= KernelLimit(img, radius, size)
        <==> -radius <= k <= radius && 0 <= img + k < size
  {
  }

  /** Byte ch of pixel (px, py) of the source buffer. */
  function Sample(src: seq<byte>, L: Layout, px: int, py: int, ch: int): byte
    requires Fits(L, |src|) && 0 <= px < L.width && 0 <= py < L.height && 0 <= ch < 4
  {
    OffsetInBounds(L, |src|, px, py, ch);
    src[py * L.stride + px * 4 + ch]
  }

  /** One colour channel of the image: P[py][px] is byte ch of pixel (px, py). */
  predicate IsPlane(P: seq<seq<byte>>, L: Layout)
  {
    |P| == L.height && forall py :: 0 <= py < |P| ==> |P[py]| == L.width
  }

  /** Channel ch (0 = B, 1 = G, 2 = R, 3 = alpha) of the buffer, as Height rows of Width bytes. */
  function Plane(src: seq<byte>, L: Layout, ch: int): (P: seq<seq<byte>>)
    requires Fits(L, |src|) && 0 <= ch < 4
    ensures IsPlane(P, L)
  {
    seq(L.height, py requires 0 <= py < L.height =>
      seq(L.width, px requires 0 <= px < L.width => Sample(src, L, px, py, ch)))
  }

  /** P holds channel ch of the buffer src, byte for byte. */
  predicate PlaneOf(P: seq<seq<byte>>, src: seq<byte>, L: Layout, ch: int)
    requires Fits(L, |src|) && 0 <= ch < 4
  {
    IsPlane(P, L) &&
    forall py, px {:trigger Sample(src, L, px, py, ch)} :: 0 <= py < L.height && 0 <= px < L.width ==> P[py][px] == Sample(src, L, px, py, ch)
  }

  lemma PlaneIsPlaneOf(src: seq<byte>, L: Layout, ch: int)
    requires Fits(L, |src|) && 0 <= ch < 4
    ensures PlaneOf(Plane(src, L, ch), src, L, ch)
  {
  }

  /** The kernel row at offset ky and the image row imgY + ky overlap on offsets lo .. hi-1. */
  predicate RowWindow(L: Layout, K: seq<seq<real>>, radius: int, imgX: int, imgY: int, ky: int, lo: int, hi: int)
  {
    IsKernel(K, radius) &&
    -radius <= ky <= radius && 0 <= imgY + ky < L.height &&
    -radius <= lo <= hi <= radius + 1 && 0 <= imgX + lo && imgX + hi <= L.width
  }

  /** Weighted sum of one channel along one image row: offsets kx = lo .. hi-1 of kernel row ky, in the
      order the inner kernel loop adds them. */
  function RowSum(P: seq<seq<byte>>, L: Layout, K: seq<seq<real>>, radius: int, imgX: int, imgY: int,
                  ky: int, lo: int, hi: int): real
    requires IsPlane(P, L) && RowWindow(L, K, radius, imgX, imgY, ky, lo, hi)
    decreases hi - lo
  {
    if hi == lo then 0.0
    else RowSum(P, L, K, radius, imgX, imgY, ky, lo, hi - 1)
         + P[imgY + ky][imgX + hi - 1] as real * K[ky + radius][hi - 1 + radius]
  }

  /** One more step of the inner kernel loop: the pixel (imgX + hi, imgY + ky), whose first byte is at
      offset, adds its B, G and R bytes times kernel cell [ky + radius][hi + radius] to the three row sums. */
  lemma RowSumStep(blues: seq<seq<byte>>, greens: seq<seq<byte>>, reds: seq<seq<byte>>, src: seq<byte>, L: Layout,
                   K: seq<seq<real>>, radius: int, imgX: int, imgY: int, ky: int, lo: int, hi: int, offset: int)
    requires Fits(L, |src|)
    requires PlaneOf(blues, src, L, 0) && PlaneOf(greens, src, L, 1) && PlaneOf(reds, src, L, 2)
    requires lo <= hi && RowWindow(L, K, radius, imgX, imgY, ky, lo, hi + 1)
    requires offset == (imgY + ky) * L.stride + (imgX + hi) * 4
    ensures 0 <= offset && offset + 2 < |src|
    ensures RowSum(blues, L, K, radius, imgX, imgY, ky, lo, hi + 1)
         == RowSum(blues, L, K, radius, imgX, imgY, ky, lo, hi) + src[offset] as real * K[ky + radius][hi + radius]
    ensures RowSum(greens, L, K, radius, imgX, imgY, ky, lo, hi + 1)
         == RowSum(greens, L, K, radius, imgX, imgY, ky, lo, hi) + src[offset + 1] as real * K[ky + radius][hi + radius]
    ensures RowSum(reds, L, K, radius, imgX, imgY, ky, lo, hi + 1)
         == RowSum(reds, L, K, radius, imgX, imgY, ky, lo, hi) + src[offset + 2] as real * K[ky + radius][hi + radius]
  {
    OffsetInBounds(L, |src|, imgX + hi, imgY + ky, 2);
    assert blues[imgY + ky][imgX + hi] == Sample(src, L, imgX + hi, imgY + ky, 0);
    assert greens[imgY + ky][imgX + hi] == Sample(src, L, imgX + hi, imgY + ky, 1);
    assert reds[imgY + ky][imgX + hi] == Sample(src, L, imgX + hi, imgY + ky, 2);
  }

  /** The kernel window rows ylo .. yhi-1 and columns xlo .. xhi-1 lie over the image. */
  predicate Window(L: Layout, K: seq<seq<real>>, radius: int, imgX: int, imgY: int,
                   ylo: int, yhi: int, xlo: int, xhi: int)
  {
    IsKernel(K, radius) &&
    -radius <= ylo <= yhi <= radius + 1 && 0 <= imgY + ylo && imgY + yhi <= L.height &&
    -radius <= xlo <= xhi <= radius + 1 && 0 <= imgX + xlo && imgX + xhi <= L.width
  }

  /** Weighted sum of one channel over kernel rows ylo .. yhi-1, each over columns xlo .. xhi-1, in the
      order the two kernel loops add them. */
  function WindowSum(P: seq<seq<byte>>, L: Layout, K: seq<seq<real>>, radius: int, imgX: int, imgY: int,
                     ylo: int, yhi: int, xlo: int, xhi: int): real
    requires IsPlane(P, L) && Window(L, K, radius, imgX, imgY, ylo, yhi, xlo, xhi)
    decreases yhi - ylo
  {
    if yhi == ylo then 0.0
    else WindowSum(P, L, K, radius, imgX, imgY, ylo, yhi - 1, xlo, xhi)
         + RowSum(P, L, K, radius, imgX, imgY, yhi - 1, xlo, xhi)
  }

  /** The clipped window of pixel (imgX, imgY). */
  lemma ClippedWindow(L: Layout, K: seq<seq<real>>, radius: int, imgX: int, imgY: int)
    requires IsKernel(K, radius) && 0 <= imgX < L.width && 0 <= imgY < L.height
    ensures Window(L, K, radius, imgX, imgY,
                   KernelStart(imgY, radius), KernelLimit(imgY, radius, L.height) + 1,
                   KernelStart(imgX, radius), KernelLimit(imgX, radius, L.width) + 1)
  {
  }

  /** The weighted sum of plane P over the clipped window of pixel (imgX, imgY). */
  function ClippedSum(P: seq<seq<byte>>, L: Layout, K: seq<seq<real>>, radius: int, imgX: int, imgY: int): real
    requires IsPlane(P, L) && IsKernel(K, radius) && 0 <= imgX < L.width && 0 <= imgY < L.height
  {
    ClippedWindow(L, K, radius, imgX, imgY);
    WindowSum(P, L, K, radius, imgX, imgY,
              KernelStart(imgY, radius), KernelLimit(imgY, radius, L.height) + 1,
              KernelStart(imgX, radius), KernelLimit(imgX, radius, L.width) + 1)
  }

  /** The unclamped value of channel ch at pixel (imgX, imgY). */
  function ChannelSum(src: seq<byte>, L: Layout, K: seq<seq<real>>, radius: int, imgX: int, imgY: int, ch: int): real
    requires Fits(L, |src|) && IsKernel(K, radius) && 0 <= imgX < L.width && 0 <= imgY < L.height && 0 <= ch < 4
  {
    ClippedSum(Plane(src, L, ch), L, K, radius, imgX, imgY)
  }

  /** The clamp to [0, 255] applied to every channel sum. */
  function Clamp(v: real): (c: real)
    ensures 0.0 <= c <= 255.0
    ensures 0.0 <= v <= 255.0 ==> c == v
    ensures v > 255.0 ==> c == 255.0
    ensures v < 0.0 ==> c == 0.0
  {
    if v > 255.0 then 255.0 else if v < 0.0 then 0.0 else v
  }

  /** The narrowing cast of a clamped channel value to a byte: truncation, which on [0, 255] is the floor. */
  function ToByte(v: real): (b: byte)
    requires 0.0 <= v <= 255.0
    ensures b as real <= v < b as real + 1.0
  {
    v.Floor as byte
  }

  /** The byte written for channel ch (0 = B, 1 = G, 2 = R) of pixel (imgX, imgY). */
  function ChannelByte(src: seq<byte>, L: Layout, K: seq<seq<real>>, radius: int, imgX: int, imgY: int, ch: int): byte
    requires Fits(L, |src|) && IsKernel(K, radius) && 0 <= imgX < L.width && 0 <= imgY < L.height && 0 <= ch < 3
  {
    ToByte(Clamp(ChannelSum(src, L, K, radius, imgX, imgY, ch)))
  }

  /** Byte j of row py of the result buffer: bytes past the last pixel of a row are never written and stay 0,
      byte 3 of a pixel is alpha 255, the others the blurred channels. */
  function RowByte(src: seq<byte>, L: Layout, K: seq<seq<real>>, radius: int, py: int, j: int): byte
    requires Fits(L, |src|) && IsKernel(K, radius) && 0 <= py < L.height && 0 <= j < L.stride
  {
    if j >= 4 * L.width then 0
    else if j % 4 == 3 then 255
    else ChannelByte(src, L, K, radius, j / 4, py, j % 4)
  }

  /** Row py of the result buffer, Stride bytes. */
  function BlurredRow(src: seq<byte>, L: Layout, K: seq<seq<real>>, radius: int, py: int): (row: seq<byte>)
    requires Fits(L, |src|) && IsKernel(K, radius) && 0 <= py < L.height
    ensures |row| == L.stride
  {
    seq(L.stride, j requires 0 <= j < L.stride => RowByte(src, L, K, radius, py, j))
  }

  /** The first n rows of the result buffer, one after the other. */
  function BlurredRows(src: seq<byte>, L: Layout, K: seq<seq<real>>, radius: int, n: int): (out: seq<byte>)
    requires Fits(L, |src|) && IsKernel(K, radius) && 0 <= n <= L.height
    ensures |out| == n * L.stride
    decreases n
  {
    if n == 0 then []
    else
      assert n * L.stride == (n - 1) * L.stride + L.stride;
      BlurredRows(src, L, K, radius, n - 1) + BlurredRow(src, L, K, radius, n - 1)
  }

  /** The whole result buffer of Convolve2D for the source buffer src: its Height rows. */
  function Blurred(src: seq<byte>, L: Layout, K: seq<seq<real>>, radius: int): (out: seq<byte>)
    requires Fits(L, |src|) && IsKernel(K, radius)
    ensures |out| == |src|
  {
    BlurredRows(src, L, K, radius, L.height)
  }

  /** Byte j of row py lies inside the first n rows. */
  lemma RowOffsetInBounds(stride: int, n: int, py: int, j: int)
    requires 0 <= py < n && 0 <= j < stride
    ensures 0 <= py * stride + j < n * stride
  {
    MulLeft(py + 1, n, stride);
    MulLeft(0, py, stride);
  }

  lemma {:induction false} BlurredRowsAt(src: seq<byte>, L: Layout, K: seq<seq<real>>, radius: int, n: int, py: int, j: int)
    requires Fits(L, |src|) && IsKernel(K, radius) && 0 <= py < n <= L.height && 0 <= j < L.stride
    requires 0 <= py * L.stride + j < n * L.stride
    ensures BlurredRows(src, L, K, radius, n)[py * L.stride + j] == RowByte(src, L, K, radius, py, j)
    decreases n
  {
    var front := BlurredRows(src, L, K, radius, n - 1);
    var last := BlurredRow(src, L, K, radius, n - 1);
    assert BlurredRows(src, L, K, radius, n) == front + last;
    if py < n - 1 {
      RowOffsetInBounds(L.stride, n - 1, py, j);
      BlurredRowsAt(src, L, K, radius, n - 1, py, j);
    } else {
      assert last[j] == RowByte(src, L, K, radius, py, j);
    }
  }

  /** Byte j of row py of the result, at py * Stride + j, is RowByte(py, j). */
  lemma BlurredAt(src: seq<byte>, L: Layout, K: seq<seq<real>>, radius: int, py: int, j: int)
    requires Fits(L, |src|) && IsKernel(K, radius) && 0 <= py < L.height && 0 <= j < L.stride
    ensures 0 <= py * L.stride + j < |src|
    ensures Blurred(src, L, K, radius)[py * L.stride + j] == RowByte(src, L, K, radius, py, j)
  {
    RowOffsetInBounds(L.stride, L.height, py, j);
    BlurredRowsAt(src, L, K, radius, L.height, py, j);
  }

  /** Byte ch of pixel (px, py) of the result: alpha 255 for ch == 3, else the blurred channel. */
  lemma BlurredPixel(src: seq<byte>, L: Layout, K: seq<seq<real>>, radius: int, px: int, py: int, ch: int)
    requires Fits(L, |src|) && IsKernel(K, radius) && 0 <= px < L.width && 0 <= py < L.height && 0 <= ch < 4
    ensures 0 <= py * L.stride + px * 4 + ch < |src|
    ensures Blurred(src, L, K, radius)[py * L.stride + px * 4 + ch]
         == if ch == 3 then 255 else ChannelByte(src, L, K, radius, px, py, ch)
  {
    DivModUnique(px, ch, 4);
    BlurredAt(src, L, K, radius, py, px * 4 + ch);
  }

  /** Bytes of row py past its last pixel are 0 in the result. */
  lemma BlurredRowPadding(src: seq<byte>, L: Layout, K: seq<seq<real>>, radius: int, py: int)
    requires Fits(L, |src|) && IsKernel(K, radius) && 0 <= py < L.height
    ensures py * L.stride + L.stride <= |src|
    ensures forall i :: py * L.stride + 4 * L.width <= i < py * L.stride + L.stride ==> Blurred(src, L, K, radius)[i] == 0
  {
    MulLeft(py + 1, L.height, L.stride);
    forall i | py * L.stride + 4 * L.width <= i < py * L.stride + L.stride
      ensures Blurred(src, L, K, radius)[i] == 0
    {
      BlurredAt(src, L, K, radius, py, i - py * L.stride);
    }
  }

  /** Convolve2D over the locked buffer: a zeroed result buffer of the same length, the kernel, and for each
      pixel row by row the clipped window sums, clamped, truncated and written with alpha 255. The source
      buffer is only read. */
  method Convolve2D(pixelBuffer: array<byte>, width: int, height: int, stride: int, m: MathLib, sigma: real, radius: int)
    returns (resultPixelBuffer: array<byte>)
    requires Fits(Layout(width, height, stride), pixelBuffer.Length)
    requires ValidMath(m) && sigma > 0.0 && radius >= 0
    ensures fresh(resultPixelBuffer) && resultPixelBuffer.Length == pixelBuffer.Length
    ensures resultPixelBuffer[..]
         == Blurred(pixelBuffer[..], Layout(width, height, stride), Gaussian2D(Profile2D(m, sigma), radius), radius)
  {
    var L := Layout(width, height, stride);
    resultPixelBuffer := new byte[stride * height](_ => 0);
    var kernel := ComputeGaussian2DKernel(m, sigma, radius);
    ghost var K := Gaussian2D(Profile2D(m, sigma), radius);
    assert IsKernel(K, radius);
    ghost var B := Blurred(pixelBuffer[..], L, K, radius);
    ghost var blues, greens, reds := Plane(pixelBuffer[..], L, 0), Plane(pixelBuffer[..], L, 1), Plane(pixelBuffer[..], L, 2);
    PlaneIsPlaneOf(pixelBuffer[..], L, 0);
    PlaneIsPlaneOf(pixelBuffer[..], L, 1);
    PlaneIsPlaneOf(pixelBuffer[..], L, 2);
    var imgY := 0;
    while imgY < height
      modifies resultPixelBuffer
      invariant 0 <= imgY <= height
      invariant forall i :: 0 <= i < resultPixelBuffer.Length ==>
        resultPixelBuffer[i] == if i < imgY * stride then B[i] else 0
    {
      MulLeft(imgY + 1, height, stride);
      assert (imgY + 1) * stride == imgY * stride + stride;
      var imgX := 0;
      while imgX < width
        modifies resultPixelBuffer
        invariant 0 <= imgX <= width
        invariant forall i :: 0 <= i < resultPixelBuffer.Length ==>
          resultPixelBuffer[i] == if i < imgY * stride + imgX * 4 then B[i] else 0
      {
        var byteOffset := imgY * stride + imgX * 4;
        var blue, green, red := AccumulatePixel(pixelBuffer, L, kernel, K, radius, imgX, imgY, byteOffset,
                                                blues, greens, reds);
        BlurredPixelBytes(pixelBuffer[..], L, K, radius, imgX, imgY, byteOffset, blue, green, red);
        WritePixel(resultPixelBuffer, byteOffset, blue, green, red, B);
        imgX := imgX + 1;
      }
      BlurredRowPadding(pixelBuffer[..], L, K, radius, imgY);
      imgY := imgY + 1;
    }
    assert resultPixelBuffer[..] == B;
  }

  /** The four bytes of pixel (imgX, imgY) in the result, given its three channel sums. */
  lemma BlurredPixelBytes(src: seq<byte>, L: Layout, K: seq<seq<real>>, radius: int, imgX: int, imgY: int, byteOffset: int,
                  blue: real, green: real, red: real)
    requires Fits(L, |src|) && IsKernel(K, radius) && 0 <= imgX < L.width && 0 <= imgY < L.height
    requires byteOffset == imgY * L.stride + imgX * 4
    requires blue == ChannelSum(src, L, K, radius, imgX, imgY, 0)
    requires green == ChannelSum(src, L, K, radius, imgX, imgY, 1)
    requires red == ChannelSum(src, L, K, radius, imgX, imgY, 2)
    ensures 0 <= byteOffset && byteOffset + 3 < |src|
    ensures Blurred(src, L, K, radius)[byteOffset] == ToByte(Clamp(blue))
    ensures Blurred(src, L, K, radius)[byteOffset + 1] == ToByte(Clamp(green))
    ensures Blurred(src, L, K, radius)[byteOffset + 2] == ToByte(Clamp(red))
    ensures Blurred(src, L, K, radius)[byteOffset + 3] == 255
  {
    BlurredPixel(src, L, K, radius, imgX, imgY, 0);
    BlurredPixel(src, L, K, radius, imgX, imgY, 1);
    BlurredPixel(src, L, K, radius, imgX, imgY, 2);
    BlurredPixel(src, L, K, radius, imgX, imgY, 3);
  }

  /** The end of the pixel loop body: clamps the three sums and writes B, G, R and alpha 255 at byteOffset.
      Where B holds those four bytes there, this extends the finished prefix of the result by one pixel. */
  method WritePixel(resultPixelBuffer: array<byte>, byteOffset: int, blue: real, green: real, red: real,
                    ghost B: seq<byte>)
    requires |B| == resultPixelBuffer.Length && 0 <= byteOffset && byteOffset + 3 < |B|
    requires B[byteOffset] == ToByte(Clamp(blue)) && B[byteOffset + 1] == ToByte(Clamp(green))
    requires B[byteOffset + 2] == ToByte(Clamp(red)) && B[byteOffset + 3] == 255
    requires forall i :: 0 <= i < resultPixelBuffer.Length ==>
      resultPixelBuffer[i] == if i < byteOffset then B[i] else 0
    modifies resultPixelBuffer
    ensures forall i :: 0 <= i < resultPixelBuffer.Length ==>
      resultPixelBuffer[i] == if i < byteOffset + 4 then B[i] else 0
  {
    resultPixelBuffer[byteOffset] := ToByte(Clamp(blue));
    resultPixelBuffer[byteOffset + 1] := ToByte(Clamp(green));
    resultPixelBuffer[byteOffset + 2] := ToByte(Clamp(red));
    resultPixelBuffer[byteOffset + 3] := 255;
  }

  /** The kernel loops for pixel (imgX, imgY), whose first byte is at byteOffset: clips the window to the
      image and returns the B, G and R sums over it, before clamping. The ghost planes name the channels. */
  method AccumulatePixel(pixelBuffer: array<byte>, L: Layout, kernel: array2<real>, ghost K: seq<seq<real>>,
                         radius: int, imgX: int, imgY: int, byteOffset: int,
                         ghost blues: seq<seq<byte>>, ghost greens: seq<seq<byte>>, ghost reds: seq<seq<byte>>)
    returns (blue: real, green: real, red: real)
    requires Fits(L, pixelBuffer.Length) && IsKernel(K, radius) && Represents(kernel, K)
    requires PlaneOf(blues, pixelBuffer[..], L, 0) && PlaneOf(greens, pixelBuffer[..], L, 1) && PlaneOf(reds, pixelBuffer[..], L, 2)
    requires 0 <= imgX < L.width && 0 <= imgY < L.height && byteOffset == imgY * L.stride + imgX * 4
    ensures blue == ClippedSum(blues, L, K, radius, imgX, imgY)
    ensures green == ClippedSum(greens, L, K, radius, imgX, imgY)
    ensures red == ClippedSum(reds, L, K, radius, imgX, imgY)
  {
    var kernelYStart := KernelStart(imgY, radius);
    var kernelXStart := KernelStart(imgX, radius);
    var kernelYLimit := KernelLimit(imgY, radius, L.height);
    var kernelXLimit := KernelLimit(imgX, radius, L.width);
    ClippedWindow(L, K, radius, imgX, imgY);
    blue, green, red := 0.0, 0.0, 0.0;
    var kernelY := kernelYStart;
    while kernelY <= kernelYLimit
      invariant kernelYStart <= kernelY <= kernelYLimit + 1
      invariant blue == WindowSum(blues, L, K, radius, imgX, imgY, kernelYStart, kernelY, kernelXStart, kernelXLimit + 1)
      invariant green == WindowSum(greens, L, K, radius, imgX, imgY, kernelYStart, kernelY, kernelXStart, kernelXLimit + 1)
      invariant red == WindowSum(reds, L, K, radius, imgX, imgY, kernelYStart, kernelY, kernelXStart, kernelXLimit + 1)
    {
      blue, green, red := AccumulateRow(pixelBuffer, L, kernel, K, radius, imgX, imgY, byteOffset,
                                        kernelY, kernelXStart, kernelXLimit, blue, green, red, blues, greens, reds);
      kernelY := kernelY + 1;
    }
  }

  /** The inner kernel loop: adds the weighted B, G and R bytes of kernel row kernelY, offsets
      kernelXStart .. kernelXLimit, to the running sums. */
  method AccumulateRow(pixelBuffer: array<byte>, L: Layout, kernel: array2<real>, ghost K: seq<seq<real>>,
                       radius: int, imgX: int, imgY: int, byteOffset: int,
                       kernelY: int, kernelXStart: int, kernelXLimit: int,
                       blue0: real, green0: real, red0: real,
                       ghost blues: seq<seq<byte>>, ghost greens: seq<seq<byte>>, ghost reds: seq<seq<byte>>)
    returns (blue: real, green: real, red: real)
    requires Fits(L, pixelBuffer.Length) && Represents(kernel, K)
    requires PlaneOf(blues, pixelBuffer[..], L, 0) && PlaneOf(greens, pixelBuffer[..], L, 1) && PlaneOf(reds, pixelBuffer[..], L, 2)
    requires RowWindow(L, K, radius, imgX, imgY, kernelY, kernelXStart, kernelXLimit + 1)
    requires byteOffset == imgY * L.stride + imgX * 4
    ensures blue == blue0 + RowSum(blues, L, K, radius, imgX, imgY, kernelY, kernelXStart, kernelXLimit + 1)
    ensures green == green0 + RowSum(greens, L, K, radius, imgX, imgY, kernelY, kernelXStart, kernelXLimit + 1)
    ensures red == red0 + RowSum(reds, L, K, radius, imgX, imgY, kernelY, kernelXStart, kernelXLimit + 1)
  {
    ghost var src := pixelBuffer[..];
    assert (imgY + kernelY) * L.stride == imgY * L.stride + kernelY * L.stride;
    blue, green, red := blue0, green0, red0;
    var kernelX := kernelXStart;
    while kernelX <= kernelXLimit
      invariant kernelXStart <= kernelX <= kernelXLimit + 1
      invariant blue == blue0 + RowSum(blues, L, K, radius, imgX, imgY, kernelY, kernelXStart, kernelX)
      invariant green == green0 + RowSum(greens, L, K, radius, imgX, imgY, kernelY, kernelXStart, kernelX)
      invariant red == red0 + RowSum(reds, L, K, radius, imgX, imgY, kernelY, kernelXStart, kernelX)
    {
      var calculationOffset := byteOffset + (kernelX * 4) + (kernelY * L.stride);
      RowSumStep(blues, greens, reds, src, L, K, radius, imgX, imgY, kernelY, kernelXStart, kernelX, calculationOffset);
      var w := kernel[kernelY + radius, kernelX + radius];
      blue := blue + pixelBuffer[calculationOffset] as real * w;
      green := green + pixelBuffer[calculationOffset + 1] as real * w;
      red := red + pixelBuffer[calculationOffset + 2] as real * w;
      kernelX := kernelX + 1;
    }
  }
}
