/** What Convolve2D's result promises: with a normalised non-negative kernel the clamp never fires,
    a uniform image stays uniform away from the border and (for a channel value of at least 1) gets darker
    within radius of any side (the clipped window is not renormalised), radius 0 copies the colour bytes, and only B, G and R bytes of image pixels are read. */
module BlurProperties {
  import opened Sums
  import opened Kernel
  import opened KernelProperties
  import opened Convolution

  predicate NonnegativeKernel(K: seq<seq<real>>)
  {
    forall i :: 0 <= i < |K| ==> AllNonnegative(K[i])
  }

  predicate PositiveKernel(K: seq<seq<real>>)
  {
    forall i :: 0 <= i < |K| ==> AllPositive(K[i])
  }

  /** A square non-negative kernel whose cells sum to 1. */
  predicate Normalised(K: seq<seq<real>>, radius: int)
  {
    IsKernel(K, radius) && NonnegativeKernel(K) && MatrixSum(K) == 1.0
  }

  /** The Gaussian kernel is positive and normalised. */
  lemma GaussianIsNormalised(weight: int -> real, radius: nat)
    requires PositiveProfile(weight)
    ensures Normalised(Gaussian2D(weight, radius), radius) && PositiveKernel(Gaussian2D(weight, radius))
  {
    var g := Gaussian2D(weight, radius);
    Gaussian2DPositive(weight, radius);
    Gaussian2DSumsToOne(weight, radius);
    assert forall i, j :: 0 <= i < |g| && 0 <= j < |g[i]| ==> g[i][j] > 0.0;
  }

  /** Total weight of offsets lo .. hi-1 of kernel row ky. */
  function RowWeight(K: seq<seq<real>>, radius: int, ky: int, lo: int, hi: int): real
    requires IsKernel(K, radius) && -radius <= ky <= radius && -radius <= lo <= hi <= radius + 1
    decreases hi - lo
  {
    if hi == lo then 0.0 else RowWeight(K, radius, ky, lo, hi - 1) + K[ky + radius][hi - 1 + radius]
  }

  /** Total kernel weight over rows ylo .. yhi-1 and columns xlo .. xhi-1 of the window. */
  function WindowWeight(K: seq<seq<real>>, radius: int, ylo: int, yhi: int, xlo: int, xhi: int): real
    requires IsKernel(K, radius) && -radius <= ylo <= yhi <= radius + 1 && -radius <= xlo <= xhi <= radius + 1
    decreases yhi - ylo
  {
    if yhi == ylo then 0.0 else WindowWeight(K, radius, ylo, yhi - 1, xlo, xhi) + RowWeight(K, radius, yhi - 1, xlo, xhi)
  }

  /** Total kernel weight of the clipped window of pixel (imgX, imgY). */
  function ClippedWeight(L: Layout, K: seq<seq<real>>, radius: int, imgX: int, imgY: int): real
    requires IsKernel(K, radius) && 0 <= imgX < L.width && 0 <= imgY < L.height
  {
    WindowWeight(K, radius, KernelStart(imgY, radius), KernelLimit(imgY, radius, L.height) + 1,
                 KernelStart(imgX, radius), KernelLimit(imgX, radius, L.width) + 1)
  }

  lemma {:induction false} RowWeightSplit(K: seq<seq<real>>, radius: int, ky: int, a: int, b: int, c: int)
    requires IsKernel(K, radius) && -radius <= ky <= radius && -radius <= a <= b <= c <= radius + 1
    ensures RowWeight(K, radius, ky, a, c) == RowWeight(K, radius, ky, a, b) + RowWeight(K, radius, ky, b, c)
    decreases c - b
  {
    if c > b {
      RowWeightSplit(K, radius, ky, a, b, c - 1);
    }
  }

  lemma {:induction false} RowWeightNonnegative(K: seq<seq<real>>, radius: int, ky: int, lo: int, hi: int)
    requires IsKernel(K, radius) && NonnegativeKernel(K) && -radius <= ky <= radius && -radius <= lo <= hi <= radius + 1
    ensures RowWeight(K, radius, ky, lo, hi) >= 0.0
    decreases hi - lo
  {
    if hi > lo {
      RowWeightNonnegative(K, radius, ky, lo, hi - 1);
      assert AllNonnegative(K[ky + radius]);
    }
  }

  lemma {:induction false} RowWeightPositive(K: seq<seq<real>>, radius: int, ky: int, lo: int, hi: int)
    requires IsKernel(K, radius) && PositiveKernel(K) && -radius <= ky <= radius && -radius <= lo < hi <= radius + 1
    ensures RowWeight(K, radius, ky, lo, hi) > 0.0
    decreases hi - lo
  {
    assert AllPositive(K[ky + radius]);
    if hi - 1 > lo {
      RowWeightPositive(K, radius, ky, lo, hi - 1);
    }
  }

  /** A part of a non-negative kernel row weighs between 0 and the whole row. */
  lemma RowWeightAtMost(K: seq<seq<real>>, radius: int, ky: int, lo: int, hi: int)
    requires IsKernel(K, radius) && NonnegativeKernel(K) && -radius <= ky <= radius && -radius <= lo <= hi <= radius + 1
    ensures 0.0 <= RowWeight(K, radius, ky, lo, hi) <= RowWeight(K, radius, ky, -radius, radius + 1)
  {
    RowWeightSplit(K, radius, ky, -radius, lo, radius + 1);
    RowWeightSplit(K, radius, ky, lo, hi, radius + 1);
    RowWeightNonnegative(K, radius, ky, -radius, lo);
    RowWeightNonnegative(K, radius, ky, lo, hi);
    RowWeightNonnegative(K, radius, ky, hi, radius + 1);
  }

  /** Offsets -radius .. hi-1 of kernel row ky weigh the sum of the first hi + radius cells of that row. */
  lemma {:induction false} RowWeightPrefix(K: seq<seq<real>>, radius: int, ky: int, hi: int)
    requires IsKernel(K, radius) && -radius <= ky <= radius && -radius <= hi <= radius + 1
    ensures RowWeight(K, radius, ky, -radius, hi) == Sum(K[ky + radius][..hi + radius])
    decreases hi + radius
  {
    if hi > -radius {
      RowWeightPrefix(K, radius, ky, hi - 1);
      SumPrefixStep(K[ky + radius], hi - 1 + radius);
    } else {
      assert K[ky + radius][..0] == [];
    }
  }

  /** The weight of the full kernel rows -radius .. yhi-1 is the matrix sum of those rows. */
  lemma {:induction false} FullRowsWeight(K: seq<seq<real>>, radius: int, yhi: int)
    requires IsKernel(K, radius) && -radius <= yhi <= radius + 1
    ensures WindowWeight(K, radius, -radius, yhi, -radius, radius + 1) == MatrixSum(K[..yhi + radius])
    decreases yhi + radius
  {
    if yhi > -radius {
      FullRowsWeight(K, radius, yhi - 1);
      var ky := yhi - 1;
      RowWeightPrefix(K, radius, ky, radius + 1);
      assert K[ky + radius][..2 * radius + 1] == K[ky + radius];
      MatrixSumPrefixStep(K, ky + radius);
    } else {
      assert RowTotals(K[..0]) == [];
    }
  }

  /** The unclipped window carries the whole kernel weight. */
  lemma FullWindowWeight(K: seq<seq<real>>, radius: int)
    requires IsKernel(K, radius)
    ensures WindowWeight(K, radius, -radius, radius + 1, -radius, radius + 1) == MatrixSum(K)
  {
    FullRowsWeight(K, radius, radius + 1);
    assert K[..2 * radius + 1] == K;
  }

  /** A window over rows ylo .. yhi-1 weighs between 0 and the full kernel rows ylo .. yhi-1. */
  lemma {:induction false} ClippedWeightAtMost(K: seq<seq<real>>, radius: int, ylo: int, yhi: int, xlo: int, xhi: int)
    requires IsKernel(K, radius) && NonnegativeKernel(K)
    requires -radius <= ylo <= yhi <= radius + 1 && -radius <= xlo <= xhi <= radius + 1
    ensures 0.0 <= WindowWeight(K, radius, ylo, yhi, xlo, xhi)
    ensures WindowWeight(K, radius, ylo, yhi, xlo, xhi)
         <= WindowWeight(K, radius, -radius, yhi, -radius, radius + 1) - WindowWeight(K, radius, -radius, ylo, -radius, radius + 1)
    decreases yhi - ylo
  {
    if yhi > ylo {
      ClippedWeightAtMost(K, radius, ylo, yhi - 1, xlo, xhi);
      RowWeightAtMost(K, radius, yhi - 1, xlo, xhi);
    }
  }

  /** A non-empty window of a positive kernel has positive weight. */
  lemma {:induction false} WindowWeightPositive(K: seq<seq<real>>, radius: int, ylo: int, yhi: int, xlo: int, xhi: int)
    requires IsKernel(K, radius) && PositiveKernel(K)
    requires -radius <= ylo < yhi <= radius + 1 && -radius <= xlo < xhi <= radius + 1
    ensures WindowWeight(K, radius, ylo, yhi, xlo, xhi) > 0.0
    decreases yhi - ylo
  {
    RowWeightPositive(K, radius, yhi - 1, xlo, xhi);
    if yhi - 1 > ylo {
      WindowWeightPositive(K, radius, ylo, yhi - 1, xlo, xhi);
    }
  }

  /** The clipped window of any pixel weighs between 0 and the kernel's total. */
  lemma ClippedWindowWeight(L: Layout, K: seq<seq<real>>, radius: int, imgX: int, imgY: int)
    requires IsKernel(K, radius) && NonnegativeKernel(K) && 0 <= imgX < L.width && 0 <= imgY < L.height
    ensures 0.0 <= ClippedWeight(L, K, radius, imgX, imgY) <= MatrixSum(K)
  {
    var ylo, yhi := KernelStart(imgY, radius), KernelLimit(imgY, radius, L.height) + 1;
    ClippedWeightAtMost(K, radius, ylo, yhi, KernelStart(imgX, radius), KernelLimit(imgX, radius, L.width) + 1);
    ClippedWeightAtMost(K, radius, -radius, ylo, -radius, radius + 1);
    ClippedWeightAtMost(K, radius, yhi, radius + 1, -radius, radius + 1);
    ClippedWeightAtMost(K, radius, -radius, -radius, -radius, radius + 1);
    FullWindowWeight(K, radius);
  }

  lemma ProductBounds(b: real, k: real)
    requires 0.0 <= b <= 255.0 && 0.0 <= k
    ensures 0.0 <= b * k <= 255.0 * k
  {
    assert 255.0 * k - b * k == (255.0 - b) * k;
  }

  lemma AddBounds(x: real, s: real, y: real, k: real)
    requires 0.0 <= x <= 255.0 * s && 0.0 <= y <= 255.0 * k
    ensures 0.0 <= x + y <= 255.0 * (s + k)
  {
  }

  /** Along one row the weighted sum lies between 0 and 255 times the row's weight. */
  lemma {:induction false} RowSumBounds(P: seq<seq<byte>>, L: Layout, K: seq<seq<real>>, radius: int, imgX: int, imgY: int,
                                        ky: int, lo: int, hi: int)
    requires IsPlane(P, L) && RowWindow(L, K, radius, imgX, imgY, ky, lo, hi) && NonnegativeKernel(K)
    ensures 0.0 <= RowSum(P, L, K, radius, imgX, imgY, ky, lo, hi) <= 255.0 * RowWeight(K, radius, ky, lo, hi)
    decreases hi - lo
  {
    if hi > lo {
      RowSumBounds(P, L, K, radius, imgX, imgY, ky, lo, hi - 1);
      assert AllNonnegative(K[ky + radius]);
      var b, k := P[imgY + ky][imgX + hi - 1] as real, K[ky + radius][hi - 1 + radius];
      ProductBounds(b, k);
      AddBounds(RowSum(P, L, K, radius, imgX, imgY, ky, lo, hi - 1), RowWeight(K, radius, ky, lo, hi - 1), b * k, k);
    }
  }

  /** Over a window the weighted sum lies between 0 and 255 times the window's weight. */
  lemma {:induction false} WindowSumBounds(P: seq<seq<byte>>, L: Layout, K: seq<seq<real>>, radius: int, imgX: int, imgY: int,
                                           ylo: int, yhi: int, xlo: int, xhi: int)
    requires IsPlane(P, L) && Window(L, K, radius, imgX, imgY, ylo, yhi, xlo, xhi) && NonnegativeKernel(K)
    ensures 0.0 <= WindowSum(P, L, K, radius, imgX, imgY, ylo, yhi, xlo, xhi)
                <= 255.0 * WindowWeight(K, radius, ylo, yhi, xlo, xhi)
    decreases yhi - ylo
  {
    if yhi > ylo {
      WindowSumBounds(P, L, K, radius, imgX, imgY, ylo, yhi - 1, xlo, xhi);
      RowSumBounds(P, L, K, radius, imgX, imgY, yhi - 1, xlo, xhi);
    }
  }

  /** Over the clipped window the weighted sum lies between 0 and 255 times that window's weight. */
  lemma ClippedSumBounds(P: seq<seq<byte>>, L: Layout, K: seq<seq<real>>, radius: int, imgX: int, imgY: int)
    requires IsPlane(P, L) && IsKernel(K, radius) && NonnegativeKernel(K) && 0 <= imgX < L.width && 0 <= imgY < L.height
    ensures 0.0 <= ClippedSum(P, L, K, radius, imgX, imgY) <= 255.0 * ClippedWeight(L, K, radius, imgX, imgY)
  {
    ClippedWindow(L, K, radius, imgX, imgY);
    WindowSumBounds(P, L, K, radius, imgX, imgY,
                    KernelStart(imgY, radius), KernelLimit(imgY, radius, L.height) + 1,
                    KernelStart(imgX, radius), KernelLimit(imgX, radius, L.width) + 1);
  }

  /** With a normalised kernel every channel sum already lies in [0, 255], so the clamp leaves it unchanged. */
  lemma ClampIsNoOp(src: seq<byte>, L: Layout, K: seq<seq<real>>, radius: int, imgX: int, imgY: int, ch: int)
    requires Fits(L, |src|) && Normalised(K, radius) && 0 <= imgX < L.width && 0 <= imgY < L.height && 0 <= ch < 4
    ensures 0.0 <= ChannelSum(src, L, K, radius, imgX, imgY, ch) <= 255.0
    ensures Clamp(ChannelSum(src, L, K, radius, imgX, imgY, ch)) == ChannelSum(src, L, K, radius, imgX, imgY, ch)
  {
    ClippedSumBounds(Plane(src, L, ch), L, K, radius, imgX, imgY);
    ClippedWindowWeight(L, K, radius, imgX, imgY);
  }

  /** The Gaussian kernel never needs the clamp. */
  lemma GaussianClampIsNoOp(src: seq<byte>, L: Layout, weight: int -> real, radius: nat, imgX: int, imgY: int, ch: int)
    requires Fits(L, |src|) && PositiveProfile(weight) && 0 <= imgX < L.width && 0 <= imgY < L.height && 0 <= ch < 4
    ensures IsKernel(Gaussian2D(weight, radius), radius)
    ensures 0.0 <= ChannelSum(src, L, Gaussian2D(weight, radius), radius, imgX, imgY, ch) <= 255.0
  {
    GaussianIsNormalised(weight, radius);
    ClampIsNoOp(src, L, Gaussian2D(weight, radius), radius, imgX, imgY, ch);
  }

  /** Every byte of plane P holds v. */
  predicate Uniform(P: seq<seq<byte>>, v: byte)
  {
    forall py, px :: 0 <= py < |P| && 0 <= px < |P[py]| ==> P[py][px] == v
  }

  /** One step of a sum over a uniform value v: both parts were v times their weights. */
  lemma UniformStep(sum: real, front: real, last: real, v: real, weight: real, frontWeight: real, lastWeight: real)
    requires sum == front + last && front == v * frontWeight && last == v * lastWeight
    requires weight == frontWeight + lastWeight
    ensures sum == v * weight
  {
  }

  /** On a uniform plane the row sum is the value times the row's weight. */
  lemma {:induction false} RowSumUniform(P: seq<seq<byte>>, L: Layout, K: seq<seq<real>>, radius: int, imgX: int, imgY: int,
                                         v: byte, ky: int, lo: int, hi: int)
    requires IsPlane(P, L) && RowWindow(L, K, radius, imgX, imgY, ky, lo, hi) && Uniform(P, v)
    ensures RowSum(P, L, K, radius, imgX, imgY, ky, lo, hi) == v as real * RowWeight(K, radius, ky, lo, hi)
    decreases hi - lo
  {
    if hi > lo {
      RowSumUniform(P, L, K, radius, imgX, imgY, v, ky, lo, hi - 1);
      var k := K[ky + radius][hi - 1 + radius];
      assert P[imgY + ky][imgX + hi - 1] == v;
      UniformStep(RowSum(P, L, K, radius, imgX, imgY, ky, lo, hi), RowSum(P, L, K, radius, imgX, imgY, ky, lo, hi - 1),
                  P[imgY + ky][imgX + hi - 1] as real * k,
                  v as real, RowWeight(K, radius, ky, lo, hi), RowWeight(K, radius, ky, lo, hi - 1), k);
    }
  }

  /** On a uniform plane the window sum is the value times the window's weight. */
  lemma {:induction false} WindowSumUniform(P: seq<seq<byte>>, L: Layout, K: seq<seq<real>>, radius: int, imgX: int, imgY: int,
                                            v: byte, ylo: int, yhi: int, xlo: int, xhi: int)
    requires IsPlane(P, L) && Window(L, K, radius, imgX, imgY, ylo, yhi, xlo, xhi) && Uniform(P, v)
    ensures WindowSum(P, L, K, radius, imgX, imgY, ylo, yhi, xlo, xhi) == v as real * WindowWeight(K, radius, ylo, yhi, xlo, xhi)
    decreases yhi - ylo
  {
    if yhi > ylo {
      WindowSumUniform(P, L, K, radius, imgX, imgY, v, ylo, yhi - 1, xlo, xhi);
      RowSumUniform(P, L, K, radius, imgX, imgY, v, yhi - 1, xlo, xhi);
    }
  }

  /** On a uniform plane the clipped sum of any pixel is the value times the clipped window's weight. */
  lemma ClippedSumUniform(P: seq<seq<byte>>, L: Layout, K: seq<seq<real>>, radius: int, imgX: int, imgY: int, v: byte)
    requires IsPlane(P, L) && IsKernel(K, radius) && 0 <= imgX < L.width && 0 <= imgY < L.height && Uniform(P, v)
    ensures ClippedSum(P, L, K, radius, imgX, imgY) == v as real * ClippedWeight(L, K, radius, imgX, imgY)
  {
    ClippedWindow(L, K, radius, imgX, imgY);
    WindowSumUniform(P, L, K, radius, imgX, imgY, v,
                     KernelStart(imgY, radius), KernelLimit(imgY, radius, L.height) + 1,
                     KernelStart(imgX, radius), KernelLimit(imgX, radius, L.width) + 1);
  }

  lemma ScaleBounds(x: real, w: real, s: real)
    requires 0.0 <= x && 0.0 <= w <= 1.0 && s == x * w
    ensures 0.0 <= s <= x
    ensures w < 1.0 && x > 0.0 ==> s < x
  {
    assert x - s == x * (1.0 - w);
  }

  /** A channel value v scaled by a weight w in [0, 1] comes out of the clamp and the narrowing cast as at
      most v, and below v when w < 1 and v >= 1. */
  lemma ScaledByte(v: byte, w: real, s: real)
    requires 0.0 <= w <= 1.0 && s == v as real * w
    ensures ToByte(Clamp(s)) <= v
    ensures w < 1.0 && v >= 1 ==> ToByte(Clamp(s)) < v
  {
    ScaleBounds(v as real, w, s);
    assert v as real <= 255.0;
  }

  /** With a normalised kernel a uniform channel never comes out brighter than it went in. */
  lemma UniformNeverBrighter(src: seq<byte>, L: Layout, K: seq<seq<real>>, radius: int, imgX: int, imgY: int, ch: int, v: byte)
    requires Fits(L, |src|) && Normalised(K, radius) && 0 <= imgX < L.width && 0 <= imgY < L.height && 0 <= ch < 3
    requires Uniform(Plane(src, L, ch), v)
    ensures ChannelByte(src, L, K, radius, imgX, imgY, ch) <= v
  {
    var w := ClippedWeight(L, K, radius, imgX, imgY);
    ClippedSumUniform(Plane(src, L, ch), L, K, radius, imgX, imgY, v);
    ClippedWindowWeight(L, K, radius, imgX, imgY);
    ScaledByte(v, w, ChannelSum(src, L, K, radius, imgX, imgY, ch));
  }

  /** The pixel (imgX, imgY) is at least radius pixels away from every side of the image, so the whole kernel
      window lies inside it. */
  predicate Interior(L: Layout, radius: int, imgX: int, imgY: int)
  {
    radius <= imgX < L.width - radius && radius <= imgY < L.height - radius
  }

  /** Where the whole kernel fits inside the image a uniform channel is reproduced exactly. */
  lemma UniformInterior(src: seq<byte>, L: Layout, K: seq<seq<real>>, radius: int, imgX: int, imgY: int, ch: int, v: byte)
    requires Fits(L, |src|) && Normalised(K, radius) && 0 <= ch < 3
    requires Interior(L, radius, imgX, imgY)
    requires Uniform(Plane(src, L, ch), v)
    ensures ChannelByte(src, L, K, radius, imgX, imgY, ch) == v
  {
    ClippedSumUniform(Plane(src, L, ch), L, K, radius, imgX, imgY, v);
    FullWindowWeight(K, radius);
    assert (v as real).Floor == v as int;
  }

  /** Splitting the rows of a window at b. */
  lemma {:induction false} WindowWeightRowSplit(K: seq<seq<real>>, radius: int, a: int, b: int, c: int, xlo: int, xhi: int)
    requires IsKernel(K, radius) && -radius <= a <= b <= c <= radius + 1 && -radius <= xlo <= xhi <= radius + 1
    ensures WindowWeight(K, radius, a, c, xlo, xhi) == WindowWeight(K, radius, a, b, xlo, xhi) + WindowWeight(K, radius, b, c, xlo, xhi)
    decreases c - b
  {
    if c > b {
      WindowWeightRowSplit(K, radius, a, b, c - 1, xlo, xhi);
    }
  }

  /** Splitting the columns of a window at b. */
  lemma {:induction false} WindowWeightColumnSplit(K: seq<seq<real>>, radius: int, ylo: int, yhi: int, a: int, b: int, c: int)
    requires IsKernel(K, radius) && -radius <= ylo <= yhi <= radius + 1 && -radius <= a <= b <= c <= radius + 1
    ensures WindowWeight(K, radius, ylo, yhi, a, c) == WindowWeight(K, radius, ylo, yhi, a, b) + WindowWeight(K, radius, ylo, yhi, b, c)
    decreases yhi - ylo
  {
    if yhi > ylo {
      WindowWeightColumnSplit(K, radius, ylo, yhi - 1, a, b, c);
      RowWeightSplit(K, radius, yhi - 1, a, b, c);
    }
  }

  /** A non-empty window that misses at least one side of a positive normalised kernel weighs less than 1. */
  lemma ClippedWindowBelowOne(K: seq<seq<real>>, radius: int, ylo: int, yhi: int, xlo: int, xhi: int)
    requires Normalised(K, radius) && PositiveKernel(K)
    requires -radius <= ylo < yhi <= radius + 1 && -radius <= xlo < xhi <= radius + 1
    requires ylo > -radius || yhi < radius + 1 || xlo > -radius || xhi < radius + 1
    ensures WindowWeight(K, radius, ylo, yhi, xlo, xhi) < 1.0
  {
    var r := radius;
    WindowWeightRowSplit(K, r, -r, ylo, r + 1, -r, r + 1);
    WindowWeightRowSplit(K, r, ylo, yhi, r + 1, -r, r + 1);
    WindowWeightColumnSplit(K, r, ylo, yhi, -r, xlo, r + 1);
    WindowWeightColumnSplit(K, r, ylo, yhi, xlo, xhi, r + 1);
    FullWindowWeight(K, r);
    ClippedWeightAtMost(K, r, -r, ylo, -r, r + 1);
    ClippedWeightAtMost(K, r, yhi, r + 1, -r, r + 1);
    ClippedWeightAtMost(K, r, ylo, yhi, -r, xlo);
    ClippedWeightAtMost(K, r, ylo, yhi, xhi, r + 1);
    if ylo > -r {
      WindowWeightPositive(K, r, -r, ylo, -r, r + 1);
    } else if yhi < r + 1 {
      WindowWeightPositive(K, r, yhi, r + 1, -r, r + 1);
    } else if xlo > -r {
      WindowWeightPositive(K, r, ylo, yhi, -r, xlo);
    } else {
      WindowWeightPositive(K, r, ylo, yhi, xhi, r + 1);
    }
  }

  /** At a border pixel, one outside Interior, the clipped window of a positive normalised kernel weighs less than 1. */
  lemma BorderWeightBelowOne(L: Layout, K: seq<seq<real>>, radius: int, imgX: int, imgY: int)
    requires Normalised(K, radius) && PositiveKernel(K)
    requires 0 <= imgX < L.width && 0 <= imgY < L.height && !Interior(L, radius, imgX, imgY)
    ensures 0.0 <= ClippedWeight(L, K, radius, imgX, imgY) < 1.0
  {
    ClippedWindowWeight(L, K, radius, imgX, imgY);
    ClippedWindowBelowOne(K, radius, KernelStart(imgY, radius), KernelLimit(imgY, radius, L.height) + 1,
                          KernelStart(imgX, radius), KernelLimit(imgX, radius, L.width) + 1);
  }

  /** At every border pixel (within radius of any side) the kernel cells outside the image are dropped without
      renormalising, so with a positive kernel a uniform channel of value v >= 1 comes out strictly darker. */
  lemma EdgeDarkening(src: seq<byte>, L: Layout, K: seq<seq<real>>, radius: int, imgX: int, imgY: int, ch: int, v: byte)
    requires Fits(L, |src|) && Normalised(K, radius) && PositiveKernel(K) && 0 <= ch < 3
    requires 0 <= imgX < L.width && 0 <= imgY < L.height && !Interior(L, radius, imgX, imgY)
    requires Uniform(Plane(src, L, ch), v) && v >= 1
    ensures ChannelByte(src, L, K, radius, imgX, imgY, ch) < v
  {
    var w := ClippedWeight(L, K, radius, imgX, imgY);
    ClippedSumUniform(Plane(src, L, ch), L, K, radius, imgX, imgY, v);
    BorderWeightBelowOne(L, K, radius, imgX, imgY);
    ScaledByte(v, w, ChannelSum(src, L, K, radius, imgX, imgY, ch));
  }

  /** With a positive normalised kernel a uniform channel value v >= 1 is reproduced at a pixel exactly when the
      pixel is interior. */
  lemma UniformUnchangedIffInterior(src: seq<byte>, L: Layout, K: seq<seq<real>>, radius: int, imgX: int, imgY: int, ch: int, v: byte)
    requires Fits(L, |src|) && Normalised(K, radius) && PositiveKernel(K) && 0 <= ch < 3
    requires 0 <= imgX < L.width && 0 <= imgY < L.height
    requires Uniform(Plane(src, L, ch), v) && v >= 1
    ensures ChannelByte(src, L, K, radius, imgX, imgY, ch) == v <==> Interior(L, radius, imgX, imgY)
  {
    if Interior(L, radius, imgX, imgY) {
      UniformInterior(src, L, K, radius, imgX, imgY, ch, v);
    } else {
      EdgeDarkening(src, L, K, radius, imgX, imgY, ch, v);
    }
  }

  /** A channel that is 0 everywhere stays 0 everywhere, border pixels included, for any kernel. */
  lemma UniformBlack(src: seq<byte>, L: Layout, K: seq<seq<real>>, radius: int, imgX: int, imgY: int, ch: int)
    requires Fits(L, |src|) && IsKernel(K, radius) && 0 <= imgX < L.width && 0 <= imgY < L.height && 0 <= ch < 3
    requires Uniform(Plane(src, L, ch), 0)
    ensures ChannelByte(src, L, K, radius, imgX, imgY, ch) == 0
  {
    ClippedSumUniform(Plane(src, L, ch), L, K, radius, imgX, imgY, 0);
  }

  /** Radius 0: the kernel is [[1.0]] and every colour byte is copied unchanged. */
  lemma RadiusZeroIdentity(src: seq<byte>, L: Layout, weight: int -> real, px: int, py: int, ch: int)
    requires Fits(L, |src|) && PositiveProfile(weight) && 0 <= px < L.width && 0 <= py < L.height && 0 <= ch < 3
    ensures IsKernel(Gaussian2D(weight, 0), 0)
    ensures ChannelByte(src, L, Gaussian2D(weight, 0), 0, px, py, ch) == Sample(src, L, px, py, ch)
  {
    Gaussian2DRadiusZero(weight);
    var K := Gaussian2D(weight, 0);
    var P := Plane(src, L, ch);
    ClippedWindow(L, K, 0, px, py);
    var b := Sample(src, L, px, py, ch);
    assert P[py][px] == b;
    assert RowSum(P, L, K, 0, px, py, 0, 0, 1) == b as real * 1.0;
    assert ChannelSum(src, L, K, 0, px, py, ch) == b as real;
    assert (b as real).Floor == b as int;
  }

  /** Two buffers that agree on the B, G and R bytes of every pixel. */
  predicate SameColours(src1: seq<byte>, src2: seq<byte>, L: Layout)
    requires Fits(L, |src1|) && Fits(L, |src2|)
  {
    forall px, py, ch :: 0 <= px < L.width && 0 <= py < L.height && 0 <= ch < 3 ==>
      Sample(src1, L, px, py, ch) == Sample(src2, L, px, py, ch)
  }

  lemma SameColourPlanes(src1: seq<byte>, src2: seq<byte>, L: Layout, ch: int)
    requires Fits(L, |src1|) && Fits(L, |src2|) && SameColours(src1, src2, L) && 0 <= ch < 3
    ensures Plane(src1, L, ch) == Plane(src2, L, ch)
  {
    forall py | 0 <= py < L.height
      ensures Plane(src1, L, ch)[py] == Plane(src2, L, ch)[py]
    {
      assert forall px :: 0 <= px < L.width ==> Plane(src1, L, ch)[py][px] == Plane(src2, L, ch)[py][px];
    }
  }

  lemma SameColourRows(src1: seq<byte>, src2: seq<byte>, L: Layout, K: seq<seq<real>>, radius: int, py: int)
    requires Fits(L, |src1|) && Fits(L, |src2|) && IsKernel(K, radius) && SameColours(src1, src2, L)
    requires 0 <= py < L.height
    ensures BlurredRow(src1, L, K, radius, py) == BlurredRow(src2, L, K, radius, py)
  {
    SameColourPlanes(src1, src2, L, 0);
    SameColourPlanes(src1, src2, L, 1);
    SameColourPlanes(src1, src2, L, 2);
    assert forall j :: 0 <= j < L.stride ==> RowByte(src1, L, K, radius, py, j) == RowByte(src2, L, K, radius, py, j);
  }

  lemma {:induction false} SameColourPrefix(src1: seq<byte>, src2: seq<byte>, L: Layout, K: seq<seq<real>>, radius: int, n: int)
    requires Fits(L, |src1|) && Fits(L, |src2|) && IsKernel(K, radius) && SameColours(src1, src2, L)
    requires 0 <= n <= L.height
    ensures BlurredRows(src1, L, K, radius, n) == BlurredRows(src2, L, K, radius, n)
    decreases n
  {
    if n > 0 {
      SameColourPrefix(src1, src2, L, K, radius, n - 1);
      SameColourRows(src1, src2, L, K, radius, n - 1);
    }
  }

  /** Only the B, G and R bytes of image pixels are read: the alpha and padding bytes of the source do not
      affect the result. */
  lemma BlurredReadsColoursOnly(src1: seq<byte>, src2: seq<byte>, L: Layout, K: seq<seq<real>>, radius: int)
    requires Fits(L, |src1|) && Fits(L, |src2|) && IsKernel(K, radius) && SameColours(src1, src2, L)
    ensures Blurred(src1, L, K, radius) == Blurred(src2, L, K, radius)
  {
    SameColourPrefix(src1, src2, L, K, radius, L.height);
  }
}
