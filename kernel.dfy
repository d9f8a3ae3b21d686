/** Gaussian kernel construction (ConvolveEngine.ComputeGaussian1DKernel and
    ConvolveEngine.ComputeGaussian2DKernel). Weights are real numbers. The builders
    take the unnormalised weight as a function of the squared distance from the
    centre; Profile1D and Profile2D give the normal-distribution formulas the
    source uses, over a MathLib value that stands for Math.Exp, Math.Sqrt and Math.PI. */
module Kernel {
  import opened Sums

  /** The library members the weight formulas call: Math.Exp, Math.Sqrt and Math.PI. */
  datatype MathLib = MathLib(exp: real -> real, sqrt: real -> real, pi: real)

  /** What the formulas rely on: exp is positive, sqrt is positive on positive arguments, pi is positive. */
  ghost predicate ValidMath(m: MathLib)
  {
    m.pi > 0.0 &&
    (forall t :: m.exp(t) > 0.0) &&
    (forall t :: t > 0.0 ==> m.sqrt(t) > 0.0)
  }

  /** Every squared distance gets a positive weight. */
  ghost predicate PositiveProfile(weight: int -> real)
  {
    forall d :: 0 <= d ==> weight(d) > 0.0
  }

  lemma PositiveQuotient(a: real, b: real)
    requires a > 0.0 && b > 0.0
    ensures a / b > 0.0
  {
    assert (a / b) * b == a;
  }

  lemma QuotientAsProduct(a: real, b: real)
    requires b != 0.0
    ensures a * (1.0 / b) == a / b
  {
  }

  lemma PositiveProduct(a: real, b: real)
    requires a > 0.0 && b > 0.0
    ensures a * b > 0.0
  {
  }

  /** The 1D normal-distribution weight of squared offset d: c * exp(-d / (2*sigma*sigma)) with
      c = 1 / (sigma * sqrt(2*pi)); positive for every d. */
  function Profile1D(m: MathLib, sigma: real): (weight: int -> real)
    requires ValidMath(m) && sigma > 0.0
    ensures PositiveProfile(weight)
  {
    assert 2.0 * sigma * sigma > 0.0;
    assert 2.0 * m.pi > 0.0;
    PositiveProduct(sigma, m.sqrt(2.0 * m.pi));
    var c := 1.0 / (sigma * m.sqrt(2.0 * m.pi));
    PositiveQuotient(1.0, sigma * m.sqrt(2.0 * m.pi));
    d => c * m.exp(-(d as real / (2.0 * sigma * sigma)))
  }

  /** The 2D normal-distribution weight of squared distance d = x*x + y*y: c * exp(-d / (2*sigma*sigma))
      with c = 1 / (2*pi*sigma*sigma); positive for every d. */
  function Profile2D(m: MathLib, sigma: real): (weight: int -> real)
    requires ValidMath(m) && sigma > 0.0
    ensures PositiveProfile(weight)
  {
    assert 2.0 * sigma * sigma > 0.0;
    PositiveProduct(2.0 * m.pi * sigma, sigma);
    var c := 1.0 / (2.0 * m.pi * sigma * sigma);
    PositiveQuotient(1.0, 2.0 * m.pi * sigma * sigma);
    d => c * m.exp(-(d as real / (2.0 * sigma * sigma)))
  }

  /** The filled 1D array before normalisation: offset i at index i + radius, weight of i*i. */
  function Raw1D(weight: int -> real, radius: nat): seq<real>
  {
    seq(2 * radius + 1, k requires 0 <= k < 2 * radius + 1 => weight((k - radius) * (k - radius)))
  }

  lemma Raw1DPositive(weight: int -> real, radius: nat)
    requires PositiveProfile(weight)
    ensures |Raw1D(weight, radius)| == 2 * radius + 1 && AllPositive(Raw1D(weight, radius))
  {
    var raw := Raw1D(weight, radius);
    forall k | 0 <= k < |raw|
      ensures raw[k] > 0.0
    {
      var i := k - radius;
      assert i * i >= 0;
      assert raw[k] == weight(i * i);
    }
  }

  /** Offset i in [-radius, radius] lands at index i + radius with the weight of i*i. */
  lemma Raw1DAt(weight: int -> real, radius: int, i: int)
    requires 0 <= radius && -radius <= i <= radius
    ensures |Raw1D(weight, radius)| == 2 * radius + 1
    ensures Raw1D(weight, radius)[i + radius] == weight(i * i)
  {
    assert (i + radius) - radius == i;
  }

  /** The normalised 1D kernel: every raw weight times 1 / (sum of the raw weights). */
  function Gaussian1D(weight: int -> real, radius: nat): seq<real>
    requires PositiveProfile(weight)
  {
    var raw := Raw1D(weight, radius);
    Raw1DPositive(weight, radius);
    SumPositive(raw);
    ScaleSeq(raw, 1.0 / Sum(raw))
  }

  /** The filled 2D matrix before normalisation: offsets (x, y) at row y + radius, column x + radius,
      weight of x*x + y*y. */
  function Raw2D(weight: int -> real, radius: nat): seq<seq<real>>
  {
    seq(2 * radius + 1, yi requires 0 <= yi < 2 * radius + 1 =>
      seq(2 * radius + 1, xi requires 0 <= xi < 2 * radius + 1 =>
        weight((xi - radius) * (xi - radius) + (yi - radius) * (yi - radius))))
  }

  /** Offsets (x, y) in [-radius, radius]^2 land at row y + radius, column x + radius with the weight
      of x*x + y*y. */
  lemma Raw2DAt(weight: int -> real, radius: int, x: int, y: int)
    requires 0 <= radius && -radius <= x <= radius && -radius <= y <= radius
    ensures |Raw2D(weight, radius)| == 2 * radius + 1 && |Raw2D(weight, radius)[y + radius]| == 2 * radius + 1
    ensures Raw2D(weight, radius)[y + radius][x + radius] == weight(x * x + y * y)
  {
    assert (x + radius) - radius == x && (y + radius) - radius == y;
  }

  /** A square matrix of side 2*radius+1. */
  predicate IsKernel(k: seq<seq<real>>, radius: int)
  {
    radius >= 0 && |k| == 2 * radius + 1 &&
    forall y :: 0 <= y < |k| ==> |k[y]| == 2 * radius + 1
  }

  lemma Raw2DPositive(weight: int -> real, radius: nat)
    requires PositiveProfile(weight)
    ensures IsKernel(Raw2D(weight, radius), radius)
    ensures forall i :: 0 <= i < |Raw2D(weight, radius)| ==> AllPositive(Raw2D(weight, radius)[i])
  {
    var raw := Raw2D(weight, radius);
    forall i, j | 0 <= i < |raw| && 0 <= j < |raw[i]|
      ensures raw[i][j] > 0.0
    {
      var x, y := j - radius, i - radius;
      assert x * x >= 0 && y * y >= 0;
      assert raw[i][j] == weight(x * x + y * y);
    }
  }

  /** The normalised 2D kernel: every raw cell times 1 / (sum of all raw cells). */
  function Gaussian2D(weight: int -> real, radius: nat): seq<seq<real>>
    requires PositiveProfile(weight)
  {
    var raw := Raw2D(weight, radius);
    Raw2DPositive(weight, radius);
    MatrixSumPositive(raw);
    ScaleMatrix(raw, 1.0 / MatrixSum(raw))
  }

  /** The two-dimensional array holds exactly the cells of k. */
  predicate Represents(kernel: array2<real>, k: seq<seq<real>>)
    reads kernel
  {
    kernel.Length0 == |k| &&
    (forall y :: 0 <= y < |k| ==> |k[y]| == kernel.Length1) &&
    forall y, x :: 0 <= y < kernel.Length0 && 0 <= x < kernel.Length1 ==> kernel[y, x] == k[y][x]
  }

  /** Fills offsets -radius..radius at indices 0..2*radius while totalling them, then rescales every entry
      by 1 / total. */
  method ComputeGaussian1DKernel(m: MathLib, sigma: real, radius: int) returns (kernel: array<real>)
    requires ValidMath(m) && sigma > 0.0 && radius >= 0
    ensures fresh(kernel)
    ensures kernel[..] == Gaussian1D(Profile1D(m, sigma), radius)
  {
    var weight := Profile1D(m, sigma);
    var arrayLength := radius * 2 + 1;
    kernel := new real[arrayLength];
    ghost var raw := Raw1D(weight, radius);
    var totalValue := 0.0;
    var i := -radius;
    while i <= radius
      invariant -radius <= i <= radius + 1
      invariant forall j :: 0 <= j < i + radius ==> kernel[j] == raw[j]
      invariant totalValue == Sum(raw[..i + radius])
    {
      Raw1DAt(weight, radius, i);
      var elementValue := weight(i * i);
      kernel[i + radius] := elementValue;
      totalValue := totalValue + elementValue;
      SumPrefixStep(raw, i + radius);
      i := i + 1;
    }
    assert raw[..arrayLength] == raw;
    Raw1DPositive(weight, radius);
    SumPositive(raw);
    assert kernel[..] == raw;
    Rescale(kernel, 1.0 / totalValue);
  }

  /** The normalisation loop: multiplies every entry of a by factor, in place. */
  method Rescale(a: array<real>, factor: real)
    modifies a
    ensures a[..] == ScaleSeq(old(a[..]), factor)
  {
    var i := 0;
    while i < a.Length
      invariant 0 <= i <= a.Length
      invariant forall j :: 0 <= j < i ==> a[j] == old(a[j]) * factor
      invariant forall j :: i <= j < a.Length ==> a[j] == old(a[j])
    {
      a[i] := a[i] * factor;
      i := i + 1;
    }
    assert forall j :: 0 <= j < a.Length ==> a[..][j] == ScaleSeq(old(a[..]), factor)[j];
  }

  /** Fills offsets (x, y) in [-radius, radius]^2 at [y + radius, x + radius] row by row while totalling
      them, then rescales every cell by 1 / total. */
  method ComputeGaussian2DKernel(m: MathLib, sigma: real, radius: int) returns (kernel: array2<real>)
    requires ValidMath(m) && sigma > 0.0 && radius >= 0
    ensures fresh(kernel)
    ensures kernel.Length0 == kernel.Length1 == 2 * radius + 1
    ensures Represents(kernel, Gaussian2D(Profile2D(m, sigma), radius))
  {
    var weight := Profile2D(m, sigma);
    var arrayLength := (radius * 2) + 1;
    kernel := new real[arrayLength, arrayLength];
    var totalValue := Fill2D(kernel, weight, radius);
    ghost var raw := Raw2D(weight, radius);
    Raw2DPositive(weight, radius);
    MatrixSumPositive(raw);
    RescaleMatrix(kernel, 1.0 / totalValue, raw);
  }

  /** The 2D filling loop: cell [y + radius, x + radius] gets the weight of x*x + y*y, for y and then x
      running from -radius to radius; returns the running total of all cells. */
  method Fill2D(kernel: array2<real>, weight: int -> real, radius: int) returns (totalValue: real)
    requires radius >= 0 && kernel.Length0 == kernel.Length1 == 2 * radius + 1
    modifies kernel
    ensures Represents(kernel, Raw2D(weight, radius))
    ensures totalValue == MatrixSum(Raw2D(weight, radius))
  {
    var arrayLength := (radius * 2) + 1;
    ghost var raw := Raw2D(weight, radius);
    totalValue := 0.0;
    var y := -radius;
    while y <= radius
      invariant -radius <= y <= radius + 1
      invariant forall i, j :: 0 <= i < y + radius && 0 <= j < arrayLength ==> kernel[i, j] == raw[i][j]
      invariant totalValue == MatrixSum(raw[..y + radius])
    {
      totalValue := FillRow(kernel, weight, radius, y, totalValue);
      MatrixSumPrefixStep(raw, y + radius);
      y := y + 1;
    }
    assert raw[..arrayLength] == raw;
  }

  /** The inner filling loop for row y: cell [y + radius, x + radius] gets the weight of x*x + y*y for x
      from -radius to radius, each added to the running total; the other rows are untouched. */
  method FillRow(kernel: array2<real>, weight: int -> real, radius: int, y: int, total0: real) returns (totalValue: real)
    requires radius >= 0 && -radius <= y <= radius && kernel.Length0 == kernel.Length1 == 2 * radius + 1
    modifies kernel
    ensures forall i, j :: 0 <= i < kernel.Length0 && 0 <= j < kernel.Length1 && i != y + radius ==>
      kernel[i, j] == old(kernel[i, j])
    ensures forall i, j :: i == y + radius && 0 <= j < kernel.Length1 ==> kernel[i, j] == Raw2D(weight, radius)[i][j]
    ensures totalValue == total0 + Sum(Raw2D(weight, radius)[y + radius])
  {
    ghost var raw := Raw2D(weight, radius);
    ghost var row := y + radius;
    totalValue := total0;
    var x := -radius;
    while x <= radius
      invariant -radius <= x <= radius + 1
      invariant forall i, j :: 0 <= i < kernel.Length0 && 0 <= j < kernel.Length1 && i != row ==>
        kernel[i, j] == old(kernel[i, j])
      invariant forall j :: 0 <= j < x + radius ==> kernel[row, j] == raw[row][j]
      invariant totalValue == total0 + Sum(raw[row][..x + radius])
    {
      Raw2DAt(weight, radius, x, y);
      kernel[y + radius, x + radius] := weight((x * x) + (y * y));
      totalValue := totalValue + kernel[y + radius, x + radius];
      SumPrefixStep(raw[row], x + radius);
      x := x + 1;
    }
    assert raw[row][..kernel.Length1] == raw[row];
  }

  /** The 2D normalisation loop: multiplies every cell of a by factor, in place. */
  method RescaleMatrix(a: array2<real>, factor: real, ghost cells: seq<seq<real>>)
    requires Represents(a, cells)
    modifies a
    ensures Represents(a, ScaleMatrix(cells, factor))
  {
    var y := 0;
    while y < a.Length0
      invariant 0 <= y <= a.Length0
      invariant forall i, j :: 0 <= i < y && 0 <= j < a.Length1 ==> a[i, j] == old(a[i, j]) * factor
      invariant forall i, j :: y <= i < a.Length0 && 0 <= j < a.Length1 ==> a[i, j] == old(a[i, j])
    {
      var x := 0;
      while x < a.Length1
        invariant 0 <= x <= a.Length1
        invariant forall i, j :: 0 <= i < y && 0 <= j < a.Length1 ==> a[i, j] == old(a[i, j]) * factor
        invariant forall j :: 0 <= j < x ==> a[y, j] == old(a[y, j]) * factor
        invariant forall i, j :: y <= i < a.Length0 && 0 <= j < a.Length1 && (i > y || j >= x) ==> a[i, j] == old(a[i, j])
      {
        a[y, x] := a[y, x] * factor;
        x := x + 1;
      }
      y := y + 1;
    }
    assert forall i, j :: 0 <= i < a.Length0 && 0 <= j < a.Length1 ==> a[i, j] == ScaleMatrix(cells, factor)[i][j];
  }
}
