/** What the kernel builders promise: the index layout, positivity, normalisation
    to 1, symmetry, and the 1x1 kernel of radius 0. */
module KernelProperties {
  import opened Sums
  import opened Kernel

  /** The 1D kernel has 2*radius+1 positive entries, offset i at index i + radius holding its raw weight over the total. */
  lemma Gaussian1DLayout(weight: int -> real, radius: int, i: int)
    requires PositiveProfile(weight) && 0 <= radius && -radius <= i <= radius
    ensures |Gaussian1D(weight, radius)| == 2 * radius + 1
    ensures Sum(Raw1D(weight, radius)) > 0.0
    ensures Gaussian1D(weight, radius)[i + radius] == weight(i * i) / Sum(Raw1D(weight, radius))
    ensures Gaussian1D(weight, radius)[i + radius] > 0.0
  {
    var raw := Raw1D(weight, radius);
    Raw1DPositive(weight, radius);
    SumPositive(raw);
    Raw1DAt(weight, radius, i);
    assert i * i >= 0;
    assert Gaussian1D(weight, radius)[i + radius] == raw[i + radius] * (1.0 / Sum(raw));
    QuotientAsProduct(weight(i * i), Sum(raw));
    PositiveQuotient(weight(i * i), Sum(raw));
  }

  /** Normalisation: the entries of the 1D kernel sum to 1. */
  lemma Gaussian1DSumsToOne(weight: int -> real, radius: nat)
    requires PositiveProfile(weight)
    ensures Sum(Gaussian1D(weight, radius)) == 1.0
  {
    var raw := Raw1D(weight, radius);
    Raw1DPositive(weight, radius);
    SumPositive(raw);
    SumScale(raw, 1.0 / Sum(raw));
  }

  /** The 1D kernel is symmetric about its centre. */
  lemma Gaussian1DSymmetric(weight: int -> real, radius: int, i: int)
    requires PositiveProfile(weight) && 0 <= radius && -radius <= i <= radius
    ensures |Gaussian1D(weight, radius)| == 2 * radius + 1
    ensures Gaussian1D(weight, radius)[radius + i] == Gaussian1D(weight, radius)[radius - i]
  {
    Raw1DAt(weight, radius, i);
    Raw1DAt(weight, radius, -i);
    assert (-i) * (-i) == i * i;
  }

  /** The 2D kernel is a (2*radius+1)-square of positive cells, offsets (x, y) at [y + radius][x + radius]
      holding the raw weight of x*x + y*y over the total. */
  lemma Gaussian2DLayout(weight: int -> real, radius: int, x: int, y: int)
    requires PositiveProfile(weight) && 0 <= radius && -radius <= x <= radius && -radius <= y <= radius
    ensures IsKernel(Gaussian2D(weight, radius), radius)
    ensures MatrixSum(Raw2D(weight, radius)) > 0.0
    ensures Gaussian2D(weight, radius)[y + radius][x + radius]
         == weight(x * x + y * y) / MatrixSum(Raw2D(weight, radius))
    ensures Gaussian2D(weight, radius)[y + radius][x + radius] > 0.0
  {
    var raw := Raw2D(weight, radius);
    Raw2DPositive(weight, radius);
    MatrixSumPositive(raw);
    Raw2DAt(weight, radius, x, y);
    assert x * x + y * y >= 0;
    assert Gaussian2D(weight, radius)[y + radius][x + radius] == raw[y + radius][x + radius] * (1.0 / MatrixSum(raw));
    QuotientAsProduct(weight(x * x + y * y), MatrixSum(raw));
    PositiveQuotient(weight(x * x + y * y), MatrixSum(raw));
  }

  /** Every cell of the 2D kernel is positive. */
  lemma Gaussian2DPositive(weight: int -> real, radius: nat)
    requires PositiveProfile(weight)
    ensures IsKernel(Gaussian2D(weight, radius), radius)
    ensures forall i, j :: 0 <= i < 2 * radius + 1 && 0 <= j < 2 * radius + 1 ==> Gaussian2D(weight, radius)[i][j] > 0.0
  {
    forall i, j | 0 <= i < 2 * radius + 1 && 0 <= j < 2 * radius + 1
      ensures Gaussian2D(weight, radius)[i][j] > 0.0
    {
      Gaussian2DLayout(weight, radius, j - radius, i - radius);
    }
  }

  /** Normalisation: the cells of the 2D kernel sum to 1. */
  lemma Gaussian2DSumsToOne(weight: int -> real, radius: nat)
    requires PositiveProfile(weight)
    ensures MatrixSum(Gaussian2D(weight, radius)) == 1.0
  {
    var raw := Raw2D(weight, radius);
    Raw2DPositive(weight, radius);
    MatrixSumPositive(raw);
    MatrixSumScale(raw, 1.0 / MatrixSum(raw));
  }

  /** Radial symmetry, kept by normalisation: kernel[y + r][x + r] equals kernel[x + r][y + r] and
      kernel[-y + r][-x + r]. */
  lemma Gaussian2DSymmetric(weight: int -> real, radius: int, x: int, y: int)
    requires PositiveProfile(weight) && 0 <= radius && -radius <= x <= radius && -radius <= y <= radius
    ensures IsKernel(Gaussian2D(weight, radius), radius)
    ensures Gaussian2D(weight, radius)[y + radius][x + radius] == Gaussian2D(weight, radius)[x + radius][y + radius]
    ensures Gaussian2D(weight, radius)[y + radius][x + radius] == Gaussian2D(weight, radius)[-y + radius][-x + radius]
  {
    Gaussian2DLayout(weight, radius, x, y);
    Gaussian2DLayout(weight, radius, y, x);
    Gaussian2DLayout(weight, radius, -x, -y);
    assert (-y) * (-y) + (-x) * (-x) == x * x + y * y;
  }

  lemma Raw2DRowZero(weight: int -> real)
    ensures |Raw2D(weight, 0)| == 1 && Raw2D(weight, 0)[0] == [weight(0)]
  {
    Raw2DAt(weight, 0, 0, 0);
    var row := Raw2D(weight, 0)[0];
    assert row == [weight(0)];
  }

  lemma Raw2DRadiusZero(weight: int -> real)
    ensures Raw2D(weight, 0) == [[weight(0)]]
  {
    Raw2DRowZero(weight);
  }

  lemma MatrixSumSingle(w: real)
    ensures MatrixSum([[w]]) == w
  {
    assert [w][..0] == [];
    assert Sum([w]) == w;
    assert RowTotals([[w]])[0] == w;
    assert RowTotals([[w]]) == [w];
  }

  /** Radius 0 gives the 1x1 kernel holding 1. */
  lemma Gaussian2DRadiusZero(weight: int -> real)
    requires PositiveProfile(weight)
    ensures Gaussian2D(weight, 0) == [[1.0]]
  {
    var w := weight(0);
    Raw2DRadiusZero(weight);
    MatrixSumSingle(w);
    assert w > 0.0;
    var g := Gaussian2D(weight, 0);
    assert g == ScaleMatrix([[w]], 1.0 / w);
    assert g[0][0] == w * (1.0 / w) == 1.0;
    assert g[0] == [1.0];
  }
}
