/** Real-valued sums over sequences and matrices (a matrix is a sequence of rows),
    accumulated in the order a left-to-right loop adds them. */
module Sums {

  /** Sum of the elements of s, first to last. */
  function Sum(s: seq<real>): real
    decreases |s|
  {
    if |s| == 0 then 0.0 else Sum(s[..|s| - 1]) + s[|s| - 1]
  }

  /** Every element of s multiplied by c. */
  function ScaleSeq(s: seq<real>, c: real): seq<real>
  {
    seq(|s|, i requires 0 <= i < |s| => s[i] * c)
  }

  /** The sum of each row of m. */
  function RowTotals(m: seq<seq<real>>): seq<real>
  {
    seq(|m|, i requires 0 <= i < |m| => Sum(m[i]))
  }

  /** Sum of all cells of m, row after row. */
  function MatrixSum(m: seq<seq<real>>): real
  {
    Sum(RowTotals(m))
  }

  /** Every cell of m multiplied by c. */
  function ScaleMatrix(m: seq<seq<real>>, c: real): seq<seq<real>>
  {
    seq(|m|, i requires 0 <= i < |m| => ScaleSeq(m[i], c))
  }

  predicate AllNonnegative(s: seq<real>)
  {
    forall i :: 0 <= i < |s| ==> s[i] >= 0.0
  }

  predicate AllPositive(s: seq<real>)
  {
    forall i :: 0 <= i < |s| ==> s[i] > 0.0
  }

  /** One more loop step: the prefix of length k+1 adds s[k] to the prefix of length k. */
  lemma SumPrefixStep(s: seq<real>, k: int)
    requires 0 <= k < |s|
    ensures Sum(s[..k + 1]) == Sum(s[..k]) + s[k]
  {
    assert s[..k + 1][..k] == s[..k];
  }

  lemma {:induction false} SumConcat(p: seq<real>, q: seq<real>)
    ensures Sum(p + q) == Sum(p) + Sum(q)
    decreases |q|
  {
    if |q| == 0 {
      assert p + q == p;
    } else {
      var front := q[..|q| - 1];
      assert (p + q)[..|p + q| - 1] == p + front;
      SumConcat(p, front);
    }
  }

  lemma {:induction false} SumNonnegative(s: seq<real>)
    requires AllNonnegative(s)
    ensures Sum(s) >= 0.0
    decreases |s|
  {
    if |s| > 0 {
      SumNonnegative(s[..|s| - 1]);
    }
  }

  lemma SumPositive(s: seq<real>)
    requires |s| > 0 && AllPositive(s)
    ensures Sum(s) > 0.0
  {
    SumNonnegative(s[..|s| - 1]);
  }

  lemma {:induction false} SumScale(s: seq<real>, c: real)
    ensures Sum(ScaleSeq(s, c)) == Sum(s) * c
    decreases |s|
  {
    if |s| > 0 {
      var front := s[..|s| - 1];
      assert |ScaleSeq(front, c)| == |front|;
      assert forall i :: 0 <= i < |front| ==> ScaleSeq(s, c)[..|s| - 1][i] == ScaleSeq(front, c)[i];
      assert ScaleSeq(s, c)[..|s| - 1] == ScaleSeq(front, c);
      SumScale(front, c);
    }
  }

  lemma MatrixSumPrefixStep(m: seq<seq<real>>, k: int)
    requires 0 <= k < |m|
    ensures MatrixSum(m[..k + 1]) == MatrixSum(m[..k]) + Sum(m[k])
  {
    assert RowTotals(m[..k + 1]) == RowTotals(m[..k]) + [Sum(m[k])];
    SumConcat(RowTotals(m[..k]), [Sum(m[k])]);
    assert [Sum(m[k])][..0] == [];
  }

  lemma RowTotalsScale(m: seq<seq<real>>, c: real)
    ensures RowTotals(ScaleMatrix(m, c)) == ScaleSeq(RowTotals(m), c)
  {
    forall i | 0 <= i < |m|
      ensures RowTotals(ScaleMatrix(m, c))[i] == ScaleSeq(RowTotals(m), c)[i]
    {
      SumScale(m[i], c);
    }
  }

  lemma MatrixSumScale(m: seq<seq<real>>, c: real)
    ensures MatrixSum(ScaleMatrix(m, c)) == MatrixSum(m) * c
  {
    RowTotalsScale(m, c);
    SumScale(RowTotals(m), c);
  }

  lemma MatrixSumPositive(m: seq<seq<real>>)
    requires |m| > 0
    requires forall i :: 0 <= i < |m| ==> |m[i]| > 0 && AllPositive(m[i])
    ensures MatrixSum(m) > 0.0
  {
    forall i | 0 <= i < |m|
      ensures RowTotals(m)[i] > 0.0
    {
      SumPositive(m[i]);
    }
    SumPositive(RowTotals(m));
  }
}
