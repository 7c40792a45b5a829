// A well-posed quadratic fit on which the exchange phase followed by elimination meets a zero
// pivot: the signed comparison of the exchange phase is not partial pivoting, and the exchanges
// of one column can undo those of an earlier one.

module ExchangeStall {
  import opened Algebra
  import opened LinearSystem
  import opened NormalEquations
  import opened Solver

  /** The sample values −1/2, 1, 3/2 and 3. */
  ghost function StallSamples(): (xs: seq<real>)
    ensures |xs| == 4
  {
    [-0.5, 1.0, 1.5, 3.0]
  }

  /** The power sum of four values is the sum of their powers. */
  lemma PowerSumOfFour(a: real, b: real, c: real, d: real, e: nat)
    ensures PowerSum([a, b, c, d], e) == Pow(a, e) + Pow(b, e) + Pow(c, e) + Pow(d, e)
  {
    assert [a, b, c, d][..3] == [a, b, c];
    assert [a, b, c][..2] == [a, b];
    assert [a, b][..1] == [a];
    assert [a][..0] == [];
    assert PowerSum([a], e) == Pow(a, e);
    assert PowerSum([a, b], e) == Pow(a, e) + Pow(b, e);
    assert PowerSum([a, b, c], e) == Pow(a, e) + Pow(b, e) + Pow(c, e);
  }

  /** p + q·v + r·v² as a polynomial value. */
  lemma PolyValueOfThree(p: real, q: real, r: real, v: real)
    ensures PolyValue([p, q, r], v) == p + q * v + r * v * v
  {
    assert [p, q, r][..2] == [p, q];
    assert [p, q][..1] == [p];
    assert [p][..0] == [];
    assert PolyValue([p], v) == p;
    assert PolyValue([p, q], v) == p + q * v;
  }

  /** The power sums 4, 5, 25/2, 125/4 and 697/8 of the four samples. */
  lemma StallPowerSums()
    ensures PowerSum(StallSamples(), 0) == 4.0
    ensures PowerSum(StallSamples(), 1) == 5.0
    ensures PowerSum(StallSamples(), 2) == 12.5
    ensures PowerSum(StallSamples(), 3) == 31.25
    ensures PowerSum(StallSamples(), 4) == 87.125
  {
    forall e: nat | e <= 4
      ensures PowerSum(StallSamples(), e) == Pow(-0.5, e) + Pow(1.0, e) + Pow(1.5, e) + Pow(3.0, e)
    {
      PowerSumOfFour(-0.5, 1.0, 1.5, 3.0, e);
    }
  }

  /** For degree 2 and any true values, the exchange phase ends with the equations in the order
      2, 1, 0 (column 0 brings equation 2 up, column 1 then swaps equations 0 and 1 back), and
      eliminating column 0 clears the second pivot as well: the fit reports failure. */
  lemma SignedExchangeStalls(y: seq<real>)
    requires |y| == 4
    ensures !Solvable(Reduced(StallSamples(), y, 2))
  {
    var xs := StallSamples();
    var M := NormalMatrix(xs, y, 2);
    NormalMatrixEntries(xs, y, 2);
    StallPowerSums();
    assert M[0][0] == 4.0 && M[1][0] == 5.0 && M[2][0] == 12.5;
    assert M[0][1] == 5.0 && M[1][1] == 12.5 && M[2][1] == 31.25;
    // Column 0: 4 < 5 brings equation 1 up, then 5 < 12.5 brings equation 2 up.
    var S1 := ExchangeStep(M, 0, 1);
    assert S1 == [M[1], M[0], M[2]];
    var S2 := ExchangeStep(S1, 0, 2);
    assert S2 == [M[2], M[0], M[1]];
    assert ExchangeColumn(M, 0, 1) == S2 by {
      ExchangeColumnStep(M, 0, 1);
      ExchangeColumnStep(S1, 0, 2);
      assert ExchangeColumn(S2, 0, 3) == S2;
    }
    // Column 1: 5 < 12.5 swaps equations 0 and 1 back.
    var S3 := ExchangeStep(S2, 1, 2);
    assert S3 == [M[2], M[1], M[0]];
    assert ExchangeColumn(S2, 1, 2) == S3 by {
      ExchangeColumnStep(S2, 1, 2);
      assert ExchangeColumn(S3, 1, 3) == S3;
    }
    assert ExchangeRows(M, 0) == S3 by {
      assert ExchangeRows(M, 0) == ExchangeRows(S2, 1);
      assert ExchangeRows(S2, 1) == ExchangeRows(S3, 2);
      assert ExchangeColumn(S3, 2, 3) == S3;
      assert ExchangeRows(S3, 2) == ExchangeRows(S3, 3);
    }
    // Column 0 of elimination: equation 1 loses 5 / 12.5 times equation 2, and its
    // coefficient of c[1] becomes 12.5 − 0.4 · 31.25 = 0.
    var t := S3[1][0] / S3[0][0];
    assert t == 0.4;
    var R := S3[1 := Combine(S3[1], t, S3[0])];
    var E := EliminateRows(S3, 0, 1);
    assert E == EliminateRows(R, 0, 2);
    EliminateRowsKeeps(R, 0, 2);
    assert E[1][1] == 12.5 - 0.4 * 31.25 == 0.0;
    assert Eliminated(S3, 0) == Eliminated(E, 1) == E;
    assert Reduced(xs, y, 2)[1][1] == 0.0;
  }

  /** The determinant of the coefficient block of a system of three equations. */
  ghost function Det3(M: seq<seq<real>>): real
    requires IsAugmented(M) && |M| == 3
  {
    M[0][0] * (M[1][1] * M[2][2] - M[1][2] * M[2][1])
    - M[0][1] * (M[1][0] * M[2][2] - M[1][2] * M[2][0])
    + M[0][2] * (M[1][0] * M[2][1] - M[1][1] * M[2][0])
  }

  /** The stalled fit is not an ill-posed one: the coefficient block of its normal equations has
      determinant 225, so they have exactly one solution, and for true values lying exactly on
      1 + x + x² that solution is [1, 1, 1]; yet the exchange phase and elimination meet a zero
      pivot. */
  lemma StalledFitIsWellPosed()
    ensures Det3(NormalMatrix(StallSamples(), [0.75, 3.0, 4.75, 13.0], 2)) == 225.0
    ensures Solves(NormalMatrix(StallSamples(), [0.75, 3.0, 4.75, 13.0], 2), [1.0, 1.0, 1.0])
    ensures !Solvable(Reduced(StallSamples(), [0.75, 3.0, 4.75, 13.0], 2))
  {
    var xs, ys, c := StallSamples(), [0.75, 3.0, 4.75, 13.0], [1.0, 1.0, 1.0];
    NormalMatrixEntries(xs, ys, 2);
    StallPowerSums();
    forall k | 0 <= k < 4
      ensures ys[k] == PolyValue(c, xs[k])
    {
      PolyValueOfThree(1.0, 1.0, 1.0, xs[k]);
    }
    ExactDataSolves(xs, ys, c);
    SignedExchangeStalls(ys);
  }
}
