/** The normal equations of a least-squares polynomial fit, built from power sums, and what
    solving them means for the fitted polynomial. */
module NormalEquations {
  import opened Algebra
  import opened LinearSystem

  /** Row i of the Hankel block: entry j is the power sum of exponent i + j. */
  ghost function HankelRow(xs: seq<real>, i: nat, m: nat): seq<real>
  {
    seq(m, j requires 0 <= j < m => PowerSum(xs, i + j))
  }

  /** The powers x^(i + j), j < m: one sample's contribution to HankelRow(xs, i, m). */
  ghost function PowRow(x: real, i: nat, m: nat): seq<real>
  {
    seq(m, j requires 0 <= j < m => Pow(x, i + j))
  }

  /** The (n + 1) × (n + 2) augmented normal-equation matrix of a degree-n fit:
      entry (i, j) is Σ_k xs[k]^(i + j) for j <= n, and the last column is Σ_k xs[k]^i · ys[k]. */
  ghost function NormalMatrix(xs: seq<real>, ys: seq<real>, n: nat): (M: seq<seq<real>>)
    requires |xs| == |ys|
    ensures |M| == n + 1 && IsAugmented(M)
    ensures forall i, j :: 0 <= i <= n && 0 <= j <= n ==> M[i][j] == M[j][i]
    ensures forall i :: 0 <= i <= n ==> M[i][n + 1] == Moment(xs, ys, i)
  {
    seq(n + 1, i requires 0 <= i <= n => HankelRow(xs, i, n + 1) + [Moment(xs, ys, i)])
  }

  /** Entry (i, j) of the coefficient block is the power sum of exponent i + j. */
  lemma NormalMatrixEntries(xs: seq<real>, ys: seq<real>, n: nat)
    requires |xs| == |ys|
    ensures forall i, j :: 0 <= i <= n && 0 <= j <= n ==> NormalMatrix(xs, ys, n)[i][j] == PowerSum(xs, i + j)
  {
  }

  /** Σ_k xs[k]^e · p(xs[k]), p the polynomial with coefficients c. */
  ghost function Fitted(xs: seq<real>, c: seq<real>, e: nat): real
    decreases |xs|
  {
    if xs == [] then 0.0
    else Fitted(xs[..|xs| - 1], c, e) + Pow(xs[|xs| - 1], e) * PolyValue(c, xs[|xs| - 1])
  }

  /** Σ_k xs[k]^e · (p(xs[k]) − ys[k]): the residuals of the fit weighted by the e-th power. */
  ghost function Residual(xs: seq<real>, ys: seq<real>, c: seq<real>, e: nat): real
    requires |xs| == |ys|
    decreases |xs|
  {
    if xs == [] then 0.0
    else Residual(xs[..|xs| - 1], ys[..|ys| - 1], c, e)
         + Pow(xs[|xs| - 1], e) * (PolyValue(c, xs[|xs| - 1]) - ys[|ys| - 1])
  }

  /** The residuals are orthogonal to every power x^e of the fitted degree: the first-order
      condition of a least-squares polynomial fit. */
  ghost predicate OrthogonalResiduals(xs: seq<real>, ys: seq<real>, c: seq<real>)
    requires |xs| == |ys|
  {
    forall e :: 0 <= e < |c| ==> Residual(xs, ys, c, e) == 0.0
  }

  /** p(v) is the left-hand side of the row of powers v^0, v^1, … against the coefficients. */
  lemma {:induction false} PolyValueAsDot(c: seq<real>, v: real, m: nat)
    requires |c| <= m
    ensures Dot(PowRow(v, 0, m), c) == PolyValue(c, v)
    decreases |c|
  {
    if c != [] {
      PolyValueAsDot(c[..|c| - 1], v, m);
    }
  }

  /** Raising every exponent of the row by one multiplies its left-hand side by x. */
  lemma {:induction false} PowRowShiftDot(x: real, i: nat, m: nat, c: seq<real>)
    requires |c| <= m
    ensures Dot(PowRow(x, i + 1, m), c) == x * Dot(PowRow(x, i, m), c)
    decreases |c|
  {
    if c != [] {
      var n := |c| - 1;
      PowRowShiftDot(x, i, m, c[..n]);
      assert PowRow(x, i + 1, m)[n] == x * PowRow(x, i, m)[n] by {
        assert PowRow(x, i + 1, m)[n] == Pow(x, (i + n) + 1);
      }
    }
  }

  /** Σ_{j < |c|} c[j] · x^(i + j) == x^i · p(x): one sample's contribution to the left-hand
      side of normal equation i. */
  lemma {:induction false} PowRowDot(x: real, i: nat, m: nat, c: seq<real>)
    requires |c| <= m
    ensures Dot(PowRow(x, i, m), c) == Pow(x, i) * PolyValue(c, x)
    decreases i
  {
    if i == 0 {
      PolyValueAsDot(c, x, m);
    } else {
      var p, v := Pow(x, i - 1), PolyValue(c, x);
      PowRowDot(x, i - 1, m, c);
      PowRowShiftDot(x, i - 1, m, c);
      assert x * (p * v) == (x * p) * v;
    }
  }

  /** With no samples every power sum, hence every left-hand side, is zero. */
  lemma {:induction false} DotOfZeroRow(r: seq<real>, a: seq<real>)
    requires |a| <= |r|
    requires forall j :: 0 <= j < |a| ==> r[j] == 0.0
    ensures Dot(r, a) == 0.0
    decreases |a|
  {
    if a != [] {
      DotOfZeroRow(r, a[..|a| - 1]);
    }
  }

  /** With no samples the left-hand side of every normal equation is zero. */
  lemma HankelDotEmpty(i: nat, m: nat, c: seq<real>)
    requires |c| <= m
    ensures Dot(HankelRow([], i, m), c) == 0.0
  {
    forall j | 0 <= j < |c|
      ensures HankelRow([], i, m)[j] == 0.0
    {
      assert HankelRow([], i, m)[j] == PowerSum([], i + j);
    }
    DotOfZeroRow(HankelRow([], i, m), c);
  }

  /** Adding a sample x adds its row of powers to every Hankel row. */
  lemma HankelRowSplit(xs: seq<real>, i: nat, m: nat)
    requires xs != []
    ensures HankelRow(xs, i, m) == Combine(HankelRow(xs[..|xs| - 1], i, m), -1.0, PowRow(xs[|xs| - 1], i, m))
  {
    var xs', x := xs[..|xs| - 1], xs[|xs| - 1];
    forall j | 0 <= j < m
      ensures HankelRow(xs, i, m)[j] == HankelRow(xs', i, m)[j] - (-1.0) * PowRow(x, i, m)[j]
    {
      assert HankelRow(xs, i, m)[j] == PowerSum(xs, i + j);
    }
  }

  /** The left-hand side of normal equation i is Σ_k xs[k]^i · p(xs[k]): the power sums
      may be exchanged with the sum over the coefficients. */
  lemma {:induction false} HankelDot(xs: seq<real>, i: nat, m: nat, c: seq<real>)
    requires |c| <= m
    ensures Dot(HankelRow(xs, i, m), c) == Fitted(xs, c, i)
    decreases |xs|
  {
    if xs == [] {
      HankelDotEmpty(i, m, c);
    } else {
      var xs' := xs[..|xs| - 1];
      var x := xs[|xs| - 1];
      HankelDot(xs', i, m, c);
      PowRowDot(x, i, m, c);
      HankelRowSplit(xs, i, m);
      DotCombine(HankelRow(xs', i, m), -1.0, PowRow(x, i, m), c);
      assert Fitted(xs, c, i) == Fitted(xs', c, i) + Pow(x, i) * PolyValue(c, x);
    }
  }

  /** The weighted residual is the fitted sum minus the moment. */
  lemma {:induction false} ResidualSplit(xs: seq<real>, ys: seq<real>, c: seq<real>, e: nat)
    requires |xs| == |ys|
    ensures Residual(xs, ys, c, e) == Fitted(xs, c, e) - Moment(xs, ys, e)
    decreases |xs|
  {
    if xs != [] {
      ResidualSplit(xs[..|xs| - 1], ys[..|ys| - 1], c, e);
    }
  }

  /** c solves the normal equations of degree |c| − 1 exactly when the residuals of the
      polynomial with coefficients c are orthogonal to 1, x, …, x^(|c| − 1). */
  lemma NormalEquationsIffOrthogonal(xs: seq<real>, ys: seq<real>, c: seq<real>)
    requires |xs| == |ys| && |c| > 0
    ensures Solves(NormalMatrix(xs, ys, |c| - 1), c) <==> OrthogonalResiduals(xs, ys, c)
  {
    var n := |c| - 1;
    var M := NormalMatrix(xs, ys, n);
    forall i | 0 <= i <= n
      ensures RowHolds(M[i], c) <==> Residual(xs, ys, c, i) == 0.0
    {
      assert M[i] == HankelRow(xs, i, n + 1) + [Moment(xs, ys, i)];
      DotAgree(M[i], HankelRow(xs, i, n + 1), c);
      HankelDot(xs, i, n + 1, c);
      ResidualSplit(xs, ys, c, i);
    }
  }

  /** Data lying exactly on a polynomial leaves zero residuals. */
  lemma {:induction false} ExactDataResidual(xs: seq<real>, ys: seq<real>, c: seq<real>, e: nat)
    requires |xs| == |ys|
    requires forall k :: 0 <= k < |xs| ==> ys[k] == PolyValue(c, xs[k])
    ensures Residual(xs, ys, c, e) == 0.0
    decreases |xs|
  {
    if xs != [] {
      ExactDataResidual(xs[..|xs| - 1], ys[..|ys| - 1], c, e);
    }
  }

  /** When every true value lies on the polynomial c, c solves the normal equations of its degree:
      noise-free data is reproduced by the fit whenever that system has a unique solution. */
  lemma ExactDataSolves(xs: seq<real>, ys: seq<real>, c: seq<real>)
    requires |xs| == |ys| && |c| > 0
    requires forall k :: 0 <= k < |xs| ==> ys[k] == PolyValue(c, xs[k])
    ensures Solves(NormalMatrix(xs, ys, |c| - 1), c)
  {
    forall e | 0 <= e < |c|
      ensures Residual(xs, ys, c, e) == 0.0
    {
      ExactDataResidual(xs, ys, c, e);
    }
    NormalEquationsIffOrthogonal(xs, ys, c);
  }

  /** A degree-0 fit has exactly one solution: the mean of the true values. */
  lemma ConstantFit(xs: seq<real>, ys: seq<real>, c: real)
    requires |xs| == |ys| && |xs| > 0
    ensures Solves(NormalMatrix(xs, ys, 0), [c]) <==> c == Sum(ys) / (|ys| as real)
  {
    var M := NormalMatrix(xs, ys, 0);
    var count, total := |xs| as real, Sum(ys);
    assert Solves(M, [c]) <==> count * c == total by {
      PowerSumZero(xs);
      MomentZero(xs, ys);
      assert M[0][0] == PowerSum(xs, 0);
      assert Dot(M[0], [c]) == count * c by {
        assert [c][..0] == [];
      }
      assert Solves(M, [c]) <==> RowHolds(M[0], [c]);
    }
    DivideOut(count, c, total);
  }

}
