/** Polynomial least-squares regression through the normal equations (namespace Regressions).
    The solver's phases are the loop nests of Polynomial::resolve, each proved against its own
    specification; the class holds the coefficient vector and the success flag. */
module Regressions {
  import opened Algebra
  import opened LinearSystem
  import opened NormalEquations
  import opened Solver

  /** X[e] = Σ_j x[j]^e for e < count. */
  method PowerSums(x: seq<real>, count: nat) returns (X: array<real>)
    ensures X.Length == count
    ensures forall e :: 0 <= e < count ==> X[e] == PowerSum(x, e)
  {
    X := new real[count];
    for e := 0 to count
      invariant forall e' :: 0 <= e' < e ==> X[e'] == PowerSum(x, e')
    {
      X[e] := 0.0;
      for j := 0 to |x|
        invariant X[e] == PowerSum(x[..j], e)
        invariant forall e' :: 0 <= e' < e ==> X[e'] == PowerSum(x, e')
      {
        assert x[..j + 1][..j] == x[..j];
        X[e] := X[e] + Pow(x[j], e);
      }
      assert x[..|x|] == x;
    }
  }

  /** Y[e] = Σ_j x[j]^e · y[j] for e < count. */
  method Moments(x: seq<real>, y: seq<real>, count: nat) returns (Y: array<real>)
    requires |x| == |y|
    ensures Y.Length == count
    ensures forall e :: 0 <= e < count ==> Y[e] == Moment(x, y, e)
  {
    Y := new real[count];
    for e := 0 to count
      invariant forall e' :: 0 <= e' < e ==> Y[e'] == Moment(x, y, e')
    {
      Y[e] := 0.0;
      for j := 0 to |x|
        invariant Y[e] == Moment(x[..j], y[..j], e)
        invariant forall e' :: 0 <= e' < e ==> Y[e'] == Moment(x, y, e')
      {
        assert x[..j + 1][..j] == x[..j] && y[..j + 1][..j] == y[..j];
        Y[e] := Y[e] + Pow(x[j], e) * y[j];
      }
      assert x[..|x|] == x && y[..|y|] == y;
    }
  }

  /** B[i, j] := X[i + j] for i, j <= n: the coefficient block of the normal equations. */
  method FillCoefficients(B: array2<real>, X: array<real>, n: nat)
    requires B.Length0 == n + 1 && B.Length1 == n + 2 && X.Length == 2 * n + 1
    modifies B
    ensures forall i, j :: 0 <= i <= n && 0 <= j <= n ==> B[i, j] == X[i + j]
    ensures forall i, j :: 0 <= i <= n && j == n + 1 ==> B[i, j] == old(B[i, j])
  {
    for i := 0 to n + 1
      invariant forall i', j :: 0 <= i' < i && 0 <= j <= n ==> B[i', j] == X[i' + j]
      invariant forall i', j' :: 0 <= i' <= n && j' == n + 1 ==> B[i', j'] == old(B[i', j'])
    {
      for j := 0 to n + 1
        invariant forall i', j' :: 0 <= i' < i && 0 <= j' <= n ==> B[i', j'] == X[i' + j']
        invariant forall j' :: 0 <= j' < j ==> B[i, j'] == X[i + j']
        invariant forall i', j' :: 0 <= i' <= n && j' == n + 1 ==> B[i', j'] == old(B[i', j'])
      {
        B[i, j] := X[i + j];
      }
    }
  }

  /** B[i, n + 1] := Y[i] for i <= n: the right-hand sides of the normal equations. */
  method FillRightHandSides(B: array2<real>, Y: array<real>, n: nat)
    requires B.Length0 == n + 1 && B.Length1 == n + 2 && Y.Length == n + 1
    modifies B
    ensures forall i, j :: 0 <= i <= n && 0 <= j <= n ==> B[i, j] == old(B[i, j])
    ensures forall i :: 0 <= i <= n ==> B[i, n + 1] == Y[i]
  {
    for i := 0 to n + 1
      invariant forall i', j :: 0 <= i' <= n && 0 <= j <= n ==> B[i', j] == old(B[i', j])
      invariant forall i' :: 0 <= i' < i ==> B[i', n + 1] == Y[i']
    {
      B[i, n + 1] := Y[i];
    }
  }

  /** The augmented matrix B of the normal equations of a degree-`power` fit. */
  method BuildSystem(x: seq<real>, y: seq<real>, power: nat) returns (B: array2<real>)
    requires |x| == |y|
    ensures fresh(B) && B.Length0 == power + 1 && B.Length1 == power + 2
    ensures Rows(B) == NormalMatrix(x, y, power)
  {
    var X := PowerSums(x, 2 * power + 1);
    B := new real[power + 1, power + 2]((_, _) => 0.0);
    FillCoefficients(B, X, power);
    var Y := Moments(x, y, power + 1);
    FillRightHandSides(B, Y, power);
    HoldsNormalMatrix(B, x, y, power);
  }

  /** An array whose entries are the power sums and moments holds the normal equations. */
  lemma HoldsNormalMatrix(B: array2<real>, x: seq<real>, y: seq<real>, power: nat)
    requires |x| == |y| && B.Length0 == power + 1 && B.Length1 == power + 2
    requires forall i, j :: 0 <= i <= power && 0 <= j <= power ==> B[i, j] == PowerSum(x, i + j)
    requires forall i :: 0 <= i <= power ==> B[i, power + 1] == Moment(x, y, i)
    ensures Rows(B) == NormalMatrix(x, y, power)
  {
    NormalMatrixEntries(x, y, power);
    RowsFromEntries(B, NormalMatrix(x, y, power));
  }

  /** Exchanges rows i and k of B, entry by entry. */
  method SwapRows(B: array2<real>, i: nat, k: nat)
    requires i < B.Length0 && k < B.Length0
    modifies B
    ensures Rows(B) == old(Rows(B))[i := old(Rows(B))[k]][k := old(Rows(B))[i]]
  {
    ghost var M := Rows(B);
    for j := 0 to B.Length1
      invariant forall r, c :: 0 <= r < B.Length0 && 0 <= c < B.Length1 ==>
        B[r, c] == (if c < j && r == i then M[k][c] else if c < j && r == k then M[i][c] else M[r][c])
    {
      var tmp := B[i, j];
      B[i, j] := B[k, j];
      B[k, j] := tmp;
    }
    RowsFromEntries(B, M[i := M[k]][k := M[i]]);
  }

  /** One exchange test: row k is swapped into row i when its entry in column i is (signed)
      greater than B[i, i]. */
  method ExchangeTest(B: array2<real>, i: nat, k: nat)
    requires B.Length1 == B.Length0 + 1 && i < B.Length0 && k < B.Length0
    modifies B
    ensures Rows(B) == ExchangeStep(old(Rows(B)), i, k)
  {
    if B[i, i] < B[k, i] {
      SwapRows(B, i, k);
    }
  }

  /** One column of the row-exchange phase: every later row whose entry in column i is (signed)
      greater than the current B[i, i] is swapped into row i, in order from row i + 1 down. */
  method OrderColumn(B: array2<real>, i: nat)
    requires B.Length1 == B.Length0 + 1 && i < B.Length0
    modifies B
    ensures Rows(B) == ExchangeColumn(old(Rows(B)), i, i + 1)
  {
    var n := B.Length0;
    ghost var M := Rows(B);
    for k := i + 1 to n
      invariant Rows(B) == ExchangeUpTo(M, i, k)
    {
      ExchangeTest(B, i, k);
    }
    ExchangeSplit(M, i, n);
  }

  /** The row-exchange phase, run to completion before elimination starts. */
  method SwapPhase(B: array2<real>)
    requires B.Length1 == B.Length0 + 1
    modifies B
    ensures Rows(B) == ExchangeRows(old(Rows(B)), 0)
  {
    var n := B.Length0;
    for i := 0 to n
      invariant ExchangeRows(Rows(B), i) == ExchangeRows(old(Rows(B)), 0)
    {
      OrderColumn(B, i);
    }
  }

  /** row k := row k − t · row i, entry by entry. */
  method SubtractRow(B: array2<real>, k: nat, i: nat, t: real)
    requires i < B.Length0 && k < B.Length0 && i != k
    modifies B
    ensures Rows(B) == old(Rows(B))[k := Combine(old(Rows(B))[k], t, old(Rows(B))[i])]
  {
    ghost var M := Rows(B);
    for j := 0 to B.Length1
      invariant forall r, c :: 0 <= r < B.Length0 && 0 <= c < B.Length1 ==>
        B[r, c] == (if r == k && c < j then M[k][c] - t * M[i][c] else M[r][c])
    {
      B[k, j] := B[k, j] - t * B[i, j];
    }
    RowsFromEntries(B, M[k := Combine(M[k], t, M[i])]);
  }

  /** Clears column i below a nonzero pivot B[i, i]: each row k > i, in order, loses
      t = B[k, i] / B[i, i] times row i. */
  method EliminateColumn(B: array2<real>, i: nat)
    requires B.Length1 == B.Length0 + 1 && i < B.Length0 && B[i, i] != 0.0
    modifies B
    ensures Rows(B) == EliminateRows(old(Rows(B)), i, i + 1)
  {
    var n := B.Length0;
    for k := i + 1 to n
      invariant B[i, i] != 0.0
      invariant EliminateRows(Rows(B), i, k) == EliminateRows(old(Rows(B)), i, i + 1)
    {
      var t := B[k, i] / B[i, i];
      SubtractRow(B, k, i, t);
    }
  }

  /** Forward elimination without further row exchanges. It fails on the first zero pivot,
      where the floating-point code would divide by zero, and then leaves the rows as they were
      at that point. */
  method Eliminate(B: array2<real>) returns (ok: bool)
    requires B.Length1 == B.Length0 + 1
    modifies B
    ensures Rows(B) == Eliminated(old(Rows(B)), 0)
    ensures ok <==> forall i :: 0 <= i < B.Length0 - 1 ==> B[i, i] != 0.0
  {
    var n := B.Length0;
    var i := 0;
    ghost var M := Rows(B);
    while i < n - 1
      invariant 0 <= i <= n
      invariant n > 0 ==> i <= n - 1
      invariant Rows(B) == M && |M| == n && IsAugmented(M)
      invariant Eliminated(M, i) == Eliminated(old(Rows(B)), 0)
      invariant forall i' :: 0 <= i' < i ==> M[i'][i'] != 0.0
    {
      if B[i, i] == 0.0 {
        return false;
      }
      assert M[i][i] != 0.0;
      EliminatedStep(M, i);
      EliminateColumn(B, i);
      ghost var N := EliminateRows(M, i, i + 1);
      assert forall i' :: 0 <= i' <= i ==> N[i'][i'] == M[i'][i'];
      M, i := N, i + 1;
    }
    return true;
  }

  /** B[i, n] − Σ_{j ≠ i} B[i, j] · a[j]: the right-hand side of equation i less the terms of
      every other unknown. The source accumulates this difference in a[i] itself, which no step
      of the sum reads. */
  method Remainder(B: array2<real>, a: array<real>, i: nat) returns (rest: real)
    requires B.Length1 == B.Length0 + 1 && a.Length == B.Length0 && i < a.Length
    ensures rest == Rows(B)[i][a.Length] - Dot(Rows(B)[i], a[..][i := 0.0])
  {
    var n := a.Length;
    ghost var row, z := Rows(B)[i], a[..][i := 0.0];
    rest := B[i, n];
    for j := 0 to n
      invariant rest == B[i, n] - Dot(row, z[..j])
    {
      DotExtend(row, z, j);
      if j != i {
        assert B[i, j] == row[j] && a[j] == z[j];
        rest := rest - B[i, j] * a[j];
      } else {
        assert z[j] == 0.0;
      }
    }
    assert z[..n] == z;
  }

  /** a[i] := (B[i, n] − Σ_{j ≠ i} B[i, j] · a[j]) / B[i, i]: unknown i solved from equation i. */
  method SolveUnknown(B: array2<real>, a: array<real>, i: nat)
    requires B.Length1 == B.Length0 + 1 && a.Length == B.Length0 && i < a.Length
    requires B[i, i] != 0.0
    modifies a
    ensures a[..] == Substitute(Rows(B), i, old(a[..]))
  {
    var rest := Remainder(B, a, i);
    a[i] := rest / B[i, i];
  }

  /** Back-substitution from the last row upwards into a zero-initialised vector a:
      a[i] := (B[i, n] − Σ_{j ≠ i} B[i, j] · a[j]) / B[i, i]. Fails on a zero diagonal entry,
      before touching a[i]. */
  method BackSubstitute(B: array2<real>) returns (ok: bool, a: array<real>)
    requires B.Length1 == B.Length0 + 1
    ensures a.Length == B.Length0
    ensures ok <==> forall i :: 0 <= i < B.Length0 ==> B[i, i] != 0.0
    ensures a[..] == BackSolve(Rows(B), B.Length0, Zeros(B.Length0))
  {
    var n := B.Length0;
    ghost var M := Rows(B);
    a := new real[n](_ => 0.0);
    assert a[..] == Zeros(n);
    var i := n;
    while i > 0
      invariant 0 <= i <= n
      invariant forall j :: i <= j < n ==> M[j][j] != 0.0
      invariant BackSolve(M, i, a[..]) == BackSolve(M, n, Zeros(n))
    {
      if B[i - 1, i - 1] == 0.0 {
        ok := false;
        return;
      }
      i := i - 1;
      assert M[i][i] != 0.0;
      ghost var a0 := a[..];
      SolveUnknown(B, a, i);
      assert BackSolve(M, i + 1, a0) == BackSolve(M, i, a[..]);
    }
    ok := true;
  }

  /** A fitted polynomial: `coeffs[i]` is the coefficient of value^i, and `calculated` records
      whether the fit in the constructor succeeded. */
  class Polynomial {
    var coeffs: seq<real>
    var calculated: bool

    /** Fits a polynomial of degree `power` to the samples (x[j], y[j]). The source throws for a
        negative `power` once the inputs pass validation; that case is excluded. */
    constructor (x: seq<real>, y: seq<real>, power: int)
      requires power >= 0 || |x| != |y| || |x| == 0
      ensures calculated <==> |x| == |y| && |x| > 0 && Solvable(Reduced(x, y, power))
      ensures calculated ==> (|x| == |y| && power >= 0 && Solvable(Reduced(x, y, power))
        && coeffs == Fit(x, y, power))
      ensures !calculated ==> coeffs == [0.0]
      ensures calculated ==> Solves(NormalMatrix(x, y, power), coeffs)
      ensures calculated ==> OrthogonalResiduals(x, y, coeffs)
      ensures |x| == |y| && |x| > 0 && power == 0 ==> calculated && coeffs == [Sum(y) / (|y| as real)]
    {
      coeffs := [0.0];
      calculated := false;
      new;
      var ok := Resolve(x, y, power);
      calculated := ok;
      if ok {
        assert |coeffs| - 1 == power;
        NormalEquationsIffOrthogonal(x, y, coeffs);
      }
    }

    /** Validates the samples, builds and solves the normal equations, and on success replaces
        the coefficients with the solution. It fails exactly when the samples are invalid or a
        division by zero would occur. */
    method Resolve(x: seq<real>, y: seq<real>, power: int) returns (ok: bool)
      requires power >= 0 || |x| != |y| || |x| == 0
      modifies this`coeffs
      ensures ok <==> |x| == |y| && |x| > 0 && Solvable(Reduced(x, y, power))
      ensures ok ==> (|x| == |y| && power >= 0 && Solvable(Reduced(x, y, power))
        && coeffs == Fit(x, y, power))
      ensures !ok ==> coeffs == old(coeffs)
      ensures ok ==> Solves(NormalMatrix(x, y, power), coeffs)
      ensures |x| == |y| && |x| > 0 && power == 0 ==> ok && coeffs == [Sum(y) / (|y| as real)]
    {
      if |x| != |y| {
        return false;
      }
      if |x| == 0 || |y| == 0 {
        return false;
      }
      if power == 0 {
        DegreeZeroFit(x, y);
      }
      var B := BuildSystem(x, y, power);
      SwapPhase(B);
      ok := Eliminate(B);
      assert Rows(B) == Reduced(x, y, power);
      if !ok {
        return;
      }
      var a;
      ok, a := BackSubstitute(B);
      if !ok {
        return;
      }
      coeffs := a[..];
      FitSolvesNormalEquations(x, y, power);
    }

    /** The fitted value Σ_i coeffs[i] · value^i. */
    method Calculate(value: real) returns (r: real)
      ensures r == PolyValue(coeffs, value)
    {
      r := 0.0;
      for i := 0 to |coeffs|
        invariant r == PolyValue(coeffs[..i], value)
      {
        assert coeffs[..i + 1][..i] == coeffs[..i];
        r := r + coeffs[i] * Pow(value, i);
      }
      assert coeffs[..|coeffs|] == coeffs;
    }

    /** A copy of the coefficients. */
    method GetCoeffs() returns (c: seq<real>)
      ensures c == coeffs
    {
      c := coeffs;
    }
  }
}
