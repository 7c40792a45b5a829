/** The three phases of Polynomial::resolve that follow the construction of the normal
    equations (row exchanges, forward elimination, back-substitution) as functions on the rows
    of an augmented system, and what each phase guarantees. */
module Solver {
  import opened Algebra
  import opened LinearSystem
  import opened NormalEquations

  // Row exchanges

  /** Rows i and k are exchanged when the entry of row k in column i is greater, compared
      signed, than the current pivot M[i][i]; otherwise nothing changes. */
  ghost function ExchangeStep(M: seq<seq<real>>, i: nat, k: nat): (N: seq<seq<real>>)
    requires IsAugmented(M) && i < |M| && k < |M|
    ensures |N| == |M| && IsAugmented(N)
  {
    if M[i][i] < M[k][i] then M[i := M[k]][k := M[i]] else M
  }

  /** The scan of column i over rows k, k + 1, …, |M| − 1, one exchange test per row. */
  ghost function ExchangeColumn(M: seq<seq<real>>, i: nat, k: nat): (N: seq<seq<real>>)
    requires IsAugmented(M) && i < |M| && k <= |M|
    ensures |N| == |M| && IsAugmented(N)
    decreases |M| - k
  {
    if k == |M| then M else ExchangeColumn(ExchangeStep(M, i, k), i, k + 1)
  }

  /** The whole exchange phase from column i on: each column is scanned from the row below its
      diagonal, and every column is done before any elimination starts. */
  ghost function ExchangeRows(M: seq<seq<real>>, i: nat): (N: seq<seq<real>>)
    requires IsAugmented(M) && i <= |M|
    ensures |N| == |M| && IsAugmented(N)
    decreases |M| - i
  {
    if i == |M| then M else ExchangeRows(ExchangeColumn(M, i, i + 1), i + 1)
  }

  /** In each of the first `upto` columns, the diagonal entry is no smaller than any entry below it. */
  ghost predicate ColumnsOrdered(M: seq<seq<real>>, upto: nat)
    requires IsAugmented(M) && upto <= |M|
  {
    forall i, k {:trigger M[k][i]} :: 0 <= i < upto && i < k < |M| ==> M[k][i] <= M[i][i]
  }

  /** Rows i + 1 .. k − 1 hold no entry in column i greater than M[i][i]. */
  ghost predicate PivotDominates(M: seq<seq<real>>, i: nat, k: nat)
    requires IsAugmented(M) && i < |M| && k <= |M|
  {
    forall k' {:trigger M[k'][i]} :: i < k' < k ==> M[k'][i] <= M[i][i]
  }

  /** One exchange test keeps the rows as a multiset and the earlier columns ordered, and
      afterwards the pivot dominates row k as well as every row scanned before it. */
  lemma ExchangeStepOrders(M: seq<seq<real>>, i: nat, k: nat)
    requires IsAugmented(M) && i < k < |M|
    requires ColumnsOrdered(M, i) && PivotDominates(M, i, k)
    ensures ColumnsOrdered(ExchangeStep(M, i, k), i)
    ensures PivotDominates(ExchangeStep(M, i, k), i, k + 1)
  {
    var N := ExchangeStep(M, i, k);
    if M[i][i] < M[k][i] {
      forall i', k' | 0 <= i' < i && i' < k' < |N|
        ensures N[k'][i'] <= N[i'][i']
      {
        assert N[i'] == M[i'];
        assert N[k'] == M[if k' == i then k else if k' == k then i else k'];
      }
    }
  }

  /** One exchange test reorders the equations and nothing more. */
  lemma ExchangeStepPermutes(M: seq<seq<real>>, i: nat, k: nat)
    requires IsAugmented(M) && i < |M| && k < |M|
    ensures multiset(ExchangeStep(M, i, k)) == multiset(M)
  {
  }

  /** Scanning column i from row k is one exchange test at row k, then the scan from k + 1. */
  lemma {:induction false} ExchangeColumnStep(M: seq<seq<real>>, i: nat, k: nat)
    requires IsAugmented(M) && i < |M| && k < |M|
    ensures ExchangeColumn(M, i, k) == ExchangeColumn(ExchangeStep(M, i, k), i, k + 1)
  {
  }

  /** The exchange tests of column i against rows i + 1, …, k − 1. */
  ghost function ExchangeUpTo(M: seq<seq<real>>, i: nat, k: nat): (N: seq<seq<real>>)
    requires IsAugmented(M) && i < k <= |M|
    ensures |N| == |M| && IsAugmented(N)
    decreases k
  {
    if k == i + 1 then M else ExchangeStep(ExchangeUpTo(M, i, k - 1), i, k - 1)
  }

  /** The tests done so far followed by the tests still to come make the whole scan. */
  lemma {:induction false} ExchangeSplit(M: seq<seq<real>>, i: nat, k: nat)
    requires IsAugmented(M) && i < k <= |M|
    ensures ExchangeColumn(ExchangeUpTo(M, i, k), i, k) == ExchangeColumn(M, i, i + 1)
    decreases k
  {
    if k > i + 1 {
      var P := ExchangeUpTo(M, i, k - 1);
      ExchangeSplit(M, i, k - 1);
      ExchangeColumnStep(P, i, k - 1);
      assert ExchangeUpTo(M, i, k) == ExchangeStep(P, i, k - 1);
      assert ExchangeColumn(ExchangeStep(P, i, k - 1), i, k) == ExchangeColumn(P, i, k - 1);
      assert ExchangeColumn(ExchangeUpTo(M, i, k), i, k) == ExchangeColumn(M, i, i + 1);
    } else {
      assert ExchangeUpTo(M, i, k) == M;
      assert ExchangeColumn(ExchangeUpTo(M, i, k), i, k) == ExchangeColumn(M, i, i + 1);
    }
  }

  /** The scan of column i only reorders the rows. */
  lemma {:induction false} ExchangeColumnPermutes(M: seq<seq<real>>, i: nat, k: nat)
    requires IsAugmented(M) && i < |M| && k <= |M|
    ensures multiset(ExchangeColumn(M, i, k)) == multiset(M)
    decreases |M| - k
  {
    if k < |M| {
      var N := ExchangeStep(M, i, k);
      ExchangeStepPermutes(M, i, k);
      ExchangeColumnPermutes(N, i, k + 1);
      ExchangeColumnStep(M, i, k);
      assert ExchangeColumn(M, i, k) == ExchangeColumn(N, i, k + 1);
    } else {
      assert ExchangeColumn(M, i, k) == M;
    }
  }

  /** The scan of column i leaves M[i][i] no smaller than any entry below it; columns already
      ordered stay ordered. */
  lemma {:induction false} ExchangeColumnOrders(M: seq<seq<real>>, i: nat, k: nat)
    requires IsAugmented(M) && i < k <= |M|
    requires ColumnsOrdered(M, i) && PivotDominates(M, i, k)
    ensures ColumnsOrdered(ExchangeColumn(M, i, k), i + 1)
    decreases |M| - k
  {
    if k < |M| {
      var N := ExchangeStep(M, i, k);
      ExchangeStepOrders(M, i, k);
      ExchangeColumnOrders(N, i, k + 1);
      ExchangeColumnStep(M, i, k);
      assert ExchangeColumn(M, i, k) == ExchangeColumn(N, i, k + 1);
    } else {
      assert ExchangeColumn(M, i, k) == M;
      ColumnScanned(M, i);
    }
  }

  /** Once the pivot of column i dominates every row below it, column i is ordered too. */
  lemma ColumnScanned(M: seq<seq<real>>, i: nat)
    requires IsAugmented(M) && i < |M|
    requires ColumnsOrdered(M, i) && PivotDominates(M, i, |M|)
    ensures ColumnsOrdered(M, i + 1)
  {
    forall i', k' | 0 <= i' < i + 1 && i' < k' < |M|
      ensures M[k'][i'] <= M[i'][i']
    {
    }
  }

  /** The exchange phase only reorders the equations. */
  lemma {:induction false} ExchangeRowsPermutes(M: seq<seq<real>>, i: nat)
    requires IsAugmented(M) && i <= |M|
    ensures multiset(ExchangeRows(M, i)) == multiset(M)
    decreases |M| - i
  {
    if i < |M| {
      var N := ExchangeColumn(M, i, i + 1);
      ExchangeColumnPermutes(M, i, i + 1);
      ExchangeRowsPermutes(N, i + 1);
      assert ExchangeRows(M, i) == ExchangeRows(N, i + 1);
    } else {
      assert ExchangeRows(M, i) == M;
    }
  }

  /** After the exchange phase every diagonal entry is no smaller (signed) than the entries
      below it. */
  lemma {:induction false} ExchangeRowsOrders(M: seq<seq<real>>, i: nat)
    requires IsAugmented(M) && i <= |M| && ColumnsOrdered(M, i)
    ensures ColumnsOrdered(ExchangeRows(M, i), |M|)
    decreases |M| - i
  {
    if i < |M| {
      var N := ExchangeColumn(M, i, i + 1);
      ExchangeColumnOrders(M, i, i + 1);
      ExchangeRowsOrders(N, i + 1);
      assert ExchangeRows(M, i) == ExchangeRows(N, i + 1);
    } else {
      assert ExchangeRows(M, i) == M;
    }
  }

  // Forward elimination

  /** Rows k, k + 1, …, |M| − 1 each lose M[r][i] / M[i][i] times the pivot row i. */
  ghost function EliminateRows(M: seq<seq<real>>, i: nat, k: nat): (N: seq<seq<real>>)
    requires IsAugmented(M) && i < k <= |M| && M[i][i] != 0.0
    ensures |N| == |M| && IsAugmented(N)
    decreases |M| - k
  {
    if k == |M| then M
    else EliminateRows(M[k := Combine(M[k], M[k][i] / M[i][i], M[i])], i, k + 1)
  }

  /** Forward elimination from column i on, without further exchanges. It stops at the first
      zero pivot, by which the source would divide; the last column needs no elimination. */
  ghost function Eliminated(M: seq<seq<real>>, i: nat): (N: seq<seq<real>>)
    requires IsAugmented(M) && i <= |M|
    ensures |N| == |M| && IsAugmented(N)
    decreases |M| - i
  {
    if i + 1 >= |M| || M[i][i] == 0.0 then M
    else Eliminated(EliminateRows(M, i, i + 1), i + 1)
  }

  /** Elimination from column i is the row operations below pivot i, then elimination from
      column i + 1; rows 0 .. i are left as they were. */
  lemma {:induction false} EliminatedStep(M: seq<seq<real>>, i: nat)
    requires IsAugmented(M) && i + 1 < |M| && M[i][i] != 0.0
    ensures Eliminated(M, i) == Eliminated(EliminateRows(M, i, i + 1), i + 1)
    ensures forall r :: 0 <= r <= i ==> EliminateRows(M, i, i + 1)[r] == M[r]
  {
    EliminateRowsKeeps(M, i, i + 1);
  }

  /** Eliminating below pivot i from row k on leaves rows 0 .. k − 1 as they were. */
  lemma {:induction false} EliminateRowsKeeps(M: seq<seq<real>>, i: nat, k: nat)
    requires IsAugmented(M) && i < k <= |M| && M[i][i] != 0.0
    ensures forall r :: 0 <= r < k ==> EliminateRows(M, i, k)[r] == M[r]
    decreases |M| - k
  {
    if k < |M| {
      EliminateRowsKeeps(M[k := Combine(M[k], M[k][i] / M[i][i], M[i])], i, k + 1);
    }
  }

  /** Each row operation clears its entry of column i and keeps the solution set; columns
      already cleared stay cleared, because the pivot row is zero there too. */
  lemma {:induction false} EliminateRowsClears(M: seq<seq<real>>, i: nat, k: nat)
    requires IsAugmented(M) && i < k <= |M| && M[i][i] != 0.0
    requires forall j, r :: 0 <= j < i && j < r < |M| ==> M[r][j] == 0.0
    requires forall r :: i < r < k ==> M[r][i] == 0.0
    ensures forall j, r :: 0 <= j <= i && j < r < |M| ==> EliminateRows(M, i, k)[r][j] == 0.0
    ensures forall a :: Solves(EliminateRows(M, i, k), a) <==> Solves(M, a)
    decreases |M| - k
  {
    if k < |M| {
      var t := M[k][i] / M[i][i];
      var N := M[k := Combine(M[k], t, M[i])];
      DivideOut(M[i][i], t, M[k][i]);
      assert N[k][i] == 0.0;
      forall a
        ensures Solves(N, a) <==> Solves(M, a)
      {
        RowOperationPreservesSolutions(M, i, k, t, a);
      }
      EliminateRowsClears(N, i, k + 1);
    }
  }

  /** Elimination keeps the solution set, and when it meets no zero pivot the coefficient block
      ends upper triangular. */
  lemma {:induction false} EliminatedTriangular(M: seq<seq<real>>, i: nat)
    requires IsAugmented(M) && i <= |M|
    requires forall j, r :: 0 <= j < i && j < r < |M| ==> M[r][j] == 0.0
    ensures forall a :: Solves(Eliminated(M, i), a) <==> Solves(M, a)
    ensures (forall j :: i <= j < |M| - 1 ==> Eliminated(M, i)[j][j] != 0.0) ==>
      UpperTriangular(Eliminated(M, i))
    decreases |M| - i
  {
    if i + 1 < |M| && M[i][i] != 0.0 {
      EliminateRowsClears(M, i, i + 1);
      EliminatedTriangular(EliminateRows(M, i, i + 1), i + 1);
    } else if i + 1 < |M| {
      assert Eliminated(M, i)[i][i] == 0.0;
    }
  }

  // Back-substitution

  /** Unknown r solved from its own equation with every other unknown at its current value:
      a[r] := (M[r][n] − Σ_{j ≠ r} M[r][j] · a[j]) / M[r][r]. */
  ghost function Substitute(M: seq<seq<real>>, r: nat, a: seq<real>): (s: seq<real>)
    requires IsAugmented(M) && r < |M| && |a| == |M| && M[r][r] != 0.0
    ensures |s| == |M|
  {
    a[r := (M[r][|M|] - Dot(M[r], a[r := 0.0])) / M[r][r]]
  }

  /** Unknowns i − 1, i − 2, …, 0 in turn, each by Substitute. It stops at the first zero
      diagonal entry, by which the source would divide. */
  ghost function BackSolve(M: seq<seq<real>>, i: nat, a: seq<real>): (s: seq<real>)
    requires IsAugmented(M) && i <= |M| && |a| == |M|
    ensures |s| == |M|
    decreases i
  {
    if i == 0 || M[i - 1][i - 1] == 0.0 then a
    else BackSolve(M, i - 1, Substitute(M, i - 1, a))
  }

  /** n unknowns, all zero: the vector back-substitution starts from. */
  ghost function Zeros(n: nat): seq<real>
  {
    seq(n, _ => 0.0)
  }

  /** Setting unknown i, still zero in a0, to (M[i][n] − Σ_j M[i][j] · a0[j]) / M[i][i] makes
      row i hold. */
  lemma SolveRow(M: seq<seq<real>>, a0: seq<real>, i: nat, v: real)
    requires IsAugmented(M) && |a0| == |M| && i < |M|
    requires a0[i] == 0.0 && M[i][i] != 0.0
    requires v == (M[i][|M|] - Dot(M[i], a0)) / M[i][i]
    ensures RowHolds(M[i], a0[i := v])
  {
    var row, rest := M[i], M[i][|M|] - Dot(M[i], a0);
    assert Dot(row, a0[i := v]) == Dot(row, a0) + row[i] * v by {
      DotUpdate(row, a0, i, v);
      assert v - a0[i] == v;
    }
    DivideOut(row[i], v, rest);
  }

  /** After setting unknown i, every row below it that held still holds: in an upper-triangular
      system their entry in column i is zero. */
  lemma KeepRowsBelow(M: seq<seq<real>>, a0: seq<real>, i: nat, v: real)
    requires IsAugmented(M) && |a0| == |M| && i < |M|
    requires UpperTriangular(M)
    ensures forall r :: i < r < |M| && RowHolds(M[r], a0) ==> RowHolds(M[r], a0[i := v])
  {
    forall r | i < r < |M| && RowHolds(M[r], a0)
      ensures RowHolds(M[r], a0[i := v])
    {
      DotUpdate(M[r], a0, i, v);
    }
  }

  /** On an upper-triangular system with a nonzero diagonal, back-substitution solves every
      equation. */
  lemma {:induction false} BackSolveSolves(M: seq<seq<real>>, i: nat, a: seq<real>)
    requires IsAugmented(M) && UpperTriangular(M) && i <= |M| && |a| == |M|
    requires forall r :: 0 <= r < i ==> M[r][r] != 0.0
    requires forall r :: 0 <= r < i ==> a[r] == 0.0
    requires forall r :: i <= r < |M| ==> RowHolds(M[r], a)
    ensures Solves(M, BackSolve(M, i, a))
    decreases i
  {
    if i > 0 {
      var r := i - 1;
      assert a[r := 0.0] == a;
      var v := (M[r][|M|] - Dot(M[r], a)) / M[r][r];
      SolveRow(M, a, r, v);
      KeepRowsBelow(M, a, r, v);
      assert Substitute(M, r, a) == a[r := v];
      BackSolveSolves(M, r, a[r := v]);
    }
  }

  // The whole solver

  /** The system resolve ends with: the normal equations after the exchange phase and forward
      elimination. */
  ghost function Reduced(x: seq<real>, y: seq<real>, power: nat): (U: seq<seq<real>>)
    requires |x| == |y|
    ensures |U| == power + 1 && IsAugmented(U)
  {
    Eliminated(ExchangeRows(NormalMatrix(x, y, power), 0), 0)
  }

  /** No diagonal entry is zero: neither elimination nor back-substitution divides by zero. */
  ghost predicate Solvable(U: seq<seq<real>>)
    requires IsAugmented(U)
  {
    forall r :: 0 <= r < |U| ==> U[r][r] != 0.0
  }

  /** The coefficients resolve stores when no division by zero occurs. */
  ghost function Fit(x: seq<real>, y: seq<real>, power: nat): (c: seq<real>)
    requires |x| == |y|
    ensures |c| == power + 1
  {
    var U := Reduced(x, y, power);
    BackSolve(U, |U|, Zeros(|U|))
  }

  /** Whenever no zero divisor occurs, the computed coefficients solve the normal equations of
      the samples: exchanges reorder the equations, elimination keeps the solution set and
      leaves a triangle, and back-substitution solves the triangle. */
  lemma FitSolvesNormalEquations(x: seq<real>, y: seq<real>, power: nat)
    requires |x| == |y| && Solvable(Reduced(x, y, power))
    ensures Solves(NormalMatrix(x, y, power), Fit(x, y, power))
  {
    var M0 := NormalMatrix(x, y, power);
    var M1 := ExchangeRows(M0, 0);
    var U := Eliminated(M1, 0);
    var c := Fit(x, y, power);
    ExchangeRowsPermutes(M0, 0);
    ExchangeRowsOrders(M0, 0);
    EliminatedTriangular(M1, 0);
    BackSolveSolves(U, |U|, Zeros(|U|));
    PermutationPreservesSolutions(M0, M1, c);
  }

  /** A degree-0 fit of at least one sample never divides by zero, and gives the mean. */
  lemma DegreeZeroFit(x: seq<real>, y: seq<real>)
    requires |x| == |y| && |x| > 0
    ensures Solvable(Reduced(x, y, 0))
    ensures Fit(x, y, 0) == [Sum(y) / (|y| as real)]
  {
    var M := NormalMatrix(x, y, 0);
    assert ExchangeRows(M, 0) == M by {
      assert ExchangeColumn(M, 0, 1) == M;
    }
    assert Reduced(x, y, 0) == M;
    assert M[0][0] == |x| as real by {
      NormalMatrixEntries(x, y, 0);
      PowerSumZero(x);
    }
    FitSolvesNormalEquations(x, y, 0);
    var c := Fit(x, y, 0);
    ConstantFit(x, y, c[0]);
    assert c == [c[0]];
  }
}
