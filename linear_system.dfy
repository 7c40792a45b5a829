/** Augmented linear systems as sequences of rows. A system of n equations in n unknowns
    is n rows of n + 1 entries: row r states Σ_{j < n} r[j] · a[j] == r[n]. */
module LinearSystem {

  /** Σ_{j < |a|} r[j] · a[j]: the left-hand side of the equation with coefficients r. */
  ghost function Dot(r: seq<real>, a: seq<real>): real
    requires |a| <= |r|
    decreases |a|
  {
    if a == [] then 0.0 else Dot(r, a[..|a| - 1]) + r[|a| - 1] * a[|a| - 1]
  }

  /** The equation given by row r (right-hand side last) holds for the unknowns a. */
  ghost predicate RowHolds(r: seq<real>, a: seq<real>)
  {
    |r| == |a| + 1 && Dot(r, a) == r[|a|]
  }

  /** a solves every equation of M. */
  ghost predicate Solves(M: seq<seq<real>>, a: seq<real>)
  {
    forall i :: 0 <= i < |M| ==> RowHolds(M[i], a)
  }

  /** M is square with one extra right-hand-side column. */
  ghost predicate IsAugmented(M: seq<seq<real>>)
  {
    forall i :: 0 <= i < |M| ==> |M[i]| == |M| + 1
  }

  /** Every entry below the diagonal of the coefficient block is zero. */
  ghost predicate UpperTriangular(M: seq<seq<real>>)
    requires IsAugmented(M)
  {
    forall k, j :: 0 <= j < k < |M| ==> M[k][j] == 0.0
  }

  /** r − t·p, the row operation of Gaussian elimination. */
  ghost function Combine(r: seq<real>, t: real, p: seq<real>): seq<real>
    requires |p| == |r|
  {
    seq(|r|, j requires 0 <= j < |r| => r[j] - t * p[j])
  }

  /** The rows of a two-dimensional array, as values. */
  ghost function Rows(B: array2<real>): (M: seq<seq<real>>)
    reads B
    ensures |M| == B.Length0
    ensures forall i :: 0 <= i < |M| ==> |M[i]| == B.Length1
    ensures forall i, j :: 0 <= i < B.Length0 && 0 <= j < B.Length1 ==> M[i][j] == B[i, j]
  {
    seq(B.Length0, i requires 0 <= i < B.Length0 reads B =>
      seq(B.Length1, j requires 0 <= j < B.Length1 reads B => B[i, j]))
  }

  /** Two arrays' row views agree once their entries do. */
  lemma RowsFromEntries(B: array2<real>, M: seq<seq<real>>)
    requires |M| == B.Length0
    requires forall i :: 0 <= i < |M| ==> |M[i]| == B.Length1
    requires forall i, j :: 0 <= i < B.Length0 && 0 <= j < B.Length1 ==> B[i, j] == M[i][j]
    ensures Rows(B) == M
  {
    forall i | 0 <= i < |M|
      ensures Rows(B)[i] == M[i]
    {
    }
  }

  /** Only the first |a| entries of a row enter its left-hand side. */
  lemma {:induction false} DotAgree(r1: seq<real>, r2: seq<real>, a: seq<real>)
    requires |a| <= |r1| && |a| <= |r2|
    requires forall j :: 0 <= j < |a| ==> r1[j] == r2[j]
    ensures Dot(r1, a) == Dot(r2, a)
    decreases |a|
  {
    if a != [] {
      DotAgree(r1, r2, a[..|a| - 1]);
    }
  }

  /** Extending the unknowns by one term adds that term to the left-hand side. */
  lemma {:induction false} DotExtend(r: seq<real>, a: seq<real>, j: nat)
    requires j < |a| <= |r|
    ensures Dot(r, a[..j + 1]) == Dot(r, a[..j]) + r[j] * a[j]
  {
    assert a[..j + 1][..j] == a[..j];
  }

  /** Changing one unknown changes the left-hand side by that unknown's coefficient times the change. */
  lemma {:induction false} DotUpdate(r: seq<real>, a: seq<real>, i: nat, v: real)
    requires i < |a| <= |r|
    ensures Dot(r, a[i := v]) == Dot(r, a) + r[i] * (v - a[i])
    decreases |a|
  {
    var m := |a| - 1;
    if i == m {
      assert a[i := v][..m] == a[..m];
    } else {
      assert a[i := v][..m] == a[..m][i := v];
      DotUpdate(r, a[..m], i, v);
    }
  }

  /** The left-hand side is linear in the row. */
  lemma {:induction false} DotCombine(r: seq<real>, t: real, p: seq<real>, a: seq<real>)
    requires |p| == |r| && |a| <= |r|
    ensures Dot(Combine(r, t, p), a) == Dot(r, a) - t * Dot(p, a)
    decreases |a|
  {
    if a != [] {
      var m := |a| - 1;
      DotCombine(r, t, p, a[..m]);
      assert (r[m] - t * p[m]) * a[m] == r[m] * a[m] - t * (p[m] * a[m]);
    }
  }

  /** Replacing row k by row k − t·(row i), i ≠ k, keeps the solution set of the system. */
  lemma RowOperationPreservesSolutions(M: seq<seq<real>>, i: nat, k: nat, t: real, a: seq<real>)
    requires i < |M| && k < |M| && i != k
    requires |M[k]| == |M[i]|
    ensures Solves(M[k := Combine(M[k], t, M[i])], a) <==> Solves(M, a)
  {
    var N := M[k := Combine(M[k], t, M[i])];
    assert N[i] == M[i];
    if |M[i]| == |a| + 1 {
      DotCombine(M[k], t, M[i], a);
      if Solves(M, a) {
        assert RowHolds(M[i], a) && RowHolds(M[k], a);
        assert RowHolds(N[k], a);
      }
      if Solves(N, a) {
        assert RowHolds(N[i], a) && RowHolds(N[k], a);
        forall r | 0 <= r < |M|
          ensures RowHolds(M[r], a)
        {
          assert r != k ==> M[r] == N[r] && RowHolds(N[r], a);
        }
      }
    } else {
      assert !RowHolds(M[i], a);
    }
  }

  /** Every equation of N is an equation of M, so a solution of M solves N. */
  lemma SolvesSubsystem(M: seq<seq<real>>, N: seq<seq<real>>, a: seq<real>)
    requires multiset(N) <= multiset(M)
    requires Solves(M, a)
    ensures Solves(N, a)
  {
    forall j | 0 <= j < |N|
      ensures RowHolds(N[j], a)
    {
      assert N[j] in multiset(N);
      assert N[j] in M;
    }
  }

  /** Reordering the equations keeps the solution set of the system. */
  lemma PermutationPreservesSolutions(M: seq<seq<real>>, N: seq<seq<real>>, a: seq<real>)
    requires multiset(M) == multiset(N)
    ensures Solves(M, a) <==> Solves(N, a)
  {
    if Solves(M, a) {
      SolvesSubsystem(M, N, a);
    }
    if Solves(N, a) {
      SolvesSubsystem(N, M, a);
    }
  }
}
