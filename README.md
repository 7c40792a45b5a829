# Polynomial least-squares regression, modelled in Dafny

The repository fits a polynomial of a requested degree to paired samples (a measured value
`x[j]` and a true value `y[j]`). The class template `Regressions::Polynomial<T>` in
`src/kernel/regressions/inc/regressions.hpp` does all the work.

- Its constructor runs the private `resolve` and stores the success flag in `m_calculated`.
- `resolve` validates the samples. It builds the augmented normal-equation matrix from power sums
  and moments, then reorders rows in a swap phase, eliminates forward, and back-substitutes into
  the coefficient vector `m_coeffs`.
- `calculate` evaluates Σ `m_coeffs[i]` · value^i.
- `get_coeffs` returns the coefficients.

The model keeps that structure. `resolve`'s loops that fill or rewrite its buffers become methods:
- over the one-dimensional arrays `X` and `Y` (power sums and moments);
- over an `array2<real>` for the augmented matrix `B` (filling, exchanges, elimination);
- over an `array<real>` for the unknowns `a` (back-substitution).

The final copy of `a` into `m_coeffs` is one assignment `coeffs := a[..]`. Each method is proved
against a specification stated on values. The class keeps its two fields.

- `algebra.dfy` (module `Algebra`) defines the exact sums the solver accumulates:
  - `Pow`;
  - `PowerSum`, which is Σ x^e;
  - `Moment`, which is Σ x^e · y;
  - `Sum`;
  - `PolyValue`, which is the value of the polynomial with coefficients `c`.
- `linear_system.dfy` (module `LinearSystem`) defines the following:
  - augmented linear systems as sequences of rows;
  - `Solves`, meaning a vector satisfies every equation;
  - `Rows`, the row view of a two-dimensional array;
  - the two facts Gaussian elimination rests on: reordering rows, and subtracting a multiple of
    one row from another, both leave the set of solutions unchanged.
- `normal_equations.dfy` (module `NormalEquations`) defines `NormalMatrix`, the matrix `resolve`
  builds. It proves the following:
  - a coefficient vector solves these equations exactly when the residuals of its polynomial are
    orthogonal to 1, x, …, x^degree, which is the first-order condition of least squares;
  - samples lying on a polynomial make that polynomial a solution;
  - a degree-0 fit has exactly one solution, the mean of the true values.
- `solver.dfy` (module `Solver`) states the three phases of the solver as functions on values:
  - `ExchangeStep`, `ExchangeColumn` and `ExchangeRows` are the row exchanges;
  - `EliminateRows` and `Eliminated` are forward elimination, stopping at a zero pivot;
  - `Substitute` and `BackSolve` are back-substitution, stopping at a zero diagonal entry.

  `Reduced` is the system after exchanges and elimination, `Solvable` says its diagonal has no
  zero, and `Fit` is the coefficient vector the three phases compute. The module proves that
  exchanges only reorder the equations and order each column, that elimination keeps the
  solutions and leaves a triangle, and that `Fit` solves the normal equations whenever
  `Solvable` holds.
- `regressions.dfy` (module `Regressions`) holds the phases of `resolve` as methods, each proved
  equal to its function in `Solver`. It also holds the class `Polynomial` with `coeffs` and
  `calculated`.
- `stall.dfy` (module `ExchangeStall`) exhibits a well-posed fit on which the exchanges and
  elimination meet a zero pivot (see "Left out").

Where the C++ divides by zero, the model fails instead: a zero pivot in elimination, or a zero
diagonal entry in back-substitution. With IEEE doubles those divisions give `NaN` or `Inf`
coefficients, and `resolve` still returns `true`. Exact reals have no such values. So in the model
`resolve` returns `false` at exactly those points and leaves the coefficients unchanged.

The code differs from textbook Gaussian elimination with partial pivoting, and the model follows
the code:
- The row exchanges compare signed entries (`B[i][i] < B[k][i]`), not absolute values.
- Every exchange is finished before elimination starts, so the pivots are not chosen among the
  rows as elimination leaves them.
- There is no tolerance test for a near-zero pivot.
- `calculate` and `get_coeffs` are not gated on a successful fit. They use whatever coefficients
  are stored, initially `{0}`.

## Model

| member | source | states |
|---|---|---|
| Regressions.PowerSums | src/kernel/regressions/inc/regressions.hpp:78-84 | X[e] is the power sum Σ_j x[j]^e for every e < 2·power + 1 |
| Regressions.Moments | src/kernel/regressions/inc/regressions.hpp:94-102 | Y[e] is the moment Σ_j x[j]^e · y[j] for every e <= power |
| Regressions.FillCoefficients | src/kernel/regressions/inc/regressions.hpp:90-92 | B[i][j] = X[i + j] on the (n+1)×(n+1) block; the right-hand-side column is untouched |
| Regressions.FillRightHandSides | src/kernel/regressions/inc/regressions.hpp:104-105 | B[i][n+1] = Y[i]; the coefficient block is untouched |
| Regressions.BuildSystem | src/kernel/regressions/inc/regressions.hpp:78-105 | the freshly allocated (power+1)×(power+2) array holds exactly the normal-equation matrix `NormalMatrix(x, y, power)` |
| NormalEquations.NormalMatrix | src/kernel/regressions/inc/regressions.hpp:88-105 | the system is square plus one column; its coefficient block is symmetric; row i's right-hand side is the i-th moment |
| NormalEquations.NormalMatrixEntries | src/kernel/regressions/inc/regressions.hpp:90-92 | entry (i, j) of the coefficient block is the power sum of exponent i + j (a Hankel matrix) |
| Regressions.HoldsNormalMatrix | src/kernel/regressions/inc/regressions.hpp:88-105 | an array holding those power sums and moments is the normal-equation matrix |
| Regressions.SwapRows | src/kernel/regressions/inc/regressions.hpp:113-118 | rows i and k are exchanged and every other row is unchanged |
| Regressions.ExchangeTest | src/kernel/regressions/inc/regressions.hpp:112-118 | row k is swapped into row i exactly when B[i][i] < B[k][i] (signed); otherwise nothing changes (`ExchangeStep`) |
| Regressions.OrderColumn | src/kernel/regressions/inc/regressions.hpp:111-118 | the rows become `ExchangeColumn(old rows, i, i + 1)`: the tests against rows i + 1, …, n − 1 in that order, each seeing the rows the earlier ones left |
| Regressions.SwapPhase | src/kernel/regressions/inc/regressions.hpp:110-118 | the rows become `ExchangeRows(old rows, 0)`: the column scans for i = 0, …, n − 1 in order, all before elimination |
| Solver.ExchangeStepPermutes | src/kernel/regressions/inc/regressions.hpp:112-118 | one exchange test only reorders the equations (same multiset of rows) |
| Solver.ExchangeStepOrders | src/kernel/regressions/inc/regressions.hpp:112-118 | after a test at row k, row i dominates rows i + 1..k in column i (signed) and the earlier columns stay ordered |
| Solver.ExchangeColumnStep | src/kernel/regressions/inc/regressions.hpp:111-118 | the scan from row k is one exchange test at row k followed by the scan from row k + 1 |
| Solver.ExchangeSplit | src/kernel/regressions/inc/regressions.hpp:111-118 | the tests done so far (`ExchangeUpTo`) followed by those still to come make the whole column scan |
| Solver.ExchangeColumnPermutes | src/kernel/regressions/inc/regressions.hpp:111-118 | the scan of one column only reorders the equations |
| Solver.ExchangeColumnOrders | src/kernel/regressions/inc/regressions.hpp:111-118 | after the scan of column i, B[i][i] >= B[k][i] for every k > i, and the earlier columns stay ordered |
| Solver.ColumnScanned | src/kernel/regressions/inc/regressions.hpp:111-118 | once row i dominates every row below it in column i, columns 0..i are ordered |
| Solver.ExchangeRowsPermutes | src/kernel/regressions/inc/regressions.hpp:110-118 | the whole exchange phase only reorders the equations (same multiset of rows) |
| Solver.ExchangeRowsOrders | src/kernel/regressions/inc/regressions.hpp:110-118 | after the whole exchange phase every diagonal entry is no smaller (signed) than the entries below it |
| LinearSystem.PermutationPreservesSolutions | src/kernel/regressions/inc/regressions.hpp:110-118 | reordering equations (equal multisets of rows) keeps the solution set, in both directions |
| LinearSystem.SolvesSubsystem | src/kernel/regressions/inc/regressions.hpp:110-118 | a solution of a system solves every sub-multiset of its equations |
| Regressions.SubtractRow | src/kernel/regressions/inc/regressions.hpp:124-125 | row k becomes row k − t·row i entry by entry and every other row is unchanged |
| LinearSystem.DotCombine | src/kernel/regressions/inc/regressions.hpp:124-125 | the left-hand side of row k − t·row i is the left-hand side of row k minus t times that of row i |
| LinearSystem.RowOperationPreservesSolutions | src/kernel/regressions/inc/regressions.hpp:121-126 | replacing row k by row k − t·row i (i ≠ k) keeps the solution set, in both directions |
| Regressions.EliminateColumn | src/kernel/regressions/inc/regressions.hpp:121-126 | with a nonzero pivot B[i][i], the rows become `EliminateRows(old rows, i, i + 1)`: each row k > i in turn, and nothing else, becomes row k − (B[k][i] / B[i][i]) · row i |
| Solver.EliminateRowsKeeps | src/kernel/regressions/inc/regressions.hpp:121-126 | eliminating below pivot i from row k on leaves rows 0..k − 1 as they were |
| Solver.EliminateRowsClears | src/kernel/regressions/inc/regressions.hpp:121-126 | with columns before i already cleared, eliminating below a nonzero pivot i clears column i below the diagonal, keeps the earlier columns cleared, and keeps the solution set |
| Regressions.Eliminate | src/kernel/regressions/inc/regressions.hpp:120-126 | the rows become `Eliminated(old rows, 0)`; it succeeds exactly when no pivot B[i][i], i < n − 1, is zero |
| Solver.EliminatedStep | src/kernel/regressions/inc/regressions.hpp:120-126 | elimination from column i is the row operations below pivot i followed by elimination from column i + 1, and leaves rows 0..i unchanged |
| Solver.EliminatedTriangular | src/kernel/regressions/inc/regressions.hpp:120-126 | elimination keeps the solution set, and when it meets no zero pivot the coefficient block ends upper triangular |
| Regressions.Remainder | src/kernel/regressions/inc/regressions.hpp:130-133 | returns B[i][n] − Σ_{j ≠ i} B[i][j] · a[j], reading but not changing the array |
| Regressions.SolveUnknown | src/kernel/regressions/inc/regressions.hpp:130-134 | a becomes `Substitute(B, i, old a)`: a[i] is that remainder divided by the nonzero B[i][i], and no other entry changes |
| Regressions.BackSubstitute | src/kernel/regressions/inc/regressions.hpp:128-135 | the unknowns are `BackSolve(B, n, 0…0)`, solved from i = n − 1 down; it succeeds exactly when no diagonal entry is zero |
| LinearSystem.DotUpdate | src/kernel/regressions/inc/regressions.hpp:130-134 | changing unknown i by δ changes a row's left-hand side by its column-i coefficient times δ |
| LinearSystem.DotExtend | src/kernel/regressions/inc/regressions.hpp:131-133 | one more term of the sum over j adds B[i][j] · a[j] |
| LinearSystem.DotAgree | src/kernel/regressions/inc/regressions.hpp:131-133 | only the first \|a\| entries of a row enter its left-hand side |
| Solver.SolveRow | src/kernel/regressions/inc/regressions.hpp:130-134 | dividing the remainder of equation i by a nonzero B[i][i] makes equation i hold |
| Solver.KeepRowsBelow | src/kernel/regressions/inc/regressions.hpp:128-135 | in an upper-triangular system, setting unknown i keeps every equation below row i that already held |
| Solver.BackSolveSolves | src/kernel/regressions/inc/regressions.hpp:128-135 | on an upper-triangular system with no zero diagonal entry, back-substitution gives a vector that satisfies every equation |
| Solver.FitSolvesNormalEquations | src/kernel/regressions/inc/regressions.hpp:110-135 | whenever exchanges and elimination leave no zero on the diagonal (`Solvable`), the computed coefficients `Fit` solve the normal equations of the samples |
| Solver.DegreeZeroFit | src/kernel/regressions/inc/regressions.hpp:110-135 | a degree-0 fit of at least one sample meets no zero divisor and gives the mean of y |
| Regressions.Polynomial.Resolve | src/kernel/regressions/inc/regressions.hpp:57-142 | returns true exactly when the sizes agree, there is at least one sample, and exchanges and elimination leave no zero on the diagonal; then `coeffs` is `Fit(x, y, power)`, has power + 1 entries and solves the normal equations; otherwise the coefficients are unchanged; a degree-0 fit always succeeds with the mean of y |
| Regressions.Polynomial.constructor | src/kernel/regressions/inc/regressions.hpp:152-159 | `calculated` is exactly `resolve`'s verdict; on success the coefficients are `Fit(x, y, power)`, solve the normal equations and leave residuals orthogonal to every power up to the degree; on failure they are the default {0}; a degree-0 fit gives the mean |
| Regressions.Polynomial.Calculate | src/kernel/regressions/inc/regressions.hpp:167-175 | returns the value of the stored polynomial, Σ_i coeffs[i] · value^i |
| Regressions.Polynomial.GetCoeffs | src/kernel/regressions/inc/regressions.hpp:182 | returns the stored coefficient vector |
| NormalEquations.PolyValueAsDot | src/kernel/regressions/inc/regressions.hpp:172 | the polynomial's value is the left-hand side of the row of powers 1, v, v², … against the coefficients |
| NormalEquations.PowRowShiftDot | src/kernel/regressions/inc/regressions.hpp:88-105 | supporting lemma of HankelDot: raising every exponent of a row of powers by one multiplies its left-hand side by x |
| NormalEquations.PowRowDot | src/kernel/regressions/inc/regressions.hpp:88-105 | supporting lemma of HankelDot: Σ_j c[j] · x^(i+j) = x^i · p(x), one sample's share of the left-hand side of equation i |
| NormalEquations.HankelRowSplit | src/kernel/regressions/inc/regressions.hpp:79-84 | one more sample adds its row of powers to every row of power sums |
| NormalEquations.DotOfZeroRow | src/kernel/regressions/inc/regressions.hpp:88-105 | supporting lemma of HankelDot: a row of zeros has a zero left-hand side |
| NormalEquations.HankelDotEmpty | src/kernel/regressions/inc/regressions.hpp:79-84 | with no samples every power sum is zero, so every left-hand side of the normal equations is zero |
| NormalEquations.HankelDot | src/kernel/regressions/inc/regressions.hpp:90-92 | the left-hand side of equation i is Σ_k x_k^i · p(x_k): sums over samples and over coefficients exchange |
| NormalEquations.ResidualSplit | src/kernel/regressions/inc/regressions.hpp:94-102 | the x^e-weighted residual sum is the fitted sum minus the e-th moment |
| NormalEquations.NormalEquationsIffOrthogonal | src/kernel/regressions/inc/regressions.hpp:88-105 | c solves the normal equations of degree \|c\| − 1 if and only if the residuals p(x_k) − y_k are orthogonal to 1, x, …, x^(\|c\|−1) |
| NormalEquations.ExactDataResidual | src/kernel/regressions/inc/regressions.hpp:94-102 | when every y_k equals p(x_k), every weighted residual sum is zero |
| NormalEquations.ExactDataSolves | src/kernel/regressions/inc/regressions.hpp:88-105 | when the samples lie exactly on a polynomial, its coefficients solve the normal equations of its degree |
| NormalEquations.ConstantFit | src/kernel/regressions/inc/regressions.hpp:88-105 | the degree-0 system has exactly one solution, the mean Σ y / N |
| Algebra.PowerSumZero | src/kernel/regressions/inc/regressions.hpp:79-84 | the power sum of exponent 0 is the number of samples |
| Algebra.MomentZero | src/kernel/regressions/inc/regressions.hpp:95-102 | the moment of exponent 0 is the plain sum of the true values |
| ExchangeStall.StallPowerSums | src/kernel/regressions/inc/regressions.hpp:78-84 | the samples −1/2, 1, 3/2, 3 have power sums 4, 5, 25/2, 125/4, 697/8 |
| ExchangeStall.SignedExchangeStalls | src/kernel/regressions/inc/regressions.hpp:110-126 | for those samples, degree 2 and any true values, the exchanges leave the equations in the order 2, 1, 0 and elimination of column 0 zeroes the second pivot: `resolve` fails |
| ExchangeStall.StalledFitIsWellPosed | src/kernel/regressions/inc/regressions.hpp:88-126 | that system is nonsingular (determinant 225) and, for data on 1 + x + x², solved by [1, 1, 1], yet the fit fails |

## Left out

- Floating point is not modelled. `T` (instantiated with `double` by the caller in `main.cpp`) is
  `real`, and `pow` is exact exponentiation by a natural number. Rounding and the `(T)` casts are
  not modelled. Neither is the `double` accumulator in `calculate`, which equals `T` for doubles.
- Regressions.Polynomial.Resolve: on a zero pivot or a zero diagonal entry the source divides by
  zero. It then stores `NaN`/`Inf` coefficients and returns `true`. The model returns `false` at
  those points and keeps the previous coefficients, because exact reals have no `NaN` or `Inf`.
- Regressions.Eliminate and Regressions.BackSubstitute: same difference as Resolve. They report
  failure at the first zero divisor instead of running on with non-finite values.
- Regressions.Polynomial.constructor and Regressions.Polynomial.Resolve require
  `power >= 0 || |x| != |y| || |x| == 0`. For valid samples and a negative `power` the source
  allocates a vector of negative size, which throws. Exceptions are not modelled.
- Regressions.Polynomial.Resolve and Regressions.Polynomial.constructor characterise success by
  `Solvable(Reduced(x, y, power))`, a condition on the computation, not on the samples. No
  condition on the samples alone is given for degree 1 or more, because the code as written does
  not succeed on every well-posed fit. `ExchangeStall.StalledFitIsWellPosed` shows this for
  x = [−1/2, 1, 3/2, 3], degree 2, and y = [3/4, 3, 19/4, 13] (on 1 + x + x²). The normal
  equations are nonsingular, with determinant 225, and are solved by [1, 1, 1]. The exchanges leave
  the rows [12.5 31.25 87.125], [5 12.5 31.25], [4 5 12.5], and eliminating column 0 makes the
  second pivot exactly 0. With doubles the C++ then divides by zero, or by rounding noise, and
  returns `true`.
- Uniqueness of the fitted coefficients in general, and minimality of the squared residual beyond
  the first-order condition, are not proved: they need determinants or positive definiteness,
  which are not modelled.
- Integer widths are not modelled: `int` and `size_t` indices (`2 * n + 1`) are unbounded.
- The serial-port readers (`COMS::USB`, `COMS::USART` in `abstracts.hpp` and `coms.hpp`) and the
  demonstration driver `main.cpp`, which prints the coefficients and reads the port, are not part
  of this model.
