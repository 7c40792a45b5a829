/** Exact-arithmetic counterparts of the sums the regression builds from its samples.
    Every sum is defined by peeling off its LAST term, so that a loop which accumulates
    from index 0 upwards keeps `acc == Sum(s[..j])` as its invariant. */
module Algebra {

  /** x^k for a natural exponent; x^0 is 1 for every x, 0 included (as C's pow). */
  function Pow(x: real, k: nat): real
    decreases k
  {
    if k == 0 then 1.0 else x * Pow(x, k - 1)
  }

  /** Σ_{k < |xs|} xs[k]^e: the e-th power sum of the measured values. */
  ghost function PowerSum(xs: seq<real>, e: nat): real
    decreases |xs|
  {
    if xs == [] then 0.0 else PowerSum(xs[..|xs| - 1], e) + Pow(xs[|xs| - 1], e)
  }

  /** Σ_{k < |xs|} xs[k]^e · ys[k]: the e-th moment of the true values. */
  ghost function Moment(xs: seq<real>, ys: seq<real>, e: nat): real
    requires |xs| == |ys|
    decreases |xs|
  {
    if xs == [] then 0.0
    else Moment(xs[..|xs| - 1], ys[..|ys| - 1], e) + Pow(xs[|xs| - 1], e) * ys[|ys| - 1]
  }

  /** Σ ys[k]. */
  ghost function Sum(ys: seq<real>): real
    decreases |ys|
  {
    if ys == [] then 0.0 else Sum(ys[..|ys| - 1]) + ys[|ys| - 1]
  }

  /** Σ_{i < |c|} c[i] · v^i: the polynomial whose i-th coefficient is c[i], evaluated at v. */
  ghost function PolyValue(c: seq<real>, v: real): real
    decreases |c|
  {
    if c == [] then 0.0 else PolyValue(c[..|c| - 1], v) + c[|c| - 1] * Pow(v, |c| - 1)
  }

  /** The zeroth power sum counts the samples. */
  lemma {:induction false} PowerSumZero(xs: seq<real>)
    ensures PowerSum(xs, 0) == |xs| as real
    decreases |xs|
  {
    if xs != [] {
      PowerSumZero(xs[..|xs| - 1]);
    }
  }

  /** The zeroth moment is the plain sum of the true values. */
  lemma {:induction false} MomentZero(xs: seq<real>, ys: seq<real>)
    requires |xs| == |ys|
    ensures Moment(xs, ys, 0) == Sum(ys)
    decreases |xs|
  {
    if xs != [] {
      MomentZero(xs[..|xs| - 1], ys[..|ys| - 1]);
    }
  }

  /** Dividing by a nonzero d undoes multiplying by it. */
  lemma DivideOut(d: real, c: real, s: real)
    requires d != 0.0
    ensures d * c == s <==> c == s / d
  {
  }
}
