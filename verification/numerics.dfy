/**
 * The floating-point functions of numpy the retrieval code calls, left
 * uninterpreted: weights and scores are reals, and nothing is assumed about
 * `log`, `log2` or `sqrt` beyond what a lemma states as its hypothesis.
 */
module Numerics {

  datatype Math = Math(
    log: real -> real,    // np.log, the natural logarithm
    log2: real -> real,   // np.log2
    sqrt: real -> real)   // x ** 0.5

  /** The one fact about logarithms the query weighting relies on. */
  predicate LogOfOneIsZero(m: Math) {
    m.log(1.0) == 0.0
  }

  /** The dot product of two vectors of equal length (`np.dot`). */
  function Dot(a: seq<real>, b: seq<real>): (r: real)
    requires |a| == |b|
    ensures (forall i :: 0 <= i < |b| ==> b[i] == 0.0) ==> r == 0.0
  {
    if a == [] then 0.0 else Dot(a[..|a| - 1], b[..|b| - 1]) + a[|a| - 1] * b[|b| - 1]
  }

  /** The dot product with a vector that is zero everywhere is zero. */
  lemma {:induction false} DotZero(a: seq<real>, b: seq<real>)
    requires |a| == |b|
    requires forall i :: 0 <= i < |a| ==> a[i] == 0.0
    ensures Dot(a, b) == 0.0
  {
    if a != [] {
      DotZero(a[..|a| - 1], b[..|b| - 1]);
    }
  }
}
