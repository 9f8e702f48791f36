/**
 * Path weights of the witness search: non-negative reals extended with a
 * positive-infinity sentinel. `Inf` stands for Java's
 * `Double.POSITIVE_INFINITY`, used both for "undiscovered" tree entries and for
 * forbidden turns and edges.
 */
module Weights {

  datatype Weight = Fin(value: real) | Inf

  /** A weight the search may meet: finite and non-negative, or infinite. */
  predicate NonNeg(w: Weight) {
    w.Inf? || w.value >= 0.0
  }

  /** Strict order of doubles restricted to the values used here: Inf is above every finite weight. */
  predicate Less(a: Weight, b: Weight) {
    match (a, b)
    case (Fin(x), Fin(y)) => x < y
    case (Fin(_), Inf) => true
    case (Inf, _) => false
  }

  predicate LessEq(a: Weight, b: Weight) {
    !Less(b, a)
  }

  /** Addition of doubles where either operand may be +infinity. */
  function Add(a: Weight, b: Weight): (r: Weight)
    ensures r.Inf? <==> a.Inf? || b.Inf?
    ensures NonNeg(a) && NonNeg(b) ==> NonNeg(r) && LessEq(a, r) && LessEq(b, r)
  {
    if a.Fin? && b.Fin? then Fin(a.value + b.value) else Inf
  }

  /** `w - c` for doubles: infinity minus a finite constant stays infinite. */
  function Sub(w: Weight, c: real): (r: Weight)
    ensures r.Inf? <==> w.Inf?
    ensures c >= 0.0 ==> LessEq(r, w)
  {
    if w.Fin? then Fin(w.value - c) else Inf
  }

  /** Adding the same finite weight to both sides keeps a strict improvement strict. */
  lemma AddKeepsLess(a: Weight, a': Weight, b: Weight)
    requires Less(a, a') && b.Fin?
    ensures Less(Add(a, b), Add(a', b))
  {
  }

  lemma LessEqTrans(a: Weight, b: Weight, c: Weight)
    requires LessEq(a, b) && LessEq(b, c)
    ensures LessEq(a, c)
  {
  }

  lemma LessLessEqTrans(a: Weight, b: Weight, c: Weight)
    requires Less(a, b) && LessEq(b, c)
    ensures Less(a, c)
  {
  }
}
