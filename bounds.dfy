/** Slack values with an explicit "infinity": the role `numeric_limits<T>::max()`
    plays in the source, as the initial value of every per-vertex slack and of
    the label shift `delta`. */
module Bounds {

  datatype Bound = Finite(value: int) | Infinite

  /** The smaller of two bounds; `Infinite` is larger than every finite value. */
  function Min(a: Bound, b: Bound): (m: Bound)
    ensures m == a || m == b
    ensures Le(m, a) && Le(m, b)
  {
    match (a, b)
    case (Infinite, _) => b
    case (_, Infinite) => a
    case (Finite(x), Finite(y)) => if x <= y then a else b
  }

  /** `a <= b` in the order that puts `Infinite` above every finite value. */
  predicate Le(a: Bound, b: Bound)
  {
    b.Infinite? || (a.Finite? && a.value <= b.value)
  }

  /** `s < b`: the comparison `slack < yDelta[j]` of the source. */
  predicate Below(s: int, b: Bound)
  {
    b.Infinite? || s < b.value
  }

  /** A recorded slack is either still unset or strictly positive. */
  predicate Positive(b: Bound)
  {
    b.Infinite? || b.value > 0
  }
}
