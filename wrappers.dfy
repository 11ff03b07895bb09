/** Small value types shared by the whole model: an optional value (a Go pointer that may be
    nil) and a real number extended with +Inf (the float64 +Inf the Go code uses as "no value yet"). */
module Wrappers {

  datatype Option<T> = None | Some(value: T)

  /** A float64 that is either finite or +Inf; NaN never arises in the modelled code. */
  datatype ExtReal = Finite(r: real) | PosInf {

    /** Strict `<` of float64 when one side may be +Inf. */
    predicate Below(other: ExtReal) {
      match (this, other)
      case (Finite(a), Finite(b)) => a < b
      case (Finite(_), PosInf) => true
      case (PosInf, _) => false
    }
  }

  /** The smaller of two extended reals. */
  function Min(a: ExtReal, b: ExtReal): (m: ExtReal)
    ensures m == a || m == b
    ensures !a.Below(m) && !b.Below(m)
  {
    if b.Below(a) then b else a
  }
}
