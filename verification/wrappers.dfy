/** The optional-value datatype shared by the other modules. */
module Wrappers {

  datatype Option<+T> = None | Some(value: T)

  /** The larger of two optional integers; None is below every value. */
  function MaxOpt(a: Option<int>, b: Option<int>): (r: Option<int>)
    ensures r.Some? <==> a.Some? || b.Some?
    ensures a.Some? ==> r.Some? && r.value >= a.value
    ensures b.Some? ==> r.Some? && r.value >= b.value
    ensures r == a || r == b
  {
    match (a, b)
    case (None, _) => b
    case (_, None) => a
    case (Some(x), Some(y)) => if x < y then b else a
  }
}
