/** Small definitions shared by the tool's model. */
module Basics {

  datatype Option<T> = None | Some(value: T)

  /** The absolute value, as `fabs` computes it on exact reals. */
  function Abs(r: real): (a: real)
    ensures a >= 0.0 && (a == r || a == -r)
  {
    if r < 0.0 then -r else r
  }
}
