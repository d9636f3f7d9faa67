/** Option and Result, used for the values the source returns as `null`
    and for the errors it throws, and the absolute value of a real. */
module Wrappers {

  datatype Option<+T> = None | Some(value: T)

  datatype Result<+T, +E> = Ok(value: T) | Err(error: E)

  /** The absolute value of a real, as `Math.abs` computes it. */
  function RealAbs(x: real): real { if x < 0.0 then -x else x }
}
