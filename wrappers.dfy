/** Option and Outcome: the absent values and the thrown errors of the source. */
module Wrappers {

  datatype Option<+T> = None | Some(value: T) {
    function GetOr(default: T): T {
      match this
      case Some(v) => v
      case None => default
    }
  }

  /** A mutation that either completes or throws an error of type E. */
  datatype Outcome<+E> = Pass | Fail(error: E)

  /** A mutation that either returns a value or throws an error of type E. */
  datatype Result<+R, +E> = Ok(value: R) | Err(error: E)
}
