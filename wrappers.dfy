/** Option, Result and Outcome: the model's stand-ins for `None` and for the
    fatal exits of the tools (a fatal error becomes a `Failure`/`Fail` value). */
module Wrappers {

  datatype Option<+T> = None | Some(value: T) {
    function GetOr(default: T): T {
      match this
      case Some(v) => v
      case None => default
    }
  }

  datatype Result<+R, +E> = Success(value: R) | Failure(error: E)

  datatype Outcome<+E> = Pass | Fail(error: E)
}
