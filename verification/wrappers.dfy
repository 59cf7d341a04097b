/** Failure-carrying result types shared by the whole model. The source reports
    absence through null pointers / std::optional and failures through
    exceptions; here both become values. */
module Wrappers {

  datatype Option<+T> = None | Some(value: T) {
    function GetOr(default: T): T {
      match this
      case Some(v) => v
      case None => default
    }
  }

  datatype Result<+T, +E> = Ok(value: T) | Err(error: E)
}
