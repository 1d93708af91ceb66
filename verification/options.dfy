/** Failure-compatible wrappers used throughout the model: `Option` stands in
    for the nullable references of the original code, `Result` for the paths
    where the original code throws. */
module Options {

  datatype Option<+T> = None | Some(value: T) {
    function GetOr(default: T): T {
      match this
      case Some(v) => v
      case None => default
    }
  }

  datatype Result<+R, +E> = Success(value: R) | Failure(error: E)
}
