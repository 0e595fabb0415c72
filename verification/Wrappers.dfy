/** A result type shared by the models. */
module Wrappers {
  datatype Option<+T> = None | Some(value: T) {
    function UnwrapOr(default: T): T {
      match this
      case None => default
      case Some(v) => v
    }
  }
}
