/** The optional-value datatype the rest of the model uses for JavaScript's
    `null` / `undefined` and for partial decoders. */
module Wrappers {

  datatype Option<+T> = None | Some(value: T) {

    /** Returns the value encapsulated in Some, or a default value if None */
    function GetOr(default: T): T {
      match this
      case Some(v) => v
      case None => default
    }
  }
}
