/** The optional-value type used for parses that can fail (a JavaScript `NaN`
    or `Invalid Date`) and for the optional fields of an event record. */
module Wrappers {

  datatype Option<+T> = None | Some(value: T) {

    /** The wrapped value, or `default` when there is none (JavaScript `x || default`
        on a possibly-undefined field). */
    function GetOr(default: T): T {
      match this
      case Some(v) => v
      case None => default
    }
  }
}
