/** The optional-value datatype used for nullable lookups and for JavaScript
    values that may be missing (`null`, `undefined`, `NaN`). */
module Wrappers {

  datatype Option<+T> = None | Some(value: T) {

    /** The wrapped value, or `default` when there is none (JavaScript `x ?? default`). */
    function GetOr(default: T): T {
      match this
      case Some(v) => v
      case None => default
    }
  }
}
