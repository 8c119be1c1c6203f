/** Optional values and the exceptions the task store can raise. */
module Wrappers {

  datatype Option<+T> = None | Some(value: T)

  /** The JavaScript exceptions the modelled code can throw. */
  datatype JsError =
    | TypeError  // a method called on `undefined`: a table that does not exist
    | URIError   // decodeURIComponent given a malformed percent-escape

  /** A call that returns normally with a value, or throws. */
  datatype Result<+T> = Ok(value: T) | Throw(error: JsError)
}
