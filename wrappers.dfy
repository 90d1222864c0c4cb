/** Optional values and the outcome of an operation that PHP may abort with an error. */
module Wrappers {

  datatype Option<+T> = None | Some(value: T)

  /** The errors the modelled code can raise; they are not caught by the plugin. */
  datatype PhpError =
    /** `explode()` was handed an array where PHP 8 demands a string. */
    | TypeError

  /** A value, or the error that ended the request. */
  datatype Result<+T> = Success(value: T) | Failure(error: PhpError)
}
