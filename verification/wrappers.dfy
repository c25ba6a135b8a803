/** Failure-carrying values shared by every layer of the model. */
module Wrappers {

  /** A value that may be absent; Python's `None` on the absent side. */
  datatype Option<T> = None | Some(value: T)

  /** The Python exceptions the modelled code lets escape, as values. */
  datatype PyError =
    | ValueError(message: string)
    /** A keyword argument supplied twice in one call. */
    | TypeError(message: string)
    /** An exception raised inside a helper that is not part of this model. */
    | HelperError(helper: string)
    /** A name used but never bound in the module. */
    | NameError(name: string)

  /** A computation that either returns normally or raises. */
  datatype Result<T> = Ok(value: T) | Err(error: PyError)

  /** The update rule of a loop that reassigns a field only when a line yields a value. */
  function Override<T>(current: Option<T>, update: Option<T>): Option<T>
  {
    if update.Some? then update else current
  }
}
