/** Failure-carrying values shared by the modules of the plugin model. */
module Results {

  /** A value that may be absent, like Python's `Optional[...]`. */
  datatype Option<+T> = None | Some(value: T) {

    /** The wrapped value, or `default` when absent (`dict.get(key, default)`). */
    function GetOr(default: T): T {
      match this
      case Some(v) => v
      case None => default
    }
  }

  /**
   The exceptions the plugin can raise: its own `ValueError`s, and the
   `AttributeError` Python raises when a settings value lacks the dict
   method (`copy` or `update`) the plugin calls on it.
   */
  datatype Error = ValueError(message: string) | AttributeError(attribute: string)

  /** Either the value an operation returns or the exception it raises. */
  datatype Result<+T> = Ok(value: T) | Err(error: Error)
}
