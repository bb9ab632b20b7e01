/** Optional values and results with an error, used for missing record fields and for
    the exceptions that abort the annotation of an image. */
module Outcomes {

  datatype Option<+T> = None | Some(value: T) {
    /** The value, or `default` when there is none (a dictionary lookup with a default). */
    function GetOr(default: T): T
    {
      if Some? then value else default
    }
  }

  datatype Result<+T, +E> = Ok(value: T) | Err(error: E)
}
