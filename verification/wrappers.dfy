/** Optional values: a Java reference that may be null, or an Optional<T>. */
module Wrappers {

  datatype Option<+T> = None | Some(value: T)
  {
    /** The value if present, otherwise `dflt` (Optional.orElse). */
    function UnwrapOr(dflt: T): T
    {
      match this
      case None => dflt
      case Some(v) => v
    }
  }

}
