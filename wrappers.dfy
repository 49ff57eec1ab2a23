/** Optional values: a TypeScript `T | undefined` / `T | null`, an optional
    object property, or a callback that may or may not have been invoked. */
module Wrappers {
  datatype Option<+T> = None | Some(value: T)
  {
    function GetOr(default: T): T
    {
      match this
      case Some(v) => v
      case None => default
    }
  }
}
