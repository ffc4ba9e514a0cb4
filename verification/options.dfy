/** Optional values: Python's `None`, or a selector query that matched nothing. */
module Options {

  datatype Option<T> = None | Some(value: T) {

    /** The value when present, otherwise `default` (Python's `d.get(key, default)`). */
    function GetOr(default: T): T {
      match this
      case Some(v) => v
      case None => default
    }
  }
}
