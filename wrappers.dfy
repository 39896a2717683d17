/** Optional values: a missing field of a record, or JavaScript's `null` result. */
module Wrappers {

  datatype Option<+T> = None | Some(value: T) {

    /** The carried value, or `default` when there is none. */
    function GetOr(default: T): T {
      if Some? then value else default
    }
  }

  /** Object-spread semantics for one optional property: `{...base, ...over}`
      keeps `base` unless `over` carries the property. */
  function Override<T>(base: Option<T>, over: Option<T>): Option<T> {
    if over.Some? then over else base
  }
}
