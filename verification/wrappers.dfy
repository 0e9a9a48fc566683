/** Swift optionals: a value of type `T?` is either `nil` or wraps a `T`. */
module Wrappers {

  datatype Option<+T> = None | Some(value: T) {

    /** Swift's nil-coalescing `x ?? fallback`. */
    function Coalesce(fallback: T): T {
      if Some? then value else fallback
    }
  }
}
