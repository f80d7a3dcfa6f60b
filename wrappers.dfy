/** Optional values: Swift's `T?`, Java's `Optional<T>`, TypeScript's `T | undefined`. */
module Wrappers {

  datatype Option<+T> = None | Some(value: T) {

    /** The value, or `default` when absent (Swift's `??`). */
    function GetOr(default: T): T {
      match this
      case Some(v) => v
      case None => default
    }

    /** This value when present, else `other` (an `if let` that keeps the old value). */
    function Or(other: Option<T>): Option<T> {
      if this.Some? then this else other
    }
  }
}
