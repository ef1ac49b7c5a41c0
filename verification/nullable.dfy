/** Java references that may be null: the answer of a `ThreadLocal.get()` on a thread that
    set nothing, a null callback, and a target that was never assigned. */
module Nullable {

  /** `None` is the null reference; `Some(value)` a reference to `value`. */
  datatype Option<+T> = None | Some(value: T) {

    /** The referenced value, or `fallback` in place of null. */
    function OrElse(fallback: T): T {
      if Some? then value else fallback
    }
  }

  /** The more recent of two possibly-null values: `recent` unless it is null. */
  function Latest<T>(recent: Option<T>, earlier: Option<T>): Option<T> {
    if recent.Some? then recent else earlier
  }
}
