/** Types shared by the modules. */
module Wrappers {
  datatype Option<+T> = None | Some(value: T)

  /** Monotonic time, in nanoseconds. */
  type Instant = nat

  /** The first option when it holds a value, the second one otherwise. */
  function OrElse<T>(first: Option<T>, second: Option<T>): Option<T> {
    if first.Some? then first else second
  }
}
