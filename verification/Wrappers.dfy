/** Small helpers that everybody needs. */
module Wrappers {
  /** A value that may be missing. */
  datatype Option<T> = None | Some(value: T)

  /** A key for parts of an invariant. `forall key :: Opened(key) ==> P` is P, but the
      verifier uses it only where somebody mentions `Opened`. */
  ghost predicate Opened(key: bool) {
    true
  }
}
