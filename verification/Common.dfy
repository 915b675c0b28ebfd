/** Small definitions shared by the modules of the project. */
module Common {
  datatype Option<+T> = None | Some(value: T)

  ghost predicate Distinct<T>(s: seq<T>) {
    forall i, j | 0 <= i < j < |s| :: s[i] != s[j]
  }
}

/** How an operation of either type-instance runtime ends. */
module Outcomes {
  /** It completes, raises a runtime error, or (Rust only) aborts on a failed `expect`. */
  datatype Outcome<+S> = Done(state: S) | Trapped(trap: Trap) | Panicked

  datatype Trap = NullDeref | DeletedAccess | DoubleDelete
}
