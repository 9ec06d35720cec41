/** The results that several components share. */
module Wrappers {
  datatype Option<+T> = None | Some(value: T)

  /** A value, or the exception that the source raises instead. */
  datatype Outcome<+T> = Done(value: T) | Raised
}
