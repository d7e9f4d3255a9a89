/** Outcomes of operations that may find nothing, or that the source ends with `assert`
    or a kernel panic. */
module Wrappers {
  datatype Option<+T> = None | Some(value: T)

  /** `Aborted` is a failed `assert`: the run ends there. */
  datatype Result<+T> = Ok(value: T) | Aborted
}
