/// Result types shared by the tree operations.
module Outcomes {
  /** A value that may be absent, as the source's `None`/`null`. */
  datatype Option<T> = None | Some(value: T)

  /**
   * The result of an operation that looks a key up. The source has exactly one
   * failure, raised when the key is not in the tree (`ValueError` in Python,
   * `Error` in TypeScript).
   */
  datatype Outcome<T> = Ok(value: T) | KeyNotFound
}
