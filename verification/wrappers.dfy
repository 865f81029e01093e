/** Failure-carrying values for the nulls and unchecked exceptions of the modelled code. */
module Wrappers {

  /** A Java reference that may be null: `None` stands for `null`. */
  datatype Option<T> = None | Some(value: T)

  /** The unchecked exceptions the modelled code throws to its callers. */
  datatype Exception =
    | IllegalArgument     // java.lang.IllegalArgumentException
    | FileSystemNotFound  // java.nio.file.FileSystemNotFoundException

  /** Either the value an operation returns or the exception it throws. */
  datatype Result<T> = Ok(value: T) | Err(error: Exception)
}
