/** Failure-carrying results shared by the argument parsers and the colour resolver. */
module Wrappers {

  /** A value that may be absent (Python's `None`). */
  datatype Option<+T> = None | Some(value: T)

  /** The outcome of a parser: its value, or the error argparse would report. */
  datatype Result<+T, +E> = Ok(value: T) | Err(error: E)
}
