/** Failure-carrying result types for the Python functions that raise
    (`extract_video_id`) or catch an exception (`proofread_text`). */
module Wrappers {

  /** A value that may be absent. */
  datatype Option<+T> = None | Some(value: T)

  /** Either a computed value or the error the Python program raises. */
  datatype Result<+R, +E> = Success(value: R) | Failure(error: E)
}
