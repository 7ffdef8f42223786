/** Optional values and failure outcomes shared by the queue modules. */
module Wrappers {

  /** A value that may be absent: `None` stands for a C# `null` / `default(T)`. */
  datatype Option<+T> = None | Some(value: T)

  /** The exceptions the queues throw on bad arguments. */
  datatype Error =
    | ArgumentNull        // ArgumentNullException
    | ArgumentOutOfRange  // ArgumentOutOfRangeException

  /** Normal completion, or the exception that aborted the operation. */
  datatype Outcome = Pass | Fail(error: Error)

  /** A value, or the exception raised instead of producing it. */
  datatype Result<+R> = Success(value: R) | Failure(error: Error)
}
