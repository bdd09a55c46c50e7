/** Option and Result wrappers that stand for the .NET exceptions of the model. */
module Wrappers {

  datatype Option<+T> = None | Some(value: T)

  /** The kinds of exception the core throws; the message texts are not modelled. */
  datatype Error =
    | ArgumentNull        // ArgumentNullException
    | Argument            // ArgumentException
    | NullReference       // NullReferenceException
    | System              // SystemException
    | InvalidOperation    // InvalidOperationException (Enumerable.First finds nothing)
    | ObjectDisposed      // ObjectDisposedException (a closed RegistryKey is used)

  /** A value, or the exception that ended the computation. */
  datatype Result<+T> = Ok(value: T) | Err(error: Error)

  /** The outcome of an operation that returns nothing (a `void` method). */
  datatype Outcome = Pass | Fail(error: Error)
}
