/** Failure-carrying results for the buffer operations, in place of the
    exceptions the C# library throws. */
module Outcomes {

  /** The exceptions the library throws, one constructor per throw site kind. */
  datatype Error =
    | CapacityOutOfRange      // ArgumentOutOfRangeException from a constructor: capacity <= 0
    | BufferFull              // InvalidOperationException from Put on a full, non-overflowing buffer
    | BufferEmpty             // InvalidOperationException from Get on an empty buffer
    | ArrayNull               // ArgumentNullException from CopyTo
    | ArrayIndexOutOfRange    // ArgumentOutOfRangeException from CopyTo: negative start index
    | ArrayTooSmall           // ArgumentException from CopyTo: destination too short

  /** A slot of the backing array: None is the cleared `default` value. */
  datatype Option<T> = None | Some(value: T)

  /** The result of an operation that returns nothing or throws. */
  datatype Outcome = Pass | Fail(error: Error)

  /** The result of an operation that returns a value or throws. */
  datatype Result<R> = Success(value: R) | Failure(error: Error)
}
