/**
 * The failure-carrying values the model uses in place of .NET exceptions and
 * null references.
 */
module Wrappers {

  /** A value that may be absent (a null reference or a "not found" answer). */
  datatype Option<+T> = None | Some(value: T) {
    predicate IsFailure() { None? }

    function PropagateFailure<U>(): Option<U>
      requires None?
    {
      None
    }

    function Extract(): T
      requires Some?
    {
      value
    }
  }

  /** Either a value or the exception that the .NET code would have thrown. */
  datatype Result<+T, +E> = Ok(value: T) | Err(error: E) {
    predicate IsFailure() { Err? }

    function PropagateFailure<U>(): Result<U, E>
      requires Err?
    {
      Err(error)
    }

    function Extract(): T
      requires Ok?
    {
      value
    }
  }

  /** The outcome of a check that yields nothing on success (a guard clause). */
  datatype Outcome<+E> = Pass | Fail(error: E) {
    predicate IsFailure() { Fail? }

    function PropagateFailure<U>(): Result<U, E>
      requires Fail?
    {
      Err(error)
    }
  }
}

/**
 * The .NET exception classes that the modelled code throws or catches, each
 * reduced to the data that the code inspects.
 */
module Exceptions {
  import opened Wrappers

  datatype Exception =
    | ArgumentOutOfRange(paramName: string)
    | Argument(paramName: string)
    | NotSupported
    | InvalidOperation(message: string)
    | InvalidCast
    | Format
    | Overflow
    | KeyNotFound
    | IndexOutOfRange
    | UriFormat
      /** A UPnP fault: the errorCode and errorDescription of a UPnPError element. */
    | UpnpMapping(errorCode: int, errorDescription: string)
      /** A NAT-PMP failure: Mono.Nat's MappingException built from a message only. */
    | PmpMapping(message: string)
      /** System.Net.WebException: whether it carries an HTTP response, and its status. */
    | Web(hasResponse: bool, status: int)
    | Xml
    | NatDeviceNotFound
      /** System.AggregateException wrapping the exception of a waited-for task. */
    | Aggregate(inner: Exception)
      /** A plain System.Exception with a message. */
    | General(message: string)

  /** The result of an operation that may throw. */
  type Fallible<T> = Result<T, Exception>

  /** True iff the exception is a MappingException carrying the given UPnP error code. */
  predicate HasErrorCode(e: Exception, code: int)
  {
    e.UpnpMapping? && e.errorCode == code
  }
}
