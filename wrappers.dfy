/** Option and Result, the exceptions of the Java code as an error datatype,
    and Java's byte[] as a sequence of octets. */
module Wrappers {

  /** An octet; Java's signed byte is read here by its unsigned value. */
  type byte = x: int | 0 <= x < 256

  type Bytes = seq<byte>

  /** A Java reference that may be null, or a java.util.Optional. */
  datatype Option<+T> = None | Some(value: T)

  /** The Java exceptions the modelled code raises (or lets escape). */
  datatype Error =
    | IndexOutOfBounds      // an empty list or array read at index 0
    | NullPointer           // a null chunk dereferenced
    | ResourceNotFound      // the service does not know the archive or the job
    | IllegalArgument(message: string)
    | Arithmetic            // a long division by zero
    | InvalidRange          // the service refuses a byte range whose end precedes its start

  /** The outcome of a call that returns normally or throws. */
  datatype Result<+T> = Success(value: T) | Failure(error: Error)
}
