/**
 * Status values returned across the execution core, and a result type that
 * carries either a value or the failing status.
 */
module Common {

  datatype Status =
    | OK
    | InvalidArgument(message: string)
    | NotImplemented(message: string)
    | Fail(message: string)

  datatype Result<T> = Success(value: T) | Failure(error: Status)

  datatype Option<T> = None | Some(value: T)
}
