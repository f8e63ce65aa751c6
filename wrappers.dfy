/** Small datatypes shared by the whole model. */
module Wrappers {

  /** A value that may be missing: Python's `None` or an absent dictionary key. */
  datatype Option<+T> = None | Some(value: T)

  /** A value, or the message of the `ValueError` a validator raises. */
  datatype Result<+T> = Success(value: T) | Failure(error: string)

  /** The outcome of a request handler: the response body, or the status code and
      detail of the `HTTPException` (or the framework's error response) it ends with. */
  datatype Http<+T> = Ok(value: T) | Fail(status: nat, detail: string)
}
