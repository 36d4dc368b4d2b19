/** The uniform response envelope `APIResponse` and its two constructors. */
module Responses {
  import opened Wrappers

  /** An error's machine-readable code and human-readable message. */
  datatype ErrorDetail = ErrorDetail(code: string, message: string)

  /** `APIResponse[T]`: a success flag with an optional payload and an optional error. */
  datatype APIResponse<T> = APIResponse(success: bool, data: Option<T>, error: Option<ErrorDetail>)

  /** An envelope that is either a success with data and no error, or a failure with an error and no data. */
  predicate WellFormed<T>(r: APIResponse<T>) {
    if r.success then r.data.Some? && r.error.None? else r.data.None? && r.error.Some?
  }

  /** What a client reads from an envelope: the data of a success or the error of a failure. */
  function Unwrap<T>(r: APIResponse<T>): (u: Result<T, ErrorDetail>)
    requires WellFormed(r)
    ensures u.Ok? <==> r.success
  {
    if r.success then Ok(r.data.value) else Err(r.error.value)
  }

  /** `APIResponse.ok(data)`. */
  function Success<T>(data: T): (r: APIResponse<T>)
    ensures WellFormed(r) && r.success
    ensures Unwrap(r) == Ok(data)
  {
    APIResponse(true, Some(data), None)
  }

  /** `APIResponse.fail(code, message)`. */
  function Failure<T>(code: string, message: string): (r: APIResponse<T>)
    ensures WellFormed(r) && !r.success
    ensures Unwrap(r) == Err(ErrorDetail(code, message))
  {
    APIResponse(false, None, Some(ErrorDetail(code, message)))
  }

  /** A success and a failure are told apart by the flag alone, whatever they carry. */
  lemma SuccessIsNotFailure<T>(data: T, code: string, message: string)
    ensures Success(data).success != Failure<T>(code, message).success
    ensures Success(data) != Failure(code, message)
  {
  }
}
