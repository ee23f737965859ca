/** The error payload of the API routes: building it, and turning a caught
    value into it. */
module ApiErrors {
  import opened Wrappers

  /** `{ message, error?, status }`. */
  datatype ApiError = ApiError(message: string, error: Option<string>, status: int)

  /** A value caught by a `catch` clause: an `Error` instance carries a
      message; anything else thrown carries nothing the handler reads. */
  datatype Caught = ErrorInstance(message: string) | NonError

  /** The status used when the caller gives none. */
  const DefaultStatus := 500

  const GenericMessage := "An error occurred while processing your request"
  const UnknownMessage := "An unknown error occurred"

  /** `createErrorResponse(message, status = 500, error?)`: the message and
      the optional detail are copied unchanged; the status is the one given,
      or 500 when it is omitted. */
  function CreateErrorResponse(message: string, status: Option<int>, error: Option<string>): (r: ApiError)
    ensures r.message == message && r.error == error
    ensures status.Some? ==> r.status == status.value
    ensures status.None? ==> r.status == DefaultStatus
  {
    ApiError(message, error, status.GetOr(DefaultStatus))
  }

  /** `handleApiError`: always status 500; an `Error`'s own message goes
      into `error` under a fixed generic message; for anything else the
      message says the error is unknown and `error` is absent. */
  function HandleApiError(caught: Caught): (r: ApiError)
    ensures r.status == 500
    ensures caught.ErrorInstance? ==> r.message == GenericMessage && r.error == Some(caught.message)
    ensures caught.NonError? ==> r.message == UnknownMessage && r.error == None
  {
    match caught
    case ErrorInstance(detail) => CreateErrorResponse(GenericMessage, Some(500), Some(detail))
    case NonError => CreateErrorResponse(UnknownMessage, Some(500), None)
  }

  /** The payload tells the two kinds of caught value apart, and the caught
      value can be read back from it. */
  lemma HandleApiErrorRecoversCaught(caught: Caught)
    ensures HandleApiError(caught).error.Some? <==> caught.ErrorInstance?
    ensures caught == (match HandleApiError(caught).error
                       case Some(detail) => ErrorInstance(detail)
                       case None => NonError)
  {
  }
}
