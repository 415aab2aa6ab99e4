/**
 * Error codes of the web API, their HTTP statuses, and the JSON error payload
 * built by the application's error handlers.
 */
module ErrorHandlers {
  import opened Wrappers

  // General errors (1000-1999)
  const UNKNOWN_ERROR := 1000
  const INVALID_REQUEST := 1001
  const RESOURCE_NOT_FOUND := 1002
  // File system errors (2000-2999)
  const FILE_NOT_FOUND := 2000
  const PERMISSION_DENIED := 2001
  const DISK_FULL := 2002
  // Camera errors (3000-3999)
  const CAMERA_NOT_FOUND := 3000
  const CAMERA_BUSY := 3001
  const CAMERA_ERROR := 3002
  // System errors (4000-4999)
  const SYSTEM_COMMAND_FAILED := 4000
  const SERVICE_UNAVAILABLE := 4001

  /** The table from error code to HTTP status. */
  const ERROR_TO_HTTP_STATUS: map<int, int> := map[
    UNKNOWN_ERROR := 500, INVALID_REQUEST := 400, RESOURCE_NOT_FOUND := 404,
    FILE_NOT_FOUND := 404, PERMISSION_DENIED := 403, DISK_FULL := 507,
    CAMERA_NOT_FOUND := 404, CAMERA_BUSY := 409, CAMERA_ERROR := 500,
    SYSTEM_COMMAND_FAILED := 500, SERVICE_UNAVAILABLE := 503]

  /** The HTTP status answered for an error code: the table entry, 500 for an unknown code. */
  function HttpStatus(code: int): (status: int)
    ensures 400 <= status < 600
    ensures status == 404 <==> code in {RESOURCE_NOT_FOUND, FILE_NOT_FOUND, CAMERA_NOT_FOUND}
    ensures status < 500 <==> code in {INVALID_REQUEST, RESOURCE_NOT_FOUND, FILE_NOT_FOUND,
                                       PERMISSION_DENIED, CAMERA_NOT_FOUND, CAMERA_BUSY}
    ensures code !in ERROR_TO_HTTP_STATUS ==> status == 500
  {
    if code in ERROR_TO_HTTP_STATUS then ERROR_TO_HTTP_STATUS[code] else 500
  }

  /** Optional error details; Python treats an empty dict as absent. */
  type Details = map<string, string>

  predicate Truthy(details: Option<Details>)
  {
    details.Some? && |details.value| > 0
  }

  /** An error raised by an API view: its code, message and optional details. */
  datatype APIError = APIError(errorCode: int, message: string, details: Option<Details>)

  datatype ErrorBody = ErrorBody(code: int, message: string, details: Option<Details>)

  /** `{'status': 'error', 'error': {...}}` */
  datatype ErrorResponse = ErrorResponse(status: string, error: ErrorBody)

  /** The standard error payload; details are included only when they are truthy. */
  function CreateErrorResponse(code: int, message: string, details: Option<Details>): (r: ErrorResponse)
    ensures r.status == "error" && r.error.code == code && r.error.message == message
    ensures r.error.details.Some? <==> Truthy(details)
    ensures r.error.details.Some? ==> r.error.details == details
  {
    ErrorResponse("error", ErrorBody(code, message, if Truthy(details) then details else None))
  }

  /** The handler for a raised `APIError`: its payload and status. */
  function HandleApiError(e: APIError): (r: (ErrorResponse, int))
    ensures r.0.error.code == e.errorCode && r.0.error.message == e.message
    ensures r.0.error.details.Some? <==> Truthy(e.details)
    ensures r.1 == HttpStatus(e.errorCode)
  {
    (CreateErrorResponse(e.errorCode, e.message, e.details), HttpStatus(e.errorCode))
  }

  /** The handler for HTTP 404. */
  function HandleNotFound(): (r: (ErrorResponse, int))
    ensures r.1 == 404 && r.0.error.code == RESOURCE_NOT_FOUND
    ensures r.0.error.message == "Resource not found" && r.0.error.details.None?
  {
    (CreateErrorResponse(RESOURCE_NOT_FOUND, "Resource not found", None), 404)
  }

  /** The handler for HTTP 500. */
  function HandleServerError(): (r: (ErrorResponse, int))
    ensures r.1 == 500 && r.0.error.code == UNKNOWN_ERROR
    ensures r.0.error.message == "Internal server error" && r.0.error.details.None?
  {
    (CreateErrorResponse(UNKNOWN_ERROR, "Internal server error", None), 500)
  }

  /** The handler for any other exception. */
  function HandleUnhandledException(): (r: (ErrorResponse, int))
    ensures r.1 == 500 && r.0.error.code == UNKNOWN_ERROR
    ensures r.0.error.message == "An unexpected error occurred" && r.0.error.details.None?
  {
    (CreateErrorResponse(UNKNOWN_ERROR, "An unexpected error occurred", None), 500)
  }

  /**
   * The fixed handlers agree with the table: each answers the status that
   * `HandleApiError` would give for its own code.
   */
  lemma HandlersAgreeWithTable()
    ensures HandleNotFound().1 == HandleApiError(APIError(RESOURCE_NOT_FOUND, "Resource not found", None)).1
    ensures HandleServerError().1 == HandleApiError(APIError(UNKNOWN_ERROR, "Internal server error", None)).1
    ensures HandleUnhandledException().1 == HandleApiError(APIError(UNKNOWN_ERROR, "An unexpected error occurred", None)).1
  {
  }
}
