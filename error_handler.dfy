/** errorHandler: the one place where an error becomes an HTTP status and JSON body. */
module ErrorHandler {
  import opened Domain

  /** `{ status: "error", message }` */
  datatype ErrorBody = ErrorBody(status: string, message: string)

  /** What errorHandler writes to `res`. */
  datatype ErrorResponse = ErrorResponse(statusCode: int, body: ErrorBody)

  const InternalServerError: string := "Internal server error"

  /** Operational errors pass their own status and message through; anything else is a bare 500. */
  function Handle(err: Error): (res: ErrorResponse)
    ensures res.body.status == "error"
    ensures err.AppError? ==> res.statusCode == err.statusCode && res.body.message == err.message
    ensures err.UnexpectedError? ==> res.statusCode == 500 && res.body.message == InternalServerError
  {
    match err
    case AppError(message, statusCode) => ErrorResponse(statusCode, ErrorBody("error", message))
    case UnexpectedError(_) => ErrorResponse(500, ErrorBody("error", InternalServerError))
  }

  /** An unexpected error's own text never reaches the caller: all of them give the same response. */
  lemma UnexpectedErrorsLookAlike(e1: Error, e2: Error)
    requires e1.UnexpectedError? && e2.UnexpectedError?
    ensures Handle(e1) == Handle(e2)
  {
  }
}
