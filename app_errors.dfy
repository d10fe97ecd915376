/** The two error kinds the use cases return. */
module AppErrors {

  const StatusBadRequest: int := 400

  /**
   * HttpError is a business-rule rejection carrying an HTTP status, a message and
   * per-field messages (a nil map is the empty map); ServiceError is an
   * infrastructure failure with an opaque message.
   */
  datatype AppError =
    | HttpError(statusCode: int, message: string, fieldErrors: map<string, string>)
    | ServiceError(message: string)

  /** A 400 rejection with the given message. */
  function BadRequest(message: string, fieldErrors: map<string, string>): AppError {
    HttpError(StatusBadRequest, message, fieldErrors)
  }
}
