/** HTTP errors (httperrors/http.go): an error value that knows the status
    it must be answered with, and what answering it writes. */
module HttpErrors {
  import opened ByteText

  const StatusBadRequest: int := 400
  const StatusUnauthorized: int := 401
  const StatusNotFound: int := 404
  const StatusInternalServerError: int := 500

  /** What `http.Error(rw, message, status)` leaves in a response: the status
      code and the body text (the trailing newline and headers are not kept). */
  datatype Reply = Reply(status: int, message: Bytes)

  /** The unexported httpError record. */
  datatype HttpError = HttpError(status: int, message: Bytes)

  /** `Error()`: the stored message. */
  function Error(e: HttpError): Bytes
  {
    e.message
  }

  /** `WriteTo`: answers with exactly the stored status and message. */
  function WriteTo(e: HttpError): (r: Reply)
    ensures r.status == e.status
    ensures r.message == Error(e)
  {
    Reply(e.status, e.message)
  }

  function NewHttpError(m: Bytes, status: int): (e: HttpError)
    ensures Error(e) == m
    ensures WriteTo(e) == Reply(status, m)
  {
    HttpError(status, m)
  }

  function NewBadRequestError(m: Bytes): (e: HttpError)
    ensures Error(e) == m
    ensures WriteTo(e) == Reply(400, m)
  {
    NewHttpError(m, StatusBadRequest)
  }

  function NewUnauthorizedError(m: Bytes): (e: HttpError)
    ensures Error(e) == m
    ensures WriteTo(e) == Reply(401, m)
  {
    NewHttpError(m, StatusUnauthorized)
  }

  function NewInternalServerError(m: Bytes): (e: HttpError)
    ensures Error(e) == m
    ensures WriteTo(e) == Reply(500, m)
  {
    NewHttpError(m, StatusInternalServerError)
  }
}

/** The errors the pipeline produces or passes on. Go's `error` is an
    interface; the model keeps the three kinds the code tells apart. */
module Failures {
  import opened ByteText
  import opened HttpErrors

  datatype Err =
    | Http(e: HttpError)        // implements httperrors.Error
    | Verification(cause: Err)  // signature.VerificationError around its cause
    | Plain(message: Bytes)     // errors.New and errors from libraries

  /** A Go `(value, error)` pair where exactly one side matters. */
  datatype Outcome<T> = Ok(value: T) | Fail(err: Err)

  /** `err.Error()`. A verification error reads as its cause. */
  function Message(err: Err): Bytes
  {
    match err
    case Http(e) => Error(e)
    case Verification(cause) => Message(cause)
    case Plain(m) => m
  }

  function BadRequest(m: Bytes): (err: Err)
    ensures err.Http? && WriteTo(err.e) == Reply(400, m) && Message(err) == m
  {
    Http(NewBadRequestError(m))
  }
}
