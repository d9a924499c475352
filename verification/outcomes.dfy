/**
 * Outcomes of the booking operations: the three error kinds the booking
 * layer raises, their HTTP status codes, and the Option / Result / Outcome
 * wrappers that replace the source's thrown errors and nullable returns.
 */
module Outcomes {

  /** A row that may be missing (a `findFirst` that matched nothing). */
  datatype Option<+T> = None | Some(value: T)

  /** The error kinds raised by the booking layer. */
  datatype Error = BadRequest | Forbidden | NotFound

  /** A value or the error kind that stopped the operation. */
  datatype Result<+T> = Ok(value: T) | Err(error: Error)

  /** A guard that either lets the operation go on or stops it. */
  datatype Outcome = Pass | Fail(error: Error)

  /** The HTTP status the boundary layer answers with for each error kind. */
  function StatusCode(e: Error): (code: int)
    ensures 400 <= code < 500
    ensures code == 400 <==> e == BadRequest
    ensures code == 403 <==> e == Forbidden
    ensures code == 404 <==> e == NotFound
  {
    match e
    case BadRequest => 400
    case Forbidden => 403
    case NotFound => 404
  }
}
