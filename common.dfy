/** Types shared by both backends and the browser client. */
module Common {

  /** Identifier of a stored document (MongoDB `_id`). Each store hands them
      out from a counter, so a new document never reuses an earlier id. */
  type Id = nat

  /** A point in time, in milliseconds since the epoch (the injected clock). */
  type Millis = int

  datatype Option<+T> = None | Some(value: T)

  /** The outcome of a call that throws `RuntimeException(message)` on failure. */
  datatype Result<+T> = Ok(value: T) | Err(message: string)

  /** An HTTP answer: a status with the JSON body, or a status with the
      `error` text of the body. */
  datatype Reply<+T> = Success(status: int, body: T) | Failure(status: int, error: string)

  /** Both backends lend a book for 14 days: 14 * 24 * 60 * 60 * 1000 ms. */
  const LoanPeriodMillis: int := 14 * 24 * 60 * 60 * 1000
}
