/** The ways an encode or a decode ends without a result. */
module Errors {

  datatype Error =
    | MessageTooLarge     // encode: the `ValueError` raised when the message does not fit
    | IndexOutOfRange     // decode: the start-token check indexes past row 0 or past column 7
    | NotEncoded          // decode: the start token is absent, so the carrier is rejected
    | StopTokenNotFound   // decode: one pass over the image never meets the stop token

  datatype Result<T> = Success(value: T) | Failure(error: Error)

  datatype Outcome = Pass | Fail(error: Error)
}
