/** What a route handler answers: a success status with a body, or an error
    status with the `{ error }` message. */
module Http {

  datatype Reply<T> = Reply(status: nat, body: T) | Refusal(status: nat, error: string)

  /** `Response.ok`: a status in the 2xx range. */
  predicate IsOkStatus(status: int) {
    200 <= status <= 299
  }
}
