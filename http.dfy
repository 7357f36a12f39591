/**
 * What an endpoint hands back: the status it sets on the response and the
 * single-entry map it returns.
 */
module Http {
  const OK: int := 200
  const CREATED: int := 201
  const NO_CONTENT: int := 204
  const BAD_REQUEST: int := 400
  const NOT_FOUND: int := 404
  const CONFLICT: int := 409

  /** A `{"message": …}` map with the response status. */
  datatype Reply = Reply(status: int, message: string)

  /** A map holding either a message or one result under a key. */
  datatype Response<+T> =
    | Message(status: int, message: string)
    | Body(status: int, key: string, value: T)
}
