/** Replies as `AppResponse` sends them: a status code and a message. */
module Http {

  const Ok: nat := 200
  const Created: nat := 201
  const BadRequest: nat := 400
  const Unauthorized: nat := 401
  const Forbidden: nat := 403
  const NotFound: nat := 404
  const Conflict: nat := 409
  const UnprocessableEntity: nat := 422
  const InternalServerError: nat := 500

  /** A response: its HTTP status and the `message` field of the body. */
  datatype Reply = Reply(code: nat, message: string)

  /** What a middleware does: hand the request on (`next()`), or answer it. */
  datatype Gate = Next | Stop(reply: Reply)
}
