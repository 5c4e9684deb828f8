/**
 * The results a controller action returns: the status codes the handlers use,
 * each error carrying the `message` of its JSON body. Every handler wraps its
 * body in a catch-all that answers 500; ServerError stands for that answer.
 */
module Actions {
  datatype Response<+T> =
    | Ok(body: T)                    // 200
    | Created(id: int, body: T)      // 201, CreatedAtAction with the new key
    | NoContent                      // 204
    | BadRequest(message: string)    // 400
    | Unauthorized(message: string)  // 401
    | NotFound(message: string)      // 404
    | ServerError                    // 500 "Internal server error"
}
