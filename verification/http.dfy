/** The outcomes a route handler sends, with the HTTP status each maps to. */
module Http {

  datatype Response<+T> =
    | Ok(value: T)                  // 200 with a JSON body
    | Created(value: T)             // 201 with a JSON body
    | Invalid(errors: seq<string>)  // 400 { errors: [...] }
    | BadRequest(error: string)     // 400 { error }
    | Unauthorized(error: string)   // 401 { error }
    | NotFound(error: string)       // 404 { error }
    | Conflict(error: string)       // 409 { error }
    | ServerError                   // 500 from the global error handler
  {
    function Status(): int {
      match this
      case Ok(_) => 200
      case Created(_) => 201
      case Invalid(_) => 400
      case BadRequest(_) => 400
      case Unauthorized(_) => 401
      case NotFound(_) => 404
      case Conflict(_) => 409
      case ServerError => 500
    }

    predicate IsSuccess() {
      Ok? || Created?
    }
  }

  /** A response together with the state the handler leaves behind. */
  datatype Reply<+T, +S> = Reply(response: Response<T>, state: S)
}
