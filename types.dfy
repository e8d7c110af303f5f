/** Result and option types shared by the service model. */
module Types {

  datatype Option<T> = None | Some(value: T)

  /** The error outcomes the HTTP layer turns into status codes. */
  datatype Error =
    | Conflict     // 409: a record with the same id already exists
    | NotFound     // 404: no record under the derived id
    | Unparseable  // 400: no natural-language rule fired

  datatype Result<T> = Ok(value: T) | Err(error: Error)
}
