/** Shared value types: optional values, the exceptions the controllers raise,
    and a result that carries either a value or one of those exceptions. */
module Base {

  /** A nullable Java reference or an unset request parameter. */
  datatype Option<+T> = None | Some(value: T)

  /** Why an `IllegalArgumentException` was thrown. */
  datatype Reason =
    | MissingRequiredField        // team name or year of creation is null
    | CoachNotFound(coachId: int) // a supplied coach id does not resolve
    | PlayerNotFound(playerId: int) // a supplied player id does not resolve

  /** The failures a controller call can end in. */
  datatype Error =
    | NotFound                        // a 404 response built by the controller
    | IllegalArgument(reason: Reason) // an `IllegalArgumentException`
    | NullPointer                     // dereferencing a null entity field
    | RuntimeFailure(cause: Error)    // a `RuntimeException` wrapping `cause`

  datatype Result<+T> = Ok(value: T) | Err(error: Error)
}
