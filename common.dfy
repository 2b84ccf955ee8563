/** Values shared by every part of the model: optional values, typed failures, time. */
module Common {

  datatype Option<+T> = None | Some(value: T)

  /** A handler either produces a value or fails with one of the typed errors below. */
  datatype Result<+T> = Ok(value: T) | Err(error: Error)

  /** The failures the core can produce: its own errors and the store's and runtime's refusals. */
  datatype Error =
    | MissingField(message: string)   // ExpressError(..., 400) for an absent or empty input field
    | DuplicateUsername               // the users table's primary key rejects the insert
    | NoUserRow                       // authenticate reads the password of a row that is not there
    | InvalidCredentials              // "Invalid username/password."
    | NoSuchUser(username: string)    // ExpressError(`No such user: ...`, 404)
    | NoSuchMessage(id: nat)          // no message with that id
    | Unauthenticated                 // no verified identity on the request
    | Forbidden                       // an identity that the message's rule does not admit
    | ForeignKeyViolation             // a message naming a user that does not exist
    | ReferenceError(name: string)    // an identifier used but never bound in the module

  const RegisterMissingMessage: string := "Missing required information."
  const LoginMissingMessage: string := "Username & password required."
  const InvalidLoginMessage: string := "Invalid username/password."

  /** Timestamps (current_timestamp) are passed in by the caller as plain numbers. */
  type Time = nat

  /** JavaScript's `!field`: a body field counts only when it is given and not the empty string. */
  predicate Present(field: Option<string>)
  {
    field.Some? && field.value != ""
  }
}
