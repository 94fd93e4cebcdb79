/** Result and error types shared by every service of the model.
    The services signal failure by throwing; here each failure is a value
    that names the reference or the key that caused it. */
module Outcomes {

  /** A nullable Java reference or boxed value: `None` is `null`. */
  datatype Option<+T> = None | Some(value: T)

  /** The reference a failed lookup names, or the unique key a duplicate names. */
  datatype Key =
    | UserId(id: int)
    | Username(username: string)
    | Email(email: string)
    | AdviceId(id: int)
    | AnswerId(id: int)
    | CompletedQuizId(id: int)
    | TagId(id: int)
    | TagName(name: string)
    | Token(token: string)

  /** The exceptions the services throw:
      ResourceNotFoundException, RefreshTokenException and the
      EmptyResultDataAccessException of `deleteById` on an unknown id (NotFound),
      UserDuplicationException and UniqueNameViolationException (Duplicate),
      PasswordMismatchException, and AccessDeniedException (Unauthorized). */
  datatype Error =
    | NotFound(missing: Key)
    | Duplicate(taken: Key)
    | PasswordMismatch
    | Unauthorized

  /** What a service call returns: its value, or the exception it throws. */
  datatype Outcome<+T> = Ok(value: T) | Err(error: Error)
}
