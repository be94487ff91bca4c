/**
 * The exceptions that reach the global exception handler, one constructor
 * per handled exception class. The four user exceptions are the service's
 * own; `MethodArgumentNotValid` is raised by request-body validation,
 * `NullPointer` by the runtime, and `Other` stands for any other exception.
 */
module Exceptions {
  import opened Wrappers

  /** One field error of a failed request-body validation. */
  datatype FieldError = FieldError(field: string, defaultMessage: Option<string>)

  datatype Exception =
    | UserNotFound(message: string)
    | UserEmptyFields(message: string)
    | UserAge(message: string)
    | UserBirthdate(message: string)
    | MethodArgumentNotValid(fieldErrors: seq<FieldError>, message: string)
    | NullPointer(detail: Option<string>)
    | Other(detail: Option<string>)
  {
    /** `getMessage()`; null only for runtime exceptions created without one. */
    function GetMessage(): Option<string> {
      match this
      case NullPointer(d) => d
      case Other(d) => d
      case _ => Some(message)
    }
  }

  /** The exceptions the user service itself throws. */
  predicate IsServiceException(e: Exception) {
    e.UserNotFound? || e.UserEmptyFields? || e.UserAge? || e.UserBirthdate?
  }
}
