/** The error taxonomy of the resolvers and the result type every operation
    returns. A thrown `ResolverError` becomes an `Err` value; nothing is
    recovered locally, so the first failing check decides the error. */
module Errors {

  /** Machine-readable codes the two resolvers attach to a `ResolverError`. */
  datatype ErrorCode =
    | NoCode                  // `new ResolverError(message)` called without a code
    | InvalidId
    | UserNotFound
    | InvalidInput
    | InvalidEmail
    | InvalidUsername
    | InvalidPassword
    | EmailAlreadyExists
    | UsernameAlreadyExists
    | InvalidCredentials
    | SessionExpired
    | InvalidCodespaceInput
    | SomethingWentWrong
    | CodespaceAlreadyExists
    | CodespaceNotFound

  /** One `{ field, message }` entry of a resolver error, for client form display. */
  datatype FieldError = FieldError(field: string, message: string)

  datatype Failure =
      /** An error raised by a resolver itself. */
    | ResolverError(message: string, code: ErrorCode, errors: seq<FieldError>)
      /** The persistence layer refusing to cast a lookup key to an object id. */
    | CastError(value: string)
  {
    predicate HasCode(c: ErrorCode) {
      ResolverError? && code == c
    }
  }

  datatype Result<+T> = Ok(value: T) | Err(error: Failure) {
    predicate IsFailure() {
      Err?
    }

    function PropagateFailure<U>(): Result<U>
      requires Err?
    {
      Err(error)
    }

    function Extract(): T
      requires Ok?
    {
      value
    }
  }

  datatype Option<+T> = None | Some(value: T)

  /** Shorthand for a resolver error carrying a code and no field list. */
  function Fail<T>(message: string, code: ErrorCode): Result<T> {
    Err(ResolverError(message, code, []))
  }

  /** Shorthand for a resolver error that flags exactly one input field. */
  function FailOn<T>(message: string, code: ErrorCode, field: string): Result<T> {
    Err(ResolverError(message, code, [FieldError(field, message)]))
  }
}
