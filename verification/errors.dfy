/**
 * The error kinds the application throws, with the fields that reach the
 * HTTP error body (`error_location_code`, `key`, `type`), and the raw
 * database driver errors that the route handlers inspect.
 */
module Errors {
  import opened Wrappers

  /** The `key` field of an error body: a property name or an array position. */
  datatype ErrorKey = KeyName(name: string) | KeyIndex(index: nat)

  /** PostgreSQL error classes the model distinguishes. */
  datatype DbErrorCode =
    | UniqueViolation      // 23505
    | ForeignKeyViolation  // 23503
    | CheckViolation       // 23514
    | NotNullViolation     // 23502
    | OutOfRange           // 22003: integer or numeric field overflow
    | StringTooLong        // 22001: a value longer than its `varchar(n)` column

  datatype DbError = DbError(code: DbErrorCode, message: string)

  datatype Fault =
    | ValidationError(location: string, code: Option<string>, key: ErrorKey)
    | NotFoundError(notFoundLocation: Option<string>, notFoundKey: Option<string>)
    | UnauthorizedError(unauthorizedLocation: Option<string>)
    | ForbiddenError(location: string)
      /** An uncaught JavaScript TypeError; answered with status 500. */
    | TypeErrorCrash(detail: string)
      /** A driver error rethrown unchanged; answered with status 500. */
    | DatabaseFault(error: DbError)
      /** A failure inside a collaborator the model treats as opaque. */
    | ServiceFault(detail: string)

  function HttpStatus(f: Fault): int {
    match f
    case ValidationError(_, _, _) => 400
    case UnauthorizedError(_) => 401
    case ForbiddenError(_) => 403
    case NotFoundError(_, _) => 404
    case TypeErrorCrash(_) => 500
    case DatabaseFault(_) => 500
    case ServiceFault(_) => 500
  }

  /** A successful HTTP answer: its status code and its JSON body. */
  datatype Reply<T> = Reply(status: int, body: T)

  const FinalSchemaLocation := "MODEL:VALIDATOR:FINAL_SCHEMA"
  const ParsingLocation := "MODEL:VALIDATOR:ERROR_PARSING_JSON"
}
