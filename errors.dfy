/** The errors the core raises or passes on: the application's ApiError
    classes (each with its HTTP status), zod's validation error and raw
    PostgreSQL errors identified by their SQLSTATE code. */
module Errors {

  /** PostgreSQL SQLSTATE codes the core distinguishes or produces. */
  const UniqueViolation := "23505"
  const ForeignKeyViolation := "23503"
  const SyntaxError := "42601"

  /** The application's ApiError subclasses. */
  datatype ApiError =
    | BadRequest(message: string)
    | Unauthorized(message: string)
    | Forbidden(message: string)
    | NotFound(resource: string)
    | InternalServer(message: string)

  function StatusCode(e: ApiError): (code: int)
    ensures 400 <= code < 600
    ensures code == 401 <==> e.Unauthorized?
    ensures code == 403 <==> e.Forbidden?
  {
    match e
    case BadRequest(_) => 400
    case Unauthorized(_) => 401
    case Forbidden(_) => 403
    case NotFound(_) => 404
    case InternalServer(_) => 500
  }

  /** Anything a service can throw: a ZodError from `schema.parse`, a raw
      database error carrying its `code`, or an ApiError. */
  datatype Thrown = ZodError | DbError(code: string) | Api(error: ApiError)

  /** The `catch` block of `registerUser`, `create` and `update`: a ZodError
      becomes "Validation error", a unique violation becomes "Email already
      exists", and everything else is rethrown as it is. */
  function TranslateWriteError(t: Thrown): (r: Thrown)
    ensures r != ZodError && r != DbError(UniqueViolation)
    ensures t.Api? ==> r == t
    ensures t.DbError? && t.code != UniqueViolation ==> r == t
    ensures t == ZodError ==> r == Api(BadRequest("Validation error"))
    ensures t == DbError(UniqueViolation) ==> r == Api(BadRequest("Email already exists"))
  {
    match t
    case ZodError => Api(BadRequest("Validation error"))
    case DbError(code) =>
      if code == UniqueViolation then Api(BadRequest("Email already exists")) else t
    case Api(_) => t
  }

  /** The `catch` block of `login`: only a ZodError is translated. */
  function TranslateLoginError(t: Thrown): (r: Thrown)
    ensures r != ZodError
    ensures t != ZodError ==> r == t
  {
    if t == ZodError then Api(BadRequest("Validation error")) else t
  }
}
