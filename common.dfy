/** Types shared by the controllers: optional values (PHP's null), the error
    answers the API gives instead of a result, and the authenticated caller. */
module Common {

  /** A nullable value: `None` plays PHP's `null` and JavaScript's `undefined`. */
  datatype Option<+T> = None | Some(value: T) {
    /** The value if present, otherwise `default` (PHP's `??`). */
    function GetOr(default: T): T {
      match this
      case Some(v) => v
      case None => default
    }
  }

  /** The error responses of the API controllers and middleware. */
  datatype ApiError =
    | ValidationError    // 422: a request field failed its validation rule
    | Unauthorized       // 403: the exam belongs to another user
    | AlreadySubmitted   // 400: the exam has a finish time already
    | NotFound           // 404: no row with that id
    | Forbidden          // 403: admin-only route called by a non-admin
    | InProgress         // the corrected `detail`: the exam has no finish time yet

  /** Either the data of a successful response or the error returned instead. */
  datatype Result<+T> = Ok(value: T) | Err(error: ApiError)

  /** The authenticated user as the controllers see it. */
  datatype User = User(id: int, isAdmin: bool)

  /** The check of the `admin` route middleware: a user is present and has
      the `is_admin` flag. */
  predicate IsAdmin(caller: Option<User>) {
    caller.Some? && caller.value.isAdmin
  }
}
