/**
 Shared result types: an optional value, a success-or-failure value, and the
 error object the request handlers pass to the framework's error handler.
 */
module Results {

  datatype Option<+T> = None | Some(value: T)

  datatype Result<+T, +E> = Success(value: T) | Failure(error: E)

  /** Why a handler refused a request. */
  datatype Reason =
    | MissingCredentials           // login without email or password
    | NoUserForEmail               // login for an unknown email
    | IncorrectPassword            // login with a wrong password, under the threshold
    | IllegalArguments             // bcrypt's compare given a password that is not a string
    | Blocked(shown: Option<int>)  // the number printed in "You're blocked for N minutes"; None is NaN
    | NotLoggedIn                  // no usable bearer token
    | InvalidToken                 // the token verifier threw
    | UserNoLongerExists
    | PasswordChangedAfterToken
    | PermissionDenied             // restrictTo
    | NoCommentToEdit              // commentOwner: no comment with that id
    | NotCommentOwner              // commentOwner: requester is not the commenter
    | PasswordFieldsNotAllowed     // updateMe with password data
    | NoSuchComment                // a handler dereferenced a comment that does not exist
    | CastFailed(path: string)     // a request field could not be cast to the schema type
    | ValidationFailed(path: string)

  /**
   The error handed to `next`: a reason and the status code the handler
   passes, or None where the handler passes none (or an exception is thrown).
   */
  datatype AppError = AppError(reason: Reason, status: Option<nat>)

  /** What a middleware or handler does with a request. */
  datatype Outcome = Proceed | Reject(error: AppError)
}
