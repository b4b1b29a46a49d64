/** The `task` table row of the web backend. Timestamps are readings of an
    abstract clock (a natural number) rather than UTC datetimes. */
module TaskModel {
  import opened Wrappers

  datatype Task = Task(
    id: int,
    title: string,
    description: Option<string>,
    isCompleted: bool,
    userId: int,
    createdAt: nat,
    updatedAt: nat)
}

/** The `user` table row of the web backend. The plaintext password is not
    a field: only its hash is kept. */
module UserModel {

  datatype User = User(id: int, email: string, hashedPassword: string, createdAt: nat)

  /** The primary-key property of a table keyed by user id. */
  predicate KeyedById(users: map<int, User>)
  {
    forall id :: id in users ==> users[id].id == id
  }
}

/** The error codes carried in the `X-Error-Code` header of error responses,
    the full `ErrorCode` set of backend/src/api/schemas/error.py:26-34. Within
    this model only `Unauthorized` is raised (by `CurrentUser`); the others
    belong to the route layer, which is not modelled. */
module ErrorCodes {

  const ValidationError := "VALIDATION_ERROR"
  const Unauthorized := "UNAUTHORIZED"
  const Forbidden := "FORBIDDEN"
  const NotFound := "NOT_FOUND"
  const Conflict := "CONFLICT"
  const InternalError := "INTERNAL_ERROR"

  /** An HTTP error raised by a request handler: status, detail, code. */
  datatype HttpError = HttpError(status: int, detail: string, code: string)
}
