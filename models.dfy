/**
 * The records the handlers exchange: the stored user row, the paginated list and the
 * HTTP response. The fields `Username`, `LastLogin`, `Groups` and `Metadata` of the
 * source's user record are stored by no handler and are not part of this model (create and
 * update echo them from the request body in their response).
 */
module Models {

  /** A user identifier, written as the text of a UUID. */
  type Id = string

  /** An instant, as an abstract count; the handlers only copy and compare it. */
  type Time = int

  /** The identifier and instant of a freshly declared Go value (the nil UUID, the zero `time.Time`). */
  const NilId: Id := "00000000-0000-0000-0000-000000000000"
  const ZeroTime: Time := 0

  datatype User = User(
    id: Id,
    name: string,
    email: string,
    password: string,
    createdAt: Time,
    updatedAt: Time,
    isActive: bool)

  /** A `var user models.User` before any field is assigned. */
  const ZeroUser := User(NilId, "", "", "", ZeroTime, ZeroTime, false)

  datatype PaginatedResponse = PaginatedResponse(users: seq<User>, page: int, limit: int, totalUsers: int)

  /** What a handler writes: `http.Error` text, or one of the JSON documents. */
  datatype Body =
    | ErrorText(message: string)
    | UserJson(user: User)
    | PageJson(listing: PaginatedResponse)
    | MessageJson(message: string)

  datatype Response = Response(status: int, body: Body)

  const StatusOK := 200
  const StatusCreated := 201
  const StatusBadRequest := 400
  const StatusNotFound := 404
  const StatusInternalServerError := 500

  /** The generic answer to any storage failure. */
  const InternalError := Response(StatusInternalServerError, ErrorText("Internal Server Error"))

  /** No user record in the response carries a password, plain or hashed. */
  predicate HidesPasswords(r: Response) {
    match r.body
    case UserJson(u) => u.password == ""
    case PageJson(p) => forall i | 0 <= i < |p.users| :: p.users[i].password == ""
    case _ => true
  }
}
