/** What the two route tables share: the session, the responses, and the
    `requireAuth` gate that routes/todoRoutes.js and routes/authRoutes.js each
    define identically. */
module Http {
  import opened Common
  import opened TodoStore
  import opened UserStore

  const AuthenticationRequired := "Authentication required"

  /** A JSON response body. */
  datatype Body =
    | ErrorBody(error: string)                    // { error }
    | TodoBody(todo: Todo)                        // one todo row
    | TodoListBody(todos: seq<Todo>)              // an array of todo rows
    | DeletedBody(message: string, id: int)       // { message, id }
    | UserBody(message: string, user: PublicUser) // { message, user }
    | MeBody(sessionUserId: Option<int>, sessionUsername: Option<string>) // { id, username }
    | MessageBody(message: string)                // { message }

  /** `res.status(status).json(body)`; `res.json(body)` alone answers 200. */
  datatype Response = Response(status: int, body: Body)

  /** The server-side session attached to a request (`req.session`). */
  class Session {
    var userId: Option<int>
    var username: Option<string>

    constructor ()
      ensures userId == None && username == None
    {
      userId := None;
      username := None;
    }
  }

  /** `req.session && req.session.userId`: JavaScript truthiness, so a stored
      id of 0 does not pass. */
  predicate Authenticated(userId: Option<int>) {
    userId.Some? && userId.value != 0
  }

  /** `requireAuth`: `None` means the request goes on to the handler
      (`next()`); otherwise the answer is a 401. */
  function RequireAuth(userId: Option<int>): (r: Option<Response>)
    ensures r.None? <==> Authenticated(userId)
    ensures r.Some? ==> r.value == Response(401, ErrorBody(AuthenticationRequired))
  {
    if Authenticated(userId) then None else Some(Response(401, ErrorBody(AuthenticationRequired)))
  }
}
