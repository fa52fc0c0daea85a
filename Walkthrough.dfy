/** One user's session, driven through the route handlers from empty tables:
    signup, a stranger's login with a wrong password, then a todo created,
    completed, deleted and deleted again. Every status code is proved from the
    contracts of the handlers, the view-models and the stores. */
module Walkthrough {
  import opened Common
  import opened Strings
  import opened TodoStore
  import opened UserStore
  import opened TodoService
  import opened AuthService
  import opened Http
  import opened TodoRoutes
  import opened AuthRoutes

  /** Sign up "alice" with "secret": 201, one stored row with the digest of
      "secret", and the session now holds id 1. */
  method AliceSignsUp(hash: string -> string) returns (status: int, session: Session, users: UserModel)
    ensures status == 201
    ensures session.userId == Some(1) && session.username == Some("alice")
    ensures users.users == [UserRow(1, "alice", hash("secret"))]
  {
    users := new UserModel();
    var authViewModel := new AuthViewModel(users, hash);
    var auth := new AuthRouter(authViewModel);
    session := new Session();

    assert Trim("alice") == "alice" by { TrimOfPadded([], "alice", []); }
    assert ValidateCredentials(Some("alice"), Some("secret")) == [];
    assert users.FindByUsername("alice") == [];
    var signup := auth.Signup(session, Some("alice"), Some("secret"), NoFault);
    status := signup.status;
  }

  /** Then, from another session, log in as "alice" with "wrong": 401, and
      that session stays anonymous. */
  method StrangerGuessesWrong(hash: string -> string, users: UserModel) returns (status: int, stranger: Session)
    requires Injective(hash)
    requires users.users == [UserRow(1, "alice", hash("secret"))]
    ensures status == 401
    ensures stranger.userId == None
  {
    var authViewModel := new AuthViewModel(users, hash);
    var auth := new AuthRouter(authViewModel);
    stranger := new Session();
    WrongPasswordMatchesNothing(users.users, hash, 0, "secret", "wrong");
    var login := auth.Login(stranger, Some("alice"), Some("wrong"), NoFault);
    status := login.status;
  }

  /** For the logged-in user 1, create " buy milk " with the unknown priority
      "urgent": 201, and the one stored row is trimmed, "medium", active and
      numbered 1. */
  method UserAddsTodo(session: Session) returns (status: int, router: TodoRouter)
    requires session.userId == Some(1)
    ensures status == 201
    ensures router.todoViewModel.todoModel.Valid()
    ensures router.todoViewModel.todoModel.todos == [Todo(1, "buy milk", "medium", false, false, 1, 0, 0)]
  {
    var todos := new TodoModel();
    var todoViewModel := new TodoViewModel(todos);
    router := new TodoRouter(todoViewModel);

    assert Trim(" buy milk ") == "buy milk" by {
      assert " buy milk " == [' '] + "buy milk" + [' '];
      TrimOfPadded([' '], "buy milk", [' ']);
    }
    assert !MissingText(Some(" buy milk "));
    var post := router.Post(session, Some(" buy milk "), Some("urgent"), NoFault);
    status := post.status;
  }

  /** Then complete that todo (200), delete it (200) and delete it again (404). */
  method UserCompletesAndDeletes(session: Session, router: TodoRouter, t: Todo) returns (statuses: seq<int>)
    requires session.userId == Some(1)
    requires router.todoViewModel.todoModel.Valid()
    requires router.todoViewModel.todoModel.todos == [t]
    requires t.id == 1 && t.userId == 1 && !t.isDeleted
    modifies router.todoViewModel.todoModel
    ensures statuses == [200, 200, 404]
    ensures var rows := router.todoViewModel.todoModel.todos;
      |rows| == 1 && rows[0].id == 1 && rows[0].text == t.text && rows[0].completed && rows[0].isDeleted
  {
    var todos := router.todoViewModel.todoModel;
    var c := ActiveById(1, 1);
    assert Where([t], c) == [t];
    var put := router.Put(session, Some(1), Bool(true), NoFault);
    assert Where(todos.todos, c) == todos.todos;

    var delete := router.Delete(session, Some(1), NoFault);
    assert todos.todos[0].isDeleted;
    assert Where(todos.todos, c) == [];
    var again := router.Delete(session, Some(1), NoFault);

    statuses := [put.status, delete.status, again.status];
  }
}
