/** The todo route table (routes/todoRoutes.js): every route is behind
    `requireAuth`, the `:id` routes reject an id that does not parse, and each
    handler maps the view-model's error message to a status code. The acting
    user is always the session's `userId`. */
module TodoRoutes {
  import opened Common
  import opened Strings
  import opened TodoStore
  import opened TodoService
  import opened Http

  const InvalidTodoId := "Invalid todo ID"

  /** `err.error || fallback` */
  function ErrorMessage(error: string, fallback: string): string {
    if error != "" then error else fallback
  }

  /** GET / and GET /deleted: the list with 200, or 500 with the message. */
  function ListResponse(r: Result<seq<Todo>>, fallback: string): (res: Response)
    ensures res.status == 200 <==> r.Ok?
    ensures r.Ok? ==> res.body == TodoListBody(r.value)
    ensures r.Err? ==> res == Response(500, ErrorBody(ErrorMessage(r.error, fallback)))
  {
    match r
    case Ok(todos) => Response(200, TodoListBody(todos))
    case Err(e) => Response(500, ErrorBody(ErrorMessage(e, fallback)))
  }

  /** POST /: a missing text is the client's fault (400), anything else the
      server's (500); success answers 201 with the new row. */
  function CreateResponse(r: Result<Todo>): (res: Response)
    ensures r.Ok? <==> res.status == 201
    ensures r.Ok? ==> res.body == TodoBody(r.value)
    ensures r.Err? ==> res.body == ErrorBody(r.error)
                       && (res.status == 400 <==> r.error == TextRequired)
                       && (res.status == 500 <==> r.error != TextRequired)
  {
    match r
    case Ok(todo) => Response(201, TodoBody(todo))
    case Err(e) => Response(if e == TextRequired then 400 else 500, ErrorBody(e))
  }

  /** `isNaN(parseInt(req.params.id))`: an id that does not parse answers 400
      before any service call; `None` lets the handler go on. */
  function CheckId(todoId: Option<int>): (res: Option<Response>)
    ensures res.None? <==> todoId.Some?
    ensures res.Some? ==> res.value == Response(400, ErrorBody(InvalidTodoId))
  {
    if todoId.None? then Some(Response(400, ErrorBody(InvalidTodoId))) else None
  }

  /** PUT /:id: the boolean check is 400, not-found 404, anything else 500. */
  function UpdateResponse(r: Result<Todo>): (res: Response)
    ensures r.Ok? <==> res.status == 200
    ensures r.Ok? ==> res.body == TodoBody(r.value)
    ensures r.Err? ==> res.body == ErrorBody(r.error)
                       && (res.status == 400 <==> r.error == NotBoolean)
                       && (res.status == 404 <==> r.error == NotFoundOrDeleted)
                       && (res.status == 500 <==> r.error != NotBoolean && r.error != NotFoundOrDeleted)
  {
    match r
    case Ok(todo) => Response(200, TodoBody(todo))
    case Err(e) =>
      Response(if e == NotBoolean then 400 else if e == NotFoundOrDeleted then 404 else 500, ErrorBody(e))
  }

  /** DELETE /:id: not-found is 404, anything else 500; success answers the
      confirmation. */
  function DeleteResponse(r: Result<DeleteReceipt>): (res: Response)
    ensures r.Ok? <==> res.status == 200
    ensures r.Ok? ==> res.body == DeletedBody(r.value.message, r.value.id)
    ensures r.Err? ==> res.body == ErrorBody(r.error)
                       && (res.status == 404 <==> r.error == NotFoundOrAlreadyDeleted)
                       && (res.status == 500 <==> r.error != NotFoundOrAlreadyDeleted)
  {
    match r
    case Ok(receipt) => Response(200, DeletedBody(receipt.message, receipt.id))
    case Err(e) => Response(if e == NotFoundOrAlreadyDeleted then 404 else 500, ErrorBody(e))
  }

  /** The router built around one `TodoViewModel`. */
  class TodoRouter {
    const todoViewModel: TodoViewModel

    constructor (todoViewModel: TodoViewModel)
      ensures this.todoViewModel == todoViewModel
    {
      this.todoViewModel := todoViewModel;
    }

    /** GET / */
    method GetActive(session: Session, fault: Fault) returns (res: Response)
      ensures !Authenticated(session.userId) ==> res == Response(401, ErrorBody(AuthenticationRequired))
      ensures Authenticated(session.userId) ==>
        res == if Answers(fault, 0)
               then Response(200, TodoListBody(todoViewModel.todoModel.GetAllTodos(session.userId.value)))
               else Response(500, ErrorBody(FetchFailed))
    {
      var gate := RequireAuth(session.userId);
      if gate.Some? {
        return gate.value;
      }
      var r := todoViewModel.GetActiveTodos(session.userId.value, fault);
      res := ListResponse(r, FetchFailed);
    }

    /** GET /deleted */
    method GetDeleted(session: Session, fault: Fault) returns (res: Response)
      ensures !Authenticated(session.userId) ==> res == Response(401, ErrorBody(AuthenticationRequired))
      ensures Authenticated(session.userId) ==>
        res == if Answers(fault, 0)
               then Response(200, TodoListBody(todoViewModel.todoModel.GetDeletedTodos(session.userId.value)))
               else Response(500, ErrorBody(FetchDeletedFailed))
    {
      var gate := RequireAuth(session.userId);
      if gate.Some? {
        return gate.value;
      }
      var r := todoViewModel.GetDeletedTodos(session.userId.value, fault);
      res := ListResponse(r, FetchDeletedFailed);
    }

    /** POST / with body `{ text, priority }` */
    method Post(session: Session, text: Option<string>, priority: Option<string>, fault: Fault)
      returns (res: Response)
      requires todoViewModel.todoModel.Valid()
      modifies todoViewModel.todoModel
      ensures todoViewModel.todoModel.Valid()
      ensures !Authenticated(session.userId) ==>
        res == Response(401, ErrorBody(AuthenticationRequired)) && unchanged(todoViewModel.todoModel)
      ensures Authenticated(session.userId) && MissingText(text) ==>
        res == Response(400, ErrorBody(TextRequired)) && unchanged(todoViewModel.todoModel)
      ensures Authenticated(session.userId) && !MissingText(text) ==>
        (res.status == 201 <==> Answers(fault, 0) && Answers(fault, 1))
      ensures Authenticated(session.userId) && !MissingText(text) && !Answers(fault, 0) ==>
        res == Response(500, ErrorBody(CreateFailed)) && unchanged(todoViewModel.todoModel)
      ensures Authenticated(session.userId) && !MissingText(text) && Answers(fault, 0) ==>
        var row := Todo(old(todoViewModel.todoModel.nextId), Trim(text.value), NormalizePriority(priority),
                        false, false, session.userId.value,
                        old(todoViewModel.todoModel.clock), old(todoViewModel.todoModel.clock));
        && todoViewModel.todoModel.todos == old(todoViewModel.todoModel.todos) + [row]
        && res == (if Answers(fault, 1) then Response(201, TodoBody(row))
                   else Response(500, ErrorBody(CreatedButFetchFailed)))
      ensures res.status == 201 ==>
        && res.body.TodoBody?
        && todoViewModel.todoModel.todos == old(todoViewModel.todoModel.todos) + [res.body.todo]
        && res.body.todo == Todo(old(todoViewModel.todoModel.nextId), Trim(text.value), NormalizePriority(priority),
                                 false, false, session.userId.value,
                                 old(todoViewModel.todoModel.clock), old(todoViewModel.todoModel.clock))
      ensures res.status in {201, 400, 401, 500}
    {
      var gate := RequireAuth(session.userId);
      if gate.Some? {
        return gate.value;
      }
      var r := todoViewModel.CreateTodo(text, priority, session.userId.value, fault);
      res := CreateResponse(r);
    }

    /** PUT /:id with body `{ completed }`; `todoId` is `parseInt` of the path
        segment, `None` when it is NaN. */
    method Put(session: Session, todoId: Option<int>, completed: JsonValue, fault: Fault)
      returns (res: Response)
      requires todoViewModel.todoModel.Valid()
      modifies todoViewModel.todoModel
      ensures todoViewModel.todoModel.Valid()
      ensures !Authenticated(session.userId) ==>
        res == Response(401, ErrorBody(AuthenticationRequired)) && unchanged(todoViewModel.todoModel)
      ensures Authenticated(session.userId) && todoId.None? ==>
        res == Response(400, ErrorBody(InvalidTodoId)) && unchanged(todoViewModel.todoModel)
      ensures Authenticated(session.userId) && todoId.Some? && !completed.Bool? ==>
        res == Response(400, ErrorBody(NotBoolean)) && unchanged(todoViewModel.todoModel)
      ensures Authenticated(session.userId) && todoId.Some? && completed.Bool? && Answers(fault, 0) ==>
        var c := ActiveById(todoId.value, session.userId.value);
        && todoViewModel.todoModel.todos
             == UpdateWhere(old(todoViewModel.todoModel.todos), c, SetCompleted(completed.b), old(todoViewModel.todoModel.clock))
        && (res.status == 404 <==> Where(old(todoViewModel.todoModel.todos), c) == [])
        && (res.status == 200 <==> Where(old(todoViewModel.todoModel.todos), c) != [] && Answers(fault, 1))
        && var matched := Where(old(todoViewModel.todoModel.todos), c);
           res == if matched == [] then Response(404, ErrorBody(NotFoundOrDeleted))
                  else if Answers(fault, 1)
                  then Response(200, TodoBody(matched[0].(completed := completed.b, updatedAt := old(todoViewModel.todoModel.clock))))
                  else Response(500, ErrorBody(UpdatedButFetchFailed))
      ensures Authenticated(session.userId) && todoId.Some? && completed.Bool? && !Answers(fault, 0) ==>
        res == Response(500, ErrorBody(UpdateFailed)) && unchanged(todoViewModel.todoModel)
      ensures res.status == 200 ==>
        && res.body.TodoBody?
        && res.body.todo.id == todoId.value
        && res.body.todo.userId == session.userId.value
        && completed.Bool? && res.body.todo.completed == completed.b
      ensures res.status in {200, 400, 401, 404, 500}
    {
      var gate := RequireAuth(session.userId);
      if gate.Some? {
        return gate.value;
      }
      var idCheck := CheckId(todoId);
      if idCheck.Some? {
        return idCheck.value;
      }
      var r := todoViewModel.UpdateTodoCompletion(todoId.value, completed, session.userId.value, fault);
      res := UpdateResponse(r);
    }

    /** DELETE /:id; `todoId` as for PUT. */
    method Delete(session: Session, todoId: Option<int>, fault: Fault) returns (res: Response)
      requires todoViewModel.todoModel.Valid()
      modifies todoViewModel.todoModel
      ensures todoViewModel.todoModel.Valid()
      ensures !Authenticated(session.userId) ==>
        res == Response(401, ErrorBody(AuthenticationRequired)) && unchanged(todoViewModel.todoModel)
      ensures Authenticated(session.userId) && todoId.None? ==>
        res == Response(400, ErrorBody(InvalidTodoId)) && unchanged(todoViewModel.todoModel)
      ensures Authenticated(session.userId) && todoId.Some? && Answers(fault, 0) ==>
        var c := ActiveById(todoId.value, session.userId.value);
        && todoViewModel.todoModel.todos
             == UpdateWhere(old(todoViewModel.todoModel.todos), c, SetDeleted, old(todoViewModel.todoModel.clock))
        && (res.status == 404 <==> Where(old(todoViewModel.todoModel.todos), c) == [])
        && (res.status == 200 <==> Where(old(todoViewModel.todoModel.todos), c) != [])
        && (res.status == 200 ==> res.body == DeletedBody(DeletedMessage, todoId.value))
        && res == if Where(old(todoViewModel.todoModel.todos), c) == [] then Response(404, ErrorBody(NotFoundOrAlreadyDeleted))
                  else Response(200, DeletedBody(DeletedMessage, todoId.value))
      ensures Authenticated(session.userId) && todoId.Some? && !Answers(fault, 0) ==>
        res == Response(500, ErrorBody(DeleteFailed)) && unchanged(todoViewModel.todoModel)
      ensures res.status in {200, 400, 401, 404, 500}
    {
      var gate := RequireAuth(session.userId);
      if gate.Some? {
        return gate.value;
      }
      var idCheck := CheckId(todoId);
      if idCheck.Some? {
        return idCheck.value;
      }
      var r := todoViewModel.DeleteTodo(todoId.value, session.userId.value, fault);
      res := DeleteResponse(r);
    }
  }
}
