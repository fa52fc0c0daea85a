/** `TodoViewModel` (viewmodels/todoViewModel.js): checks the input, issues
    the store statements in order (write, check `affectedRows`, read back) and
    turns their outcomes into the messages the routes map to status codes. */
module TodoService {
  import opened Common
  import opened Strings
  import opened TodoStore

  const TextRequired := "Todo text is required"
  const NotBoolean := "Completed must be a boolean value"
  const NotFoundOrDeleted := "Todo not found or deleted"
  const NotFoundOrAlreadyDeleted := "Todo not found or already deleted"
  const FetchFailed := "Failed to fetch todos"
  const FetchDeletedFailed := "Failed to fetch deleted todos"
  const CreateFailed := "Failed to create todo"
  const CreatedButFetchFailed := "Todo created but failed to fetch"
  const UpdateFailed := "Failed to update todo"
  const UpdatedButFetchFailed := "Todo updated but failed to fetch"
  const DeleteFailed := "Failed to delete todo"
  const DeletedMessage := "Todo deleted successfully"

  const ValidPriorities: seq<string> := ["low", "medium", "high"]

  /** A field of a parsed JSON request body, as JavaScript sees it. */
  datatype JsonValue = Undefined | Null | Bool(b: bool) | Number(n: int) | Str(s: string)

  /** The confirmation `deleteTodo` hands back: `{ message, id }`. */
  datatype DeleteReceipt = DeleteReceipt(message: string, id: int)

  /** `!text || !text.trim()`: absent, empty or whitespace only. */
  predicate MissingText(text: Option<string>) {
    text.None? || Trim(text.value) == []
  }

  /** `validPriorities.includes(priority) ? priority : 'medium'` */
  function NormalizePriority(priority: Option<string>): (p: string)
    ensures p in ValidPriorities
    ensures priority.Some? && priority.value in ValidPriorities ==> p == priority.value
    ensures priority.None? || priority.value !in ValidPriorities ==> p == "medium"
  {
    if priority.Some? && priority.value in ValidPriorities then priority.value else "medium"
  }

  /** A todo text is rejected exactly when it is absent or consists only of
      whitespace; an accepted text is stored trimmed, so never empty and
      never padded. */
  lemma AcceptedTextIsClean(text: Option<string>)
    ensures MissingText(text) <==> text.None? || Blank(text.value)
    ensures !MissingText(text) ==> Trim(text.value) != [] && Unpadded(Trim(text.value))
  {
    if text.Some? {
      TrimEmptyIffBlank(text.value);
    }
  }

  class TodoViewModel {
    const todoModel: TodoModel

    constructor (todoModel: TodoModel)
      ensures this.todoModel == todoModel
    {
      this.todoModel := todoModel;
    }

    /** `getActiveTodos`: the store's active list, unchanged, or an error when
        the query fails. */
    method GetActiveTodos(userId: int, fault: Fault) returns (r: Result<seq<Todo>>)
      ensures r.Ok? <==> Answers(fault, 0)
      ensures r.Ok? ==> r.value == todoModel.GetAllTodos(userId)
      ensures r.Err? ==> r.error == FetchFailed
    {
      if !Answers(fault, 0) {
        return Err(FetchFailed);
      }
      r := Ok(todoModel.GetAllTodos(userId));
    }

    /** `getDeletedTodos`: the store's deleted list, unchanged, or an error
        when the query fails. */
    method GetDeletedTodos(userId: int, fault: Fault) returns (r: Result<seq<Todo>>)
      ensures r.Ok? <==> Answers(fault, 0)
      ensures r.Ok? ==> r.value == todoModel.GetDeletedTodos(userId)
      ensures r.Err? ==> r.error == FetchDeletedFailed
    {
      if !Answers(fault, 0) {
        return Err(FetchDeletedFailed);
      }
      r := Ok(todoModel.GetDeletedTodos(userId));
    }

    /** `createTodo`: rejects missing text before touching the store, inserts
        the trimmed text with the normalised priority, then reads the new row
        back by `insertId` under the same user and returns it. */
    method CreateTodo(text: Option<string>, priority: Option<string>, userId: int, fault: Fault)
      returns (r: Result<Todo>)
      requires todoModel.Valid()
      modifies todoModel
      ensures todoModel.Valid()
      ensures MissingText(text) ==> r == Err(TextRequired) && unchanged(todoModel)
      ensures !MissingText(text) && !Answers(fault, 0) ==> r == Err(CreateFailed) && unchanged(todoModel)
      ensures !MissingText(text) && Answers(fault, 0) ==>
        var row := Todo(old(todoModel.nextId), Trim(text.value), NormalizePriority(priority),
                        false, false, userId, old(todoModel.clock), old(todoModel.clock));
        && todoModel.todos == old(todoModel.todos) + [row]
        && todoModel.nextId == old(todoModel.nextId) + 1
        && todoModel.clock == old(todoModel.clock) + 1
        && r == (if Answers(fault, 1) then Ok(row) else Err(CreatedButFetchFailed))
    {
      if text.None? || Trim(text.value) == [] {
        return Err(TextRequired);
      }
      var todoPriority := NormalizePriority(priority);
      var cleanText := Trim(text.value);
      if !Answers(fault, 0) {
        return Err(CreateFailed);
      }
      ghost var before := todoModel.todos;
      var insertId := todoModel.CreateTodo(cleanText, todoPriority, userId);
      if !Answers(fault, 1) {
        return Err(CreatedButFetchFailed);
      }
      var todo := todoModel.GetTodoById(insertId, userId);
      ReadBackAfterInsert(before, todoModel.todos[|before|]);
      assert todo == [todoModel.todos[|before|]];
      r := Ok(todo[0]);
    }

    /** `updateTodoCompletion`: rejects a `completed` that is not a genuine
        boolean before touching the store; reports not-found exactly when the
        scoped UPDATE matched no row; otherwise reads the row back. */
    method UpdateTodoCompletion(todoId: int, completed: JsonValue, userId: int, fault: Fault)
      returns (r: Result<Todo>)
      requires todoModel.Valid()
      modifies todoModel
      ensures todoModel.Valid()
      ensures !completed.Bool? ==> r == Err(NotBoolean) && unchanged(todoModel)
      ensures completed.Bool? && !Answers(fault, 0) ==> r == Err(UpdateFailed) && unchanged(todoModel)
      ensures completed.Bool? && Answers(fault, 0) ==>
        var c := ActiveById(todoId, userId);
        var matched := Where(old(todoModel.todos), c);
        && todoModel.todos == UpdateWhere(old(todoModel.todos), c, SetCompleted(completed.b), old(todoModel.clock))
        && todoModel.nextId == old(todoModel.nextId)
        && todoModel.clock == old(todoModel.clock) + 1
        && |matched| <= 1
        && (matched == [] ==> r == Err(NotFoundOrDeleted))
        && (matched != [] && !Answers(fault, 1) ==> r == Err(UpdatedButFetchFailed))
        && (matched != [] && Answers(fault, 1) ==>
              r == Ok(matched[0].(completed := completed.b, updatedAt := old(todoModel.clock))))
      ensures r.Ok? ==> r.value.id == todoId && r.value.userId == userId && !r.value.isDeleted
                        && completed.Bool? && r.value.completed == completed.b
    {
      if !completed.Bool? {
        return Err(NotBoolean);
      }
      if !Answers(fault, 0) {
        return Err(UpdateFailed);
      }
      ghost var before := todoModel.todos;
      ghost var now := todoModel.clock;
      var affectedRows := todoModel.UpdateTodoCompletion(todoId, completed.b, userId);
      if affectedRows == 0 {
        return Err(NotFoundOrDeleted);
      }
      if !Answers(fault, 1) {
        return Err(UpdatedButFetchFailed);
      }
      var todo := todoModel.GetTodoById(todoId, userId);
      ReadBackAfterUpdate(before, todoId, userId, completed.b, now);
      ghost var m := Where(before, ActiveById(todoId, userId))[0];
      assert m in Where(before, ActiveById(todoId, userId));
      r := Ok(todo[0]);
    }

    /** `deleteTodo`: the scoped soft delete; not-found exactly when it
        matched no row, otherwise the confirmation `{ message, id }`. */
    method DeleteTodo(todoId: int, userId: int, fault: Fault) returns (r: Result<DeleteReceipt>)
      requires todoModel.Valid()
      modifies todoModel
      ensures todoModel.Valid()
      ensures !Answers(fault, 0) ==> r == Err(DeleteFailed) && unchanged(todoModel)
      ensures Answers(fault, 0) ==>
        var c := ActiveById(todoId, userId);
        && todoModel.todos == UpdateWhere(old(todoModel.todos), c, SetDeleted, old(todoModel.clock))
        && todoModel.nextId == old(todoModel.nextId)
        && todoModel.clock == old(todoModel.clock) + 1
        && r == (if Where(old(todoModel.todos), c) == [] then Err(NotFoundOrAlreadyDeleted)
                 else Ok(DeleteReceipt(DeletedMessage, todoId)))
    {
      if !Answers(fault, 0) {
        return Err(DeleteFailed);
      }
      var affectedRows := todoModel.DeleteTodo(todoId, userId);
      if affectedRows == 0 {
        return Err(NotFoundOrAlreadyDeleted);
      }
      r := Ok(DeleteReceipt(DeletedMessage, todoId));
    }
  }

  /** Deleting the same todo twice: the first call confirms, the second
      reports not-found, and the table is left as the first call left it
      apart from the clock. */
  method DeleteTwice(vm: TodoViewModel, todoId: int, userId: int) returns (first: Result<DeleteReceipt>, second: Result<DeleteReceipt>)
    requires vm.todoModel.Valid()
    requires Where(vm.todoModel.todos, ActiveById(todoId, userId)) != []
    modifies vm.todoModel
    ensures first == Ok(DeleteReceipt(DeletedMessage, todoId))
    ensures second == Err(NotFoundOrAlreadyDeleted)
  {
    first := vm.DeleteTodo(todoId, userId, NoFault);
    DeleteTwiceMatchesNothing(old(vm.todoModel.todos), todoId, userId, old(vm.todoModel.clock));
    second := vm.DeleteTodo(todoId, userId, NoFault);
  }

  /** Setting `completed` to true and then to false leaves the todo active,
      owned by the same user and incomplete: the two active states toggle
      freely. */
  method CompleteThenReopen(vm: TodoViewModel, todoId: int, userId: int) returns (done: Result<Todo>, reopened: Result<Todo>)
    requires vm.todoModel.Valid()
    requires Where(vm.todoModel.todos, ActiveById(todoId, userId)) != []
    modifies vm.todoModel
    ensures done.Ok? && done.value.completed
    ensures reopened.Ok? && !reopened.value.completed
    ensures reopened.value.id == todoId && reopened.value.userId == userId && !reopened.value.isDeleted
    ensures reopened.value.text == done.value.text && reopened.value.priority == done.value.priority
  {
    done := vm.UpdateTodoCompletion(todoId, Bool(true), userId, NoFault);
    var c := ActiveById(todoId, userId);
    assert done.value in Where(vm.todoModel.todos, c) by {
      var m := Where(old(vm.todoModel.todos), c)[0];
      assert m in Where(old(vm.todoModel.todos), c);
      var k :| 0 <= k < |old(vm.todoModel.todos)| && old(vm.todoModel.todos)[k] == m;
      assert vm.todoModel.todos[k] == done.value;
    }
    ghost var mid := vm.todoModel.todos;
    WhereByIdAtMostOne(mid, todoId, userId);
    reopened := vm.UpdateTodoCompletion(todoId, Bool(false), userId, NoFault);
    assert Where(mid, c)[0] in Where(mid, c);
  }
}
