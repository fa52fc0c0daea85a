/** The `todos` table and the six parameterised statements of `TodoModel`
    (models/Todo.js). Every statement is scoped by `user_id`; every statement
    but the INSERT also by `is_deleted`. */
module TodoStore {

  /** One row of `todos`. `createdAt` and `updatedAt` are abstract times read
      from the store's clock. */
  datatype Todo = Todo(
    id: int,
    text: string,
    priority: string,
    completed: bool,
    isDeleted: bool,
    userId: int,
    createdAt: nat,
    updatedAt: nat)

  /** The WHERE clauses of the statements. */
  datatype Cond =
    | ActiveOf(userId: int)             // is_deleted = FALSE AND user_id = ?
    | DeletedOf(userId: int)            // is_deleted = TRUE AND user_id = ?
    | ActiveById(id: int, userId: int)  // id = ? AND is_deleted = FALSE AND user_id = ?

  predicate Holds(c: Cond, t: Todo) {
    match c
    case ActiveOf(u) => !t.isDeleted && t.userId == u
    case DeletedOf(u) => t.isDeleted && t.userId == u
    case ActiveById(id, u) => t.id == id && !t.isDeleted && t.userId == u
  }

  /** The user a condition is scoped to. */
  function Scope(c: Cond): int {
    match c
    case ActiveOf(u) => u
    case DeletedOf(u) => u
    case ActiveById(_, u) => u
  }

  /** The rows of `rows` that satisfy `c`, in table order. */
  function Where(rows: seq<Todo>, c: Cond): (r: seq<Todo>)
    ensures |r| <= |rows|
    ensures forall t :: t in r <==> t in rows && Holds(c, t)
  {
    if rows == [] then []
    else (if Holds(c, rows[0]) then [rows[0]] else []) + Where(rows[1..], c)
  }

  /** The ORDER BY columns. */
  datatype Column = CreatedAt | UpdatedAt

  function Key(t: Todo, col: Column): nat {
    match col
    case CreatedAt => t.createdAt
    case UpdatedAt => t.updatedAt
  }

  predicate SortedDesc(rows: seq<Todo>, col: Column) {
    forall i, j :: 0 <= i < j < |rows| ==> Key(rows[i], col) >= Key(rows[j], col)
  }

  /** Places `t` into a list sorted by `col`, descending. */
  function InsertDesc(t: Todo, rows: seq<Todo>, col: Column): (r: seq<Todo>)
    requires SortedDesc(rows, col)
    ensures |r| == |rows| + 1
    ensures r[0] == t || (rows != [] && r[0] == rows[0])
    ensures SortedDesc(r, col)
    ensures multiset(r) == multiset(rows) + multiset{t}
  {
    if rows == [] || Key(t, col) >= Key(rows[0], col) then [t] + rows
    else
      var tail := InsertDesc(t, rows[1..], col);
      assert rows == [rows[0]] + rows[1..];
      [rows[0]] + tail
  }

  /** `ORDER BY col DESC`: a permutation of `rows`, sorted by `col`,
      descending. SQL leaves the order of ties open; this model fixes one. */
  function OrderByDesc(rows: seq<Todo>, col: Column): (r: seq<Todo>)
    ensures SortedDesc(r, col)
    ensures multiset(r) == multiset(rows)
    ensures forall t :: t in r <==> t in rows
  {
    if rows == [] then []
    else
      assert rows == [rows[0]] + rows[1..];
      var r := InsertDesc(rows[0], OrderByDesc(rows[1..], col), col);
      assert forall t :: t in r <==> t in multiset(r);
      assert forall t :: t in rows <==> t in multiset(rows);
      r
  }

  /** What an UPDATE sets; each matched row's `updated_at` is touched too. */
  datatype Assignment = SetCompleted(completed: bool) | SetDeleted

  function Assign(t: Todo, a: Assignment, now: nat): Todo {
    match a
    case SetCompleted(b) => t.(completed := b, updatedAt := now)
    case SetDeleted => t.(isDeleted := true, updatedAt := now)
  }

  /** `UPDATE todos SET a WHERE c`, applied at time `now`. */
  function UpdateWhere(rows: seq<Todo>, c: Cond, a: Assignment, now: nat): seq<Todo> {
    seq(|rows|, i requires 0 <= i < |rows| =>
      if Holds(c, rows[i]) then Assign(rows[i], a, now) else rows[i])
  }

  /** Ids are positive, strictly increasing along the table (so unique) and
      below the next AUTO_INCREMENT value; times are before `clock`. */
  predicate WellFormed(rows: seq<Todo>, nextId: int, clock: nat) {
    && 1 <= nextId
    && (forall i :: 0 <= i < |rows| ==>
          1 <= rows[i].id < nextId && rows[i].createdAt <= rows[i].updatedAt < clock)
    && (forall i, j :: 0 <= i < j < |rows| ==> rows[i].id < rows[j].id)
  }

  /** `TodoModel`: the `todos` table together with its AUTO_INCREMENT counter
      and the database clock. */
  class TodoModel {
    var todos: seq<Todo>
    var nextId: int
    var clock: nat

    ghost predicate Valid()
      reads this
    {
      WellFormed(todos, nextId, clock)
    }

    constructor ()
      ensures Valid() && todos == [] && nextId == 1 && clock == 0
    {
      todos := [];
      nextId := 1;
      clock := 0;
    }

    /** `SELECT * FROM todos WHERE is_deleted = FALSE AND user_id = ?
        ORDER BY created_at DESC` */
    function GetAllTodos(userId: int): (r: seq<Todo>)
      reads this
      ensures forall t :: t in r <==> t in todos && !t.isDeleted && t.userId == userId
      ensures multiset(r) == multiset(Where(todos, ActiveOf(userId)))
      ensures SortedDesc(r, CreatedAt)
    {
      OrderByDesc(Where(todos, ActiveOf(userId)), CreatedAt)
    }

    /** `SELECT * FROM todos WHERE is_deleted = TRUE AND user_id = ?
        ORDER BY updated_at DESC` */
    function GetDeletedTodos(userId: int): (r: seq<Todo>)
      reads this
      ensures forall t :: t in r <==> t in todos && t.isDeleted && t.userId == userId
      ensures multiset(r) == multiset(Where(todos, DeletedOf(userId)))
      ensures SortedDesc(r, UpdatedAt)
    {
      OrderByDesc(Where(todos, DeletedOf(userId)), UpdatedAt)
    }

    /** `SELECT * FROM todos WHERE id = ? AND is_deleted = FALSE AND user_id = ?` */
    function GetTodoById(todoId: int, userId: int): (r: seq<Todo>)
      requires Valid()
      reads this
      ensures |r| <= 1
      ensures forall t :: t in r <==> t in todos && t.id == todoId && !t.isDeleted && t.userId == userId
    {
      WhereByIdAtMostOne(todos, todoId, userId);
      Where(todos, ActiveById(todoId, userId))
    }

    /** `INSERT INTO todos (text, priority, user_id) VALUES (?, ?, ?)`; the
        schema defaults give `completed` and `is_deleted` false and both
        timestamps the current time. Returns `insertId`. */
    method CreateTodo(text: string, priority: string, userId: int) returns (insertId: int)
      requires Valid()
      modifies this
      ensures Valid()
      ensures insertId == old(nextId)
      ensures todos == old(todos) + [Todo(insertId, text, priority, false, false, userId, old(clock), old(clock))]
      ensures nextId == old(nextId) + 1 && clock == old(clock) + 1
    {
      insertId := nextId;
      todos := todos + [Todo(insertId, text, priority, false, false, userId, clock, clock)];
      nextId := nextId + 1;
      clock := clock + 1;
    }

    /** `UPDATE todos SET completed = ? WHERE id = ? AND is_deleted = FALSE
        AND user_id = ?`. Returns `affectedRows`, the number of matched rows. */
    method UpdateTodoCompletion(todoId: int, completed: bool, userId: int) returns (affectedRows: nat)
      requires Valid()
      modifies this
      ensures Valid()
      ensures affectedRows == |Where(old(todos), ActiveById(todoId, userId))| && affectedRows <= 1
      ensures todos == UpdateWhere(old(todos), ActiveById(todoId, userId), SetCompleted(completed), old(clock))
      ensures nextId == old(nextId) && clock == old(clock) + 1
    {
      var c := ActiveById(todoId, userId);
      WhereByIdAtMostOne(todos, todoId, userId);
      affectedRows := |Where(todos, c)|;
      todos := UpdateWhere(todos, c, SetCompleted(completed), clock);
      clock := clock + 1;
    }

    /** `UPDATE todos SET is_deleted = TRUE WHERE id = ? AND is_deleted = FALSE
        AND user_id = ?`. Returns `affectedRows`. */
    method DeleteTodo(todoId: int, userId: int) returns (affectedRows: nat)
      requires Valid()
      modifies this
      ensures Valid()
      ensures affectedRows == |Where(old(todos), ActiveById(todoId, userId))| && affectedRows <= 1
      ensures todos == UpdateWhere(old(todos), ActiveById(todoId, userId), SetDeleted, old(clock))
      ensures nextId == old(nextId) && clock == old(clock) + 1
    {
      var c := ActiveById(todoId, userId);
      WhereByIdAtMostOne(todos, todoId, userId);
      affectedRows := |Where(todos, c)|;
      todos := UpdateWhere(todos, c, SetDeleted, clock);
      clock := clock + 1;
    }
  }

  // ---------------------------------------------------------------------
  // Properties of the statements
  // ---------------------------------------------------------------------

  /** A condition no row satisfies selects nothing. */
  lemma WhereNone(rows: seq<Todo>, c: Cond)
    requires forall t :: t in rows ==> !Holds(c, t)
    ensures Where(rows, c) == []
  {
  }

  /** Filtering distributes over concatenation: the WHERE clause keeps the
      table's order. */
  lemma {:induction false} WhereAppend(a: seq<Todo>, b: seq<Todo>, c: Cond)
    ensures Where(a + b, c) == Where(a, c) + Where(b, c)
  {
    if a != [] {
      assert (a + b)[0] == a[0];
      assert (a + b)[1..] == a[1..] + b;
      WhereAppend(a[1..], b, c);
    } else {
      assert a + b == b;
    }
  }

  /** Ids are unique, so the `id = ?` statements match at most one row. */
  lemma {:induction false} WhereByIdAtMostOne(rows: seq<Todo>, id: int, userId: int)
    requires forall i, j :: 0 <= i < j < |rows| ==> rows[i].id < rows[j].id
    ensures |Where(rows, ActiveById(id, userId))| <= 1
  {
    if rows != [] {
      var c := ActiveById(id, userId);
      WhereByIdAtMostOne(rows[1..], id, userId);
      if Holds(c, rows[0]) {
        assert forall t :: t in rows[1..] ==> t.id > id;
        WhereNone(rows[1..], c);
      }
    }
  }

  /** Two tables that agree on every row a condition could select select the
      same rows. */
  lemma {:induction false} WhereAgree(rows: seq<Todo>, rows': seq<Todo>, c: Cond)
    requires |rows| == |rows'|
    requires forall i :: 0 <= i < |rows| && (Holds(c, rows[i]) || Holds(c, rows'[i])) ==> rows[i] == rows'[i]
    ensures Where(rows, c) == Where(rows', c)
  {
    if rows != [] {
      WhereAgree(rows[1..], rows'[1..], c);
    }
  }

  /** An UPDATE changes nothing but the assigned column and `updated_at`, and
      only on the rows its WHERE clause matches: no statement changes the id,
      text, priority, owner or creation time of an existing row. */
  lemma UpdateTouchesOnlyMatched(rows: seq<Todo>, c: Cond, a: Assignment, now: nat, i: int)
    requires 0 <= i < |rows|
    ensures var r := UpdateWhere(rows, c, a, now);
      && |r| == |rows|
      && r[i].id == rows[i].id && r[i].text == rows[i].text && r[i].priority == rows[i].priority
      && r[i].userId == rows[i].userId && r[i].createdAt == rows[i].createdAt
      && (!Holds(c, rows[i]) ==> r[i] == rows[i])
      && (Holds(c, rows[i]) && a.SetCompleted? ==>
            r[i] == rows[i].(completed := a.completed, updatedAt := now))
      && (Holds(c, rows[i]) && a.SetDeleted? ==>
            r[i] == rows[i].(isDeleted := true, updatedAt := now))
  {
  }

  /** Soft delete is terminal: the statements only ever match active rows, so
      a deleted row is never changed again (in particular never reactivated). */
  lemma DeletedIsTerminal(rows: seq<Todo>, c: Cond, a: Assignment, now: nat, i: int)
    requires c.ActiveById?
    requires 0 <= i < |rows| && rows[i].isDeleted
    ensures UpdateWhere(rows, c, a, now)[i] == rows[i]
  {
  }

  /** After a soft delete, the same statement matches nothing: deleting the
      same id twice affects one row and then zero rows. */
  lemma DeleteTwiceMatchesNothing(rows: seq<Todo>, id: int, userId: int, now: nat)
    ensures Where(UpdateWhere(rows, ActiveById(id, userId), SetDeleted, now), ActiveById(id, userId)) == []
  {
    var c := ActiveById(id, userId);
    var r := UpdateWhere(rows, c, SetDeleted, now);
    forall t | t in r ensures !Holds(c, t) {
      var i :| 0 <= i < |r| && r[i] == t;
    }
    WhereNone(r, c);
  }

  /** Cross-user isolation: a statement scoped to one user leaves every other
      user's active and deleted lists exactly as they were. */
  lemma OtherUsersUnaffected(rows: seq<Todo>, c: Cond, a: Assignment, now: nat, other: int)
    requires c.ActiveById? && c.userId != other
    ensures Where(UpdateWhere(rows, c, a, now), ActiveOf(other)) == Where(rows, ActiveOf(other))
    ensures Where(UpdateWhere(rows, c, a, now), DeletedOf(other)) == Where(rows, DeletedOf(other))
  {
    var r := UpdateWhere(rows, c, a, now);
    WhereAgree(rows, r, ActiveOf(other));
    WhereAgree(rows, r, DeletedOf(other));
  }

  /** The row just inserted with a fresh id is the one row the read-back by
      `insertId` under the same user finds. */
  lemma ReadBackAfterInsert(rows: seq<Todo>, t: Todo)
    requires forall i :: 0 <= i < |rows| ==> rows[i].id < t.id
    requires !t.isDeleted
    ensures Where(rows + [t], ActiveById(t.id, t.userId)) == [t]
  {
    var c := ActiveById(t.id, t.userId);
    WhereAppend(rows, [t], c);
    WhereNone(rows, c);
    assert [t][1..] == [];
  }

  /** When the completion UPDATE matched a row, the read-back under the same
      id and user finds that row, now carrying the new `completed` value. */
  lemma ReadBackAfterUpdate(rows: seq<Todo>, id: int, userId: int, b: bool, now: nat)
    requires forall i, j :: 0 <= i < j < |rows| ==> rows[i].id < rows[j].id
    requires |Where(rows, ActiveById(id, userId))| == 1
    ensures var old_ := Where(rows, ActiveById(id, userId))[0];
      Where(UpdateWhere(rows, ActiveById(id, userId), SetCompleted(b), now), ActiveById(id, userId))
        == [old_.(completed := b, updatedAt := now)]
  {
    var c := ActiveById(id, userId);
    var r := UpdateWhere(rows, c, SetCompleted(b), now);
    var m := Where(rows, c)[0];
    assert m in Where(rows, c);
    var k :| 0 <= k < |rows| && rows[k] == m;
    WhereByIdAtMostOne(r, id, userId);
    assert r[k] in Where(r, c);
    var w := Where(r, c);
    assert |w| == 1 && w[0] in w;
  }

  /** A row whose sort key is larger than every other row's comes first in a
      list sorted by that key. */
  lemma StrictMaxFirst(rows: seq<Todo>, col: Column, t: Todo)
    requires SortedDesc(rows, col) && t in rows
    requires forall x :: x in rows && x != t ==> Key(x, col) < Key(t, col)
    ensures rows[0] == t
  {
  }

  /** A todo created after every other row heads its owner's active list
      (`ORDER BY created_at DESC`). */
  lemma CreatedHeadsActiveList(rows: seq<Todo>, t: Todo)
    requires forall x :: x in rows ==> x.createdAt < t.createdAt
    requires !t.isDeleted
    ensures var r := OrderByDesc(Where(rows + [t], ActiveOf(t.userId)), CreatedAt);
      r != [] && r[0] == t
  {
    var w := Where(rows + [t], ActiveOf(t.userId));
    assert t in rows + [t];
    StrictMaxFirst(OrderByDesc(w, CreatedAt), CreatedAt, t);
  }

  /** The todo just soft-deleted heads its owner's deleted list
      (`ORDER BY updated_at DESC`), because the delete touched `updated_at`
      after every earlier write. */
  lemma DeletedHeadsDeletedList(rows: seq<Todo>, id: int, userId: int, now: nat, m: Todo)
    requires forall x :: x in rows ==> x.updatedAt < now
    requires Where(rows, ActiveById(id, userId)) == [m]
    ensures var r := OrderByDesc(Where(UpdateWhere(rows, ActiveById(id, userId), SetDeleted, now), DeletedOf(userId)), UpdatedAt);
      r != [] && r[0] == m.(isDeleted := true, updatedAt := now)
  {
    var c := ActiveById(id, userId);
    var u := UpdateWhere(rows, c, SetDeleted, now);
    var m' := m.(isDeleted := true, updatedAt := now);
    assert m in Where(rows, c);
    var k :| 0 <= k < |rows| && rows[k] == m;
    assert u[k] == m';
    var r := OrderByDesc(Where(u, DeletedOf(userId)), UpdatedAt);
    forall x | x in r && x != m' ensures Key(x, UpdatedAt) < Key(m', UpdatedAt) {
      var i :| 0 <= i < |u| && u[i] == x;
    }
    StrictMaxFirst(r, UpdatedAt, m');
  }
}
