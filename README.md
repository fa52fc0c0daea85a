# DOABLE: the todo and account core, in Dafny

DOABLE is a small multi-user todo application served by Express. This project
models its core, layer by layer, as it is written:

- **Stores.** `TodoStore` (models/Todo.js) and `UserStore` (models/User.js)
  model the two MySQL tables and the parameterised statements run against them:
  - each table is a class holding its rows as a `seq`, plus its AUTO_INCREMENT
    counter;
  - a `SELECT` is a function over those rows;
  - an `INSERT` or `UPDATE` is a method that reassigns them.
- **View-models.** `TodoService` (viewmodels/todoViewModel.js) and
  `AuthService` (viewmodels/authViewModel.js) model validation and
  normalisation, the order of the statements, and the error message each
  failure produces.
- **Routes.** `TodoRoutes` (routes/todoRoutes.js) and `AuthRoutes`
  (routes/authRoutes.js) model:
  - the `requireAuth` gate;
  - parsing of the `:id` path segment;
  - the mapping from error message to HTTP status;
  - the session writes done on signup, login and logout.
- **Shared pieces.**
  - `Http` holds the session, the responses and `requireAuth`.
  - `Strings` models JavaScript's `String.prototype.trim`, over the ECMAScript
    white space and line terminator characters.
  - `Common` holds `Option`, `Result` and a fault oracle.
- **Walkthrough.** A user signs up, a stranger fails to log in, and the user
  creates, completes and deletes a todo twice. The status code of each step is
  proved.

Modelling choices:

- **Asynchronous callbacks become method calls.** Each statement can fail
  independently, and which one fails is an input:
  - `Fault.FailAt(k)` makes the k-th statement of an operation report a driver
    error (counting from 0);
  - a failed statement has no effect.
- **Time is a counter.** `created_at` and `updated_at` take the value of an
  abstract clock, `clock`, that every write statement advances.
- **Affected rows are matched rows.** `affectedRows` counts the rows an UPDATE
  matched, which is what the MySQL driver reports by default.
- **The digest is a parameter.** The password digest is a function the
  `AuthViewModel` is built with.
- **JavaScript truthiness is explicit.**
  - An optional string is truthy when it is present and not empty.
  - A session is authenticated when its `userId` is present and not 0.

Two behaviours of the code that a reader might not expect:

- A signup whose store statements fail answers 400, not 500
  (routes/authRoutes.js:23).
- Login checks only that both fields are present, with no length check
  (viewmodels/authViewModel.js:73).

## Model

| member | source | states |
|---|---|---|
| Strings.LeadingWhitespace | viewmodels/authViewModel.js:20 | the count it returns covers only white space, and the character after it (if any) is not white space |
| Strings.TrailingWhitespace | viewmodels/authViewModel.js:43 | the same as `LeadingWhitespace`, counted from the end |
| Strings.Trim | viewmodels/todoViewModel.js:38 | `trim()` returns the contiguous slice of the input that starts at the first non-white character, and it is never padded |
| Strings.TrimOfPadded | viewmodels/todoViewModel.js:38 | trimming removes exactly the white padding around an unpadded core |
| Strings.TrimOfBlank | viewmodels/todoViewModel.js:32 | a string of white space only trims to empty |
| Strings.TrimEmptyIffBlank | viewmodels/authViewModel.js:20 | `s.trim()` is empty if and only if `s` is white space only (both directions) |
| Strings.TrimIdempotent | viewmodels/authViewModel.js:43 | trimming twice is trimming once, so stored names and texts are fixed points |
| TodoStore.Where | models/Todo.js:11 | the WHERE clause keeps exactly the rows of the table that satisfy the condition, and no more rows than the table has |
| TodoStore.InsertDesc | models/Todo.js:11 | inserting into a descending list keeps it sorted, adds exactly the new row (multiset), and the head is the new row or the old head |
| TodoStore.OrderByDesc | models/Todo.js:11 | `ORDER BY … DESC` returns a permutation of its input that is sorted descending by the column |
| TodoStore.TodoModel.GetAllTodos | models/Todo.js:10-13 | exactly the user's non-deleted rows (membership both ways, and the same multiset as the filtered table), newest `created_at` first |
| TodoStore.TodoModel.GetDeletedTodos | models/Todo.js:16-19 | exactly the user's deleted rows, most recently updated first |
| TodoStore.TodoModel.GetTodoById | models/Todo.js:28-31 | at most one row, and it is the row with that id only when it is active and owned by that user |
| TodoStore.TodoModel.CreateTodo | models/Todo.js:22-25 | the INSERT appends one row with the next id, `completed` and `is_deleted` false, both times the current clock; returns that id; keeps the table well formed |
| TodoStore.TodoModel.UpdateTodoCompletion | models/Todo.js:34-37 | affectedRows is the number of matched rows and at most 1; the new table is the old table with the scoped assignment applied; ids and the counter are unchanged |
| TodoStore.TodoModel.DeleteTodo | models/Todo.js:40-43 | the soft delete: the same as the completion update with `is_deleted = TRUE` |
| TodoStore.WhereNone | models/Todo.js:29 | a condition no row satisfies selects nothing |
| TodoStore.WhereAppend | models/Todo.js:29 | filtering distributes over appending rows (the table order is kept) |
| TodoStore.WhereByIdAtMostOne | models/Todo.js:29 | with unique ids the `id = ?` statements match at most one row |
| TodoStore.WhereAgree | models/Todo.js:11 | tables that agree on every row a condition could select give the same selection |
| TodoStore.UpdateTouchesOnlyMatched | models/Todo.js:34-43 | `UpdateWhere`, the model of `UPDATE todos SET … WHERE …`, keeps the row count; a matched row gets exactly the assigned column and `updated_at := now`; unmatched rows are unchanged; so an UPDATE never changes id, text, priority, owner or creation time |
| TodoStore.DeletedIsTerminal | models/Todo.js:41 | no statement ever changes a soft-deleted row again |
| TodoStore.DeleteTwiceMatchesNothing | models/Todo.js:41 | after a soft delete the same statement matches no row |
| TodoStore.OtherUsersUnaffected | models/Todo.js:35 | a statement scoped to one user leaves every other user's active and deleted lists unchanged |
| TodoStore.ReadBackAfterInsert | viewmodels/todoViewModel.js:47 | the read-back by `insertId` under the same user finds exactly the row just inserted |
| TodoStore.ReadBackAfterUpdate | viewmodels/todoViewModel.js:73 | after a matched completion update, the read-back finds exactly that row with the new `completed` |
| TodoStore.StrictMaxFirst | models/Todo.js:11 | a row whose key is larger than every other row's heads a descending list |
| TodoStore.CreatedHeadsActiveList | models/Todo.js:11 | a todo created after every other row heads its owner's active list |
| TodoStore.DeletedHeadsDeletedList | models/Todo.js:17 | the todo just soft-deleted heads its owner's deleted list |
| UserStore.Select | models/User.js:11 | a query returns no more rows than the table |
| UserStore.SelectComplete | models/User.js:11 | every matching row appears in the result, projected to `{ id, username }` |
| UserStore.SelectSound | models/User.js:11 | every result is the projection of a matching row |
| UserStore.SelectEmptyIff | models/User.js:17 | the result is empty if and only if no row matches |
| UserStore.UserModel.FindByUsername | models/User.js:10-13 | the results are exactly the `{ id, username }` projections of the rows with that username (both directions), and the result is empty exactly when no row has it |
| UserStore.UserModel.FindByCredentials | models/User.js:16-19 | the results are exactly the projections of the rows with both that username and that digest (both directions), and the result is empty exactly when no such row exists |
| UserStore.UserModel.FindById | models/User.js:28-31 | at most one user, and it is exactly the projection of the row with that id |
| UserStore.UserModel.CreateUser | models/User.js:22-25 | the INSERT appends one row with the next id and returns that id; the table stays well formed |
| UserStore.SelectAppend | models/User.js:17 | selection distributes over appending rows |
| UserStore.SelectByIdAtMostOne | models/User.js:29 | with unique ids `findById` matches at most one row |
| UserStore.WrongPasswordMatchesNothing | models/User.js:17 | with unique usernames and an injective digest, the digest of any other password matches no row for that user |
| UserStore.CredentialsOfAppended | models/User.js:17 | a newly appended user's own credentials match exactly that user |
| TodoService.NormalizePriority | viewmodels/todoViewModel.js:36-37 | the result is always one of low/medium/high; a valid priority is kept, anything else becomes "medium" |
| TodoService.AcceptedTextIsClean | viewmodels/todoViewModel.js:32-38 | text is rejected if and only if it is absent or white space only; accepted text is stored non-empty and unpadded |
| TodoService.TodoViewModel.GetActiveTodos | viewmodels/todoViewModel.js:10-17 | the user's active list, or "Failed to fetch todos" exactly when the query fails |
| TodoService.TodoViewModel.GetDeletedTodos | viewmodels/todoViewModel.js:20-27 | the user's deleted list, or "Failed to fetch deleted todos" exactly when the query fails |
| TodoService.TodoViewModel.CreateTodo | viewmodels/todoViewModel.js:30-54 | missing text is rejected before the store is touched; otherwise the trimmed text is inserted with the normalised priority, and the read-back returns that exact row; each failing statement gives its own message |
| TodoService.TodoViewModel.UpdateTodoCompletion | viewmodels/todoViewModel.js:57-80 | a `completed` that is not a boolean is rejected before the store is touched; not-found is reported exactly when no active row of that user has the id; success returns the matched row with the new value |
| TodoService.TodoViewModel.DeleteTodo | viewmodels/todoViewModel.js:83-95 | the scoped soft delete; not-found exactly when nothing matched, otherwise `{ message, id }` |
| TodoService.DeleteTwice | viewmodels/todoViewModel.js:89-93 | deleting an active todo twice confirms once, then reports "Todo not found or already deleted" |
| TodoService.CompleteThenReopen | viewmodels/todoViewModel.js:59-77 | completing and then reopening an active todo succeeds both times and leaves it active, owned and incomplete |
| AuthService.ValidateCredentials | viewmodels/authViewModel.js:17-33 | each message appears exactly when its check fails; at most two messages, the username one first; empty exactly for a non-blank username with a password of length at least 3 |
| AuthService.FirstErrorReported | viewmodels/authViewModel.js:38-40 | the reported message follows the precedence blank username, then missing password, then short password |
| AuthService.AuthViewModel.Signup | viewmodels/authViewModel.js:36-68 | validation first; then the trimmed name is looked up; a taken name, or a failure of either statement, leaves the table unchanged; otherwise exactly one row with the digest is appended and `{ id, username }` is returned; unique usernames are preserved |
| AuthService.AuthViewModel.Login | viewmodels/authViewModel.js:71-95 | both fields are required; one lookup by trimmed name and digest; no match gives the generic message; success is the projection of a stored row with that name and digest |
| AuthService.SignupThenLogin | viewmodels/authViewModel.js:36-95 | logging in right after a successful signup with the same credentials returns the user the signup created |
| AuthService.LoginRejectsWrongPassword | viewmodels/authViewModel.js:81-87 | with an injective digest and unique usernames, any other password fails with "Invalid username or password" |
| Http.RequireAuth | routes/todoRoutes.js:8-13 | the request proceeds if and only if the session holds a truthy `userId`; otherwise 401 "Authentication required" |
| TodoRoutes.ListResponse | routes/todoRoutes.js:18-24 | 200 with the list exactly on success; otherwise 500 with the message or the fallback |
| TodoRoutes.CreateResponse | routes/todoRoutes.js:42-48 | 201 exactly on success; 400 exactly for "Todo text is required"; 500 for every other failure |
| TodoRoutes.CheckId | routes/todoRoutes.js:54-58 | an id that does not parse gives 400 "Invalid todo ID"; a parsed id passes |
| TodoRoutes.UpdateResponse | routes/todoRoutes.js:62-69 | 200 on success; 400 exactly for the boolean check; 404 exactly for not-found; 500 for everything else |
| TodoRoutes.DeleteResponse | routes/todoRoutes.js:81-87 | 200 with `{ message, id }` on success; 404 exactly for not-found; 500 otherwise |
| TodoRoutes.TodoRouter.GetActive | routes/todoRoutes.js:17-25 | 401 without a session; otherwise the session user's active list with 200, or 500 |
| TodoRoutes.TodoRouter.GetDeleted | routes/todoRoutes.js:28-36 | 401 without a session; otherwise the session user's deleted list with 200, or 500 |
| TodoRoutes.TodoRouter.Post | routes/todoRoutes.js:39-50 | 401 or 400 leave the table unchanged; a failed INSERT answers 500 "Failed to create todo" with the table unchanged; otherwise the trimmed, normalised row owned by the session user is appended, and the answer is 201 with that row, or 500 "Todo created but failed to fetch" when the read-back fails (the row stays) |
| TodoRoutes.TodoRouter.Put | routes/todoRoutes.js:53-71 | 401, a bad id and a non-boolean leave the table unchanged; a failed UPDATE answers 500 "Failed to update todo" with the table unchanged; otherwise the update is scoped to the session user and the answer is 404 when nothing matched, 200 with the matched row carrying the new value, or 500 when the read-back fails |
| TodoRoutes.TodoRouter.Delete | routes/todoRoutes.js:74-89 | 401 and a bad id leave the table unchanged; a failed UPDATE answers 500 "Failed to delete todo" with the table unchanged; otherwise the soft delete is scoped to the session user, 404 exactly when nothing matched, 200 with `{ message, id }` exactly when something did |
| AuthRoutes.SignupResponse | routes/authRoutes.js:20-34 | 201 exactly on success; 409 exactly for a taken username; 400 for every other failure |
| AuthRoutes.LoginResponse | routes/authRoutes.js:42-56 | 200 exactly on success; 401 exactly for invalid credentials; 400 for every other failure |
| AuthRoutes.Me | routes/authRoutes.js:61-66 | 401 without a session; otherwise exactly the session's id and username |
| AuthRoutes.Logout | routes/authRoutes.js:69-77 | a destroyed session is emptied and answers "Logout successful"; a failed destroy leaves it unchanged and answers 500 |
| AuthRoutes.AuthRouter.Signup | routes/authRoutes.js:17-36 | 409 exactly when the trimmed name exists; 201 exactly when everything succeeds, and then the row is appended and the session holds the new user; any other outcome leaves session and table unchanged |
| AuthRoutes.AuthRouter.Login | routes/authRoutes.js:39-58 | 401 exactly when both fields are present, the lookup answered and nothing matched; 200 exactly when both are present, the lookup answered and a row matched, and then the found user is in the session and the body; any other outcome leaves the session unchanged |
| Walkthrough.AliceSignsUp | routes/authRoutes.js:17-36 | signing up "alice" on an empty table answers 201 and logs the session in as id 1 |
| Walkthrough.StrangerGuessesWrong | routes/authRoutes.js:39-58 | a wrong password for "alice" answers 401 and leaves the session anonymous |
| Walkthrough.UserAddsTodo | routes/todoRoutes.js:39-50 | " buy milk " with priority "urgent" answers 201 and stores "buy milk", "medium", active, with id 1 |
| Walkthrough.UserCompletesAndDeletes | routes/todoRoutes.js:53-89 | completing, deleting and deleting again answer 200, 200, 404, and leave the row completed and deleted |

## Left out

- SHA-256 itself: the digest is a parameter. Only the wrong-password property assumes it is injective.
- The database schema (database/schema.sql, which config/database.js:33 refers to) is not part of this model:
  - the INSERT defaults (`completed` and `is_deleted` false, both timestamps "now") are assumed;
  - a UNIQUE constraint on `users.username`, if there is one, is not modelled;
  - unique usernames are instead proved to be preserved by signup.
- Wall-clock time: timestamps come from an abstract counter that every write advances, so two rows never share a timestamp. MySQL `TIMESTAMP` values have one-second resolution and can tie, so TodoStore.CreatedHeadsActiveList and TodoStore.DeletedHeadsDeletedList hold only because ties are excluded by construction.
- SQL `=` on `username` (and on every other column) is modelled as exact string equality. This assumes a case-sensitive, binary collation. Under MySQL's default case- and accent-insensitive collations, "Alice" would collide with "alice" at signup (409), and "ALICE" could log in as "alice"; the model does not capture that.
- TodoStore.TodoModel.UpdateTodoCompletion: `updated_at` is touched on every matched row. `ON UPDATE CURRENT_TIMESTAMP` touches only rows whose values actually change, so this assumes every update changes its row.
- TodoStore.OrderByDesc: MySQL leaves the order of equal keys open; the model fixes one order and the contracts do not depend on it.
- UserStore.Select: a query without ORDER BY returns rows in table order; the model assumes that.
- `affectedRows` follows the driver's default and counts matched rows. With `CLIENT_FOUND_ROWS` switched off, an update that sets `completed` to its current value would report 0 rows and so "not found".
- Concurrency: every request runs alone. Two concurrent signups for the same name, which could both pass the existence check, are not modelled.
- TodoRoutes.TodoRouter.Put: the id is already parsed. `parseInt`'s prefix parsing ("12abc" is 12) is not modelled; the route receives `None` for NaN.
- Request bodies are modelled as optional strings and JSON values. A `text`, `username` or `password` that is a number or an object makes the original code throw (`trim` or the SHA-256 update, viewmodels/authViewModel.js:13), and that is not modelled.
- String length counts characters. JavaScript counts UTF-16 code units, so a password of astral-plane characters is measured differently.
- Error `details`, `console.error` logging and the exact bodies of framework errors (for example malformed JSON) are left out.
- The Express app, CORS, sessions middleware configuration, Handlebars views, static files, config files and the browser scripts (public/js/*) are not part of this model.
- AuthRoutes.Logout: the session store's own failure is an input (`destroyed`), and a failed destroy is assumed to leave the session as it was.
- `findById` is modelled as `UserStore.UserModel.FindById`, but no route calls it.
