/**
 * The four todo endpoints (src/services/todos/server-functions.ts). Each one
 * runs behind the session gate, validates its payload against its schema,
 * then calls the repository with the user id taken from the session in the
 * context. The payload types carry no user id, so the repository cannot
 * receive one from the client.
 */
module ServerFunctions {
  import opened Wrappers
  import opened Schema
  import opened Auth
  import opened Repository

  /** What a call of an endpoint comes back with. */
  datatype Response<T> =
    | Done(value: T)                   // the handler ran and returned this
    | Redirected(to: string)           // the gate threw a redirect
    | Invalid(error: ValidationError)  // the payload failed its schema

  /** `getTodos`: the session user's list as `get` returns it, or a redirect. */
  method GetTodos(repo: TodoRepository, userSession: Option<UserSession>) returns (r: Response<seq<Todo>>)
    requires repo.Valid()
    ensures userSession.None? <==> r == Redirected("/")
    ensures userSession.Some? ==> r == Done(Listed(repo.rows, userSession.value.user.id, repo.nextId))
  {
    match AuthMiddleware(userSession)
    case Redirect(to) =>
      r := Redirected(to);
    case Next(context) =>
      var todoList := repo.Get(context.userSession.user.id);
      r := Done(todoList);
  }

  /** `addTodo`: inserts a row for the session user and returns it; the table is untouched on a redirect or an invalid title. */
  method AddTodo(repo: TodoRepository, userSession: Option<UserSession>, data: AddTodoInput, createdAt: Timestamp)
    returns (r: Response<Todo>)
    requires repo.Valid()
    modifies repo
    ensures repo.Valid()
    ensures userSession.None? ==> r == Redirected("/") && unchanged(repo)
    ensures userSession.Some? && |data.title| == 0 ==> r == Invalid(TooSmall("title", 1)) && unchanged(repo)
    ensures userSession.Some? && |data.title| >= 1 ==>
              r == Done(Todo(old(repo.nextId), data.title, false, createdAt, userSession.value.user.id)) &&
              repo.rows == old(repo.rows)[r.value.id := r.value] &&
              repo.nextId == old(repo.nextId) + 1
  {
    match AuthMiddleware(userSession)
    case Redirect(to) =>
      r := Redirected(to);
    case Next(context) =>
      match ParseAddTodo(data)
      case Err(e) =>
        r := Invalid(e);
      case Ok(input) =>
        var newTodo := repo.Add(context.userSession.user.id, input.title, createdAt);
        r := Done(newTodo);
  }

  /** `deleteTodo`: deletes the session user's row with that id, if any; the table is untouched on a redirect or an invalid id. */
  method DeleteTodo(repo: TodoRepository, userSession: Option<UserSession>, data: DeleteTodoInput)
    returns (r: Response<()>)
    requires repo.Valid()
    modifies repo
    ensures repo.Valid()
    ensures userSession.None? ==> r == Redirected("/") && unchanged(repo)
    ensures userSession.Some? && data.todoId < 1 ==> r == Invalid(TooSmall("todoId", 1)) && unchanged(repo)
    ensures userSession.Some? && data.todoId >= 1 ==>
              r == Done(()) &&
              repo.rows == Deleted(old(repo.rows), userSession.value.user.id, data.todoId) &&
              repo.nextId == old(repo.nextId)
  {
    match AuthMiddleware(userSession)
    case Redirect(to) =>
      r := Redirected(to);
    case Next(context) =>
      match ParseDeleteTodo(data)
      case Err(e) =>
        r := Invalid(e);
      case Ok(input) =>
        repo.Delete(context.userSession.user.id, input.todoId);
        r := Done(());
  }

  /** `toggleTodoCompletion`: toggles the session user's row with that id, if any; the table is untouched on a redirect or an invalid id. */
  method ToggleTodoCompletion(repo: TodoRepository, userSession: Option<UserSession>, data: ToggleTodoInput)
    returns (r: Response<()>)
    requires repo.Valid()
    modifies repo
    ensures repo.Valid()
    ensures userSession.None? ==> r == Redirected("/") && unchanged(repo)
    ensures userSession.Some? && data.todoId < 1 ==> r == Invalid(TooSmall("todoId", 1)) && unchanged(repo)
    ensures userSession.Some? && data.todoId >= 1 ==>
              r == Done(()) &&
              repo.rows == Toggled(old(repo.rows), userSession.value.user.id, data.todoId) &&
              repo.nextId == old(repo.nextId)
  {
    match AuthMiddleware(userSession)
    case Redirect(to) =>
      r := Redirected(to);
    case Next(context) =>
      match ParseToggleTodo(data)
      case Err(e) =>
        r := Invalid(e);
      case Ok(input) =>
        repo.ToggleCompletion(context.userSession.user.id, input.todoId);
        r := Done(());
  }
}
