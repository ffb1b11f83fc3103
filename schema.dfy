/**
 * The three input schemas of the todo endpoints (src/services/todos/schema.ts).
 * Each schema is an object with one field; parsing succeeds with the input
 * itself or fails with the issue the first failing check raises.
 */
module Schema {
  import opened Wrappers

  /** Payload of the add endpoint: `{ title: string }`. */
  datatype AddTodoInput = AddTodoInput(title: string)

  /** Payload of the delete endpoint: `{ todoId: number }`. */
  datatype DeleteTodoInput = DeleteTodoInput(todoId: int)

  /** Payload of the toggle endpoint: `{ todoId: number }`. */
  datatype ToggleTodoInput = ToggleTodoInput(todoId: int)

  /** A field-level validation issue: the field was below its minimum
      (a string length or a number, depending on the field). */
  datatype ValidationError = TooSmall(field: string, minimum: int)

  /** `title: z.string().min(1)`: at least one character, whatever it is. */
  predicate AddTodoValid(input: AddTodoInput) {
    |input.title| >= 1
  }

  /** `todoId: z.number().min(1)`. */
  predicate DeleteTodoValid(input: DeleteTodoInput) {
    input.todoId >= 1
  }

  /** `todoId: z.number().min(1)`, a separate schema with the same rule. */
  predicate ToggleTodoValid(input: ToggleTodoInput) {
    input.todoId >= 1
  }

  /** Parses an add payload: the input back when valid, else the issue on `title`. */
  function ParseAddTodo(input: AddTodoInput): (r: Result<AddTodoInput, ValidationError>)
    ensures r.Ok? <==> |input.title| >= 1
    ensures r.Ok? ==> r.value == input
    ensures r.Err? ==> r.error == TooSmall("title", 1)
  {
    if AddTodoValid(input) then Ok(input) else Err(TooSmall("title", 1))
  }

  /** Parses a delete payload: the input back when valid, else the issue on `todoId`. */
  function ParseDeleteTodo(input: DeleteTodoInput): (r: Result<DeleteTodoInput, ValidationError>)
    ensures r.Ok? <==> input.todoId >= 1
    ensures r.Ok? ==> r.value == input
    ensures r.Err? ==> r.error == TooSmall("todoId", 1)
  {
    if DeleteTodoValid(input) then Ok(input) else Err(TooSmall("todoId", 1))
  }

  /** Parses a toggle payload: the input back when valid, else the issue on `todoId`. */
  function ParseToggleTodo(input: ToggleTodoInput): (r: Result<ToggleTodoInput, ValidationError>)
    ensures r.Ok? <==> input.todoId >= 1
    ensures r.Ok? ==> r.value == input
    ensures r.Err? ==> r.error == TooSmall("todoId", 1)
  {
    if ToggleTodoValid(input) then Ok(input) else Err(TooSmall("todoId", 1))
  }

  /** The empty title is rejected. */
  lemma EmptyTitleRejected()
    ensures ParseAddTodo(AddTodoInput("")) == Err(TooSmall("title", 1))
  {
  }

  /** A whitespace-only title passes: the schema counts characters, not non-blank ones. */
  lemma BlankTitleAccepted()
    ensures ParseAddTodo(AddTodoInput(" ")) == Ok(AddTodoInput(" "))
    ensures ParseAddTodo(AddTodoInput("\t\n")).Ok?
  {
  }

  /** Ids 0 and below are rejected by the delete schema; 1 is the least accepted id. */
  lemma NonPositiveIdsRejected(id: int)
    ensures ParseDeleteTodo(DeleteTodoInput(id)).Err? <==> id <= 0
    ensures ParseDeleteTodo(DeleteTodoInput(1)).Ok?
  {
  }

  /** The toggle schema accepts exactly the ids the delete schema accepts, with the same issue. */
  lemma ToggleSchemaMatchesDelete(id: int)
    ensures ParseToggleTodo(ToggleTodoInput(id)).Ok? <==> ParseDeleteTodo(DeleteTodoInput(id)).Ok?
    ensures ParseToggleTodo(ToggleTodoInput(id)).Err? ==>
              ParseToggleTodo(ToggleTodoInput(id)).error == ParseDeleteTodo(DeleteTodoInput(id)).error
  {
  }
}
