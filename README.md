# Todo store and its gate, in Dafny

This project models the core of a small authenticated todo-list web application.
Users hold a personal list of titled todos that can be completed.
The model covers five parts:

- the **todo repository**, which lists, adds, deletes and toggles rows of the `todos` table, always scoped by the owner's user id;
- the three **input schemas** for adding, deleting and toggling;
- the **session gate** (`authMiddleware`), which redirects anonymous callers to `/` and otherwise passes the session on in the context;
- the four **server endpoints**, each of which runs the gate, then validates its payload, then calls the repository with the session's user id;
- the **add form**, which holds a title buffer and a pending flag, refuses blank titles and clears the buffer only on success.

Modules, one per source file:

- `Wrappers` (`wrappers.dfy`): `Option` and `Result`.
- `Schema` (`schema.dfy`): `src/services/todos/schema.ts`.
- `Auth` (`auth.dfy`): `src/middlewares/auth.ts`.
- `Repository` (`repository.dfy`): `src/services/todos/repository.ts`. The table is a `map` from the serial primary key to the row, plus a `nextId` counter that stands for the serial sequence. `ORDER BY id` is modelled by `Scan`, which walks the ids in ascending order. This keeps the ordering a real property of `get`, not a side effect of how rows happen to be stored. The class `TodoRepository` updates the table in place. The pure functions `Listed`, `Deleted` and `Toggled` are its specification, and the lemmas are stated about them.
- `ServerFunctions` (`server_functions.dfy`): `src/services/todos/server-functions.ts`. Each endpoint is a method that takes the repository object and the session lookup's outcome.
- `TodoForm` (`todo_form.dfy`): `src/components/todos/todo-form.tsx`. It includes `String.prototype.trim` over the ECMAScript white-space and line-terminator characters.
- `Scenario` (`scenario.dfy`): a client method that walks through the expected use of the service. An empty list, one add, a toggle and a delete are checked against the contracts alone. It also checks that an anonymous caller is redirected and that an empty title is refused.

Decisions where the documents and the code part ways, or where the code leaves something open:

- A todo's title is meant to be non-empty, but the code only checks `min(1)` on the string length, so `" "` passes the schema (`Schema.BlankTitleAccepted`). Blank titles are stopped only by the form (`TodoForm.AddThroughForm`). The repository itself accepts any title. The model follows the code.
- The endpoints declare `inputValidator` before `middleware`. The framework runs the function's own validator as the last link of its middleware chain, so the model runs the session gate first and validation second. An anonymous call with an invalid payload therefore gets a redirect. Either order leaves the table unchanged.
- `server-functions.ts` imports its schemas from `schemas`, but the file shown is `schema.ts`. The model uses `schema.ts`.

## Model

| member | source | states |
|---|---|---|
| `Schema.ParseAddTodo` | src/services/todos/schema.ts:3-5 | An add payload parses iff its title has at least one character; if so the payload comes back unchanged, otherwise the issue is `TooSmall("title", 1)` |
| `Schema.ParseDeleteTodo` | src/services/todos/schema.ts:7-9 | A delete payload parses iff `todoId >= 1`; otherwise the issue is `TooSmall("todoId", 1)` |
| `Schema.ParseToggleTodo` | src/services/todos/schema.ts:11-13 | A toggle payload parses iff `todoId >= 1`; otherwise the issue is `TooSmall("todoId", 1)` |
| `Schema.EmptyTitleRejected` | src/services/todos/schema.ts:4 | The empty title is rejected with the `title` issue |
| `Schema.BlankTitleAccepted` | src/services/todos/schema.ts:4 | Whitespace-only titles (`" "`, `"\t\n"`) pass the add schema |
| `Schema.NonPositiveIdsRejected` | src/services/todos/schema.ts:7-9 | The delete schema rejects exactly the ids `<= 0`, and accepts 1 |
| `Schema.ToggleSchemaMatchesDelete` | src/services/todos/schema.ts:7-13 | The toggle schema accepts exactly the ids the delete schema accepts, and reports the same issue otherwise |
| `Auth.AuthMiddleware` | src/middlewares/auth.ts:5-13 | With no session the gate redirects to `"/"` and never continues; with a session it continues with a context holding exactly that session |
| `Repository.Listed` | src/services/todos/repository.ts:13-19 | `SELECT * FROM todos WHERE userId = u ORDER BY id ASC`: the ascending scan of ids 1 to `nextId - 1`, keeping only `u`'s rows; no row it returns belongs to another user |
| `Repository.ScanContents` | src/services/todos/repository.ts:13-19 | A row is in the ascending scan of `[lo, hi)` iff it is in the table, owned by the user, and its id is in range |
| `Repository.ScanAscending` | src/services/todos/repository.ts:18 | The scan comes out strictly ascending by id, with every id in `[lo, hi)` |
| `Repository.ScanFrame` | src/services/todos/repository.ts:17 | A user's scan depends only on the rows that user owns |
| `Repository.ScanExtend` | src/services/todos/repository.ts:17-18 | Inserting a row under a fresh id above the range appends it to its owner's scan and to nobody else's |
| `Repository.ListedIsOwnRowsAscending` | src/services/todos/repository.ts:13-19 | `get(u)` contains every row owned by `u`, only rows owned by `u` as stored in the table, in strictly ascending id order |
| `Repository.Deleted` | src/services/todos/repository.ts:33-37 | The delete keeps only rows of the old table, unchanged, and removes exactly the rows whose id and owner both match |
| `Repository.DeleteMissIsNoOp` | src/services/todos/repository.ts:34-36 | Deleting a missing id, or a row owned by another user, leaves the table identical |
| `Repository.DeletedNotListed` | src/services/todos/repository.ts:33-37 | After a delete, the deleting user's list shows no row with that id |
| `Repository.DeleteIsolated` | src/services/todos/repository.ts:33-37 | A delete by one user leaves every other user's list identical |
| `Repository.Select` | src/services/todos/repository.ts:40-43 | The lookup finds a table row whose id and owner both match, or reports that no such row exists |
| `Repository.Toggled` | src/services/todos/repository.ts:39-51 | Toggling keeps every row and every field except `completed`, which is negated on the matching row only; with no match the table is identical |
| `Repository.SetCompleted` | src/services/todos/repository.ts:46-49 | `UPDATE todos SET completed = c WHERE id AND owner`: same keys, `completed` set to `c` on the matching rows, no other field changed, every other row identical |
| `Repository.SetCompletedToggles` | src/services/todos/repository.ts:45-49 | Writing back the negation of the selected row's flag with `UPDATE ... WHERE id AND owner` is exactly the toggle |
| `Repository.ToggleTwiceRestores` | src/services/todos/repository.ts:45-49 | Toggling the same id twice as the same user restores the original table |
| `Repository.ToggleIsolated` | src/services/todos/repository.ts:39-51 | A toggle by one user leaves every other user's list identical |
| `Repository.AddAppendsToOwnList` | src/services/todos/repository.ts:21-31 | After an add, the owner's list is the old list followed by the new row; every other user's list is identical |
| `Repository.TodoRepository.constructor` | src/services/todos/repository.ts:53-58 | A fresh repository has an empty table and issues ids from 1 |
| `Repository.TodoRepository.Get` | src/services/todos/repository.ts:13-19 | Returns every row of the user, no row of anyone else, strictly ascending by id |
| `Repository.TodoRepository.Add` | src/services/todos/repository.ts:21-31 | Inserts exactly one row under a fresh id, with the given title and owner and `completed = false`, returns it, and keeps every existing row |
| `Repository.TodoRepository.Delete` | src/services/todos/repository.ts:33-37 | The new table is `Deleted(old table, user, id)`; ids already issued stay issued |
| `Repository.TodoRepository.ToggleCompletion` | src/services/todos/repository.ts:39-51 | Reads the matching row and writes back its negated flag only if the row exists; the new table is `Toggled(old table, user, id)` |
| `ServerFunctions.GetTodos` | src/services/todos/server-functions.ts:10-16 | Without a session the result is the redirect to `"/"`; with one it is the repository's list for the session user's id |
| `ServerFunctions.AddTodo` | src/services/todos/server-functions.ts:18-28 | A redirect or an empty title leaves the table untouched; otherwise one row for the session user with the title as sent is added and returned |
| `ServerFunctions.DeleteTodo` | src/services/todos/server-functions.ts:30-39 | A redirect or an id below 1 leaves the table untouched; otherwise the table is the delete for the session user's id, and nothing is returned |
| `ServerFunctions.ToggleTodoCompletion` | src/services/todos/server-functions.ts:41-50 | A redirect or an id below 1 leaves the table untouched; otherwise the table is the toggle for the session user's id, and nothing is returned |
| `TodoForm.TrimStart` | src/components/todos/todo-form.tsx:13 | The result is a suffix of the input; everything dropped is white space; it is empty or starts with a non-blank character |
| `TodoForm.TrimEnd` | src/components/todos/todo-form.tsx:13 | The result is a prefix of the input; everything dropped is white space; it is empty or ends with a non-blank character |
| `TodoForm.Trim` | src/components/todos/todo-form.tsx:13 | `title.trim()` is the title with a blank prefix and a blank suffix cut off; it is empty iff the title is all white space, and otherwise starts and ends with non-blank characters |
| `TodoForm.TrimIsSlice` | src/components/todos/todo-form.tsx:13 | Trimming the start and then the end leaves the title split as a blank prefix, the result, and a blank suffix |
| `TodoForm.Form.constructor` | src/components/todos/todo-form.tsx:8-9 | The buffer starts empty and no request is pending |
| `TodoForm.Form.InputDisabled` | src/components/todos/todo-form.tsx:29 | The text input is disabled exactly while an add is pending |
| `TodoForm.Form.SubmitDisabled` | src/components/todos/todo-form.tsx:33 | The button is disabled iff a request is pending or the title is blank |
| `TodoForm.Form.Change` | src/components/todos/todo-form.tsx:27-29 | Typing replaces the buffer unless the input is disabled by a pending request |
| `TodoForm.Form.Submit` | src/components/todos/todo-form.tsx:11-20 | A blank title sends nothing and changes nothing; otherwise the title is sent as typed, untrimmed, and the request is pending |
| `TodoForm.Form.Settle` | src/components/todos/todo-form.tsx:16-18 | When the request settles it is no longer pending; the buffer is cleared on success and kept on failure |
| `TodoForm.SentTitlePassesSchema` | src/components/todos/todo-form.tsx:13 | Any title the form lets through also passes the add schema |
| `TodoForm.AddThroughForm` | src/components/todos/todo-form.tsx:11-20 | Going through the form, a blank title issues no request and changes nothing. A successful add inserts exactly one row for the session user, with the title as typed (which is not blank) and `completed = false`, and keeps every old row. A redirect or a refusal leaves the table untouched. The buffer is cleared only on success |

## Left out

- `TodoForm.Form.Change`: the browser does not fire `onChange` on a disabled input. The model expresses this as "a change while pending is ignored"; the component itself has no such branch.
- `Schema.ParseDeleteTodo`, `Schema.ParseToggleTodo`: `todoId` is an integer here. Fractional ids such as `1.5`, which `z.number().min(1)` accepts, are outside the model's integer domain. The model does not cover what the database does with them.
- Payloads that are not objects of the right shape, fields of the wrong type, and extra keys are not modelled. Each payload is a typed value with exactly its schema's field.
- Storage and network failures, which propagate to the caller unchanged, are not modelled. Every repository statement succeeds.
- The read-then-write race of `toggleCompletion` under concurrent requests is not modelled. Every operation is atomic and runs in sequence.
- `createdAt` is generated by the database. It is a caller-supplied opaque `Timestamp`. The database schema is not part of this model, and ids come from a counter starting at 1.
- `getUserSession()` reads request headers and calls the auth provider. Both are I/O, so its outcome is the `Option<UserSession>` parameter of each endpoint.
- The query cache and invalidate-on-write wiring (`todos.queries.ts`), the router guards, sign-in, sign-up and sign-out, and rendering are not part of this model.
- React Query runs a `mutate` call's `onSuccess` only for the latest call. `TodoForm.Form.Settle` does not model overlapping submissions; the disabled controls prevent them.
