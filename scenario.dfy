/**
 * The walk-through the todo service is expected to support: a new user's
 * list starts empty; one add shows one open item; a toggle completes it; a
 * delete empties the list again. An anonymous caller gets a redirect, and an
 * empty title is refused before reaching the table. Everything below follows
 * from the endpoint contracts, the definitions of `Listed` and `Scan`, and
 * the repository lemmas.
 */
module Scenario {
  import opened Wrappers
  import opened Schema
  import opened Auth
  import opened Repository
  import opened ServerFunctions

  method Walkthrough(createdAt: Timestamp)
  {
    var repo := new TodoRepository();
    var alice := UserSession(User("u-a", "a@x.com"), SessionRecord("token-a", 0));
    var session := Some(alice);

    var anonymous := GetTodos(repo, None);
    assert anonymous == Redirected("/");

    var list0 := GetTodos(repo, session);
    assert list0 == Done([]);

    var refused := AddTodo(repo, session, AddTodoInput(""), createdAt);
    assert refused == Invalid(TooSmall("title", 1));
    assert repo.rows == map[] && repo.nextId == 1;

    var added := AddTodo(repo, session, AddTodoInput("Buy milk"), createdAt);
    assert added.Done?;
    var milk := added.value;
    assert milk == Todo(1, "Buy milk", false, createdAt, "u-a");
    assert repo.rows == map[][1 := milk] && repo.nextId == 2;
    assert Listed(map[], "u-a", 1) == [];
    AddAppendsToOwnList(map[], 1, milk, "u-a");
    assert Listed(repo.rows, "u-a", 2) == [] + [milk] == [milk];
    var list1 := GetTodos(repo, session);
    assert list1 == Done([milk]);

    var toggled := ToggleTodoCompletion(repo, session, ToggleTodoInput(milk.id));
    assert repo.rows == map[1 := milk.(completed := true)];
    assert repo.rows == map[][1 := milk.(completed := true)] && repo.nextId == 2;
    AddAppendsToOwnList(map[], 1, milk.(completed := true), "u-a");
    assert Listed(repo.rows, "u-a", 2) == [] + [milk.(completed := true)] == [milk.(completed := true)];
    var list2 := GetTodos(repo, session);
    assert list2 == Done([milk.(completed := true)]);

    var deleted := DeleteTodo(repo, session, DeleteTodoInput(milk.id));
    assert repo.rows == map[] && repo.nextId == 2;
    assert Scan(map[], "u-a", 2, 2) == [];
    assert Listed(repo.rows, "u-a", 2) == Scan(map[], "u-a", 1, 2) == [] + Scan(map[], "u-a", 2, 2) == [];
    var list3 := GetTodos(repo, session);
    assert list3 == Done([]);
  }
}
