/**
 * The todo repository (src/services/todos/repository.ts): four statements
 * against the `todos` table, each scoped by the owner's user id.
 *
 * The table is a map from the serial primary key to its row. Ids come from a
 * counter that only grows, standing for the database's serial sequence.
 * Each operation is atomic; the read-then-write race of toggling is not
 * modelled.
 */
module Repository {
  import opened Wrappers

  type UserId = string

  /** `createdAt`, filled in by the database; its value is opaque here. */
  type Timestamp = int

  /** A row of the `todos` table. */
  datatype Todo = Todo(id: int, title: string, completed: bool, createdAt: Timestamp, userId: UserId)

  /** The `todos` table, by primary key. */
  type Table = map<int, Todo>

  /** Every row sits under its own id. */
  predicate KeyedById(m: Table) {
    forall k :: k in m ==> m[k].id == k
  }

  /** The table invariant: rows keyed by id, and every id issued below `nextId` (serials start at 1). */
  predicate WellFormed(m: Table, nextId: int) {
    1 <= nextId && KeyedById(m) && forall k :: k in m ==> 1 <= k < nextId
  }

  /** `and(eq(todos.id, todoId), eq(todos.userId, userId))`. */
  predicate Matches(t: Todo, userId: UserId, todoId: int) {
    t.id == todoId && t.userId == userId
  }

  // ---------------------------------------------------------------- get

  /** The rows of `userId` with ids in [lo, hi), in ascending id order. */
  function Scan(m: Table, userId: UserId, lo: int, hi: int): (r: seq<Todo>)
    ensures forall t :: t in r ==> t.userId == userId
    decreases hi - lo
  {
    if hi <= lo then []
    else (if lo in m && m[lo].userId == userId then [m[lo]] else []) + Scan(m, userId, lo + 1, hi)
  }

  /** `SELECT * FROM todos WHERE userId = ? ORDER BY id ASC` over a table whose ids are below `nextId`. */
  function Listed(m: Table, userId: UserId, nextId: int): (r: seq<Todo>)
    ensures forall t :: t in r ==> t.userId == userId
  {
    Scan(m, userId, 1, nextId)
  }

  /** Strictly ascending by id. */
  predicate AscendingById(s: seq<Todo>) {
    forall i, j :: 0 <= i < j < |s| ==> s[i].id < s[j].id
  }

  /** A row is scanned iff it is in the table, owned by `userId` and its id is in range. */
  lemma {:induction false} ScanContents(m: Table, userId: UserId, lo: int, hi: int)
    requires KeyedById(m)
    ensures forall t :: t in Scan(m, userId, lo, hi) <==>
              (lo <= t.id < hi && t.id in m && m[t.id] == t && t.userId == userId)
    decreases hi - lo
  {
    if lo < hi {
      ScanContents(m, userId, lo + 1, hi);
    }
  }

  /** Scanned rows have ids in [lo, hi) and come out strictly ascending. */
  lemma {:induction false} ScanAscending(m: Table, userId: UserId, lo: int, hi: int)
    requires KeyedById(m)
    ensures AscendingById(Scan(m, userId, lo, hi))
    ensures forall t :: t in Scan(m, userId, lo, hi) ==> lo <= t.id < hi
    decreases hi - lo
  {
    if lo < hi {
      ScanAscending(m, userId, lo + 1, hi);
    }
  }

  /** The scan of one user depends only on that user's rows. */
  lemma {:induction false} ScanFrame(m: Table, m': Table, userId: UserId, lo: int, hi: int)
    requires forall k :: lo <= k < hi ==>
               ((k in m && m[k].userId == userId) <==> (k in m' && m'[k].userId == userId))
    requires forall k :: lo <= k < hi && k in m && m[k].userId == userId ==> m'[k] == m[k]
    ensures Scan(m, userId, lo, hi) == Scan(m', userId, lo, hi)
    decreases hi - lo
  {
    if lo < hi {
      ScanFrame(m, m', userId, lo + 1, hi);
    }
  }

  /** Adding a row with a fresh id `hi` appends it to its owner's scan, and to nobody else's. */
  lemma {:induction false} ScanExtend(m: Table, userId: UserId, lo: int, hi: int, t: Todo)
    requires lo <= hi
    ensures Scan(m[hi := t], userId, lo, hi + 1) ==
              Scan(m, userId, lo, hi) + (if t.userId == userId then [t] else [])
    decreases hi - lo
  {
    if lo < hi {
      ScanExtend(m, userId, lo + 1, hi, t);
      assert Scan(m[hi := t], userId, lo, hi + 1) ==
               (if lo in m && m[lo].userId == userId then [m[lo]] else []) + Scan(m[hi := t], userId, lo + 1, hi + 1);
    } else {
      assert Scan(m[hi := t], userId, hi + 1, hi + 1) == [];
    }
  }

  /** `get` returns exactly the caller's rows, and no row of anyone else, ascending by id. */
  lemma ListedIsOwnRowsAscending(m: Table, userId: UserId, nextId: int)
    requires WellFormed(m, nextId)
    ensures forall k :: k in m && m[k].userId == userId ==> m[k] in Listed(m, userId, nextId)
    ensures forall t :: t in Listed(m, userId, nextId) ==> t.id in m && m[t.id] == t && t.userId == userId
    ensures AscendingById(Listed(m, userId, nextId))
  {
    ScanContents(m, userId, 1, nextId);
    ScanAscending(m, userId, 1, nextId);
  }

  // ---------------------------------------------------------------- delete

  /** `DELETE FROM todos WHERE id = todoId AND userId = userId`. */
  function Deleted(m: Table, userId: UserId, todoId: int): (r: Table)
    ensures forall k :: k in r ==> k in m && r[k] == m[k]
    ensures forall k :: k in r ==> !Matches(r[k], userId, todoId)
    ensures forall k :: k in m && !Matches(m[k], userId, todoId) ==> k in r
  {
    map k | k in m && !Matches(m[k], userId, todoId) :: m[k]
  }

  /** Deleting a missing id, or another user's row, changes nothing. */
  lemma DeleteMissIsNoOp(m: Table, userId: UserId, todoId: int)
    requires KeyedById(m)
    requires todoId !in m || m[todoId].userId != userId
    ensures Deleted(m, userId, todoId) == m
  {
    var r := Deleted(m, userId, todoId);
    forall k | k in m ensures k in r {
      assert !Matches(m[k], userId, todoId);
    }
    assert r.Keys == m.Keys;
  }

  /** After a delete, the deleting user's list no longer shows that id. */
  lemma DeletedNotListed(m: Table, userId: UserId, todoId: int, nextId: int)
    requires WellFormed(m, nextId)
    ensures forall t :: t in Listed(Deleted(m, userId, todoId), userId, nextId) ==> t.id != todoId
  {
    ScanContents(Deleted(m, userId, todoId), userId, 1, nextId);
  }

  /** A delete by one user leaves every other user's list as it was. */
  lemma DeleteIsolated(m: Table, userId: UserId, other: UserId, todoId: int, nextId: int)
    requires userId != other
    ensures Listed(Deleted(m, userId, todoId), other, nextId) == Listed(m, other, nextId)
  {
    ScanFrame(m, Deleted(m, userId, todoId), other, 1, nextId);
  }

  // ---------------------------------------------------------------- toggle

  /** `SELECT * FROM todos WHERE id = todoId AND userId = userId`, first row if any. */
  function Select(m: Table, userId: UserId, todoId: int): (r: Option<Todo>)
    requires KeyedById(m)
    ensures r.Some? ==> r.value in m.Values && Matches(r.value, userId, todoId)
    ensures r.None? ==> forall k :: k in m ==> !Matches(m[k], userId, todoId)
  {
    if todoId in m && m[todoId].userId == userId then Some(m[todoId]) else None
  }

  /** `UPDATE todos SET completed = c WHERE id = todoId AND userId = userId`. */
  function SetCompleted(m: Table, userId: UserId, todoId: int, c: bool): (r: Table)
    ensures r.Keys == m.Keys
    ensures forall k :: k in m ==> r[k].(completed := m[k].completed) == m[k]
    ensures forall k :: k in m && Matches(m[k], userId, todoId) ==> r[k].completed == c
    ensures forall k :: k in m && !Matches(m[k], userId, todoId) ==> r[k] == m[k]
  {
    map k | k in m :: if Matches(m[k], userId, todoId) then m[k].(completed := c) else m[k]
  }

  /**
   * What toggling means: the owner's row with that id has its `completed`
   * negated; every other field and every other row is as before.
   */
  function Toggled(m: Table, userId: UserId, todoId: int): (r: Table)
    ensures r.Keys == m.Keys
    ensures forall k :: k in m ==>
              r[k].id == m[k].id && r[k].title == m[k].title &&
              r[k].createdAt == m[k].createdAt && r[k].userId == m[k].userId
    ensures forall k :: k in m ==>
              r[k].completed == (if k == todoId && m[k].userId == userId then !m[k].completed else m[k].completed)
    ensures (todoId !in m || m[todoId].userId != userId) ==> r == m
  {
    if todoId in m && m[todoId].userId == userId
    then m[todoId := m[todoId].(completed := !m[todoId].completed)]
    else m
  }

  /** Writing back the negation of the selected row's flag is the toggle. */
  lemma SetCompletedToggles(m: Table, userId: UserId, todoId: int)
    requires KeyedById(m)
    requires todoId in m && m[todoId].userId == userId
    ensures SetCompleted(m, userId, todoId, !m[todoId].completed) == Toggled(m, userId, todoId)
  {
    var a, b := SetCompleted(m, userId, todoId, !m[todoId].completed), Toggled(m, userId, todoId);
    assert a.Keys == b.Keys;
    forall k | k in a ensures a[k] == b[k] {
    }
  }

  /** Toggling twice restores the table. */
  lemma {:induction false} ToggleTwiceRestores(m: Table, userId: UserId, todoId: int)
    ensures Toggled(Toggled(m, userId, todoId), userId, todoId) == m
  {
    var once := Toggled(m, userId, todoId);
    var twice := Toggled(once, userId, todoId);
    assert twice.Keys == m.Keys;
    forall k | k in m ensures twice[k] == m[k] {
    }
  }

  /** A toggle by one user leaves every other user's list as it was. */
  lemma ToggleIsolated(m: Table, userId: UserId, other: UserId, todoId: int, nextId: int)
    requires userId != other
    ensures Listed(Toggled(m, userId, todoId), other, nextId) == Listed(m, other, nextId)
  {
    ScanFrame(m, Toggled(m, userId, todoId), other, 1, nextId);
  }

  // ---------------------------------------------------------------- add

  /** After an add, the owner's list is the old list followed by the new row; nobody else's changes. */
  lemma AddAppendsToOwnList(m: Table, nextId: int, t: Todo, userId: UserId)
    requires WellFormed(m, nextId)
    ensures Listed(m[nextId := t], userId, nextId + 1) ==
              Listed(m, userId, nextId) + (if t.userId == userId then [t] else [])
  {
    ScanExtend(m, userId, 1, nextId, t);
  }

  /** The repository object: the table and the next serial id. */
  class TodoRepository {
    var rows: Table
    var nextId: int

    ghost predicate Valid()
      reads this
    {
      WellFormed(rows, nextId)
    }

    /** An empty table whose serial starts at 1. */
    constructor ()
      ensures Valid()
      ensures rows == map[] && nextId == 1
    {
      rows := map[];
      nextId := 1;
    }

    /** `get`: the caller's rows, every one of them, none of anyone else's, ascending by id. */
    method Get(userId: UserId) returns (list: seq<Todo>)
      requires Valid()
      ensures list == Listed(rows, userId, nextId)
      ensures forall k :: k in rows && rows[k].userId == userId ==> rows[k] in list
      ensures forall t :: t in list ==> t.id in rows && rows[t.id] == t && t.userId == userId
      ensures AscendingById(list)
    {
      list := Listed(rows, userId, nextId);
      ListedIsOwnRowsAscending(rows, userId, nextId);
    }

    /** `add`: inserts one row not completed, under a fresh id, and returns it. */
    method Add(userId: UserId, title: string, createdAt: Timestamp) returns (t: Todo)
      requires Valid()
      modifies this
      ensures Valid()
      ensures t == Todo(old(nextId), title, false, createdAt, userId)
      ensures t.id !in old(rows)
      ensures rows == old(rows)[t.id := t]
      ensures nextId == old(nextId) + 1
    {
      t := Todo(nextId, title, false, createdAt, userId);
      rows := rows[nextId := t];
      nextId := nextId + 1;
    }

    /** `deleteTodo`: removes the caller's row with that id, if there is one; no error otherwise. */
    method Delete(userId: UserId, todoId: int)
      requires Valid()
      modifies this
      ensures Valid()
      ensures rows == Deleted(old(rows), userId, todoId)
      ensures nextId == old(nextId)
    {
      rows := Deleted(rows, userId, todoId);
    }

    /** `toggleCompletion`: reads the caller's row, then writes back the negated flag; no-op on a miss. */
    method ToggleCompletion(userId: UserId, todoId: int)
      requires Valid()
      modifies this
      ensures Valid()
      ensures rows == Toggled(old(rows), userId, todoId)
      ensures nextId == old(nextId)
    {
      var todo := Select(rows, userId, todoId);
      if todo.Some? {
        SetCompletedToggles(rows, userId, todoId);
        rows := SetCompleted(rows, userId, todoId, !todo.value.completed);
      }
    }
  }
}
