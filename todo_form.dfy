/**
 * The add-todo form (src/components/todos/todo-form.tsx): a title buffer and
 * the pending flag of the add mutation. Submitting a blank title does
 * nothing; a submitted title is sent as typed; the buffer is cleared only
 * when the add succeeds.
 */
module TodoForm {
  import opened Wrappers
  import opened Schema
  import opened Auth
  import opened Repository
  import opened ServerFunctions

  /** The characters `String.prototype.trim` strips: ECMAScript white space and line terminators. */
  predicate IsWhitespace(c: char) {
    var n := c as int;
    n == 0x09 || n == 0x0A || n == 0x0B || n == 0x0C || n == 0x0D || n == 0x20 ||
    n == 0xA0 || n == 0x1680 || (0x2000 <= n <= 0x200A) || n == 0x2028 || n == 0x2029 ||
    n == 0x202F || n == 0x205F || n == 0x3000 || n == 0xFEFF
  }

  /** Nothing but white space (the empty string included). */
  predicate IsBlank(s: string) {
    forall i :: 0 <= i < |s| ==> IsWhitespace(s[i])
  }

  /** Drops leading white space: the result is a suffix that is empty or starts with a non-blank character. */
  function TrimStart(s: string): (r: string)
    ensures |r| <= |s| && r == s[|s| - |r|..]
    ensures forall i :: 0 <= i < |s| - |r| ==> IsWhitespace(s[i])
    ensures r == [] || !IsWhitespace(r[0])
  {
    if |s| > 0 && IsWhitespace(s[0]) then TrimStart(s[1..]) else s
  }

  /** Drops trailing white space: the result is a prefix that is empty or ends with a non-blank character. */
  function TrimEnd(s: string): (r: string)
    ensures |r| <= |s| && r == s[..|r|]
    ensures forall i :: |r| <= i < |s| ==> IsWhitespace(s[i])
    ensures r == [] || !IsWhitespace(r[|r| - 1])
  {
    if |s| > 0 && IsWhitespace(s[|s| - 1]) then TrimEnd(s[..|s| - 1]) else s
  }

  /** `s.trim()`: `s` is a blank prefix, the result, and a blank suffix; the result is empty exactly when `s` is blank, and otherwise bounded by non-blank characters. */
  function Trim(s: string): (r: string)
    ensures exists p, q :: s == p + r + q && IsBlank(p) && IsBlank(q)
    ensures r == [] <==> IsBlank(s)
    ensures r != [] ==> !IsWhitespace(r[0]) && !IsWhitespace(r[|r| - 1])
  {
    TrimIsSlice(s);
    TrimEnd(TrimStart(s))
  }

  /** Trimming cuts a blank prefix and a blank suffix off `s` and keeps what lies between. */
  lemma TrimIsSlice(s: string)
    ensures exists p, q :: s == p + TrimEnd(TrimStart(s)) + q && IsBlank(p) && IsBlank(q)
  {
    var t := TrimStart(s);
    var r := TrimEnd(t);
    var p, q := s[..|s| - |t|], t[|r|..];
    assert s == p + t;
    assert t == r + q;
    assert IsBlank(p) by {
      forall j | 0 <= j < |p| ensures IsWhitespace(p[j]) {
        assert p[j] == s[j];
      }
    }
    assert IsBlank(q) by {
      forall j | 0 <= j < |q| ensures IsWhitespace(q[j]) {
        assert q[j] == t[|r| + j];
      }
    }
    assert s == p + r + q;
  }

  /** The form's state: the title buffer and whether an add is in flight. */
  class Form {
    var title: string
    var pending: bool

    /** `useState("")`, no request yet. */
    constructor ()
      ensures title == "" && !pending
    {
      title := "";
      pending := false;
    }

    /** The text input is disabled while a request is pending. */
    function InputDisabled(): (d: bool)
      reads this
      ensures d <==> pending
    {
      pending
    }

    /** The submit button is disabled while a request is pending or while the title is blank. */
    function SubmitDisabled(): (d: bool)
      reads this
      ensures d <==> pending || IsBlank(title)
    {
      pending || Trim(title) == ""
    }

    /** Typing: the buffer takes the input's value, unless the input is disabled. */
    method Change(value: string)
      modifies this
      ensures title == (if old(pending) then old(title) else value)
      ensures pending == old(pending)
    {
      if !InputDisabled() {
        title := value;
      }
    }

    /**
     * `handleAddTodo`: a blank buffer sends nothing and changes nothing;
     * otherwise the buffer, untrimmed, is sent and the request is pending.
     */
    method Submit() returns (sent: Option<string>)
      modifies this
      ensures sent.None? <==> IsBlank(old(title))
      ensures sent.None? ==> title == old(title) && pending == old(pending)
      ensures sent.Some? ==> sent.value == old(title) && title == old(title) && pending
    {
      if Trim(title) == "" {
        return None;
      }
      sent := Some(title);
      pending := true;
    }

    /** The request settles: no longer pending; the buffer is cleared on success only. */
    method Settle(succeeded: bool)
      modifies this
      ensures !pending
      ensures title == (if succeeded then "" else old(title))
    {
      pending := false;
      if succeeded {
        title := "";
      }
    }
  }

  /** A title the form lets through is non-blank, so it also passes the add schema. */
  lemma SentTitlePassesSchema(t: string)
    requires !IsBlank(t)
    ensures ParseAddTodo(AddTodoInput(t)) == Ok(AddTodoInput(t))
  {
  }

  /**
   * One add through the form, end to end: submit, call the endpoint, settle.
   * No row with a blank title ever reaches the table this way, although the
   * schema alone would accept one.
   */
  method AddThroughForm(form: Form, repo: TodoRepository, userSession: Option<UserSession>, createdAt: Timestamp)
    returns (r: Option<Response<Todo>>)
    requires repo.Valid()
    modifies form, repo
    ensures repo.Valid()
    ensures r.None? <==> IsBlank(old(form.title))
    ensures r.None? ==> unchanged(repo) && form.title == old(form.title) && form.pending == old(form.pending)
    ensures forall k :: k in repo.rows && k !in old(repo.rows) ==> !IsBlank(repo.rows[k].title)
    ensures forall k :: k in repo.rows && k !in old(repo.rows) ==> repo.rows[k].title == old(form.title)
    ensures r.Some? ==> !form.pending && form.title == (if r.value.Done? then "" else old(form.title))
    ensures r.Some? && r.value.Done? ==>
              userSession.Some? &&
              r.value.value == Todo(old(repo.nextId), old(form.title), false, createdAt, userSession.value.user.id) &&
              repo.rows == old(repo.rows)[r.value.value.id := r.value.value] &&
              repo.nextId == old(repo.nextId) + 1
    ensures r.Some? && !r.value.Done? ==> unchanged(repo)
  {
    var sent := form.Submit();
    if sent.None? {
      return None;
    }
    var response := AddTodo(repo, userSession, AddTodoInput(sent.value), createdAt);
    form.Settle(response.Done?);
    r := Some(response);
  }
}
