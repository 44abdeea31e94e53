/** The Todo entity: an optional id fixed at construction, a title that construction
    validates and trims, and a `done` flag that `toggle` flips in place. */
module TodoEntity {
  import opened Wrappers
  import opened Text

  type TodoId = string

  /** The two errors the core throws, with the messages it throws them with. */
  datatype Error = TitleRequired | TodoNotFound {
    function Message(): string {
      match this
      case TitleRequired => "Title is required"
      case TodoNotFound => "Todo not found"
    }
  }

  /** What a todo object holds: every copy of a todo carries this value. */
  datatype TodoValue = TodoValue(id: Option<TodoId>, title: string, done: bool)

  /** A title as construction leaves it: non-empty, nothing to trim. */
  predicate IsValidTitle(title: string) {
    title != [] && IsTrimmed(title)
  }

  /** The constructor `new Todo(id, title, done = false)`: an empty or whitespace-only
      title throws "Title is required"; otherwise the todo keeps the id and `done`
      exactly as given and stores the title trimmed. */
  function MakeTodo(id: Option<TodoId>, title: string, done: bool := false): (r: Result<TodoValue, Error>)
    ensures r.Failure? <==> IsBlank(title)
    ensures r.Failure? ==> r.error == TitleRequired && r.error.Message() == "Title is required"
    ensures r.Success? ==> && r.value.id == id && r.value.done == done
                           && r.value.title == Trim(title) && IsValidTitle(r.value.title)
  {
    if title == [] || Trim(title) == [] then Failure(TitleRequired)
    else Success(TodoValue(id, Trim(title), done))
  }

  /** Rebuilding a todo from the title of one that construction produced never throws
      and keeps that title: the defensive copies of the repository rely on it. */
  lemma {:induction false} RebuildKeepsTitle(id: Option<TodoId>, title: string, done: bool, id': Option<TodoId>, done': bool)
    requires MakeTodo(id, title, done).Success?
    ensures MakeTodo(id', MakeTodo(id, title, done).value.title, done') ==
            Success(TodoValue(id', MakeTodo(id, title, done).value.title, done'))
  {
    TrimIdempotent(title);
  }

  /** A title that is already valid passes through construction unchanged. */
  lemma {:induction false} ValidTitleRebuilds(id: Option<TodoId>, title: string, done: bool)
    requires IsValidTitle(title)
    ensures MakeTodo(id, title, done) == Success(TodoValue(id, title, done))
  {
    TrimFixesTrimmed(title);
  }

  /** `toggle()` on a value: only `done` changes. */
  function Toggled(t: TodoValue): TodoValue {
    t.(done := !t.done)
  }

  /** Toggling flips `done` and nothing else, and toggling twice is the identity. */
  lemma ToggleInvolution(t: TodoValue)
    ensures Toggled(t) != t
    ensures Toggled(t).id == t.id && Toggled(t).title == t.title && Toggled(t).done == !t.done
    ensures Toggled(Toggled(t)) == t
  {
  }

  class Todo {
    const id: Option<TodoId>
    var title: string
    var done: bool

    function Value(): TodoValue
      reads this
    {
      TodoValue(id, title, done)
    }

    /** Allocation with the fields as given; validation is Create's job, and Create
        is the only caller. */
    constructor(id: Option<TodoId>, title: string, done: bool)
      ensures Value() == TodoValue(id, title, done)
    {
      this.id := id;
      this.title := title;
      this.done := done;
    }

    /** `new Todo(id, title, done)`: a fresh object holding MakeTodo's value, or the
        error MakeTodo gives. */
    static method Create(id: Option<TodoId>, title: string, done: bool := false) returns (r: Result<Todo, Error>)
      ensures Mirrors(r, MakeTodo(id, title, done))
      ensures r.Success? ==> fresh(r.value)
    {
      var v := MakeTodo(id, title, done);
      if v.Failure? {
        return Failure(v.error);
      }
      var t := new Todo(v.value.id, v.value.title, v.value.done);
      return Success(t);
    }

    /** `toggle()`: flips `done` in place; id and title stay as they were. */
    method Toggle()
      modifies this`done
      ensures Value() == Toggled(old(Value()))
    {
      done := !done;
    }
  }

  /** The object result r carries exactly the value result v. */
  predicate Mirrors(r: Result<Todo, Error>, v: Result<TodoValue, Error>)
    reads if r.Success? then {r.value} else {}
  {
    match r
    case Success(t) => v.Success? && t.Value() == v.value
    case Failure(e) => v == Failure(e)
  }
}
