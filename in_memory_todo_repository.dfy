/** The in-memory persistence adapter: a JavaScript `Map` from id to todo, and a
    counter `seq`, starting at 1, that numbers the todos saved without an id. The
    adapter keeps copies: it stores a new todo built from the argument of `save`, and
    `findById` and `listAll` hand out new todos built from what it stores. */
module MemoryAdapter {
  import opened Wrappers
  import opened Text
  import opened Decimal
  import opened OrderedMaps
  import opened TodoEntity
  import opened TodoRepository

  /** The adapter's two fields: `store` and the counter `seq`. */
  datatype RepoState = RepoState(store: OrderedMap<TodoId, TodoValue>, counter: nat)

  /** The todos the repository holds, by id. */
  function Contents(s: RepoState): map<TodoId, TodoValue> {
    s.store.entries
  }

  /** What every operation keeps: the Map is well formed, the counter is positive, and
      each stored todo is a todo construction could have produced for its own key. */
  ghost predicate Inv(s: RepoState) {
    && s.store.Valid()
    && s.counter >= 1
    && forall k :: k in s.store.entries ==>
         s.store.entries[k].id == Some(k) && IsValidTitle(s.store.entries[k].title)
  }

  /** Every key reads as a number from 1 up to below the counter. This holds as long
      as every todo saved with an id took that id from the repository itself; it does
      not exclude keys such as "01", which the counter never renders but which read
      as a number below it. */
  ghost predicate IdsFromCounter(s: RepoState) {
    forall k :: k in s.store.entries ==> IsDigits(k) && 1 <= Parse(k) < s.counter
  }

  /** `new InMemoryTodoRepository()`: an empty store and `seq = 1`. */
  function Initial(): (s: RepoState)
    ensures Inv(s) && IdsFromCounter(s)
    ensures Contents(s) == map[] && s.store.order == [] && s.counter == 1
  {
    RepoState(OrderedMaps.Empty(), 1)
  }

  /** `todo.id ?? String(this.seq)`: the key `save` uses. */
  function SaveId(s: RepoState, t: TodoValue): TodoId {
    if t.id.Some? then t.id.value else Render(s.counter)
  }

  /** `save(todo)`: pick the key (taking and advancing the counter when the todo has no
      id), build the copy, which throws on a blank title after the counter has
      already moved, and `set` it, with no check whether the key was there. */
  function SaveStep(s: RepoState, t: TodoValue): (RepoState, Result<TodoValue, Error>) {
    var id := SaveId(s, t);
    var counter := if t.id.Some? then s.counter else s.counter + 1;
    match MakeTodo(Some(id), t.title, t.done)
    case Failure(e) => (RepoState(s.store, counter), Failure(e))
    case Success(copy) => (RepoState(s.store.Set(id, copy), counter), Success(copy))
  }

  /** `new Todo(t.id!, t.title, t.done)` on a stored todo: it cannot throw, and the copy
      equals the original. */
  function Copy(t: TodoValue): (c: TodoValue)
    requires IsValidTitle(t.title)
    ensures c == t
  {
    ValidTitleRebuilds(t.id, t.title, t.done);
    MakeTodo(t.id, t.title, t.done).value
  }

  /** `findById(id)`: a copy of what is stored under id, or null. */
  function FindStep(s: RepoState, id: TodoId): (found: Option<TodoValue>)
    requires Inv(s)
    ensures FindContract(Contents(s), id, found)
  {
    match s.store.Get(id)
    case None => None
    case Some(t) => Some(Copy(t))
  }

  /** `listAll()`: a copy of each stored todo, in the Map's key order. */
  function ListStep(s: RepoState): (listed: seq<TodoValue>)
    requires Inv(s)
    ensures listed == s.store.Values()
  {
    var values := s.store.Values();
    seq(|values|, i requires 0 <= i < |values| => Copy(values[i]))
  }

  /** `listAll` meets the port's contract: every stored todo, each once. */
  lemma ListMeetsPort(s: RepoState)
    requires Inv(s)
    ensures ListContract(Contents(s), ListStep(s))
  {
    var listed := ListStep(s);
    forall k | k in Contents(s) ensures Contents(s)[k] in listed {
      var i :| 0 <= i < |s.store.order| && s.store.order[i] == k;
      assert listed[i] == Contents(s)[k];
    }
  }

  /** `save` keeps the invariant, also when it throws. */
  lemma SavePreservesInv(s: RepoState, t: TodoValue)
    requires Inv(s)
    ensures Inv(SaveStep(s, t).0)
  {
    var r := SaveStep(s, t).1;
    if r.Success? {
      SetValid(s.store, SaveId(s, t), r.value);
    }
  }

  /** What one `save` does: the counter advances by exactly one when the todo has no id
      and stays put otherwise; the call fails with "Title is required" exactly when the
      title is blank, leaving the store as it was; otherwise the store maps the chosen
      key to a todo with that id and the argument's trimmed title and `done`, that todo
      is the result, and every other entry is unchanged. */
  lemma SaveOutcome(s: RepoState, t: TodoValue)
    requires Inv(s)
    ensures var (s', r) := SaveStep(s, t);
      && Inv(s')
      && s'.counter == (if t.id.None? then s.counter + 1 else s.counter)
      && (r.Failure? <==> IsBlank(t.title))
      && (r.Failure? ==> r.error == TitleRequired && s'.store == s.store)
      && (r.Success? ==>
            && r.value == TodoValue(Some(SaveId(s, t)), Trim(t.title), t.done)
            && Contents(s') == Contents(s)[SaveId(s, t) := r.value])
  {
    SavePreservesInv(s, t);
  }

  /** For a todo with a valid title, `save` succeeds and meets the port's contract. */
  lemma SaveMeetsPort(s: RepoState, t: TodoValue)
    requires Inv(s) && IsValidTitle(t.title)
    ensures SaveStep(s, t).1.Success?
    ensures SaveContract(Contents(s), t, Contents(SaveStep(s, t).0), SaveStep(s, t).1.value)
  {
    ValidTitleRebuilds(Some(SaveId(s, t)), t.title, t.done);
  }

  /** A successful `save` keeps the listing order: a key already present keeps its
      place and only its todo changes, a new key is listed last. */
  lemma SaveListing(s: RepoState, t: TodoValue)
    requires Inv(s) && SaveStep(s, t).1.Success?
    ensures Inv(SaveStep(s, t).0)
    ensures var (s', r), id := SaveStep(s, t), SaveId(s, t);
      && (id in Contents(s) ==>
            && |ListStep(s')| == |ListStep(s)|
            && forall i :: 0 <= i < |ListStep(s)| ==>
                 ListStep(s')[i] == if s.store.order[i] == id then r.value else ListStep(s)[i])
      && (id !in Contents(s) ==> ListStep(s') == ListStep(s) + [r.value])
  {
    SavePreservesInv(s, t);
    SetValues(s.store, SaveId(s, t), SaveStep(s, t).1.value);
  }

  /** While every key reads as a number below the counter, the key a save without id
      takes is new, so that save adds exactly one todo, listed last, and afterwards
      every key still reads as a number below the counter. */
  lemma SaveCreates(s: RepoState, t: TodoValue)
    requires Inv(s) && IdsFromCounter(s) && t.id.None? && !IsBlank(t.title)
    ensures var (s', r) := SaveStep(s, t);
      && SaveId(s, t) !in Contents(s)
      && r.Success?
      && |Contents(s')| == |Contents(s)| + 1
      && ListStep(s') == ListStep(s) + [r.value]
      && IdsFromCounter(s')
  {
    ParseRender(s.counter);
    SaveListing(s, t);
    var s' := SaveStep(s, t).0;
  }

  /** A save under a key that is already present keeps every key below the counter. */
  lemma UpdateKeepsIdsFromCounter(s: RepoState, t: TodoValue)
    requires IdsFromCounter(s) && t.id.Some? && t.id.value in Contents(s)
    ensures IdsFromCounter(SaveStep(s, t).0)
  {
  }

  /** The ids successive saves without id generate are pairwise distinct: the counter
      never goes back, and distinct counter values render as distinct ids. */
  lemma GeneratedIdsDistinct(s: RepoState, t: TodoValue, u: TodoValue)
    requires t.id.None?
    ensures SaveStep(s, t).0.counter == s.counter + 1
    ensures SaveStep(s, u).0.counter >= s.counter
    ensures forall c: nat :: c > s.counter ==> Render(c) != SaveId(s, t)
  {
    forall c: nat | c > s.counter ensures Render(c) != SaveId(s, t) {
      RenderInjective(c, s.counter);
    }
  }

  /** `save` overwrites with no existence check: a todo saved under the explicit id "1"
      is replaced by the next todo saved without id, since that one is numbered "1" too. */
  lemma GeneratedIdCanOverwrite()
    ensures var s1 := SaveStep(Initial(), TodoValue(Some("1"), "a", false)).0;
            var s2 := SaveStep(s1, TodoValue(None, "b", false)).0;
            && Contents(s1).Keys == {"1"}
            && Contents(s2) == map["1" := TodoValue(Some("1"), "b", false)]
  {
    assert Render(1) == "1";
    TrimFixesTrimmed("a");
    TrimFixesTrimmed("b");
  }

  class InMemoryTodoRepository {
    var store: OrderedMap<TodoId, TodoValue>
    /** The source's `seq` field. */
    var counter: nat

    function State(): RepoState
      reads this
    {
      RepoState(store, counter)
    }

    ghost predicate Valid()
      reads this
    {
      Inv(State())
    }

    constructor()
      ensures Valid() && State() == Initial()
    {
      store := OrderedMaps.Empty();
      counter := 1;
    }

    /** `save(todo)`: the new state and the result are SaveStep's; the result is a
        fresh object, so later changes to the argument do not reach the store. */
    method Save(todo: Todo) returns (r: Result<Todo, Error>)
      requires Valid()
      modifies this
      ensures Valid()
      ensures State() == SaveStep(old(State()), todo.Value()).0
      ensures Mirrors(r, SaveStep(old(State()), todo.Value()).1)
      ensures r.Success? ==> fresh(r.value)
    {
      ghost var s := State();
      ghost var step := SaveStep(s, todo.Value());
      SavePreservesInv(s, todo.Value());
      var id: TodoId;
      if todo.id.Some? {
        id := todo.id.value;
      } else {
        id := Render(counter);
        counter := counter + 1;
      }
      assert id == SaveId(s, todo.Value()) && counter == step.0.counter;
      var copy := Todo.Create(Some(id), todo.title, todo.done);
      if copy.Success? {
        store := store.Set(id, copy.value.Value());
      }
      r := copy;
      assert State() == step.0;
    }

    /** `new Todo(t.id!, t.title, t.done)` on a stored todo: construction succeeds, and
        the fresh object holds exactly the stored value. */
    static method CopyOut(t: TodoValue) returns (copy: Todo)
      requires IsValidTitle(t.title)
      ensures fresh(copy) && copy.Value() == t
    {
      ValidTitleRebuilds(t.id, t.title, t.done);
      var c := Todo.Create(t.id, t.title, t.done);
      copy := c.value;
    }

    /** `findById(id)`: a fresh copy of the todo stored under id, or None. */
    method FindById(id: TodoId) returns (r: Option<Todo>)
      requires Valid()
      ensures r.Some? <==> id in Contents(State())
      ensures r.Some? ==> fresh(r.value) && r.value.Value() == Contents(State())[id]
      ensures r.Some? ==> FindStep(State(), id) == Some(r.value.Value())
    {
      var t := store.Get(id);
      if t.None? {
        return None;
      }
      var copy := CopyOut(t.value);
      r := Some(copy);
    }

    /** `listAll()`: one fresh copy per stored todo, in the Map's key order. */
    method ListAll() returns (r: seq<Todo>)
      requires Valid()
      ensures |r| == |ListStep(State())|
      ensures forall i :: 0 <= i < |r| ==> fresh(r[i]) && r[i].Value() == ListStep(State())[i]
      ensures forall i, j :: 0 <= i < j < |r| ==> r[i] != r[j]
    {
      var values := store.Values();
      assert values == ListStep(State());
      r := CopyAll(values);
    }

    /** `.map(t => new Todo(t.id!, t.title, t.done))` over stored todos: one fresh,
        distinct object per element, each holding that element. */
    static method CopyAll(values: seq<TodoValue>) returns (r: seq<Todo>)
      requires forall j :: 0 <= j < |values| ==> IsValidTitle(values[j].title)
      ensures |r| == |values|
      ensures forall j :: 0 <= j < |r| ==> fresh(r[j]) && r[j].Value() == values[j]
      ensures forall j, k :: 0 <= j < k < |r| ==> r[j] != r[k]
    {
      r := [];
      var i := 0;
      while i < |values|
        invariant 0 <= i <= |values| && |r| == i
        invariant forall j :: 0 <= j < i ==> fresh(r[j]) && r[j].Value() == values[j]
        invariant forall j, k :: 0 <= j < k < i ==> r[j] != r[k]
      {
        var copy := CopyOut(values[i]);
        r := r + [copy];
        i := i + 1;
      }
    }
  }
}
