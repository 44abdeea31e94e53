/** The three use cases, AddTodo, ToggleTodo and ListTodos, each a class holding the
    repository it was given, run against the in-memory adapter. The functions
    AddStep and ToggleStep say what one call does to the repository's state and
    what it returns; the lemmas state the use cases' properties over those. */
module UseCases {
  import opened Wrappers
  import opened Text
  import opened Decimal
  import opened OrderedMaps
  import opened TodoEntity
  import opened MemoryAdapter

  /** `AddTodo.execute({title})`: `save(new Todo(null, title))`. A blank title throws
      in the constructor, before `save` is reached. */
  function AddStep(s: RepoState, title: string): (RepoState, Result<TodoValue, Error>) {
    match MakeTodo(None, title)
    case Failure(e) => (s, Failure(e))
    case Success(t) => SaveStep(s, t)
  }

  /** `ToggleTodo.execute(id)`: `findById`, "Todo not found" when that gives null,
      otherwise `toggle()` on the copy and `save` it. */
  function ToggleStep(s: RepoState, id: TodoId): (RepoState, Result<TodoValue, Error>)
    requires Inv(s)
  {
    match FindStep(s, id)
    case None => (s, Failure(TodoNotFound))
    case Some(t) => SaveStep(s, Toggled(t))
  }

  /** AddTodo: a blank title fails with "Title is required" and leaves the repository
      as it was; any other title gives a todo numbered by the counter, with the
      trimmed title and `done = false`, stored under its id. */
  lemma AddOutcome(s: RepoState, title: string)
    requires Inv(s)
    ensures var (s', r) := AddStep(s, title);
      && Inv(s')
      && (IsBlank(title) ==> s' == s && r == Failure(TitleRequired))
      && (!IsBlank(title) ==>
            && r == Success(TodoValue(Some(Render(s.counter)), Trim(title), false))
            && r.value.id.Some? && !r.value.done && IsValidTitle(r.value.title)
            && s'.counter == s.counter + 1
            && Contents(s') == Contents(s)[Render(s.counter) := r.value])
  {
    var m := MakeTodo(None, title);
    if m.Success? {
      var t := m.value;
      assert AddStep(s, title) == SaveStep(s, t);
      assert SaveId(s, t) == Render(s.counter);
      SaveOutcome(s, t);
      TrimIdempotent(title);
    } else {
      assert AddStep(s, title) == (s, Failure(TitleRequired));
    }
  }

  /** AddTodo, while every key reads as a number below the counter: the repository
      gains exactly one todo and `listAll` gains it at the end. */
  lemma AddGrowsListing(s: RepoState, title: string)
    requires Inv(s) && IdsFromCounter(s) && !IsBlank(title)
    ensures var (s', r) := AddStep(s, title);
      && Inv(s') && IdsFromCounter(s') && r.Success?
      && |Contents(s')| == |Contents(s)| + 1
      && ListStep(s') == ListStep(s) + [r.value]
  {
    var t := MakeTodo(None, title).value;
    SavePreservesInv(s, t);
    SaveCreates(s, t);
  }

  /** ToggleTodo: an unknown id fails with "Todo not found" and changes nothing (no
      `save` happens); a known id gives the stored todo with `done` negated and the
      same id and title, saved back under that id, so the counter, the keys, their
      order and every other todo stay as they were. */
  lemma ToggleOutcome(s: RepoState, id: TodoId)
    requires Inv(s)
    ensures var (s', r) := ToggleStep(s, id);
      && Inv(s')
      && (id !in Contents(s) ==> s' == s && r == Failure(TodoNotFound))
      && (id in Contents(s) ==>
            && r == Success(Toggled(Contents(s)[id]))
            && r.value.id == Some(id) && r.value.title == Contents(s)[id].title
            && r.value.done == !Contents(s)[id].done
            && s'.counter == s.counter
            && s'.store.order == s.store.order
            && Contents(s') == Contents(s)[id := r.value]
            && |Contents(s')| == |Contents(s)|)
  {
    if id in Contents(s) {
      var t := Toggled(Contents(s)[id]);
      SaveOutcome(s, t);
      ValidTitleRebuilds(Some(id), t.title, t.done);
      assert Contents(s)[id := t].Keys == Contents(s).Keys;
    }
  }

  /** After a toggle, `listAll` shows the new `done` in the toggled todo's slot and
      every other slot unchanged. */
  lemma ToggleListing(s: RepoState, id: TodoId)
    requires Inv(s) && id in Contents(s)
    ensures Inv(ToggleStep(s, id).0)
    ensures var (s', r) := ToggleStep(s, id);
      && r.Success?
      && |ListStep(s')| == |ListStep(s)|
      && forall i :: 0 <= i < |ListStep(s)| ==>
           ListStep(s')[i] == if s.store.order[i] == id then r.value else ListStep(s)[i]
  {
    ToggleOutcome(s, id);
    SaveListing(s, Toggled(Contents(s)[id]));
  }

  /** A toggle keeps every key below the counter. */
  lemma ToggleKeepsIdsFromCounter(s: RepoState, id: TodoId)
    requires Inv(s) && IdsFromCounter(s)
    ensures IdsFromCounter(ToggleStep(s, id).0)
  {
    if id in Contents(s) {
      UpdateKeepsIdsFromCounter(s, Toggled(Contents(s)[id]));
    }
  }

  /** Toggling the same id twice restores the repository exactly, and the second
      toggle returns the todo as it was first stored. */
  lemma ToggleTwice(s: RepoState, id: TodoId)
    requires Inv(s) && id in Contents(s)
    ensures Inv(ToggleStep(s, id).0)
    ensures ToggleStep(ToggleStep(s, id).0, id) == (s, Success(Contents(s)[id]))
  {
    var t := Contents(s)[id];
    var s1, r1 := ToggleStep(s, id).0, ToggleStep(s, id).1;
    assert && Inv(s1) && r1 == Success(Toggled(t))
           && s1.counter == s.counter && s1.store.order == s.store.order
           && Contents(s1) == Contents(s)[id := Toggled(t)] by {
      ToggleOutcome(s, id);
    }
    var s2, r2 := ToggleStep(s1, id).0, ToggleStep(s1, id).1;
    assert && r2 == Success(Toggled(Toggled(t)))
           && s2.counter == s1.counter && s2.store.order == s1.store.order
           && Contents(s2) == Contents(s1)[id := Toggled(Toggled(t))] by {
      ToggleOutcome(s1, id);
    }
    assert Toggled(Toggled(t)) == t;
    RestoreEntry(Contents(s), id, Toggled(t), Contents(s1), Contents(s2));
    assert s2.store == s.store;
  }

  /** Overwriting a key and then writing its old value back gives the original map. */
  lemma RestoreEntry<K, V>(m: map<K, V>, k: K, v: V, m1: map<K, V>, m2: map<K, V>)
    requires k in m && m1 == m[k := v] && m2 == m1[k := m[k]]
    ensures m2 == m
  {
  }

  /** Successive AddTodo calls, one per title, in order. */
  function AddAll(s: RepoState, titles: seq<string>): RepoState
    decreases |titles|
  {
    if titles == [] then s else AddAll(AddStep(s, titles[0]).0, titles[1..])
  }

  /** The todos a run of AddTodo calls creates from counter value c on. */
  function Added(c: nat, titles: seq<string>): (added: seq<TodoValue>)
    ensures |added| == |titles|
    decreases |titles|
  {
    if titles == [] then []
    else [TodoValue(Some(Render(c)), Trim(titles[0]), false)] + Added(c + 1, titles[1..])
  }

  /** A run's first todo, followed by the run numbered from the next counter value. */
  lemma AddedCons(c: nat, titles: seq<string>, first: TodoValue, next: nat, rest: seq<string>)
    requires titles != [] && rest == titles[1..] && next == c + 1
    requires first == TodoValue(Some(Render(c)), Trim(titles[0]), false)
    ensures Added(c, titles) == [first] + Added(next, rest)
  {
  }

  /** The i-th todo of such a run: numbered c + i, with the i-th title trimmed. */
  lemma {:induction false} AddedAt(c: nat, titles: seq<string>, i: nat)
    requires i < |titles|
    ensures Added(c, titles)[i] == TodoValue(Some(Render(c + i)), Trim(titles[i]), false)
    decreases |titles|
  {
    if i > 0 {
      AddedAt(c + 1, titles[1..], i - 1);
    } else if |titles| > 1 {
      AddedAt(c + 1, titles[1..], 0);
    }
  }

  /** While every key reads as a number below the counter, N adds with non-blank
      titles append N todos to `listAll`, in call order, numbered by the counter's
      next N values. */
  lemma {:induction false} AddAllListing(s: RepoState, titles: seq<string>)
    requires Inv(s) && IdsFromCounter(s)
    requires forall i :: 0 <= i < |titles| ==> !IsBlank(titles[i])
    ensures Inv(AddAll(s, titles)) && IdsFromCounter(AddAll(s, titles))
    ensures AddAll(s, titles).counter == s.counter + |titles|
    ensures ListStep(AddAll(s, titles)) == ListStep(s) + Added(s.counter, titles)
    decreases |titles|
  {
    if titles != [] {
      var (s1, r1) := AddStep(s, titles[0]);
      var rest := titles[1..];
      assert Inv(s1) && IdsFromCounter(s1) && ListStep(s1) == ListStep(s) + [r1.value] by {
        AddGrowsListing(s, titles[0]);
      }
      assert s1.counter == s.counter + 1
        && r1 == Success(TodoValue(Some(Render(s.counter)), Trim(titles[0]), false)) by {
        AddOutcome(s, titles[0]);
      }
      assert forall i :: 0 <= i < |rest| ==> !IsBlank(rest[i]) by {
        forall i | 0 <= i < |rest| ensures !IsBlank(rest[i]) {
          assert rest[i] == titles[i + 1];
        }
      }
      AddAllListing(s1, rest);
      assert AddAll(s, titles) == AddAll(s1, rest);
      var x, added := r1.value, Added(s1.counter, rest);
      AddedCons(s.counter, titles, x, s1.counter, rest);
      AppendRun(ListStep(s), ListStep(s1), ListStep(AddAll(s1, rest)), x, added);
    } else {
      assert Added(s.counter, titles) == [];
      assert ListStep(s) + [] == ListStep(s);
    }
  }

  /** A listing that gained x and then a run gained x followed by that run. */
  lemma AppendRun<T>(before: seq<T>, middle: seq<T>, after: seq<T>, x: T, run: seq<T>)
    requires middle == before + [x] && after == middle + run
    ensures after == before + ([x] + run)
  {
  }

  /** The run numbered from c on: each todo carries id `Render(i + c)` and the i-th
      title trimmed, and no two ids coincide. */
  lemma AddedNumbering(c: nat, titles: seq<string>, added: seq<TodoValue>)
    requires added == Added(c, titles)
    ensures |added| == |titles|
    ensures forall i :: 0 <= i < |titles| ==>
              added[i] == TodoValue(Some(Render(i + c)), Trim(titles[i]), false)
    ensures forall i, j :: 0 <= i < j < |titles| ==> added[i].id != added[j].id
  {
    forall i | 0 <= i < |titles|
      ensures added[i] == TodoValue(Some(Render(i + c)), Trim(titles[i]), false)
    {
      AddedAt(c, titles, i);
    }
    forall i, j | 0 <= i < j < |titles| ensures added[i].id != added[j].id {
      RenderInjective(i + c, j + c);
    }
  }

  /** From a fresh repository, N adds with non-blank titles list exactly the run
      numbered from 1. */
  lemma FreshRun(titles: seq<string>)
    requires forall i :: 0 <= i < |titles| ==> !IsBlank(titles[i])
    ensures Inv(AddAll(Initial(), titles))
    ensures ListStep(AddAll(Initial(), titles)) == Added(1, titles)
  {
    var s0 := Initial();
    AddAllListing(s0, titles);
    assert s0.counter == 1 && ListStep(s0) == [];
  }

  /** From a fresh repository, N adds with non-blank titles list exactly N todos, in
      call order, with ids "1" to "N", the titles trimmed, all not done. */
  lemma AddsFromFresh(titles: seq<string>) returns (listed: seq<TodoValue>)
    requires forall i :: 0 <= i < |titles| ==> !IsBlank(titles[i])
    ensures Inv(AddAll(Initial(), titles))
    ensures listed == ListStep(AddAll(Initial(), titles))
    ensures |listed| == |titles|
    ensures forall i :: 0 <= i < |titles| ==>
              listed[i] == TodoValue(Some(Render(i + 1)), Trim(titles[i]), false)
  {
    FreshRun(titles);
    listed := ListStep(AddAll(Initial(), titles));
    AddedNumbering(1, titles, listed);
  }

  /** The todos those N adds list carry pairwise distinct ids. */
  lemma FreshIdsDistinct(titles: seq<string>) returns (listed: seq<TodoValue>)
    requires forall i :: 0 <= i < |titles| ==> !IsBlank(titles[i])
    ensures Inv(AddAll(Initial(), titles))
    ensures listed == ListStep(AddAll(Initial(), titles))
    ensures |listed| == |titles|
    ensures forall i, j :: 0 <= i < j < |titles| ==> listed[i].id != listed[j].id
  {
    FreshRun(titles);
    listed := ListStep(AddAll(Initial(), titles));
    AddedNumbering(1, titles, listed);
  }

  /** The first domain test: on a fresh repository, adding a todo gives it id "1" and
      `done = false`; toggling "1" gives `done = true`; listing then shows exactly
      that todo, with the trimmed title and `done = true`. */
  lemma AddToggleListScenario(title: string)
    requires !IsBlank(title)
    ensures var (s1, added) := AddStep(Initial(), title);
      && Inv(s1)
      && added.Success? && added.value.id == Some("1") && !added.value.done
      && var (s2, toggled) := ToggleStep(s1, "1");
         && toggled.Success? && toggled.value.done
         && Inv(s2)
         && ListStep(s2) == [TodoValue(Some("1"), Trim(title), true)]
  {
    var s0 := Initial();
    assert Render(1) == "1";
    AddOutcome(s0, title);
    AddGrowsListing(s0, title);
    var s1 := AddStep(s0, title).0;
    ToggleOutcome(s1, "1");
    ToggleListing(s1, "1");
  }

  /** The second domain test: toggling "999" on a fresh repository fails with
      "Todo not found". */
  lemma UnknownIdScenario()
    ensures ToggleStep(Initial(), "999") == (Initial(), Failure(TodoNotFound))
    ensures TodoNotFound.Message() == "Todo not found"
  {
  }

  class AddTodo {
    const repo: InMemoryTodoRepository

    constructor(repo: InMemoryTodoRepository)
      ensures this.repo == repo
    {
      this.repo := repo;
    }

    /** `execute({title})`: the repository's new state and the result are AddStep's. */
    method Execute(title: string) returns (r: Result<Todo, Error>)
      requires repo.Valid()
      modifies repo
      ensures repo.Valid()
      ensures repo.State() == AddStep(old(repo.State()), title).0
      ensures Mirrors(r, AddStep(old(repo.State()), title).1)
      ensures r.Success? ==> fresh(r.value)
    {
      var todo := Todo.Create(None, title);
      if todo.Failure? {
        return Failure(todo.error);
      }
      r := repo.Save(todo.value);
    }
  }

  class ToggleTodo {
    const repo: InMemoryTodoRepository

    constructor(repo: InMemoryTodoRepository)
      ensures this.repo == repo
    {
      this.repo := repo;
    }

    /** `execute(id)`: the repository's new state and the result are ToggleStep's. */
    method Execute(id: TodoId) returns (r: Result<Todo, Error>)
      requires repo.Valid()
      modifies repo
      ensures repo.Valid()
      ensures repo.State() == ToggleStep(old(repo.State()), id).0
      ensures Mirrors(r, ToggleStep(old(repo.State()), id).1)
      ensures r.Success? ==> fresh(r.value)
    {
      var todo := repo.FindById(id);
      if todo.None? {
        return Failure(TodoNotFound);
      }
      todo.value.Toggle();
      r := repo.Save(todo.value);
    }
  }

  class ListTodos {
    const repo: InMemoryTodoRepository

    constructor(repo: InMemoryTodoRepository)
      ensures this.repo == repo
    {
      this.repo := repo;
    }

    /** `execute()`: exactly `listAll()`, unfiltered and in the same order; it changes
        nothing in the repository. */
    method Execute() returns (r: seq<Todo>)
      requires repo.Valid()
      ensures |r| == |ListStep(repo.State())|
      ensures forall i :: 0 <= i < |r| ==> fresh(r[i]) && r[i].Value() == ListStep(repo.State())[i]
    {
      r := repo.ListAll();
    }
  }

  /** The first domain test run on the classes, for any title that is not blank (the
      test uses "Lire un livre"): add, toggle the new id, list. */
  method CreateThenToggle(title: string) returns (added: Result<Todo, Error>, toggled: Result<Todo, Error>, all: seq<Todo>)
    requires !IsBlank(title)
    ensures added.Success? && added.value.id.Some? && !added.value.done
    ensures toggled.Success? && toggled.value.done
    ensures |all| == 1 && all[0].title == Trim(title) && all[0].done
  {
    var repo := new InMemoryTodoRepository();
    var add := new AddTodo(repo);
    var toggle := new ToggleTodo(repo);
    var list := new ListTodos(repo);
    added := add.Execute(title);
    ghost var a1 := AddStep(Initial(), title).1;
    assert a1.Success? && a1.value.id == Some("1") && !a1.value.done by {
      AddToggleListScenario(title);
    }
    assert added.Success? && added.value.Value() == a1.value;
    toggled := toggle.Execute(added.value.id.value);
    assert !added.value.done;
    ghost var s1 := AddStep(Initial(), title).0;
    ghost var s2 := ToggleStep(s1, "1").0;
    ghost var t2 := ToggleStep(s1, "1").1;
    assert Inv(s1) && t2.Success? && t2.value.done && Inv(s2)
      && ListStep(s2) == [TodoValue(Some("1"), Trim(title), true)] by {
      AddToggleListScenario(title);
    }
    assert toggled.Success? && toggled.value.Value() == t2.value;
    all := list.Execute();
  }

  /** The second domain test run on the classes: toggling "999" on a fresh repository
      fails with "Todo not found". */
  method ToggleUnknown() returns (r: Result<Todo, Error>)
    ensures r.Failure? && r.error.Message() == "Todo not found"
  {
    var repo := new InMemoryTodoRepository();
    var toggle := new ToggleTodo(repo);
    r := toggle.Execute("999");
  }
}
