/** The persistence port the use cases are written against, stated as the relation
    each operation must establish between the repository's contents (todos by id)
    before and after the call and what the call returns. */
module TodoRepository {
  import opened Wrappers
  import opened TodoEntity

  /** `save(todo)`, "create or update": the result is the saved todo, carrying the
      argument's id when it had one and a generated one otherwise; afterwards the
      repository holds it under that id and every other todo is as before. */
  ghost predicate SaveContract(before: map<TodoId, TodoValue>, todo: TodoValue,
                               after: map<TodoId, TodoValue>, saved: TodoValue)
  {
    && saved.id.Some?
    && (todo.id.Some? ==> saved.id == todo.id)
    && saved.title == todo.title && saved.done == todo.done
    && after.Keys == before.Keys + {saved.id.value}
    && after[saved.id.value] == saved
    && (forall k :: k in before && k != saved.id.value ==> after[k] == before[k])
  }

  /** `findById(id)`: the todo stored under id, or null when there is none; absence
      is not an error. */
  ghost predicate FindContract(contents: map<TodoId, TodoValue>, id: TodoId, found: Option<TodoValue>)
  {
    && (found.Some? <==> id in contents)
    && (found.Some? ==> found.value == contents[id])
  }

  /** `listAll()`: every stored todo, each once. */
  ghost predicate ListContract(contents: map<TodoId, TodoValue>, listed: seq<TodoValue>)
  {
    && |listed| == |contents|
    && (forall k :: k in contents ==> contents[k] in listed)
    && (forall i :: 0 <= i < |listed| ==> listed[i] in contents.Values)
  }
}
