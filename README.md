# Hexagonal todo core in Dafny

This project models the domain core of a small hexagonal ("ports and adapters")
todo application written in TypeScript:

- the `Todo` entity;
- the `TodoRepository` persistence port;
- the in-memory adapter `InMemoryTodoRepository`;
- the three use cases `AddTodo`, `ToggleTodo` and `ListTodos`.

The model proves properties of all of them.

The repository holds two copies of the core. One is under `domain/` and
`app/src/adapters/persistence/memory/`. The other is under `src/domain/todo/`.
The two copies behave the same, and one set of Dafny members models both. They
differ only in ways that do not change behaviour:

- the second copy has no doc comments;
- `src/domain/todo/Todo.ts:7` declares `done: boolean = false` where the first
  copy writes `done = false`;
- `src/domain/todo/usecases/AddTodo.ts:7-8` names the new todo in a local and
  passes `false` for `done` explicitly, which is the default anyway;
- the second adapter imports `Todo` and `TodoRepository` by relative path
  (`src/domain/todo/src/adapters/persistence/memory/InMemoryTodoRepository.ts:1-2`).

The table cites the first copy. The second copy's lines match like this:

- `src/domain/todo/Todo.ts:3-16` matches `domain/todo/Todo.ts:15-31`;
- `src/domain/todo/src/adapters/persistence/memory/InMemoryTodoRepository.ts:4-23`
  matches the adapter's lines 14-48;
- `src/domain/todo/usecases/AddTodo.ts:4-10`, `ToggleTodo.ts:4-12` and
  `ListTodos.ts:4-9` match the use cases of the same names.

The project has one module per part of the core:

- **Wrappers** holds `Option` and `Result`. A thrown `Error` becomes a `Failure`,
  and a `null` becomes `None`.
- **Text** models JavaScript's `String.prototype.trim`. The whitespace set is the
  ECMAScript WhiteSpace and LineTerminator code points.
- **Decimal** models `String(n)` for a counter value: its decimal rendering and
  the parse that inverts it.
- **OrderedMaps** models the JavaScript `Map` the adapter uses. It is a finite map
  plus its keys in first-insertion order. `set` on a new key appends the key; on a
  present key it replaces the value and keeps the key's place. `values()` follows
  that order.
- **TodoEntity** holds the `Todo` class and its value view. The value view is
  `TodoValue`, what any copy of a todo holds. The class has:
  - `Create`, which models the validating constructor. A title that is empty or
    all whitespace throws "Title is required". Any other title is stored trimmed;
  - `Toggle`, which flips `done` in place.
- **TodoRepository** is the port. Each of its three operations becomes a
  predicate over the repository's contents (its todos by id) and the result:
  - `SaveContract` relates the contents before the call, the saved todo, the
    contents after the call and the result;
  - `FindContract` and `ListContract` relate one contents map to the result,
    since those operations change nothing.
- **MemoryAdapter** models the adapter, a map from id to todo plus the counter
  `seq`, which starts at 1:
  - `SaveStep`, `FindStep` and `ListStep` say what each operation does to the
    pair, as functions on values;
  - the class `InMemoryTodoRepository` has the two fields. Its methods are proved
    to change them exactly as those functions say;
  - lemmas prove that the adapter meets the port's predicates and preserves the
    invariant `Inv`;
  - lemmas also establish the counter's guarantees. `IdsFromCounter` says that
    every key reads as a number below the counter. Under it, a save without an
    id creates a new entry, and generated ids are pairwise distinct.
- **UseCases** models the three use case classes over the adapter. `AddStep` and
  `ToggleStep` specify them. Lemmas cover:
  - each use case's outcome, including both error paths;
  - how the listing changes;
  - toggling twice restoring the repository;
  - a run of adds from a fresh repository, which lists todos `"1"` … `"N"` in
    call order;
  - the two scenarios of the domain test.

What the code does, including two less obvious points:

- `save` under an id that is already present overwrites that entry without any
  check. So a todo saved under the explicit id `"1"` is replaced by the next todo
  saved without an id (`GeneratedIdCanOverwrite`). Through the use cases this
  cannot happen, since `AddTodo` always saves without an id, and `ToggleTodo`
  saves under an id it has just found.
- `save` advances the counter before it builds its copy. The copy's constructor
  throws on a blank title, and `title` is a public mutable field. So a save that
  fails still uses up an id. `SaveStep` keeps that order.

## Model

| member | source | states |
|---|---|---|
| Text.Trim | domain/todo/Todo.ts:21-22 | `title.trim()` leaves no whitespace at either end, and leaves nothing exactly when the title is all whitespace |
| Text.TrimIsInfix | domain/todo/Todo.ts:22 | trim only removes a whitespace prefix and a whitespace suffix: the title is that prefix, the result and that suffix, in that order |
| Text.TrimFixesTrimmed | domain/todo/Todo.ts:22 | a title with no whitespace at either end is its own trim |
| Text.TrimIdempotent | domain/todo/Todo.ts:22 | trimming twice gives the same as trimming once |
| Decimal.Render | app/src/adapters/persistence/memory/InMemoryTodoRepository.ts:25 | `String(seq)` is a non-empty string of decimal digits with no leading zero |
| Decimal.ParseRender | app/src/adapters/persistence/memory/InMemoryTodoRepository.ts:25 | reading the rendered digits back gives the counter value |
| Decimal.RenderInjective | app/src/adapters/persistence/memory/InMemoryTodoRepository.ts:11 | two counter values render to the same id exactly when they are equal |
| OrderedMaps.OrderedMap.Get | app/src/adapters/persistence/memory/InMemoryTodoRepository.ts:37 | `Map.get` finds exactly the keys that `values()` walks, and gives the value listed in that key's slot |
| OrderedMaps.OrderedMap.Values | app/src/adapters/persistence/memory/InMemoryTodoRepository.ts:46 | `Map.values()` lists each key's value in key order, and has exactly as many values as the map has keys |
| OrderedMaps.OrderedMap.Set | app/src/adapters/persistence/memory/InMemoryTodoRepository.ts:27 | `Map.set`; SetValid and SetValues state what it does |
| OrderedMaps.Empty | app/src/adapters/persistence/memory/InMemoryTodoRepository.ts:15 | a new `Map` is well formed and has no values |
| OrderedMaps.SetValid | app/src/adapters/persistence/memory/InMemoryTodoRepository.ts:27 | `Map.set` keeps the map well formed: keys listed once each, exactly the keys of the map |
| OrderedMaps.SetValues | app/src/adapters/persistence/memory/InMemoryTodoRepository.ts:27 | `Map.set` on a present key replaces its value in place in `values()`; on a new key it appends the value |
| TodoEntity.MakeTodo | domain/todo/Todo.ts:16-23 | construction fails with "Title is required" exactly when the title is all whitespace; otherwise the todo has the given id and `done` and the trimmed title, which is valid |
| TodoEntity.RebuildKeepsTitle | domain/todo/Todo.ts:21-22 | rebuilding a todo from the title of a constructed todo never throws and keeps that title, whatever id and `done` it is rebuilt with |
| TodoEntity.ValidTitleRebuilds | domain/todo/Todo.ts:16-23 | construction with a valid title succeeds and changes nothing |
| TodoEntity.Toggled | domain/todo/Todo.ts:28-30 | `toggle()` on a value; ToggleInvolution states what it does |
| TodoEntity.ToggleInvolution | domain/todo/Todo.ts:28-30 | toggling negates `done`, keeps id and title, always changes the todo, and applied twice gives the original |
| TodoRepository.SaveContract | domain/todo/TodoRepository.ts:13-18 | what `save` must do: the result keeps the todo's id if it had one and gets one otherwise, keeps its title and `done`, and the contents afterwards hold it under that id with every other todo unchanged; SaveMeetsPort proves the adapter meets it |
| TodoRepository.FindContract | domain/todo/TodoRepository.ts:20-25 | what `findById` must return: the todo stored under the id, or null exactly when there is none; FindStep meets it |
| TodoRepository.ListContract | domain/todo/TodoRepository.ts:27-31 | what `listAll` must return: one todo per stored id, every stored todo, nothing else; ListMeetsPort proves the adapter meets it |
| TodoEntity.Todo.Create | domain/todo/Todo.ts:16-23 | `new Todo(id, title, done)` gives a fresh object holding exactly construction's value, or construction's error |
| TodoEntity.Todo.Toggle | domain/todo/Todo.ts:28-30 | `toggle()` flips `done` in place and leaves id and title unchanged |
| MemoryAdapter.Inv | app/src/adapters/persistence/memory/InMemoryTodoRepository.ts:26-27 | what every operation keeps: the Map is well formed, the counter is positive, each todo is stored under its own id and its title is valid; SavePreservesInv and Initial establish it |
| MemoryAdapter.Initial | app/src/adapters/persistence/memory/InMemoryTodoRepository.ts:15-16 | a new repository is empty and its counter is 1; it satisfies the invariant and every key reads as a number below the counter |
| MemoryAdapter.SaveId | app/src/adapters/persistence/memory/InMemoryTodoRepository.ts:25 | `todo.id ?? String(this.seq)`, the key `save` uses; SaveOutcome and GeneratedIdsDistinct state its properties |
| MemoryAdapter.SaveStep | app/src/adapters/persistence/memory/InMemoryTodoRepository.ts:24-29 | `save` on the state: key, counter bump, copy and `set`; SaveOutcome, SavePreservesInv, SaveMeetsPort and SaveListing state what it does |
| MemoryAdapter.Copy | app/src/adapters/persistence/memory/InMemoryTodoRepository.ts:38 | rebuilding a stored todo cannot throw and gives an equal todo |
| MemoryAdapter.FindStep | app/src/adapters/persistence/memory/InMemoryTodoRepository.ts:36-39 | `findById` meets the port: a todo exactly when the id is stored, and then the one stored under it |
| MemoryAdapter.ListStep | app/src/adapters/persistence/memory/InMemoryTodoRepository.ts:45-47 | `listAll` gives the stored todos as they are, in the Map's key order |
| MemoryAdapter.ListMeetsPort | domain/todo/TodoRepository.ts:27-31 | `listAll` meets the port: one todo per stored id, every stored todo listed, nothing else listed |
| MemoryAdapter.SavePreservesInv | app/src/adapters/persistence/memory/InMemoryTodoRepository.ts:24-29 | `save` keeps the invariant, whether it succeeds or throws |
| MemoryAdapter.SaveOutcome | app/src/adapters/persistence/memory/InMemoryTodoRepository.ts:24-29 | the counter advances by one exactly when the todo has no id; `save` throws "Title is required" exactly when the title is blank, and the store is then unchanged; otherwise the result carries the chosen id, the trimmed title and `done`, and only that key's entry changes |
| MemoryAdapter.SaveMeetsPort | domain/todo/TodoRepository.ts:13-18 | for a todo with a valid title, `save` succeeds and meets the port's save contract: the id is kept or generated, the todo is stored under it, and every other todo is unchanged |
| MemoryAdapter.SaveListing | app/src/adapters/persistence/memory/InMemoryTodoRepository.ts:27 | after a successful save, an existing id keeps its place in the listing with only its todo changed, and a new id is listed last |
| MemoryAdapter.SaveCreates | app/src/adapters/persistence/memory/InMemoryTodoRepository.ts:11 | while every key reads as a number below the counter, the id generated for a todo without id is not yet stored, so the save adds exactly one todo, appends it to the listing and afterwards every key still reads as a number below the counter |
| MemoryAdapter.UpdateKeepsIdsFromCounter | app/src/adapters/persistence/memory/InMemoryTodoRepository.ts:25-27 | saving under an id already present keeps every key below the counter |
| MemoryAdapter.GeneratedIdsDistinct | app/src/adapters/persistence/memory/InMemoryTodoRepository.ts:25 | a save without id advances the counter by one, no save moves it back, and no later counter value renders to the id just generated |
| MemoryAdapter.GeneratedIdCanOverwrite | app/src/adapters/persistence/memory/InMemoryTodoRepository.ts:25-27 | `set` does no existence check: after an explicit save under "1", the next save without id overwrites "1" |
| MemoryAdapter.InMemoryTodoRepository.constructor | app/src/adapters/persistence/memory/InMemoryTodoRepository.ts:15-16 | the fields start as the initial state |
| MemoryAdapter.InMemoryTodoRepository.Save | app/src/adapters/persistence/memory/InMemoryTodoRepository.ts:24-29 | the fields change exactly as SaveStep says; the result is a fresh object holding SaveStep's result, or its error |
| MemoryAdapter.InMemoryTodoRepository.CopyOut | app/src/adapters/persistence/memory/InMemoryTodoRepository.ts:38 | `new Todo(t.id!, t.title, t.done)` on a stored todo gives a fresh object with that exact value |
| MemoryAdapter.InMemoryTodoRepository.FindById | app/src/adapters/persistence/memory/InMemoryTodoRepository.ts:36-39 | a fresh copy of the todo stored under the id, or None exactly when there is none |
| MemoryAdapter.InMemoryTodoRepository.ListAll | app/src/adapters/persistence/memory/InMemoryTodoRepository.ts:45-47 | one fresh, distinct object per stored todo, each holding ListStep's value at its position |
| MemoryAdapter.InMemoryTodoRepository.CopyAll | app/src/adapters/persistence/memory/InMemoryTodoRepository.ts:46 | the `.map` that copies each stored todo: one fresh, distinct object per element, each holding that element |
| UseCases.AddStep | domain/todo/usecases/AddTodo.ts:27-29 | `execute({title})` on the state: construct, then `save`; AddOutcome and AddGrowsListing state what it does |
| UseCases.AddOutcome | domain/todo/usecases/AddTodo.ts:27-29 | a blank title fails with "Title is required" and leaves the repository unchanged; any other title is saved as a new todo numbered by the counter, with the trimmed title and `done = false` |
| UseCases.AddGrowsListing | domain/todo/usecases/AddTodo.ts:23-25 | while every key reads as a number below the counter, an add with a non-blank title adds exactly one todo, and it appears last in the listing |
| UseCases.ToggleStep | domain/todo/usecases/ToggleTodo.ts:29-34 | `execute(id)` on the state: `findById`, the not-found error, toggle, `save`; ToggleOutcome, ToggleListing and ToggleTwice state what it does |
| UseCases.ToggleOutcome | domain/todo/usecases/ToggleTodo.ts:29-34 | an unknown id fails with "Todo not found" and changes nothing; a known id gives the stored todo with `done` negated, saved back under the same id, with the counter, the keys and their order and every other todo unchanged |
| UseCases.ToggleListing | domain/todo/usecases/ToggleTodo.ts:32-33 | after a toggle, the listing shows the new `done` in the toggled todo's slot and every other slot unchanged |
| UseCases.ToggleKeepsIdsFromCounter | domain/todo/usecases/ToggleTodo.ts:29-34 | a toggle keeps every key below the counter |
| UseCases.ToggleTwice | domain/todo/usecases/ToggleTodo.ts:29-34 | toggling the same id twice restores the repository exactly, and the second toggle returns the todo as originally stored |
| UseCases.AddedAt | domain/todo/usecases/AddTodo.ts:27-29 | the i-th todo of a run of adds numbered from c carries id `String(c + i)`, the i-th title trimmed, and `done = false` |
| UseCases.AddAllListing | domain/todo/usecases/AddTodo.ts:27-29 | while every key reads as a number below the counter, N adds with non-blank titles advance the counter by N and append the N new todos to the listing in call order |
| UseCases.AddedNumbering | app/src/adapters/persistence/memory/InMemoryTodoRepository.ts:11 | in such a run every todo is numbered by its position, and no two ids coincide |
| UseCases.FreshRun | domain/todo/usecases/ListTodos.ts:25-27 | from a fresh repository, N adds with non-blank titles list exactly the run of todos numbered from 1 |
| UseCases.AddsFromFresh | domain/todo/usecases/ListTodos.ts:25-27 | from a fresh repository, N adds with non-blank titles list exactly N todos in call order, with ids "1" to "N", trimmed titles and `done = false` |
| UseCases.FreshIdsDistinct | app/src/adapters/persistence/memory/InMemoryTodoRepository.ts:11 | the N todos those adds list carry pairwise distinct ids |
| UseCases.AddToggleListScenario | test/domain.spec.ts:8-25 | on a fresh repository, add gives id "1" with `done = false`, toggling "1" gives `done = true`, and the listing is then exactly that todo with the trimmed title and `done = true` |
| UseCases.UnknownIdScenario | test/domain.spec.ts:27-31 | toggling "999" on a fresh repository fails with "Todo not found" and changes nothing |
| UseCases.AddTodo.constructor | domain/todo/usecases/AddTodo.ts:16 | the use case holds the repository it is given |
| UseCases.AddTodo.Execute | domain/todo/usecases/AddTodo.ts:27-29 | the repository changes exactly as AddStep says, and the result is a fresh object holding AddStep's result, or its error |
| UseCases.ToggleTodo.constructor | domain/todo/usecases/ToggleTodo.ts:16 | the use case holds the repository it is given |
| UseCases.ToggleTodo.Execute | domain/todo/usecases/ToggleTodo.ts:29-34 | the repository changes exactly as ToggleStep says, and the result is a fresh object holding ToggleStep's result, or its error |
| UseCases.ListTodos.constructor | domain/todo/usecases/ListTodos.ts:16 | the use case holds the repository it is given |
| UseCases.ListTodos.Execute | domain/todo/usecases/ListTodos.ts:25-27 | exactly `listAll()`: one fresh object per listed todo, in the same order, and the repository is unchanged |
| UseCases.CreateThenToggle | test/domain.spec.ts:8-25 | the first domain test run on the classes: the added todo has an id and is not done, the toggled one is done, and the list has one todo with the trimmed title, done |
| UseCases.ToggleUnknown | test/domain.spec.ts:27-31 | the second domain test run on the classes: toggling "999" on a new repository fails with "Todo not found" |

## Left out

- Asynchrony: every repository and use case method returns a `Promise`. The model is synchronous, and a rejected promise is a `Failure`. No interleaving of calls is modelled.
- Port polymorphism: Dafny traits are not used, so the port is the three contract predicates. The use case classes are written against `InMemoryTodoRepository` only. The lemmas prove that this adapter meets the predicates.
- The HTTP adapter `DymaTodoRepository`, the Fastify web adapter, the OpenAI adapter, `SuggestTodoTitle` and the wiring are not part of this model. They are I/O around the core.
- MemoryAdapter.InMemoryTodoRepository.Save: in the source, `save` returns the very object it stores (InMemoryTodoRepository.ts:27-28), although the class comment at line 12 says every method returns a copy. So a caller that mutates the result also mutates the stored todo. The model stores a value and returns a fresh object that holds it, so this aliasing is not captured. `findById` and `listAll` do return copies, as in the source. No caller in the program mutates the result: the web adapter only serialises it.
- MemoryAdapter.Inv: the invariant says every stored title is valid, so the copies made by `findById` and `listAll` (Copy, FindStep, ListStep) never throw. That holds only because the model drops the aliasing above. In the source, a caller that blanked the title of the object `save` returned would make a later `findById` or `listAll` throw "Title is required". The model does not capture that failure.
- MemoryAdapter.InMemoryTodoRepository.CopyAll: the source builds the array with `Array.prototype.map` over `[...values()]`. The model uses a loop with the same result.
- Decimal.Render: JavaScript numbers are doubles. `String(seq)` switches to exponent form from 10^21, and `seq++` stops being exact after 2^53. The model's counter is unbounded and always renders in plain decimal.
- Text.Trim: JavaScript strings are sequences of UTF-16 code units, while the model's strings are sequences of Dafny `char`s. This affects only characters outside the Basic Multilingual Plane, none of which are whitespace.
- `!title` on a non-string value (`null`, `undefined`) cannot arise in the typed code, so it is not modelled. The empty string is modelled.
- The `findById` guard `t ? … : null` is modelled as "present or not". A stored todo object is always truthy.
