# Todo API v1 — a verified model of the todo resource

The service keeps one table of todo records keyed by integer id. Its handlers
create a record, list a window of the records by offset and limit, fetch one
record, apply a partial update, toggle the completion flag, delete a record,
and report completion statistics. An id that is not in the table produces
"Todo not found".

The model has three modules:

- `Todos` (`todos.dfy`) holds the values. It defines the `Todo` record, the
  create and update request bodies with their defaults (`Option` marks an
  update field that was not supplied), and `Result` (`Ok` or `NotFound`). It
  also has, as functions over values, the partial update and the toggle of a
  record, and the offset/limit window and statistics queries.
- `TodoStore` (`store.dfy`) holds the `Store` class. Its fields are the table
  (`rows: map<int, Todo>`), the ids in creation order (`order`), and the
  counter that hands out the next id (`nextId`). The handlers that change the
  table are methods; `modifies this` covers the fields they change. The
  read-only handlers are functions of the store. `Valid()` is an invariant,
  `TableInvariant`, that every method keeps: every stored id is listed
  exactly once, the listed ids ascend, all ids lie below the counter, and
  each record is stored under its own id.
- `TodoScenarios` (`scenarios.dfy`) holds request sequences, proved from the
  methods' contracts; the definitions of the query functions (`GetTodos`,
  `GetTodo`, `GetStats` and the value functions) are visible to the proofs.
  Most start from a new, empty store;
  `ToggleTwice` runs on any store that satisfies the invariant.

Each handler is one atomic operation on the table. The session's `add`,
`commit` and `refresh` calls are folded into that single step.

Modelling assumptions. The parts of the system they cover are not shown in
the source: `models.py` and `database.py` are not part of this model.

- Ids come from a counter that starts at 1 and is never reused.
- A new record has `completed = false`.
- `created_at` is a `Timestamp` value that the caller passes to `CreateTodo`
  (the clock is a parameter). Nothing ever changes it.
- The list endpoint returns records in creation order, which is ascending id
  order. The query has no `ORDER BY`, so this is the order assumed for the
  table.
- A negative `skip` or `limit` counts as 0. The code passes both values
  straight to the database, whose behaviour for negative values is not
  modelled.
- An empty title is accepted: main.py declares `title: str` and checks
  nothing, so there is no invalid-input outcome.
- A new `Store` stands for a fresh database. `create_all` (main.py:15) only
  creates a missing table and keeps the rows of an existing one; a database
  that already holds rows is not modelled.

## Model

| member | source | states |
|---|---|---|
| `Todos.MakeTodoCreate` | main.py:33-35 | the title is the one given; an omitted description becomes `""` and a supplied one is kept |
| `Todos.ApplyUpdate` | main.py:100-105 | each of title, description and completed takes the supplied value when present and keeps the old value when absent; id and creation time never change |
| `Todos.NoChangesIsIdentity` | main.py:37-40 | an update body with every field left at its `None` default leaves the record unchanged |
| `Todos.ApplyUpdateIdempotent` | main.py:100-105 | sending the same partial update twice gives the same record as sending it once |
| `Todos.Toggled` | main.py:118 | `completed` becomes its negation; id, title, description and creation time are unchanged |
| `Todos.ToggleTwiceRestores` | main.py:118 | toggling twice restores the original record |
| `Todos.ToggleIsUpdate` | main.py:104-118 | a toggle equals the partial update that supplies only the negated `completed` |
| `Todos.Window` | main.py:80-83 | the result holds at most `limit` records; its i-th record is record `skip + i` of the listing; it is shorter than `limit` only when it reaches the end of the listing; an offset past the end gives `[]`; it never fails |
| `Todos.WindowConsecutive` | main.py:82 | the page at offset k with limit a, followed by the page at offset k+a with limit b, is the page at offset k with limit a+b |
| `Todos.WindowWhole` | main.py:82 | offset 0 with a limit equal to the listing's length returns the whole listing |
| `Todos.CountCompleted` | main.py:138 | the completed count is at most the number of records; it is 0 when no record is completed and equals the length when all are |
| `Todos.CompletionRate` | main.py:145 | the rate is 0 when total is 0 (the divide-by-zero guard); otherwise rate × total = completed × 100; it lies in [0, 100]; it is 0 exactly when nothing is completed and 100 exactly when everything is |
| `Todos.CountCompletedIsIndexCount` | main.py:138 | the completed count equals the number of positions that hold a completed record |
| `Todos.ComputeStats` | main.py:137-145 | total is the number of records; completed is the number of positions holding a completed record, so completed ≤ total; pending = total − completed ≥ 0; the rate is `CompletionRate` of completed and total, so it is in [0, 100]; an empty table gives {0, 0, 0, 0} |
| `Todos.StatsAfterCreate` | main.py:137-139 | appending a new (not completed) record raises total and pending by one and leaves completed unchanged |
| `Todos.StatsAfterToggle` | main.py:137-139 | toggling one record keeps total and moves that record between the completed and pending counts |
| `Todos.StatsAfterDelete` | main.py:137-139 | removing one record lowers total by one, and lowers completed by one exactly when that record was completed |
| `Todos.StatsOfThree` | main.py:137-145 | three records, one completed, give total 3, completed 1, pending 2 and a rate of 100/3 |
| `TodoStore.Store.constructor` | main.py:15 | a new store, standing for a fresh database, is empty, satisfies the invariant, and will give the next record id 1 |
| `TodoStore.Store.CreateTodo` | main.py:67-77 | the new record has the counter's id, which was not in the table, plus the requested title and description, `completed = false` and the given timestamp; the table gains exactly that key; the id is appended to the listing; the counter advances; existing records are untouched |
| `TodoStore.Store.GetTodos` | main.py:79-83 | the offset defaults to 0 and the limit to 100, so a bare request returns at most 100 records; in general at most `limit` records, namely the listing's records from position `skip` on, in creation order; fewer than `limit` only at the end of the listing |
| `TodoStore.Store.GetTodo` | main.py:85-91 | NotFound exactly when the id is not in the table; otherwise that id's record, which carries the requested id |
| `TodoStore.Store.UpdateTodo` | main.py:93-109 | a missing id gives NotFound and changes nothing; otherwise the result and the stored record are `ApplyUpdate` of the old record; no other key changes; the listing changes at that record's position only |
| `TodoStore.Store.ToggleTodo` | main.py:111-121 | a missing id gives NotFound and changes nothing; otherwise the stored record becomes `Toggled` of the old one; no other key changes; the listing changes at that record's position only |
| `TodoStore.Store.DeleteTodo` | main.py:123-132 | a missing id gives NotFound and changes nothing; otherwise the result is the confirmation message, exactly that key is removed, the table shrinks by one, and the listing loses exactly that record's entry |
| `TodoStore.Store.GetStats` | main.py:134-146 | total is the number of records in the table; completed is the number of records whose `completed` is true; pending = total − completed; the rate is in [0, 100]; an empty table gives {0, 0, 0, 0}; the result is `ComputeStats` of the listing, so the `StatsAfter…` lemmas apply to the listings that the handlers' contracts give |
| `TodoScenarios.CreateTwo` | main.py:67-83 | two creations give distinct ids, and a list request with the default offset and limit returns both in creation order |
| `TodoScenarios.RenameThenGet` | main.py:93-109 | create "A", update the title to "B", then get: only the title changed |
| `TodoScenarios.SecondPage` | main.py:79-83 | over three created records, offset 1 with limit 1 returns exactly the second one |
| `TodoScenarios.StatsOfEmpty` | main.py:134-146 | statistics of an empty store are {0, 0, 0, 0} |
| `TodoScenarios.ToggleTwice` | main.py:111-121 | toggling the same id twice leaves the table unchanged; the second toggle returns the original record; both give NotFound exactly when the id is missing |

## Left out

- Todos.CompletionRate: the exact rational value completed / total × 100 is stated (rate × total = completed × 100), together with the zero guard and the bounds. Only the source's `round(..., 2)` on a floating-point value is left out, because floating-point rounding is outside the model.
- TodoStore.Store.GetTodos: for negative `skip` and `limit`, the clamp to zero and the creation order are assumptions. In the source both are decided by the database engine, which is not part of this model. A known divergence: if the engine is SQLite, a negative LIMIT means no upper bound, so `limit = -1` would return every row there, while the model returns `[]` (a negative OFFSET acts as 0 in both).
- The FastAPI application, the CORS middleware, the `root` endpoint map and the `uvicorn` startup banner (main.py:17-30, 53-65, 148-154) are left out as framework plumbing and I/O.
- Table creation is modelled only as the empty new store; the session's `commit`/`refresh` calls are not modelled separately, and each handler is one atomic step.
- HTTP status codes (201, 404) and pydantic/JSON validation are left out. Not-found is the `NotFound` result.
- How the database generates ids and `created_at` is left out. The counter and the timestamp parameter stand in for them.
- Integer width is left out: ids, `skip` and `limit` are unbounded integers. If the engine is SQLite, a value above 2^63 − 1 makes the driver raise an overflow error and the request fails with an internal error, while the model returns NotFound or `[]`.
- Concurrent requests and per-request sessions are left out; every handler runs alone.
- The response schema's `from_attributes` conversion (main.py:42-50) is left out: handlers return the `Todo` record itself.
