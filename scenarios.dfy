/** Request sequences, proved from the methods' contracts; the definitions
    of the query functions are visible to the proofs. Most start from a new,
    empty store; ToggleTwice runs on any store that satisfies the invariant. */
module TodoScenarios {
  import opened Todos
  import opened TodoStore

  /** Two creations give two distinct ids, listed in creation order. */
  method CreateTwo(now: Timestamp) returns (first: Todo, second: Todo, listed: seq<Todo>)
    ensures first.id != second.id
    ensures listed == [first, second]
  {
    var store := new Store();
    first := store.CreateTodo(MakeTodoCreate("A", None), now);
    second := store.CreateTodo(MakeTodoCreate("B", Some("b")), now);
    listed := store.GetTodos();
  }

  /** Create "A", rename it to "B", read it back: only the title changed. */
  method RenameThenGet(now: Timestamp) returns (created: Todo, got: Result<Todo>)
    ensures got.Ok? && got.value == created.(title := "B")
    ensures created.description == "" && !created.completed
  {
    var store := new Store();
    created := store.CreateTodo(MakeTodoCreate("A", None), now);
    var updated := store.UpdateTodo(created.id, TodoUpdate(Some("B"), None, None));
    got := store.GetTodo(created.id);
  }

  /** Of three created records, the page with offset 1 and limit 1 is the second. */
  method SecondPage(now: Timestamp) returns (second: Todo, page: seq<Todo>)
    ensures page == [second]
    ensures second.title == "two"
  {
    var store := new Store();
    var first := store.CreateTodo(MakeTodoCreate("one", None), now);
    second := store.CreateTodo(MakeTodoCreate("two", None), now);
    var third := store.CreateTodo(MakeTodoCreate("three", None), now);
    page := store.GetTodos(1, 1);
  }

  /** Statistics of the empty table. */
  method StatsOfEmpty() returns (empty: Stats)
    ensures empty == Stats(0, 0, 0, 0.0)
  {
    var store := new Store();
    empty := store.GetStats();
  }

  /** Toggling the same id twice leaves the table as it was. */
  method ToggleTwice(store: Store, id: int) returns (first: Result<Todo>, second: Result<Todo>)
    requires store.Valid()
    modifies store
    ensures store.Valid()
    ensures store.rows == old(store.rows) && store.order == old(store.order)
    ensures id !in old(store.rows) ==> first == NotFound && second == NotFound
    ensures id in old(store.rows) ==>
      first == Ok(Toggled(old(store.rows)[id])) && second == Ok(old(store.rows)[id])
  {
    if id !in store.rows {
      first := store.ToggleTodo(id);
      second := store.ToggleTodo(id);
    } else {
      ghost var was := store.rows[id];
      first := store.ToggleTodo(id);
      second := store.ToggleTodo(id);
      ToggleTwiceRestores(was);
      assert store.rows == old(store.rows)[id := was];
    }
  }
}
