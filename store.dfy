/** The todo table and its request handlers. Each handler is one atomic
    operation on the table; a handler that does not find its id answers
    NotFound and changes nothing. */
module TodoStore {
  import opened Todos

  /** Confirmation returned by a successful delete. */
  const DeletedMessage: string := "Todo deleted successfully"

  /** Strictly increasing, hence without repetitions. */
  ghost predicate Ascending(ids: seq<int>)
  {
    forall i, j :: 0 <= i < j < |ids| ==> ids[i] < ids[j]
  }

  /** `ids` without `x`, in the same order. */
  function Erase(ids: seq<int>, x: int): (r: seq<int>)
    ensures forall y :: y in r <==> y in ids && y != x
    ensures x !in ids ==> r == ids
  {
    if ids == [] then []
    else if ids[0] == x then Erase(ids[1..], x)
    else [ids[0]] + Erase(ids[1..], x)
  }

  /** In an ascending sequence the element at `k` occurs nowhere else. */
  lemma AscendingUnique(ids: seq<int>, k: nat)
    requires Ascending(ids) && k < |ids|
    ensures forall j :: 0 <= j < |ids| && j != k ==> ids[j] != ids[k]
  {
    forall j | 0 <= j < |ids| && j != k ensures ids[j] != ids[k] {
      if j < k { assert ids[j] < ids[k]; } else { assert ids[k] < ids[j]; }
    }
  }

  /** Erasing an id that occurs once cuts it out at its position. */
  lemma {:induction false} EraseAt(ids: seq<int>, k: nat)
    requires k < |ids|
    requires forall j :: 0 <= j < |ids| && j != k ==> ids[j] != ids[k]
    ensures Erase(ids, ids[k]) == ids[..k] + ids[k + 1..]
  {
    if k == 0 {
      assert ids[0] !in ids[1..];
      assert ids[..0] + ids[1..] == ids[1..];
    } else {
      assert ids[0] != ids[k];
      var tail := ids[1..];
      forall j | 0 <= j < |tail| && j != k - 1 ensures tail[j] != tail[k - 1] {
        assert tail[j] == ids[j + 1];
      }
      EraseAt(tail, k - 1);
      assert tail[..k - 1] + tail[k..] == ids[1..k] + ids[k + 1..];
      assert ids[..k] + ids[k + 1..] == [ids[0]] + (ids[1..k] + ids[k + 1..]);
    }
  }

  /** Cutting one position out of an ascending sequence leaves it ascending. */
  lemma AscendingCut(ids: seq<int>, i: nat)
    requires Ascending(ids) && i < |ids|
    ensures Ascending(ids[..i] + ids[i + 1..])
  {
    var cut := ids[..i] + ids[i + 1..];
    forall a, b | 0 <= a < b < |cut| ensures cut[a] < cut[b] {
      assert cut[a] == ids[if a < i then a else a + 1];
      assert cut[b] == ids[if b < i then b else b + 1];
    }
  }

  /** The position of `x` in `ids`. */
  function IndexOf(ids: seq<int>, x: int): (k: nat)
    requires x in ids
    ensures k < |ids| && ids[k] == x
  {
    if ids[0] == x then 0 else 1 + IndexOf(ids[1..], x)
  }

  /** A sequence without repetitions has as many distinct elements as it is long. */
  lemma {:induction false} AscendingCard(ids: seq<int>)
    requires Ascending(ids)
    ensures |set y | y in ids| == |ids|
  {
    if ids != [] {
      AscendingCard(ids[1..]);
      assert (set y | y in ids) == {ids[0]} + (set y | y in ids[1..]);
      assert ids[0] !in (set y | y in ids[1..]);
    }
  }

  /** The records of `m` at the ids `ids`, in that order. */
  function Project(ids: seq<int>, m: map<int, Todo>): (s: seq<Todo>)
    requires forall i :: 0 <= i < |ids| ==> ids[i] in m
    ensures |s| == |ids|
    ensures forall i :: 0 <= i < |ids| ==> s[i] == m[ids[i]]
  {
    if ids == [] then [] else [m[ids[0]]] + Project(ids[1..], m)
  }

  /** The table `rows`, its ids in creation order `order`, and the counter
      `nextId` agree: every id is listed once, ids ascend in creation order and
      lie below the counter, and every record is stored under its own id. */
  ghost predicate TableInvariant(rows: map<int, Todo>, order: seq<int>, nextId: int)
  {
    && (forall i :: 0 <= i < |order| ==> order[i] in rows && order[i] < nextId)
    && (forall id :: id in rows ==> id in order)
    && Ascending(order)
    && (forall id :: id in rows ==> rows[id].id == id)
  }

  /** The table holds exactly as many records as its listing. */
  lemma TableSize(rows: map<int, Todo>, order: seq<int>, nextId: int)
    requires TableInvariant(rows, order, nextId)
    ensures |rows| == |order|
  {
    var ids := set y | y in order;
    forall y | y in order ensures y in rows.Keys {
      var i :| 0 <= i < |order| && order[i] == y;
    }
    forall y | y in rows.Keys ensures y in ids {
      assert y in rows;
    }
    assert rows.Keys == ids;
    AscendingCard(order);
  }

  /** The completed records among the listed ids. */
  ghost function CompletedAmong(ids: seq<int>, m: map<int, Todo>): (done: set<int>)
  {
    set y | y in m && y in ids && m[y].completed
  }

  /** The completed records among a non-empty listing: its head, if
      completed, and those among its tail. */
  lemma CompletedAmongSplit(ids: seq<int>, m: map<int, Todo>)
    requires ids != [] && ids[0] in m
    ensures CompletedAmong(ids, m)
         == (if m[ids[0]].completed then {ids[0]} else {}) + CompletedAmong(ids[1..], m)
  {
    assert forall y :: y in ids <==> y == ids[0] || y in ids[1..];
  }

  /** Counting the completed entries of a listing without repetitions
      counts the completed records among the listed ids. */
  lemma {:induction false} CountProjected(ids: seq<int>, m: map<int, Todo>)
    requires Ascending(ids)
    requires forall i :: 0 <= i < |ids| ==> ids[i] in m
    ensures CountCompleted(Project(ids, m)) == |CompletedAmong(ids, m)|
  {
    if ids != [] {
      var tail := ids[1..];
      forall i, j | 0 <= i < j < |tail| ensures tail[i] < tail[j] {
        assert tail[i] == ids[i + 1] && tail[j] == ids[j + 1];
      }
      CountProjected(tail, m);
      assert Project(ids, m)[1..] == Project(tail, m);
      AscendingUnique(ids, 0);
      assert ids[0] !in tail;
      CompletedAmongSplit(ids, m);
    }
  }

  /** The completed count of the listing is the number of completed records in the table. */
  lemma TableCompleted(rows: map<int, Todo>, order: seq<int>, nextId: int)
    requires TableInvariant(rows, order, nextId)
    ensures CountCompleted(Project(order, rows)) == |set id | id in rows && rows[id].completed|
  {
    CountProjected(order, rows);
    var listed := CompletedAmong(order, rows);
    var stored := set id | id in rows && rows[id].completed;
    forall y | y in stored ensures y in listed {
      assert y in order;
    }
    assert listed == stored;
  }

  /** Storing a record under the counter and listing it last keeps the
      invariant and appends the record to the listing. */
  lemma InsertKeepsTable(rows: map<int, Todo>, order: seq<int>, nextId: int, t: Todo)
    requires TableInvariant(rows, order, nextId) && t.id == nextId
    ensures nextId !in rows
    ensures TableInvariant(rows[nextId := t], order + [nextId], nextId + 1)
    ensures Project(order + [nextId], rows[nextId := t]) == Project(order, rows) + [t]
  {
    var order' := order + [nextId];
    forall i, j | 0 <= i < j < |order'| ensures order'[i] < order'[j] {
      assert order'[i] == order[i];
    }
  }

  /** Replacing a stored record by one with the same id keeps the invariant
      and replaces that record's entry of the listing. */
  lemma ReplaceKeepsTable(rows: map<int, Todo>, order: seq<int>, nextId: int, t: Todo)
    requires TableInvariant(rows, order, nextId) && t.id in rows
    ensures t.id in order
    ensures TableInvariant(rows[t.id := t], order, nextId)
    ensures Project(order, rows[t.id := t]) == Project(order, rows)[IndexOf(order, t.id) := t]
  {
    var k := IndexOf(order, t.id);
    forall i | 0 <= i < |order| && i != k ensures order[i] != t.id {
      if i < k { assert order[i] < order[k]; } else { assert order[k] < order[i]; }
    }
  }

  /** Erasing the id at position `k` of an ascending sequence cuts out that
      position and leaves the rest ascending. */
  lemma EraseAscending(ids: seq<int>, k: nat)
    requires Ascending(ids) && k < |ids|
    ensures Erase(ids, ids[k]) == ids[..k] + ids[k + 1..]
    ensures Ascending(ids[..k] + ids[k + 1..])
  {
    AscendingUnique(ids, k);
    EraseAt(ids, k);
    AscendingCut(ids, k);
  }

  /** Removing a stored record and its id keeps the invariant. */
  lemma RemoveKeepsTable(rows: map<int, Todo>, order: seq<int>, nextId: int, id: int)
    requires TableInvariant(rows, order, nextId) && id in rows
    ensures TableInvariant(rows - {id}, Erase(order, id), nextId)
    ensures |rows - {id}| == |rows| - 1
  {
    var rest := rows - {id};
    assert rows.Keys - {id} == rest.Keys;
    var k := IndexOf(order, id);
    EraseAscending(order, k);
    var cut := Erase(order, id);
    forall i | 0 <= i < |cut| ensures cut[i] in rest && cut[i] < nextId {
      assert cut[i] in order && cut[i] != id;
    }
  }

  /** Removing a stored record and its id cuts that record's entry out of the listing. */
  lemma RemoveCutsListing(rows: map<int, Todo>, order: seq<int>, nextId: int, id: int)
    requires TableInvariant(rows, order, nextId) && id in rows
    ensures id in order
    ensures forall i :: 0 <= i < |Erase(order, id)| ==> Erase(order, id)[i] in rows - {id}
    ensures Project(Erase(order, id), rows - {id})
         == Project(order, rows)[..IndexOf(order, id)] + Project(order, rows)[IndexOf(order, id) + 1..]
  {
    var k := IndexOf(order, id);
    AscendingUnique(order, k);
    EraseAt(order, k);
    ProjectCut(order, order[..k] + order[k + 1..], rows, k);
  }

  /** Projecting with one id cut out, from the map without that id, cuts
      out the same entry of the projection. */
  lemma ProjectCut(ids: seq<int>, cut: seq<int>, m: map<int, Todo>, k: nat)
    requires k < |ids| && cut == ids[..k] + ids[k + 1..]
    requires forall i :: 0 <= i < |ids| ==> ids[i] in m
    requires forall j :: 0 <= j < |ids| && j != k ==> ids[j] != ids[k]
    ensures forall i :: 0 <= i < |cut| ==> cut[i] in m - {ids[k]}
    ensures Project(cut, m - {ids[k]}) == Project(ids, m)[..k] + Project(ids, m)[k + 1..]
  {
    forall i | 0 <= i < |cut| ensures cut[i] == ids[if i < k then i else i + 1] {
    }
    ProjectWithoutKey(cut, m, ids[k]);
    ProjectCutSameMap(ids, cut, m, k);
  }

  /** Dropping a key that no listed id uses does not change the projection. */
  lemma ProjectWithoutKey(ids: seq<int>, m: map<int, Todo>, x: int)
    requires forall i :: 0 <= i < |ids| ==> ids[i] in m && ids[i] != x
    ensures Project(ids, m - {x}) == Project(ids, m)
  {
    var rest := m - {x};
    assert forall i :: 0 <= i < |ids| ==> rest[ids[i]] == m[ids[i]];
  }

  /** Projecting with one position cut out cuts out that entry of the projection. */
  lemma ProjectCutSameMap(ids: seq<int>, cut: seq<int>, m: map<int, Todo>, k: nat)
    requires k < |ids| && cut == ids[..k] + ids[k + 1..]
    requires forall i :: 0 <= i < |ids| ==> ids[i] in m
    ensures forall i :: 0 <= i < |cut| ==> cut[i] in m
    ensures Project(cut, m) == Project(ids, m)[..k] + Project(ids, m)[k + 1..]
  {
    forall i | 0 <= i < |cut| ensures cut[i] == ids[if i < k then i else i + 1] {
    }
    var before := Project(ids, m);
    var expected := before[..k] + before[k + 1..];
    forall i | 0 <= i < |cut| ensures expected[i] == before[if i < k then i else i + 1] {
    }
  }

  class Store {
    /** The table, keyed by id. */
    var rows: map<int, Todo>
    /** The ids of the table in creation order. */
    var order: seq<int>
    /** The id the next created record receives. */
    var nextId: int

    ghost predicate Valid()
      reads this
    {
      TableInvariant(rows, order, nextId)
    }

    constructor ()
      ensures Valid()
      ensures rows == map[] && order == [] && nextId == 1
    {
      rows := map[];
      order := [];
      nextId := 1;
    }

    /** All records, in creation order. */
    function Listing(): (s: seq<Todo>)
      reads this
      requires Valid()
    {
      Project(order, rows)
    }

    /** create_todo: a new record with the next id, the requested title and
        description, not completed; every existing record is untouched. */
    method CreateTodo(c: TodoCreate, now: Timestamp) returns (t: Todo)
      requires Valid()
      modifies this
      ensures Valid()
      ensures t == Todo(old(nextId), c.title, c.description, false, now)
      ensures t.id !in old(rows)
      ensures rows == old(rows)[t.id := t]
      ensures order == old(order) + [t.id] && nextId == old(nextId) + 1
      ensures Listing() == old(Listing()) + [t]
    {
      t := Todo(nextId, c.title, c.description, false, now);
      InsertKeepsTable(rows, order, nextId, t);
      rows := rows[t.id := t];
      order := order + [t.id];
      nextId := nextId + 1;
    }

    /** get_todos: the window of the listing that the offset and limit
        select; a bare request uses offset 0 and limit 100. */
    function GetTodos(skip: int := 0, limit: int := 100): (r: seq<Todo>)
      reads this
      requires Valid()
      ensures |r| <= AtLeastZero(limit)
      ensures forall i :: 0 <= i < |r| ==>
        AtLeastZero(skip) + i < |order| && r[i] == rows[order[AtLeastZero(skip) + i]]
      ensures |r| == AtLeastZero(limit) || AtLeastZero(skip) + |r| >= |order|
    {
      Window(Listing(), skip, limit)
    }

    /** get_todo: the record with this id, or NotFound when there is none. */
    function GetTodo(id: int): (r: Result<Todo>)
      reads this
      requires Valid()
      ensures r.NotFound? <==> id !in rows
      ensures r.Ok? ==> r.value == rows[id] && r.value.id == id
    {
      if id in rows then Ok(rows[id]) else NotFound
    }

    /** update_todo: the supplied fields of the record change, nothing else. */
    method UpdateTodo(id: int, u: TodoUpdate) returns (r: Result<Todo>)
      requires Valid()
      modifies this
      ensures Valid()
      ensures order == old(order) && nextId == old(nextId)
      ensures id !in old(rows) ==> r == NotFound && rows == old(rows)
      ensures id in old(rows) ==>
        r == Ok(ApplyUpdate(old(rows)[id], u)) && rows == old(rows)[id := r.value]
      ensures id in old(rows) ==>
        Listing() == old(Listing())[IndexOf(order, id) := r.value]
    {
      if id !in rows {
        return NotFound;
      }
      var todo := rows[id];
      if u.title.Some? {
        todo := todo.(title := u.title.value);
      }
      if u.description.Some? {
        todo := todo.(description := u.description.value);
      }
      if u.completed.Some? {
        todo := todo.(completed := u.completed.value);
      }
      ReplaceKeepsTable(rows, order, nextId, todo);
      rows := rows[id := todo];
      r := Ok(todo);
    }

    /** toggle_todo: the record's completion flag is negated, nothing else. */
    method ToggleTodo(id: int) returns (r: Result<Todo>)
      requires Valid()
      modifies this
      ensures Valid()
      ensures order == old(order) && nextId == old(nextId)
      ensures id !in old(rows) ==> r == NotFound && rows == old(rows)
      ensures id in old(rows) ==>
        r == Ok(Toggled(old(rows)[id])) && rows == old(rows)[id := r.value]
      ensures id in old(rows) ==>
        Listing() == old(Listing())[IndexOf(order, id) := r.value]
    {
      if id !in rows {
        return NotFound;
      }
      var todo := rows[id];
      todo := todo.(completed := !todo.completed);
      ReplaceKeepsTable(rows, order, nextId, todo);
      rows := rows[id := todo];
      r := Ok(todo);
    }

    /** delete_todo: exactly the record with this id leaves the table. */
    method DeleteTodo(id: int) returns (r: Result<string>)
      requires Valid()
      modifies this
      ensures Valid()
      ensures nextId == old(nextId)
      ensures id !in old(rows) ==> r == NotFound && rows == old(rows) && order == old(order)
      ensures id in old(rows) ==> r == Ok(DeletedMessage)
      ensures id in old(rows) ==> rows == old(rows) - {id} && |rows| == |old(rows)| - 1
      ensures order == Erase(old(order), id)
      ensures id in old(rows) ==>
        id in old(order) &&
        (var k := IndexOf(old(order), id);
         Listing() == old(Listing())[..k] + old(Listing())[k + 1..])
    {
      if id !in rows {
        return NotFound;
      }
      RemoveKeepsTable(rows, order, nextId, id);
      RemoveCutsListing(rows, order, nextId, id);
      rows := rows - {id};
      order := Erase(order, id);
      r := Ok(DeletedMessage);
    }

    /** get_stats: counts over the whole table and the guarded completion rate. */
    function GetStats(): (st: Stats)
      reads this
      requires Valid()
      ensures st.total == |rows|
      ensures st.completed == |set id | id in rows && rows[id].completed|
      ensures st.completed <= st.total
      ensures st.pending == st.total - st.completed
      ensures 0.0 <= st.completionRate <= 100.0
      ensures |rows| == 0 ==> st == Stats(0, 0, 0, 0.0)
      ensures st == ComputeStats(Listing())
    {
      TableSize(rows, order, nextId);
      TableCompleted(rows, order, nextId);
      ComputeStats(Listing())
    }
  }
}
