/** The todo resource: its record, the request bodies that create and
    update it, the value-level update and toggle, and the window and
    statistics queries, all as functions over values. */
module Todos {

  datatype Option<T> = None | Some(value: T)

  /** Outcome of a handler: a value, or the "Todo not found" error. */
  datatype Result<T> = Ok(value: T) | NotFound

  /** Creation time, set by the database; the model never inspects it. */
  datatype Timestamp = Timestamp(ticks: int)

  datatype Todo = Todo(
    id: int,
    title: string,
    description: string,
    completed: bool,
    createdAt: Timestamp)

  /** Body of a create request; the description is always present after defaulting. */
  datatype TodoCreate = TodoCreate(title: string, description: string)

  /** Body of an update request: every field may be absent. */
  datatype TodoUpdate = TodoUpdate(
    title: Option<string>,
    description: Option<string>,
    completed: Option<bool>)

  /** The update request with every field left out. */
  const NoChanges: TodoUpdate := TodoUpdate(None, None, None)

  /** Builds a create request, giving an omitted description the default "". */
  function MakeTodoCreate(title: string, description: Option<string>): (c: TodoCreate)
    ensures c.title == title
    ensures description.None? ==> c.description == ""
    ensures description.Some? ==> c.description == description.value
  {
    match description
    case None => TodoCreate(title, "")
    case Some(d) => TodoCreate(title, d)
  }

  /** The record after a partial update: a field changes exactly when the
      request supplies it; the id and the creation time never change. */
  function ApplyUpdate(t: Todo, u: TodoUpdate): (r: Todo)
    ensures r.id == t.id && r.createdAt == t.createdAt
    ensures u.title.None? ==> r.title == t.title
    ensures u.title.Some? ==> r.title == u.title.value
    ensures u.description.None? ==> r.description == t.description
    ensures u.description.Some? ==> r.description == u.description.value
    ensures u.completed.None? ==> r.completed == t.completed
    ensures u.completed.Some? ==> r.completed == u.completed.value
  {
    var title := if u.title.Some? then u.title.value else t.title;
    var description := if u.description.Some? then u.description.value else t.description;
    var completed := if u.completed.Some? then u.completed.value else t.completed;
    Todo(t.id, title, description, completed, t.createdAt)
  }

  /** An update that supplies no field leaves the record as it was. */
  lemma NoChangesIsIdentity(t: Todo)
    ensures ApplyUpdate(t, NoChanges) == t
  {
  }

  /** Sending the same update twice has the effect of sending it once. */
  lemma ApplyUpdateIdempotent(t: Todo, u: TodoUpdate)
    ensures ApplyUpdate(ApplyUpdate(t, u), u) == ApplyUpdate(t, u)
  {
  }

  /** The record with its completion flag negated and nothing else changed. */
  function Toggled(t: Todo): (r: Todo)
    ensures r.completed == !t.completed
    ensures r.id == t.id && r.title == t.title && r.description == t.description
    ensures r.createdAt == t.createdAt
  {
    t.(completed := !t.completed)
  }

  /** Toggling twice restores the original record. */
  lemma ToggleTwiceRestores(t: Todo)
    ensures Toggled(Toggled(t)) == t
  {
  }

  /** A toggle is the update that supplies only the negated completion flag. */
  lemma ToggleIsUpdate(t: Todo)
    ensures Toggled(t) == ApplyUpdate(t, TodoUpdate(None, None, Some(!t.completed)))
  {
  }

  // ---------------------------------------------------------------------
  // Listing with offset and limit

  /** A negative offset or limit counts as zero. */
  function AtLeastZero(x: int): (n: nat)
  {
    if x < 0 then 0 else x
  }

  /** The records left after skipping the first `skip`, of which at most
      `limit` are kept. Never fails; an offset past the end gives []. */
  function Window<T>(s: seq<T>, skip: int, limit: int): (r: seq<T>)
    ensures |r| <= AtLeastZero(limit)
    ensures AtLeastZero(skip) + |r| <= |s| || r == []
    ensures forall i :: 0 <= i < |r| ==> r[i] == s[AtLeastZero(skip) + i]
    ensures |r| == AtLeastZero(limit) || AtLeastZero(skip) + |r| >= |s|
  {
    var from := if AtLeastZero(skip) < |s| then AtLeastZero(skip) else |s|;
    var count := if AtLeastZero(limit) < |s| - from then AtLeastZero(limit) else |s| - from;
    s[from..from + count]
  }

  /** Two consecutive pages together are the page that covers both. */
  lemma {:induction false} WindowConsecutive<T>(s: seq<T>, skip: nat, a: nat, b: nat)
    ensures Window(s, skip, a) + Window(s, skip + a, b) == Window(s, skip, a + b)
  {
    var w := Window(s, skip, a + b);
    var front, back := Window(s, skip, a), Window(s, skip + a, b);
    assert |front| + |back| == |w|;
    forall i | 0 <= i < |w|
      ensures (front + back)[i] == w[i]
    {
      if i >= |front| {
        assert (front + back)[i] == back[i - |front|];
      }
    }
  }

  /** The window starting at 0 that is as long as the list is the whole list. */
  lemma WindowWhole<T>(s: seq<T>)
    ensures Window(s, 0, |s|) == s
  {
  }

  // ---------------------------------------------------------------------
  // Statistics

  /** Number of completed records in `s`. */
  function CountCompleted(s: seq<Todo>): (n: nat)
    ensures n <= |s|
    ensures n == 0 <== forall i :: 0 <= i < |s| ==> !s[i].completed
    ensures n == |s| <== forall i :: 0 <= i < |s| ==> s[i].completed
  {
    if s == [] then 0
    else (if s[0].completed then 1 else 0) + CountCompleted(s[1..])
  }

  lemma {:induction false} CountCompletedAppend(a: seq<Todo>, b: seq<Todo>)
    ensures CountCompleted(a + b) == CountCompleted(a) + CountCompleted(b)
  {
    if a == [] {
      assert a + b == b;
    } else {
      assert (a + b)[1..] == a[1..] + b;
      CountCompletedAppend(a[1..], b);
    }
  }

  lemma {:induction false} CountCompletedToggle(s: seq<Todo>, i: nat)
    requires i < |s|
    ensures CountCompleted(s[i := Toggled(s[i])])
            == CountCompleted(s) + (if s[i].completed then -1 else 1)
  {
    if i == 0 {
      assert s[i := Toggled(s[i])][1..] == s[1..];
    } else {
      assert s[i := Toggled(s[i])][1..] == s[1..][i - 1 := Toggled(s[i])];
      CountCompletedToggle(s[1..], i - 1);
    }
  }

  /** The percentage of completed records: 0 for an empty table (the guard
      against dividing by zero), otherwise completed / total * 100, exactly. */
  function CompletionRate(completed: nat, total: nat): (r: real)
    ensures total == 0 ==> r == 0.0
    ensures total > 0 ==> r * (total as real) == (completed as real) * 100.0
    ensures completed <= total ==> 0.0 <= r <= 100.0
    ensures total > 0 ==> (r == 0.0 <==> completed == 0)
    ensures total > 0 ==> (r == 100.0 <==> completed == total)
  {
    if total > 0 then (completed as real) / (total as real) * 100.0 else 0.0
  }

  /** Positions below `n` that hold a completed record. */
  ghost function CompletedIndices(s: seq<Todo>, n: nat): (positions: set<int>)
    requires n <= |s|
  {
    set i | 0 <= i < n && s[i].completed
  }

  /** The completed count of a prefix is the number of its completed positions. */
  lemma {:induction false} CountCompletedIndices(s: seq<Todo>, n: nat)
    requires n <= |s|
    ensures CountCompleted(s[..n]) == |CompletedIndices(s, n)|
  {
    if n == 0 {
      assert CompletedIndices(s, 0) == {};
    } else {
      CountCompletedIndices(s, n - 1);
      CompletedIndicesStep(s, n);
      assert s[..n] == s[..n - 1] + [s[n - 1]];
      CountCompletedLast(s[..n - 1], s[n - 1]);
    }
  }

  /** Extending the prefix by one position adds that position exactly when it is completed. */
  lemma CompletedIndicesStep(s: seq<Todo>, n: nat)
    requires 0 < n <= |s|
    ensures |CompletedIndices(s, n)|
            == |CompletedIndices(s, n - 1)| + (if s[n - 1].completed then 1 else 0)
  {
    var before, after := CompletedIndices(s, n - 1), CompletedIndices(s, n);
    if s[n - 1].completed {
      forall i ensures i in after <==> i in before || i == n - 1 {
      }
      assert after == before + {n - 1};
      assert n - 1 !in before;
    } else {
      forall i ensures i in after <==> i in before {
      }
      assert after == before;
    }
  }

  lemma CountCompletedLast(s: seq<Todo>, t: Todo)
    ensures CountCompleted(s + [t]) == CountCompleted(s) + (if t.completed then 1 else 0)
  {
    CountCompletedAppend(s, [t]);
    assert [t][1..] == [];
  }

  /** The completed count is the number of positions holding a completed record. */
  lemma CountCompletedIsIndexCount(s: seq<Todo>)
    ensures CountCompleted(s) == |CompletedIndices(s, |s|)|
  {
    CountCompletedIndices(s, |s|);
    assert s[..|s|] == s;
  }

  /** The response of the statistics endpoint. */
  datatype Stats = Stats(total: nat, completed: nat, pending: int, completionRate: real)

  /** Statistics over the records `s`: every record is counted once, the
      completed count is the number of completed records, every record that
      is not completed is pending, and the rate is the completion rate of
      those counts. */
  function ComputeStats(s: seq<Todo>): (st: Stats)
    ensures st.total == |s|
    ensures st.completed == |CompletedIndices(s, |s|)|
    ensures st.completed <= st.total
    ensures st.pending == st.total - st.completed && st.pending >= 0
    ensures st.completionRate == CompletionRate(st.completed, st.total)
    ensures 0.0 <= st.completionRate <= 100.0
    ensures st.total == 0 ==> st == Stats(0, 0, 0, 0.0)
  {
    var total := |s|;
    var completed := CountCompleted(s);
    CountCompletedIsIndexCount(s);
    Stats(total, completed, total - completed, CompletionRate(completed, total))
  }

  /** Creating a record (never completed) adds one to the total and to the
      pending count and leaves the completed count alone. */
  lemma StatsAfterCreate(s: seq<Todo>, t: Todo)
    requires !t.completed
    ensures ComputeStats(s + [t]).total == ComputeStats(s).total + 1
    ensures ComputeStats(s + [t]).completed == ComputeStats(s).completed
    ensures ComputeStats(s + [t]).pending == ComputeStats(s).pending + 1
  {
    CountCompletedAppend(s, [t]);
    assert CountCompleted([t]) == 0 by {
      assert [t][1..] == [];
    }
  }

  /** Toggling one record keeps the total and moves it between the
      completed and the pending counts. */
  lemma StatsAfterToggle(s: seq<Todo>, i: nat)
    requires i < |s|
    ensures ComputeStats(s[i := Toggled(s[i])]).total == ComputeStats(s).total
    ensures ComputeStats(s[i := Toggled(s[i])]).completed
            == ComputeStats(s).completed + (if s[i].completed then -1 else 1)
    ensures ComputeStats(s[i := Toggled(s[i])]).pending
            == ComputeStats(s).pending + (if s[i].completed then 1 else -1)
  {
    CountCompletedToggle(s, i);
  }

  /** Deleting one record removes it from the total and from the count it was in. */
  lemma StatsAfterDelete(s: seq<Todo>, i: nat)
    requires i < |s|
    ensures ComputeStats(s[..i] + s[i + 1..]).total == ComputeStats(s).total - 1
    ensures ComputeStats(s[..i] + s[i + 1..]).completed
            == ComputeStats(s).completed - (if s[i].completed then 1 else 0)
  {
    assert s == s[..i] + ([s[i]] + s[i + 1..]);
    CountCompletedAppend(s[..i], [s[i]] + s[i + 1..]);
    CountCompletedAppend([s[i]], s[i + 1..]);
    CountCompletedAppend(s[..i], s[i + 1..]);
    assert [s[i]][1..] == [];
  }

  /** Three records of which one is done: total 3, completed 1, pending 2,
      and a rate of 100/3 percent. */
  lemma StatsOfThree(a: Todo, b: Todo, c: Todo)
    requires !a.completed && b.completed && !c.completed
    ensures ComputeStats([a, b, c]).total == 3
    ensures ComputeStats([a, b, c]).completed == 1
    ensures ComputeStats([a, b, c]).pending == 2
    ensures ComputeStats([a, b, c]).completionRate * 3.0 == 100.0
  {
    assert [c][1..] == [];
    assert CountCompleted([c]) == 0;
    assert [b, c][1..] == [c];
    assert CountCompleted([b, c]) == 1;
    assert [a, b, c][1..] == [b, c];
  }
}
