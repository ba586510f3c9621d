// The todo service as it runs: todos on the heap, changed in place, and the index of them.
module TodoResolver {
  import opened TodoStore

  class TodoNode {
    const id: string
    const employeeId: string
    var content: string
    var updatedAt: string
    var deleted: bool

    constructor (value: Todo)
      ensures Value() == value
    {
      id, employeeId, content, updatedAt, deleted := value.id, value.employeeId, value.content, value.updatedAt,
          value.deleted;
    }

    function Value(): Todo
      reads this
    {
      Todo(id, employeeId, content, updatedAt, deleted)
    }
  }

  /** cloneTodo. */
  method CloneTodo(todo: TodoNode) returns (copied: TodoNode)
    ensures fresh(copied) && copied.Value() == todo.Value()
  {
    copied := new TodoNode(todo.Value());
  }

  /** Either takes an event or fails to, which is its own affair; the no-op one takes all. `topic` is what it has
      taken. */
  class Publisher {
    const isNoop: bool
    var topic: seq<Event>

    constructor (isNoop: bool)
      ensures topic == [] && this.isNoop == isNoop
    {
      topic, this.isNoop := [], isNoop;
    }

    predicate Takes(delivered: bool) {
      isNoop || delivered
    }

    method PublishTodoEvent(event: Event, delivered: bool) returns (ok: bool)
      modifies `topic
      ensures ok == Takes(delivered) == (isNoop || delivered)
      ensures topic == if isNoop || delivered then old(topic) + [event] else old(topic)
    {
      if isNoop || delivered {
        topic := topic + [event];
      }
      ok := isNoop || delivered;
    }
  }

  datatype Result = Ok(todo: TodoNode) | NotFound(id: string) | PublishFailed(kind: EventKind)

  // ------------------------------------------------------------------ sorting

  /** The order of strings, character by character. */
  predicate LexLess(a: string, b: string) {
    b != [] && (a == [] || a[0] < b[0] || (a[0] == b[0] && LexLess(a[1..], b[1..])))
  }

  /** a and b agree before n, and there a ends, or has the smaller character. */
  predicate LessAt(a: string, b: string, n: nat) {
    n <= |a| && n < |b| && a[..n] == b[..n] && (n == |a| || a[n] < b[n])
  }

  /** A string is before another where they first differ, or it ends first. */
  lemma {:induction false} LexLessIs(a: string, b: string)
    ensures LexLess(a, b) <==> exists n: nat :: LessAt(a, b, n)
  {
    if a != [] && b != [] && a[0] == b[0] {
      LexLessIs(a[1..], b[1..]);
      if n: nat :| LessAt(a[1..], b[1..], n) {
        assert a[..n + 1] == [a[0]] + a[1..][..n] && b[..n + 1] == [b[0]] + b[1..][..n];
        assert LessAt(a, b, n + 1);
      }
      if n: nat :| LessAt(a, b, n) {
        assert n > 0;
        assert a[1..][..n - 1] == a[..n][1..] && b[1..][..n - 1] == b[..n][1..];
        assert LessAt(a[1..], b[1..], n - 1);
      }
    } else if LexLess(a, b) {
      assert LessAt(a, b, 0);
    } else {
      forall n: nat | n > 0 && n <= |a| && n <= |b|
        ensures a[..n] != b[..n]
      {
        assert a[..n][0] == a[0] && b[..n][0] == b[0];
      }
    }
  }

  lemma {:induction false} LexTrichotomy(a: string, b: string)
    ensures LexLess(a, b) || LexLess(b, a) || a == b
    ensures !(LexLess(a, b) && LexLess(b, a))
  {
    if a != [] && b != [] && a[0] == b[0] {
      LexTrichotomy(a[1..], b[1..]);
      assert a == [a[0]] + a[1..] && b == [b[0]] + b[1..];
    }
  }

  lemma {:induction false} LexTransitive(a: string, b: string, c: string)
    requires !LexLess(a, b) && !LexLess(b, c)
    ensures !LexLess(a, c)
  {
    if a != [] && b != [] && c != [] && a[0] == b[0] == c[0] {
      LexTransitive(a[1..], b[1..], c[1..]);
    }
  }

  /** Newest first, as the strings compare. */
  ghost predicate Descending(items: seq<Todo>) {
    forall i, j | 0 <= i < j < |items| :: !LexLess(items[i].updatedAt, items[j].updatedAt)
  }

  ghost function Values(items: seq<TodoNode>): (values: seq<Todo>)
    reads items
    ensures |values| == |items| && forall i | 0 <= i < |items| :: values[i] == items[i].Value()
  {
    seq(|items|, i requires 0 <= i < |items| reads items => items[i].Value())
  }

  lemma InsertedDescending(v: seq<Todo>, k: nat, x: Todo)
    requires Descending(v) && k <= |v| && forall i | 0 <= i < k :: !LexLess(v[i].updatedAt, x.updatedAt)
    requires k < |v| ==> LexLess(v[k].updatedAt, x.updatedAt)
    ensures Descending(v[..k] + [x] + v[k..])
  {
    forall j | k <= j < |v|
      ensures !LexLess(x.updatedAt, v[j].updatedAt)
    {
      LexTrichotomy(v[k].updatedAt, x.updatedAt);
      if j > k {
        LexTransitive(x.updatedAt, v[k].updatedAt, v[j].updatedAt);
      }
    }
  }

  lemma InsertedValues(items: seq<TodoNode>, k: nat, item: TodoNode)
    requires k <= |items|
    ensures var v := Values(items); Values(items[..k] + [item] + items[k..]) == v[..k] + [item.Value()] + v[k..]
  {
  }

  /** Puts an item in its place among sorted ones. */
  method InsertSorted(items: seq<TodoNode>, item: TodoNode) returns (sorted: seq<TodoNode>)
    requires Descending(Values(items))
    ensures multiset(Values(sorted)) == multiset(Values(items)) + multiset{item.Value()} && Descending(Values(sorted))
    ensures forall x <- sorted :: x in items || x == item
  {
    ghost var v := Values(items);
    var k := 0;
    while k < |items| && !LexLess(items[k].updatedAt, item.updatedAt)
      invariant 0 <= k <= |items|
      invariant forall i | 0 <= i < k :: !LexLess(v[i].updatedAt, item.updatedAt)
    {
      k := k + 1;
    }
    sorted := items[..k] + [item] + items[k..];
    InsertedDescending(v, k, item.Value());
    InsertedValues(items, k, item);
    InsertedPermutes(v, k, item.Value());
    InsertedMembers(items, k, item);
  }

  lemma InsertedPermutes(v: seq<Todo>, k: nat, x: Todo)
    requires k <= |v|
    ensures multiset(v[..k] + [x] + v[k..]) == multiset(v) + multiset{x}
  {
    assert v == v[..k] + v[k..];
  }

  lemma InsertedMembers(items: seq<TodoNode>, k: nat, item: TodoNode)
    requires k <= |items|
    ensures forall x <- items[..k] + [item] + items[k..] :: x in items || x == item
  {
  }

  lemma ValuesNext(items: seq<TodoNode>, i: nat)
    requires i < |items|
    ensures Values(items[..i + 1]) == Values(items[..i]) + [items[i].Value()]
  {
  }

  /** The library's sort with the code's comparison: some arrangement with no item before a newer one. */
  method SortNewestFirst(items: seq<TodoNode>) returns (sorted: seq<TodoNode>)
    ensures multiset(Values(sorted)) == multiset(Values(items)) && Descending(Values(sorted))
    ensures forall x <- sorted :: x in items
  {
    sorted := [];
    var i := 0;
    while i < |items|
      invariant 0 <= i <= |items|
      invariant multiset(Values(sorted)) == multiset(Values(items[..i])) && Descending(Values(sorted))
      invariant forall x <- sorted :: x in items
    {
      sorted := InsertSorted(sorted, items[i]);
      ValuesNext(items, i);
      i := i + 1;
    }
    assert items[..i] == items;
  }

  // ------------------------------------------------------------------ the service

  ghost function ContentsOf(todos: map<string, TodoNode>): map<string, Todo>
    reads todos.Values
  {
    map id | id in todos :: todos[id].Value()
  }

  /** The employee's todos that are not deleted. */
  ghost function LiveTodosOf(todos: map<string, TodoNode>, employeeId: string): set<Todo>
    reads todos.Values
  {
    set id | id in todos && !todos[id].deleted && todos[id].employeeId == employeeId :: todos[id].Value()
  }

  lemma Collected(items: seq<TodoNode>, copied: TodoNode, values: set<Todo>)
    requires multiset(Values(items)) == multiset(values) && copied.Value() !in values
    ensures multiset(Values(items + [copied])) == multiset(values + {copied.Value()})
  {
    ValuesNext(items + [copied], |items|);
    assert (items + [copied])[..|items|] == items && (items + [copied])[..|items| + 1] == items + [copied];
  }

  ghost predicate Parted(seen: set<string>, left: set<string>, all: set<string>) {
    var held := seen !! left && seen + left == all;
    held
  }

  lemma PartedNext(seen: set<string>, left: set<string>, all: set<string>, id: string)
    requires Parted(seen, left, all) && id in left
    ensures id !in seen && Parted(seen + {id}, left - {id}, all)
  {
  }

  /** The constructor's loop over the todos. */
  method IndexTodos(todos: map<string, TodoNode>) returns (index: Index)
    ensures forall e, id :: Listed(index, e, id) <==> id in todos && todos[id].employeeId == e
    ensures forall e <- index :: index[e] != {}
  {
    index := map[];
    var left := todos.Keys;
    while left != {}
      invariant left <= todos.Keys
      invariant forall e, id :: Listed(index, e, id) <==> id in todos && id !in left && todos[id].employeeId == e
      invariant forall e <- index :: index[e] != {}
      decreases |left|
    {
      var id :| id in left;
      UpsertLists(index, todos[id].employeeId, id);
      index := Upsert(index, todos[id].employeeId, id);
      left := left - {id};
    }
  }

  lemma SeedIndex(seeds: map<string, TodoNode>, index: Index)
    requires seeds.Keys == {"todo-1", "todo-2"} && seeds["todo-1"].employeeId == "emp-1"
      && seeds["todo-2"].employeeId == "emp-2"
    requires forall e, id :: Listed(index, e, id) <==> id in seeds && seeds[id].employeeId == e
    requires forall e <- index :: index[e] != {}
    ensures index == map["emp-1" := {"todo-1"}, "emp-2" := {"todo-2"}]
  {
    SameIndex(index, map["emp-1" := {"todo-1"}, "emp-2" := {"todo-2"}]);
  }

  /** The id has been added to the employee's bucket, and nothing else has changed. */
  ghost predicate ListsAlso(before: Index, after: Index, employeeId: string, id: string) {
    forall e, i ::
      e in after && i in after[e] <==> (e in before && i in before[e]) || (e == employeeId && i == id)
  }

  ghost predicate ListsNoMore(before: Index, after: Index, employeeId: string, id: string) {
    forall e, i ::
      e in after && i in after[e] <==> e in before && i in before[e] && !(e == employeeId && i == id)
  }

  lemma UpsertListsAlso(index: Index, employeeId: string, id: string)
    ensures ListsAlso(index, Upsert(index, employeeId, id), employeeId, id)
  {
    UpsertLists(index, employeeId, id);
    var after := Upsert(index, employeeId, id);
    assert forall e, i :: e in after && i in after[e] <==> Listed(after, e, i);
    assert forall e, i :: e in index && i in index[e] <==> Listed(index, e, i);
  }

  lemma UnindexListsNoMore(index: Index, employeeId: string, id: string)
    ensures ListsNoMore(index, Unindex(index, employeeId, id), employeeId, id)
  {
    UnindexUnlists(index, employeeId, id);
    var after := Unindex(index, employeeId, id);
    assert forall e, i :: e in after && i in after[e] <==> Listed(after, e, i);
    assert forall e, i :: e in index && i in index[e] <==> Listed(index, e, i);
  }

  method SeedTodos(now: string) returns (seeds: map<string, TodoNode>)
    ensures ContentsOf(seeds) == Seeded(now).store.todos && fresh(seeds.Values)
    ensures seeds.Keys == {"todo-1", "todo-2"} && forall id <- seeds :: seeds[id].id == id
    ensures seeds["todo-1"].employeeId == "emp-1" && seeds["todo-2"].employeeId == "emp-2"
  {
    var first := new TodoNode(Todo("todo-1", "emp-1", "Complete onboarding docs", now, false));
    var second := new TodoNode(Todo("todo-2", "emp-2", "Prepare quarterly report", now, false));
    seeds := map["todo-1" := first, "todo-2" := second];
  }

  method OrNoop(publisher: Publisher?) returns (chosen: Publisher)
    ensures if publisher != null then chosen == publisher else fresh(chosen) && chosen.isNoop && chosen.topic == []
  {
    if publisher == null {
      chosen := new Publisher(true);
    } else {
      chosen := publisher;
    }
  }

  class Resolver {
    var todos: map<string, TodoNode>
    var todosByEmployee: Index
    var sequence: nat
    const publisher: Publisher

    ghost predicate Valid()
      reads this
    {
      forall id <- todos :: todos[id].id == id
    }

    ghost function Contents(): Store
      reads this, todos.Values
    {
      Store(ContentsOf(todos), todosByEmployee)
    }

    ghost function Abstract(): Service
      reads this, todos.Values, publisher
    {
      Service(Contents(), sequence, publisher.topic)
    }

    /** NewResolver, over a publisher that may have published before, or over the no-op one when there is none. */
    constructor (publisher: Publisher?, now: string)
      ensures Valid() && fresh(todos.Values)
      ensures if publisher != null then this.publisher == publisher else fresh(this.publisher) && this.publisher.isNoop
      ensures Abstract() == Seeded(now).(log := if publisher != null then publisher.topic else [])
    {
      var seeds := SeedTodos(now);
      var index := IndexTodos(seeds);
      SeedIndex(seeds, index);
      var chosen := OrNoop(publisher);
      todos, todosByEmployee, sequence, this.publisher := seeds, index, 2, chosen;
    }

    method NextTodoID() returns (id: string)
      modifies `sequence
      ensures sequence == old(sequence) + 1 && id == TodoId(sequence)
    {
      sequence := sequence + 1;
      id := TodoId(sequence);
    }

    method UpsertEmployeeIndexNoLock(employeeID: string, todoID: string)
      modifies `todosByEmployee
      ensures todosByEmployee == Upsert(old(todosByEmployee), employeeID, todoID)
      ensures ListsAlso(old(todosByEmployee), todosByEmployee, employeeID, todoID)
    {
      UpsertListsAlso(todosByEmployee, employeeID, todoID);
      if employeeID !in todosByEmployee {
        todosByEmployee := todosByEmployee[employeeID := {}];
      }
      todosByEmployee := todosByEmployee[employeeID := todosByEmployee[employeeID] + {todoID}];
    }

    method RemoveEmployeeIndexNoLock(employeeID: string, todoID: string)
      modifies `todosByEmployee
      ensures todosByEmployee == Unindex(old(todosByEmployee), employeeID, todoID)
      ensures ListsNoMore(old(todosByEmployee), todosByEmployee, employeeID, todoID)
      ensures employeeID in todosByEmployee ==> todosByEmployee[employeeID] != {}
    {
      UnindexListsNoMore(todosByEmployee, employeeID, todoID);
      if employeeID !in todosByEmployee {
        return;
      }
      todosByEmployee := todosByEmployee[employeeID := todosByEmployee[employeeID] - {todoID}];
      if |todosByEmployee[employeeID]| == 0 {
        todosByEmployee := todosByEmployee - {employeeID};
      }
    }

    // ---------------------------------------------------------------- sections under the lock

    method InsertSection(todo: TodoNode)
      requires Valid()
      modifies `todos, `todosByEmployee
      ensures Valid() && todos == old(todos)[todo.id := todo]
      ensures ListsAlso(old(todosByEmployee), todosByEmployee, todo.employeeId, todo.id)
      ensures Contents() == Insert(old(Contents()), todo.Value())
    {
      todos := todos[todo.id := todo];
      UpsertEmployeeIndexNoLock(todo.employeeId, todo.id);
    }

    method WithdrawSection(id: string, employeeID: string)
      requires Valid()
      modifies `todos, `todosByEmployee
      ensures Valid() && todos == old(todos) - {id}
      ensures Contents() == Withdraw(old(Contents()), id, employeeID)
    {
      todos := todos - {id};
      RemoveEmployeeIndexNoLock(employeeID, id);
    }

    method EditSection(id: string, content: string, now: string) returns (found: bool, original: Todo, updated: Todo)
      requires Valid()
      modifies todos.Values
      ensures found == Found(old(Contents()), id)
      ensures !found ==> Contents() == old(Contents())
      ensures found ==>
        && Contents() == Edit(old(Contents()), id, content, now)
        && original == old(Contents()).todos[id] && updated == Contents().todos[id]
      ensures forall i <- todos | i != id :: unchanged(todos[i])
      ensures if id in todos && old(!todos[id].deleted) then
          && found && todos[id].content == content && todos[id].updatedAt == now && !todos[id].deleted
          && original == old(todos[id].Value()) && updated == todos[id].Value()
        else !found && (id in todos ==> unchanged(todos[id]))
    {
      if id !in todos || todos[id].deleted {
        found, original, updated := false, Todo("", "", "", "", false), Todo("", "", "", "", false);
        return;
      }
      var todo := todos[id];
      original := todo.Value();
      todo.content := content;
      todo.updatedAt := now;
      found, updated := true, todo.Value();
    }

    method RestoreEditSection(id: string, original: Todo)
      requires Valid()
      modifies todos.Values
      ensures Contents() == RestoreEdit(old(Contents()), id, original)
      ensures forall i <- todos | i != id :: unchanged(todos[i])
      ensures id in todos ==>
        && todos[id].content == original.content && todos[id].updatedAt == original.updatedAt
        && todos[id].deleted == original.deleted
    {
      if id in todos {
        var current := todos[id];
        current.content := original.content;
        current.updatedAt := original.updatedAt;
        current.deleted := original.deleted;
      }
    }

    method DeleteSection(id: string, now: string) returns (found: bool, original: Todo, marked: Todo)
      requires Valid()
      modifies `todosByEmployee, todos.Values
      ensures Valid() && found == Found(old(Contents()), id)
      ensures !found ==> Contents() == old(Contents())
      ensures found ==>
        && Contents() == MarkDeleted(old(Contents()), id, now)
        && original == old(Contents()).todos[id] && marked == Contents().todos[id]
      ensures forall i <- todos | i != id :: unchanged(todos[i])
      ensures if id in todos && old(!todos[id].deleted) then
          && found && todos[id].content == old(todos[id].content) && todos[id].updatedAt == now && todos[id].deleted
          && original == old(todos[id].Value()) && marked == todos[id].Value()
          && ListsNoMore(old(todosByEmployee), todosByEmployee, todos[id].employeeId, id)
        else !found && (id in todos ==> unchanged(todos[id]))
    {
      if id !in todos || todos[id].deleted {
        found, original, marked := false, Todo("", "", "", "", false), Todo("", "", "", "", false);
        return;
      }
      var todo := todos[id];
      original := todo.Value();
      todo.deleted := true;
      todo.updatedAt := now;
      found, marked := true, todo.Value();
      RemoveEmployeeIndexNoLock(todo.employeeId, todo.id);
    }

    method RestoreDeletedSection(id: string, original: Todo)
      requires Valid()
      modifies `todosByEmployee, todos.Values
      ensures Valid() && Contents() == RestoreDeleted(old(Contents()), id, original)
      ensures forall i <- todos | i != id :: unchanged(todos[i])
      ensures id in todos ==>
        && todos[id].content == old(todos[id].content) && todos[id].updatedAt == original.updatedAt
        && todos[id].deleted == original.deleted
    {
      if id in todos {
        var current := todos[id];
        current.deleted := original.deleted;
        current.updatedAt := original.updatedAt;
        UpsertEmployeeIndexNoLock(current.employeeId, current.id);
      }
    }

    // ---------------------------------------------------------------- mutations

    /** A new todo under the next id. */
    method InsertNew(employeeID: string, content: string, now: string) returns (todo: TodoNode)
      requires Valid()
      modifies `sequence, `todos, `todosByEmployee
      ensures Valid() && fresh(todo) && sequence == old(sequence) + 1
      ensures todo.Value() == Todo(TodoId(sequence), employeeID, content, now, false)
      ensures todos == old(todos)[TodoId(sequence) := todo]
      ensures ListsAlso(old(todosByEmployee), todosByEmployee, employeeID, TodoId(sequence))
      ensures Contents() == Insert(old(Contents()), todo.Value())
    {
      var id := NextTodoID();
      todo := new TodoNode(Todo(id, employeeID, content, now, false));
      assert Contents() == old(Contents());
      InsertSection(todo);
    }

    method CreateTodo(employeeID: string, content: string, now: string, delivered: bool) returns (r: Result)
      requires Valid()
      modifies this, publisher
      ensures Valid()
      ensures Abstract()
        == Serve(old(Abstract()), Request.CreateTodo(employeeID, content), now, publisher.Takes(delivered))
      ensures !publisher.Takes(delivered) ==> r == PublishFailed(Created)
      ensures publisher.Takes(delivered) ==>
        && r.Ok? && fresh(r.todo) && r.todo !in todos.Values
        && r.todo.Value() == Todo(TodoId(sequence), employeeID, content, now, false)
      ensures sequence == old(sequence) + 1
      ensures var id := TodoId(sequence);
        && (forall i <- old(todos) | i != id :: i in todos && todos[i] == old(todos)[i] && unchanged(todos[i]))
        && (forall i <- todos | i != id :: i in old(todos))
        && if publisher.Takes(delivered) then
             && id in todos && todos[id].employeeId == employeeID && todos[id].content == content
             && todos[id].updatedAt == now && !todos[id].deleted
             && ListsAlso(old(todosByEmployee), todosByEmployee, employeeID, id)
             && publisher.topic == old(publisher.topic) + [Event(Created, id, employeeID, content, false)]
           else id !in todos && publisher.topic == old(publisher.topic)
    {
      var todo := InsertNew(employeeID, content, now);
      ghost var inserted := Contents();
      var ok := publisher.PublishTodoEvent(EventOf(Created, todo.Value()), delivered);
      assert Contents() == inserted;
      if !ok {
        WithdrawSection(todo.id, employeeID);
        return PublishFailed(Created);
      }
      var copied := CloneTodo(todo);
      r := Ok(copied);
    }

    method UpdateTodo(id: string, content: string, now: string, delivered: bool) returns (r: Result)
      requires Valid()
      modifies todos.Values, publisher
      ensures Abstract() == Serve(old(Abstract()), Request.UpdateTodo(id, content), now, publisher.Takes(delivered))
      ensures !Found(old(Contents()), id) ==> r == NotFound(id)
      ensures Found(old(Contents()), id) && !publisher.Takes(delivered) ==> r == PublishFailed(Updated)
      ensures Found(old(Contents()), id) && publisher.Takes(delivered) ==>
        && r.Ok? && fresh(r.todo) && r.todo.Value() == Contents().todos[id]
        && r.todo.Value() == old(Contents()).todos[id].(content := content, updatedAt := now)
      ensures forall i <- todos | i != id :: unchanged(todos[i])
      ensures if id in todos && old(!todos[id].deleted) && publisher.Takes(delivered) then
          && todos[id].content == content && todos[id].updatedAt == now && !todos[id].deleted
          && publisher.topic == old(publisher.topic) + [Event(Updated, id, todos[id].employeeId, content, false)]
        else
          && (id in todos ==>
                && todos[id].content == old(todos[id].content) && todos[id].updatedAt == old(todos[id].updatedAt)
                && todos[id].deleted == old(todos[id].deleted))
          && publisher.topic == old(publisher.topic)
    {
      var found, original, updated := EditSection(id, content, now);
      if !found {
        return NotFound(id);
      }
      ghost var edited := Contents();
      var ok := publisher.PublishTodoEvent(EventOf(Updated, updated), delivered);
      assert Contents() == edited;
      if !ok {
        RestoreEditSection(id, original);
        return PublishFailed(Updated);
      }
      var copied := new TodoNode(updated);
      r := Ok(copied);
    }

    method DeleteTodo(id: string, now: string, delivered: bool) returns (r: Result)
      requires Valid()
      modifies `todosByEmployee, todos.Values, publisher
      ensures Valid() && Abstract() == Serve(old(Abstract()), Request.DeleteTodo(id), now, publisher.Takes(delivered))
      ensures !Found(old(Contents()), id) ==> r == NotFound(id)
      ensures Found(old(Contents()), id) && !publisher.Takes(delivered) ==> r == PublishFailed(Deleted)
      ensures Found(old(Contents()), id) && publisher.Takes(delivered) ==>
        && r.Ok? && fresh(r.todo) && r.todo.Value() == Contents().todos[id]
        && r.todo.Value() == old(Contents()).todos[id].(deleted := true, updatedAt := now)
      ensures forall i <- todos | i != id :: unchanged(todos[i])
      ensures if id in todos && old(!todos[id].deleted) && publisher.Takes(delivered) then
          && todos[id].deleted && todos[id].updatedAt == now && todos[id].content == old(todos[id].content)
          && ListsNoMore(old(todosByEmployee), todosByEmployee, todos[id].employeeId, id)
          && publisher.topic
             == old(publisher.topic) + [Event(Deleted, id, todos[id].employeeId, todos[id].content, true)]
        else
          && (id in todos ==>
                && todos[id].content == old(todos[id].content) && todos[id].updatedAt == old(todos[id].updatedAt)
                && todos[id].deleted == old(todos[id].deleted))
          && publisher.topic == old(publisher.topic)
    {
      var found, original, marked := DeleteSection(id, now);
      if !found {
        return NotFound(id);
      }
      r := PublishDeletion(id, original, marked, delivered);
    }

    /** After the section: publishing, and the roll-back when that fails. */
    method PublishDeletion(id: string, original: Todo, marked: Todo, delivered: bool) returns (r: Result)
      requires Valid() && id in todos
      modifies `todosByEmployee, todos.Values, publisher
      ensures Valid() && forall i <- todos | i != id :: unchanged(todos[i])
      ensures if publisher.Takes(delivered) then
          && Contents() == old(Contents()) && unchanged(todos[id])
          && publisher.topic == old(publisher.topic) + [EventOf(Deleted, marked)]
          && r.Ok? && fresh(r.todo) && r.todo.Value() == marked
        else
          && Contents() == RestoreDeleted(old(Contents()), id, original)
          && todos[id].content == old(todos[id].content) && todos[id].updatedAt == original.updatedAt
          && todos[id].deleted == original.deleted
          && publisher.topic == old(publisher.topic) && r == PublishFailed(Deleted)
    {
      var ok := publisher.PublishTodoEvent(EventOf(Deleted, marked), delivered);
      assert Contents() == old(Contents());
      if !ok {
        RestoreDeletedSection(id, original);
        return PublishFailed(Deleted);
      }
      var copied := new TodoNode(marked);
      r := Ok(copied);
    }

    // ---------------------------------------------------------------- queries

    /** Copies of the live todos the index lists for the employee. */
    method CollectTodos(employeeID: string) returns (items: seq<TodoNode>)
      requires Valid()
      ensures multiset(Values(items)) == multiset(TodosOf(Contents(), Bucket(Contents(), employeeID)))
      ensures fresh(items)
    {
      items := [];
      if employeeID !in todosByEmployee {
        return;
      }
      var left := todosByEmployee[employeeID];
      ghost var seen := {};
      while left != {}
        invariant Parted(seen, left, todosByEmployee[employeeID]) && fresh(items)
        invariant multiset(Values(items)) == multiset(TodosOf(Contents(), seen))
        decreases |left|
      {
        var todoID :| todoID in left;
        PartedNext(seen, left, todosByEmployee[employeeID], todoID);
        items := CollectTodo(todoID, items, seen);
        left, seen := left - {todoID}, seen + {todoID};
      }
    }

    method CollectTodo(todoID: string, items: seq<TodoNode>, ghost seen: set<string>) returns (more: seq<TodoNode>)
      requires Valid() && todoID !in seen && multiset(Values(items)) == multiset(TodosOf(Contents(), seen))
      ensures multiset(Values(more)) == multiset(TodosOf(Contents(), seen + {todoID}))
      ensures more == items || exists copied :: fresh(copied) && more == items + [copied]
    {
      ghost var contents := Contents();
      TodosOfNext(contents, seen, todoID);
      if todoID !in todos || todos[todoID].deleted {
        return items;
      }
      var copied := CloneTodo(todos[todoID]);
      assert Contents() == contents;
      Collected(items, copied, TodosOf(contents, seen));
      more := items + [copied];
    }

    lemma ScanGivesLive(employeeID: string)
      ensures TodosOf(Contents(), FullScan(Contents(), employeeID)) == LiveTodosOf(todos, employeeID)
    {
      var scan := FullScan(Contents(), employeeID);
      assert forall id :: id in scan <==> id in todos && !todos[id].deleted && todos[id].employeeId == employeeID;
      assert forall id <- scan :: Contents().todos[id] == todos[id].Value();
    }

    /** listTodosByEmployeeNoLock: fresh copies, newest first. With an exact index they are exactly the employee's live
        todos. */
    method ListTodosByEmployeeNoLock(employeeID: string) returns (items: seq<TodoNode>)
      requires Valid()
      ensures fresh(items)
      ensures Descending(Values(items))
      ensures multiset(Values(items)) == multiset(TodosOf(Contents(), Bucket(Contents(), employeeID)))
      ensures Sound(Contents()) && Exact(Contents()) ==>
        multiset(Values(items)) == multiset(TodosOf(Contents(), FullScan(Contents(), employeeID)))
      ensures Sound(Contents()) && Exact(Contents()) ==>
        multiset(Values(items)) == multiset(LiveTodosOf(todos, employeeID))
    {
      var collected := CollectTodos(employeeID);
      items := SortNewestFirst(collected);
      assert forall i | 0 <= i < |items| :: items[i] in collected;
      if Sound(Contents()) && Exact(Contents()) {
        BucketGivesScan(Contents(), employeeID);
        ScanGivesLive(employeeID);
      }
    }

    method TodoByID(id: string) returns (r: Result)
      requires Valid()
      ensures if id in todos && !todos[id].deleted then
          && r.Ok? && fresh(r.todo) && r.todo.id == id && r.todo.employeeId == todos[id].employeeId
          && r.todo.content == todos[id].content && r.todo.updatedAt == todos[id].updatedAt && !r.todo.deleted
        else r == NotFound(id)
    {
      if id !in todos || todos[id].deleted {
        return NotFound(id);
      }
      var copied := CloneTodo(todos[id]);
      r := Ok(copied);
    }
  }
}
