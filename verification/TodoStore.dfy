// The todo store as a value: the todos, the index of them by employee, and what each section of code that runs
// under the lock does to both.
module TodoStore {
  import opened Text

  datatype Todo = Todo(id: string, employeeId: string, content: string, updatedAt: string, deleted: bool)

  type Index = map<string, set<string>>

  datatype Store = Store(todos: map<string, Todo>, byEmployee: Index)

  /** nextTodoID's form. */
  function TodoId(n: nat): string {
    "todo-" + Decimal(n)
  }

  lemma TodoIdInjective(m: nat, n: nat)
    requires TodoId(m) == TodoId(n)
    ensures m == n
  {
    CancelPrefix("todo-", Decimal(m), Decimal(n));
    DecimalInjective(m, n);
  }

  // ------------------------------------------------------------------ the index

  function Upsert(index: Index, employeeId: string, id: string): Index {
    index[employeeId := (if employeeId in index then index[employeeId] else {}) + {id}]
  }

  function Unindex(index: Index, employeeId: string, id: string): Index {
    if employeeId !in index then index
    else
      var left := index[employeeId] - {id};
      if left == {} then index - {employeeId} else index[employeeId := left]
  }

  predicate Listed(index: Index, employeeId: string, id: string) {
    employeeId in index && id in index[employeeId]
  }

  lemma UpsertLists(index: Index, employeeId: string, id: string)
    ensures forall e, i ::
      Listed(Upsert(index, employeeId, id), e, i) <==> Listed(index, e, i) || (e == employeeId && i == id)
  {
  }

  lemma UnindexUnlists(index: Index, employeeId: string, id: string)
    ensures forall e, i ::
      Listed(Unindex(index, employeeId, id), e, i) <==> Listed(index, e, i) && !(e == employeeId && i == id)
  {
    if employeeId in index {
      assert forall i :: i in index[employeeId] && i != id <==> i in index[employeeId] - {id};
    }
  }

  /** An index without empty buckets is determined by what it lists. */
  lemma SameIndex(a: Index, b: Index)
    requires forall e, i :: Listed(a, e, i) <==> Listed(b, e, i)
    requires (forall e <- a :: a[e] != {}) && (forall e <- b :: b[e] != {})
    ensures a == b
  {
    forall e
      ensures e in a <==> e in b
    {
      if e in a {
        var i :| i in a[e];
        assert Listed(a, e, i) && Listed(b, e, i);
      }
      if e in b {
        var i :| i in b[e];
        assert Listed(b, e, i) && Listed(a, e, i);
      }
    }
    forall e <- a
      ensures a[e] == b[e]
    {
      assert forall i :: i in a[e] <==> Listed(a, e, i);
      assert forall i :: i in b[e] <==> Listed(b, e, i);
    }
  }

  // ------------------------------------------------------------------ the sections

  /** The first section of a create. */
  function Insert(s: Store, todo: Todo): Store {
    Store(s.todos[todo.id := todo], Upsert(s.byEmployee, todo.employeeId, todo.id))
  }

  /** The roll-back of a create. */
  function Withdraw(s: Store, id: string, employeeId: string): Store {
    Store(s.todos - {id}, Unindex(s.byEmployee, employeeId, id))
  }

  predicate Found(s: Store, id: string) {
    id in s.todos && !s.todos[id].deleted
  }

  /** The first section of an update. */
  function Edit(s: Store, id: string, content: string, now: string): Store
    requires Found(s, id)
  {
    s.(todos := s.todos[id := s.todos[id].(content := content, updatedAt := now)])
  }

  /** The roll-back of an update: the index is left alone. */
  function RestoreEdit(s: Store, id: string, original: Todo): Store {
    if id !in s.todos then s
    else
      s.(todos := s.todos[id := s.todos[id].(content := original.content, updatedAt := original.updatedAt,
          deleted := original.deleted)])
  }

  /** The first section of a delete. */
  function MarkDeleted(s: Store, id: string, now: string): Store
    requires Found(s, id)
  {
    var todo := s.todos[id];
    Store(s.todos[id := todo.(deleted := true, updatedAt := now)], Unindex(s.byEmployee, todo.employeeId, todo.id))
  }

  /** The roll-back of a delete. */
  function RestoreDeleted(s: Store, id: string, original: Todo): Store {
    if id !in s.todos then s
    else
      var current := s.todos[id].(deleted := original.deleted, updatedAt := original.updatedAt);
      Store(s.todos[id := current], Upsert(s.byEmployee, current.employeeId, current.id))
  }

  // ------------------------------------------------------------------ what holds of the index

  /** Todos are kept under their ids; the index lists only live todos, under their employees, and has no empty
      bucket. */
  ghost predicate Sound(s: Store) {
    && (forall id <- s.todos :: s.todos[id].id == id)
    && (forall e, id | Listed(s.byEmployee, e, id) :: Found(s, id) && s.todos[id].employeeId == e)
    && (forall e <- s.byEmployee :: s.byEmployee[e] != {})
  }

  /** Live todos the index does not list. */
  function Unlisted(s: Store): set<string> {
    set id | id in s.todos && !s.todos[id].deleted && !Listed(s.byEmployee, s.todos[id].employeeId, id)
  }

  /** Every live todo is listed. */
  predicate Exact(s: Store) {
    Unlisted(s) == {}
  }

  /** What a search through all todos finds for an employee. */
  function FullScan(s: Store, employeeId: string): set<string> {
    set id | id in s.todos && !s.todos[id].deleted && s.todos[id].employeeId == employeeId
  }

  function Bucket(s: Store, employeeId: string): set<string> {
    if employeeId in s.byEmployee then s.byEmployee[employeeId] else {}
  }

  /** The index agrees with a full scan for every employee exactly when nothing live is missing from it. */
  lemma ExactIffScan(s: Store)
    requires Sound(s)
    ensures Exact(s) <==> forall e :: Bucket(s, e) == FullScan(s, e)
  {
    if Exact(s) {
      forall e
        ensures Bucket(s, e) == FullScan(s, e)
      {
        forall id
          ensures id in Bucket(s, e) <==> id in FullScan(s, e)
        {
          assert id in Bucket(s, e) <==> Listed(s.byEmployee, e, id);
          if id in FullScan(s, e) {
            assert id !in Unlisted(s);
          }
        }
      }
    }
    if !Exact(s) {
      var id :| id in Unlisted(s);
      var e := s.todos[id].employeeId;
      assert id in FullScan(s, e) && id !in Bucket(s, e);
    }
  }

  /** The live todos among those kept under the ids. */
  function TodosOf(s: Store, ids: set<string>): set<Todo> {
    set id | id in ids && Found(s, id) :: s.todos[id]
  }

  /** With an exact index, an employee's bucket gives what a search through all todos gives. */
  lemma BucketGivesScan(s: Store, employeeId: string)
    requires Sound(s) && Exact(s)
    ensures TodosOf(s, Bucket(s, employeeId)) == TodosOf(s, FullScan(s, employeeId))
  {
    ExactIffScan(s);
  }

  lemma TodosOfNext(s: Store, ids: set<string>, id: string)
    requires id !in ids && forall i <- s.todos :: s.todos[i].id == i
    ensures Found(s, id)
      ==> s.todos[id] !in TodosOf(s, ids) && TodosOf(s, ids + {id}) == TodosOf(s, ids) + {s.todos[id]}
    ensures !Found(s, id) ==> TodosOf(s, ids + {id}) == TodosOf(s, ids)
  {
  }

  lemma InsertKeeps(s: Store, todo: Todo)
    requires Sound(s) && todo.id !in s.todos && !todo.deleted
    ensures Sound(Insert(s, todo)) && Unlisted(Insert(s, todo)) == Unlisted(s)
  {
    var s' := Insert(s, todo);
    UpsertLists(s.byEmployee, todo.employeeId, todo.id);
    assert forall id :: id in Unlisted(s') <==> id in Unlisted(s);
  }

  lemma WithdrawKeeps(s: Store, id: string)
    requires Sound(s) && id in s.todos
    ensures Sound(Withdraw(s, id, s.todos[id].employeeId))
      && Unlisted(Withdraw(s, id, s.todos[id].employeeId)) == Unlisted(s) - {id}
  {
    var e := s.todos[id].employeeId;
    var s' := Withdraw(s, id, e);
    UnindexUnlists(s.byEmployee, e, id);
    assert forall i :: i in Unlisted(s') <==> i in Unlisted(s) - {id};
  }

  lemma EditKeeps(s: Store, id: string, content: string, now: string)
    requires Sound(s) && Found(s, id)
    ensures Sound(Edit(s, id, content, now)) && Unlisted(Edit(s, id, content, now)) == Unlisted(s)
  {
  }

  /** Rolling an update back loses a todo from the index exactly when the todo has been deleted meanwhile. */
  lemma RestoreEditKeeps(s: Store, id: string, original: Todo)
    requires Sound(s) && !original.deleted
    ensures Sound(RestoreEdit(s, id, original))
    ensures Unlisted(RestoreEdit(s, id, original))
      == Unlisted(s) + if id in s.todos && s.todos[id].deleted then {id} else {}
  {
    var s' := RestoreEdit(s, id, original);
    if id in s.todos && s.todos[id].deleted {
      assert !Listed(s.byEmployee, s.todos[id].employeeId, id);
      assert id in Unlisted(s');
    }
    forall i
      ensures i in Unlisted(s') <==> i in Unlisted(s) || (i == id && id in s.todos && s.todos[id].deleted)
    {
    }
  }

  lemma MarkDeletedKeeps(s: Store, id: string, now: string)
    requires Sound(s) && Found(s, id)
    ensures Sound(MarkDeleted(s, id, now)) && Unlisted(MarkDeleted(s, id, now)) == Unlisted(s) - {id}
  {
    var s' := MarkDeleted(s, id, now);
    UnindexUnlists(s.byEmployee, s.todos[id].employeeId, id);
    assert forall i :: i in Unlisted(s') <==> i in Unlisted(s) - {id};
  }

  lemma RestoreDeletedKeeps(s: Store, id: string, original: Todo)
    requires Sound(s) && !original.deleted
    ensures Sound(RestoreDeleted(s, id, original)) && Unlisted(RestoreDeleted(s, id, original)) == Unlisted(s) - {id}
  {
    var s' := RestoreDeleted(s, id, original);
    if id in s.todos {
      UpsertLists(s.byEmployee, s.todos[id].employeeId, id);
      assert forall i :: i in Unlisted(s') <==> i in Unlisted(s) - {id};
    } else {
      assert id !in Unlisted(s);
    }
  }

  // ------------------------------------------------------------------ one operation at a time

  datatype EventKind = Created | Updated | Deleted

  datatype Event = Event(kind: EventKind, todoId: string, employeeId: string, content: string, deleted: bool)

  function EventOf(kind: EventKind, todo: Todo): Event {
    Event(kind, todo.id, todo.employeeId, todo.content, todo.deleted)
  }

  /** The store, the sequence counter and the events published so far. */
  datatype Service = Service(store: Store, sequence: nat, log: seq<Event>)

  datatype Request =
    | CreateTodo(employeeId: string, content: string)
    | UpdateTodo(id: string, content: string)
    | DeleteTodo(id: string)

  /** What a request does when nothing else is going on: `delivered` is what the publisher answers, `now` what the
      clock reads. */
  function Serve(v: Service, request: Request, now: string, delivered: bool): Service {
    match request
    case CreateTodo(employeeId, content) =>
      var todo := Todo(TodoId(v.sequence + 1), employeeId, content, now, false);
      var inserted := Insert(v.store, todo);
      if delivered then Service(inserted, v.sequence + 1, v.log + [EventOf(Created, todo)])
      else Service(Withdraw(inserted, todo.id, employeeId), v.sequence + 1, v.log)
    case UpdateTodo(id, content) =>
      if !Found(v.store, id) then v
      else
        var original := v.store.todos[id];
        var edited := Edit(v.store, id, content, now);
        if delivered then v.(store := edited, log := v.log + [EventOf(Updated, edited.todos[id])])
        else v.(store := RestoreEdit(edited, id, original))
    case DeleteTodo(id) =>
      if !Found(v.store, id) then v
      else
        var original := v.store.todos[id];
        var marked := MarkDeleted(v.store, id, now);
        if delivered then v.(store := marked, log := v.log + [EventOf(Deleted, marked.todos[id])])
        else v.(store := RestoreDeleted(marked, id, original))
  }

  /** Ids handed out so far end in numbers up to the counter. */
  ghost predicate IdsCounted(todos: map<string, Todo>, sequence: nat) {
    forall id <- todos :: exists n: nat :: n <= sequence && id == TodoId(n)
  }

  lemma NextIdIsNew(todos: map<string, Todo>, sequence: nat)
    requires IdsCounted(todos, sequence)
    ensures TodoId(sequence + 1) !in todos
  {
    var next := TodoId(sequence + 1);
    if next in todos {
      var n: nat :| n <= sequence && next == TodoId(n);
      TodoIdInjective(n, sequence + 1);
    }
  }

  ghost predicate ServiceValid(v: Service) {
    Sound(v.store) && Exact(v.store) && IdsCounted(v.store.todos, v.sequence)
  }

  lemma CountedMore(todos: map<string, Todo>, sequence: nat)
    requires IdsCounted(todos, sequence)
    ensures IdsCounted(todos, sequence + 1)
  {
    forall id <- todos
      ensures exists n: nat :: n <= sequence + 1 && id == TodoId(n)
    {
      var n: nat :| n <= sequence && id == TodoId(n);
    }
  }

  /** A request whose event is not published leaves the todos and the index, buckets and all, as they were. */
  lemma FailureUndoes(v: Service, request: Request, now: string)
    requires ServiceValid(v)
    ensures Serve(v, request, now, false).store == v.store && Serve(v, request, now, false).log == v.log
  {
    var s := v.store;
    match request
    case CreateTodo(employeeId, content) =>
      var todo := Todo(TodoId(v.sequence + 1), employeeId, content, now, false);
      NextIdIsNew(s.todos, v.sequence);
      UndoUpsert(s.byEmployee, employeeId, todo.id);
      assert s.todos[todo.id := todo] - {todo.id} == s.todos;
    case UpdateTodo(id, content) =>
    case DeleteTodo(id) =>
      if Found(s, id) {
        assert id !in Unlisted(s);
        UndoUnindex(s.byEmployee, s.todos[id].employeeId, id);
      }
  }

  lemma UndoUpsert(index: Index, employeeId: string, id: string)
    requires !Listed(index, employeeId, id) && (employeeId in index ==> index[employeeId] != {})
    ensures Unindex(Upsert(index, employeeId, id), employeeId, id) == index
  {
    if employeeId in index {
      assert index[employeeId] + {id} - {id} == index[employeeId];
    }
  }

  lemma UndoUnindex(index: Index, employeeId: string, id: string)
    requires Listed(index, employeeId, id)
    ensures Upsert(Unindex(index, employeeId, id), employeeId, id) == index
  {
    assert index[employeeId] - {id} + {id} == index[employeeId];
  }

  lemma ServeKeeps(v: Service, request: Request, now: string, delivered: bool)
    requires ServiceValid(v)
    ensures ServiceValid(Serve(v, request, now, delivered))
  {
    if !delivered {
      FailureUndoes(v, request, now);
      CountedMore(v.store.todos, v.sequence);
    } else {
      match request
      case CreateTodo(employeeId, content) =>
        NextIdIsNew(v.store.todos, v.sequence);
        CountedMore(v.store.todos, v.sequence);
        InsertKeeps(v.store, Todo(TodoId(v.sequence + 1), employeeId, content, now, false));
      case UpdateTodo(id, content) =>
        if Found(v.store, id) {
          EditKeeps(v.store, id, content, now);
        }
      case DeleteTodo(id) =>
        if Found(v.store, id) {
          MarkDeletedKeeps(v.store, id, now);
        }
    }
  }

  // ------------------------------------------------------------------ replaying the events

  /** What a consumer of the events knows of a todo. */
  datatype Known = Known(employeeId: string, content: string)

  type View = map<string, Known>

  /** The live todos. */
  function Live(s: Store): View {
    map id | id in s.todos && !s.todos[id].deleted :: Known(s.todos[id].employeeId, s.todos[id].content)
  }

  /** What a consumer makes of one event. */
  function Apply(view: View, event: Event): View {
    if event.deleted then view - {event.todoId} else view[event.todoId := Known(event.employeeId, event.content)]
  }

  function Replay(view: View, log: seq<Event>): View {
    if log == [] then view else Apply(Replay(view, log[..|log| - 1]), log[|log| - 1])
  }

  /** A request, together with the clock and the publisher's answer. */
  datatype Turn = Turn(request: Request, now: string, delivered: bool)

  function ServeAll(v: Service, turns: seq<Turn>): Service {
    if turns == [] then v
    else
      var last := turns[|turns| - 1];
      Serve(ServeAll(v, turns[..|turns| - 1]), last.request, last.now, last.delivered)
  }

  lemma ReplayNext(view: View, log: seq<Event>, event: Event)
    ensures Replay(view, log + [event]) == Apply(Replay(view, log), event)
  {
    assert (log + [event])[..|log|] == log;
  }

  lemma CreateMatchesLog(v: Service, todo: Todo, seed: View)
    requires Replay(seed, v.log) == Live(v.store) && todo.id !in v.store.todos && !todo.deleted
    ensures Replay(seed, v.log + [EventOf(Created, todo)]) == Live(Insert(v.store, todo))
  {
    ReplayNext(seed, v.log, EventOf(Created, todo));
  }

  lemma UpdateMatchesLog(v: Service, id: string, content: string, now: string, seed: View)
    requires Replay(seed, v.log) == Live(v.store) && Sound(v.store) && Found(v.store, id)
    ensures var edited := Edit(v.store, id, content, now);
      Replay(seed, v.log + [EventOf(Updated, edited.todos[id])]) == Live(edited)
  {
    ReplayNext(seed, v.log, EventOf(Updated, Edit(v.store, id, content, now).todos[id]));
  }

  lemma DeleteMatchesLog(v: Service, id: string, now: string, seed: View)
    requires Replay(seed, v.log) == Live(v.store) && Sound(v.store) && Found(v.store, id)
    ensures var marked := MarkDeleted(v.store, id, now);
      Replay(seed, v.log + [EventOf(Deleted, marked.todos[id])]) == Live(marked)
  {
    var marked := MarkDeleted(v.store, id, now);
    ReplayNext(seed, v.log, EventOf(Deleted, marked.todos[id]));
    assert Live(marked) == Live(v.store) - {id};
  }

  /** Each request moves the live todos just as its published event, if any, says. */
  lemma ServeMatchesLog(v: Service, request: Request, now: string, delivered: bool, seed: View)
    requires ServiceValid(v) && Replay(seed, v.log) == Live(v.store)
    ensures var v' := Serve(v, request, now, delivered); Replay(seed, v'.log) == Live(v'.store)
  {
    if !delivered {
      FailureUndoes(v, request, now);
    } else {
      match request
      case CreateTodo(employeeId, content) =>
        NextIdIsNew(v.store.todos, v.sequence);
        CreateMatchesLog(v, Todo(TodoId(v.sequence + 1), employeeId, content, now, false), seed);
      case UpdateTodo(id, content) =>
        if Found(v.store, id) {
          UpdateMatchesLog(v, id, content, now, seed);
        }
      case DeleteTodo(id) =>
        if Found(v.store, id) {
          DeleteMatchesLog(v, id, now, seed);
        }
    }
  }

  /** NewResolver: two todos to start from. */
  function Seeded(now: string): Service {
    Service(
      Store(map["todo-1" := Todo("todo-1", "emp-1", "Complete onboarding docs", now, false),
                "todo-2" := Todo("todo-2", "emp-2", "Prepare quarterly report", now, false)],
            map["emp-1" := {"todo-1"}, "emp-2" := {"todo-2"}]),
      2, [])
  }

  lemma SeededValid(now: string)
    ensures ServiceValid(Seeded(now))
  {
    assert TodoId(1) == "todo-1" && TodoId(2) == "todo-2";
  }

  /** Over any sequence of requests, whichever fail to be published, replaying the published events over the
      todos there were at the start gives just the live todos. */
  lemma {:induction false} ReplayGivesLiveTodos(now: string, turns: seq<Turn>)
    ensures var v := ServeAll(Seeded(now), turns);
      ServiceValid(v) && Replay(Live(Seeded(now).store), v.log) == Live(v.store)
  {
    if turns == [] {
      SeededValid(now);
    } else {
      var front, last := turns[..|turns| - 1], turns[|turns| - 1];
      ReplayGivesLiveTodos(now, front);
      var v := ServeAll(Seeded(now), front);
      ServeKeeps(v, last.request, last.now, last.delivered);
      ServeMatchesLog(v, last.request, last.now, last.delivered, Live(Seeded(now).store));
    }
  }
}
