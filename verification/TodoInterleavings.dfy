// Any number of creates, updates and deletes at once. A step is one section of code under the lock, or the publisher's
// answer between two sections; steps of different operations may come in any order.
module TodoInterleavings {
  import opened Text
  import opened TodoStore

  /** Where an operation under way has got to. */
  datatype Operation =
    | Allocated(n: nat, employeeId: string, content: string)
    | Inserted(n: nat, employeeId: string)
    | InsertFailed(n: nat, employeeId: string)
    | Edited(original: Todo, updated: Todo)
    | EditFailed(original: Todo)
    | Marked(original: Todo, marked: Todo)
    | MarkFailed(original: Todo)

  /** `operations` holds those under way, by thread; `issued` the ids handed out so far. */
  datatype State = State(store: Store, sequence: nat, log: seq<Event>, operations: map<nat, Operation>,
      issued: seq<string>)

  datatype Action =
    | Allocate(thread: nat, employeeId: string, content: string)
    | InsertAllocated(thread: nat, now: string)
    | BeginUpdate(thread: nat, id: string, content: string, now: string)
    | BeginDelete(thread: nat, id: string, now: string)
    | Publish(thread: nat, delivered: bool)
    | RollBack(thread: nat)

  function Initial(now: string): State {
    State(Seeded(now).store, Seeded(now).sequence, [], map[], [])
  }

  predicate Creates(o: Operation) {
    o.Allocated? || o.Inserted? || o.InsertFailed?
  }

  predicate Enabled(s: State, a: Action) {
    match a
    case Allocate(t, _, _) => t !in s.operations
    case InsertAllocated(t, _) => t in s.operations && s.operations[t].Allocated?
    case BeginUpdate(t, _, _, _) => t !in s.operations
    case BeginDelete(t, _, _) => t !in s.operations
    case Publish(t, _) =>
      && t in s.operations
      && (match s.operations[t]
          case Inserted(n, _) => TodoId(n) in s.store.todos
          case Edited(_, _) => true
          case Marked(_, _) => true
          case _ => false)
    case RollBack(t) =>
      t in s.operations && (s.operations[t].InsertFailed? || s.operations[t].EditFailed? || s.operations[t].MarkFailed?)
  }

  /** What is published. A create publishes the todo as it is by then, an update or delete the copy taken before. */
  function Announced(s: State, o: Operation): Event
    requires o.Inserted? ==> TodoId(o.n) in s.store.todos
    requires o.Inserted? || o.Edited? || o.Marked?
  {
    match o
    case Inserted(n, _) => EventOf(Created, s.store.todos[TodoId(n)])
    case Edited(_, updated) => EventOf(Updated, updated)
    case Marked(_, marked) => EventOf(Deleted, marked)
  }

  function Failed(o: Operation): Operation
    requires o.Inserted? || o.Edited? || o.Marked?
  {
    match o
    case Inserted(n, employeeId) => InsertFailed(n, employeeId)
    case Edited(original, _) => EditFailed(original)
    case Marked(original, _) => MarkFailed(original)
  }

  function RolledBack(s: Store, o: Operation): Store
    requires o.InsertFailed? || o.EditFailed? || o.MarkFailed?
  {
    match o
    case InsertFailed(n, employeeId) => Withdraw(s, TodoId(n), employeeId)
    case EditFailed(original) => RestoreEdit(s, original.id, original)
    case MarkFailed(original) => RestoreDeleted(s, original.id, original)
  }

  function Next(s: State, a: Action): State
    requires Enabled(s, a)
  {
    match a
    case Allocate(t, employeeId, content) =>
      var n := s.sequence + 1;
      s.(sequence := n, operations := s.operations[t := Allocated(n, employeeId, content)],
          issued := s.issued + [TodoId(n)])
    case InsertAllocated(t, now) =>
      var o := s.operations[t];
      var todo := Todo(TodoId(o.n), o.employeeId, o.content, now, false);
      s.(store := Insert(s.store, todo), operations := s.operations[t := Inserted(o.n, o.employeeId)])
    case BeginUpdate(t, id, content, now) =>
      if !Found(s.store, id) then s
      else
        var edited := Edit(s.store, id, content, now);
        s.(store := edited, operations := s.operations[t := Edited(s.store.todos[id], edited.todos[id])])
    case BeginDelete(t, id, now) =>
      if !Found(s.store, id) then s
      else
        var marked := MarkDeleted(s.store, id, now);
        s.(store := marked, operations := s.operations[t := Marked(s.store.todos[id], marked.todos[id])])
    case Publish(t, delivered) =>
      var o := s.operations[t];
      if delivered then s.(log := s.log + [Announced(s, o)], operations := s.operations - {t})
      else s.(operations := s.operations[t := Failed(o)])
    case RollBack(t) =>
      s.(store := RolledBack(s.store, s.operations[t]), operations := s.operations - {t})
  }

  // ------------------------------------------------------------------ what every step keeps

  predicate OperationValid(s: State, o: Operation) {
    && (Creates(o) ==> 2 < o.n <= s.sequence)
    && match o
       case Allocated(n, _, _) => TodoId(n) !in s.store.todos
       case Inserted(n, e) => TodoId(n) in s.store.todos && s.store.todos[TodoId(n)].employeeId == e
       case InsertFailed(n, e) => TodoId(n) in s.store.todos && s.store.todos[TodoId(n)].employeeId == e
       case Edited(original, _) => !original.deleted
       case EditFailed(original) => !original.deleted
       case Marked(original, _) => !original.deleted
       case MarkFailed(original) => !original.deleted
  }

  /** No two creates have the same number. */
  predicate OwnNumbers(operations: map<nat, Operation>) {
    forall t, u | t in operations && u in operations && Creates(operations[t]) && Creates(operations[u])
      && operations[t].n == operations[u].n :: t == u
  }

  predicate IssuedInOrder(issued: seq<string>, sequence: nat) {
    sequence == 2 + |issued| && forall i | 0 <= i < |issued| :: issued[i] == TodoId(3 + i)
  }

  ghost predicate Inv(s: State) {
    && Sound(s.store) && IdsCounted(s.store.todos, s.sequence) && OwnNumbers(s.operations)
    && IssuedInOrder(s.issued, s.sequence)
    && forall t <- s.operations :: OperationValid(s, s.operations[t])
  }

  /** The other operations do not notice a step that takes no todo away, changes no todo's employee and adds only a todo
      whose number is its own. */
  lemma OthersStay(s: State, s': State, t: nat, n: nat)
    requires Inv(s) && s.sequence <= s'.sequence
    requires forall id <- s.store.todos ::
      id in s'.store.todos && s'.store.todos[id].employeeId == s.store.todos[id].employeeId
    requires forall id <- s'.store.todos :: id in s.store.todos || id == TodoId(n)
    requires TodoId(n) !in s.store.todos && TodoId(n) in s'.store.todos
      ==> t in s.operations && Creates(s.operations[t]) && s.operations[t].n == n
    ensures forall u <- s.operations :: u != t ==> OperationValid(s', s.operations[u])
  {
    forall u <- s.operations | u != t
      ensures OperationValid(s', s.operations[u])
    {
      var o := s.operations[u];
      assert OperationValid(s, o);
      if o.Allocated? && TodoId(o.n) in s'.store.todos {
        TodoIdInjective(o.n, n);
        assert false;
      }
    }
  }

  lemma AllocateKeeps(s: State, a: Action)
    requires Inv(s) && a.Allocate? && Enabled(s, a)
    ensures Inv(Next(s, a))
  {
    var s' := Next(s, a);
    CountedMore(s.store.todos, s.sequence);
    NextIdIsNew(s.store.todos, s.sequence);
    OthersStay(s, s', a.thread, 0);
    forall u <- s.operations
      ensures OperationValid(s', s'.operations[u]) && (Creates(s'.operations[u]) ==> s'.operations[u].n < s'.sequence)
    {
      assert OperationValid(s, s.operations[u]);
    }
  }

  lemma InsertAllocatedKeeps(s: State, a: Action)
    requires Inv(s) && a.InsertAllocated? && Enabled(s, a)
    ensures Inv(Next(s, a)) && Unlisted(Next(s, a).store) == Unlisted(s.store)
  {
    var o := s.operations[a.thread];
    assert OperationValid(s, o);
    InsertKeeps(s.store, Todo(TodoId(o.n), o.employeeId, o.content, a.now, false));
    OthersStay(s, Next(s, a), a.thread, o.n);
  }

  lemma BeginUpdateKeeps(s: State, a: Action)
    requires Inv(s) && a.BeginUpdate? && Enabled(s, a)
    ensures Inv(Next(s, a)) && Unlisted(Next(s, a).store) == Unlisted(s.store)
  {
    if Found(s.store, a.id) {
      EditKeeps(s.store, a.id, a.content, a.now);
      OthersStay(s, Next(s, a), a.thread, 0);
    }
  }

  lemma BeginDeleteKeeps(s: State, a: Action)
    requires Inv(s) && a.BeginDelete? && Enabled(s, a)
    ensures Inv(Next(s, a)) && Unlisted(Next(s, a).store) <= Unlisted(s.store)
  {
    if Found(s.store, a.id) {
      MarkDeletedKeeps(s.store, a.id, a.now);
      OthersStay(s, Next(s, a), a.thread, 0);
    }
  }

  lemma PublishKeeps(s: State, a: Action)
    requires Inv(s) && a.Publish? && Enabled(s, a)
    ensures Inv(Next(s, a))
  {
    assert OperationValid(s, s.operations[a.thread]);
    OthersStay(s, Next(s, a), a.thread, 0);
  }

  /** The step is the roll-back of an update whose todo has been deleted meanwhile. */
  predicate RevivesDeleted(s: State, a: Action)
    requires Enabled(s, a)
  {
    && a.RollBack? && s.operations[a.thread].EditFailed?
    && var id := s.operations[a.thread].original.id; id in s.store.todos && s.store.todos[id].deleted
  }

  lemma WithdrawOthersStay(s: State, s': State, t: nat)
    requires Inv(s) && t in s.operations && s.operations[t].InsertFailed? && s.sequence == s'.sequence
    requires s'.store.todos == s.store.todos - {TodoId(s.operations[t].n)}
    ensures forall u <- s.operations :: u != t ==> OperationValid(s', s.operations[u])
  {
    var n := s.operations[t].n;
    forall u <- s.operations | u != t
      ensures OperationValid(s', s.operations[u])
    {
      var o := s.operations[u];
      assert OperationValid(s, o);
      if Creates(o) && TodoId(o.n) == TodoId(n) {
        TodoIdInjective(o.n, n);
        assert false;
      }
    }
  }

  lemma RollBackKeeps(s: State, a: Action)
    requires Inv(s) && a.RollBack? && Enabled(s, a)
    ensures Inv(Next(s, a))
    ensures !RevivesDeleted(s, a) ==> Unlisted(Next(s, a).store) <= Unlisted(s.store)
    ensures RevivesDeleted(s, a)
      ==> Unlisted(Next(s, a).store) == Unlisted(s.store) + {s.operations[a.thread].original.id}
  {
    var o := s.operations[a.thread];
    assert OperationValid(s, o);
    match o {
      case InsertFailed(n, _) =>
        WithdrawKeeps(s.store, TodoId(n));
        WithdrawOthersStay(s, Next(s, a), a.thread);
      case EditFailed(original) =>
        RestoreEditKeeps(s.store, original.id, original);
        OthersStay(s, Next(s, a), a.thread, 0);
      case MarkFailed(original) =>
        RestoreDeletedKeeps(s.store, original.id, original);
        OthersStay(s, Next(s, a), a.thread, 0);
    }
  }

  /** Every step keeps the invariant. It keeps the index exact if and only if it is not a roll-back of an update whose
      todo has been deleted meanwhile. */
  lemma StepKeeps(s: State, a: Action)
    requires Inv(s) && Enabled(s, a)
    ensures Inv(Next(s, a))
    ensures Exact(s.store) ==> (Exact(Next(s, a).store) <==> !RevivesDeleted(s, a))
  {
    match a
    case Allocate(_, _, _) => AllocateKeeps(s, a);
    case InsertAllocated(_, _) => InsertAllocatedKeeps(s, a);
    case BeginUpdate(_, _, _, _) => BeginUpdateKeeps(s, a);
    case BeginDelete(_, _, _) => BeginDeleteKeeps(s, a);
    case Publish(_, _) => PublishKeeps(s, a);
    case RollBack(_) => RollBackKeeps(s, a);
  }

  // ------------------------------------------------------------------ runs

  /** The actions can be taken one after another. */
  predicate Runs(s: State, actions: seq<Action>)
    decreases |actions|
  {
    actions == [] || (Enabled(s, actions[0]) && Runs(Next(s, actions[0]), actions[1..]))
  }

  function After(s: State, actions: seq<Action>): State
    requires Runs(s, actions)
    decreases |actions|
  {
    if actions == [] then s else After(Next(s, actions[0]), actions[1..])
  }

  /** No failed update of the run is rolled back on to a deleted todo. */
  predicate NoneRevived(s: State, actions: seq<Action>)
    requires Runs(s, actions)
    decreases |actions|
  {
    actions == [] || (!RevivesDeleted(s, actions[0]) && NoneRevived(Next(s, actions[0]), actions[1..]))
  }

  lemma InitialInv(now: string)
    ensures Inv(Initial(now)) && Exact(Initial(now).store)
  {
    SeededValid(now);
  }

  lemma {:induction false} RunKeeps(s: State, actions: seq<Action>)
    requires Inv(s) && Runs(s, actions)
    ensures Inv(After(s, actions))
    ensures Exact(s.store) && NoneRevived(s, actions) ==> Exact(After(s, actions).store)
    decreases |actions|
  {
    if actions != [] {
      StepKeeps(s, actions[0]);
      RunKeeps(Next(s, actions[0]), actions[1..]);
    }
  }

  /** In every interleaving, with any answers of the publisher: the index lists only live todos, under their employees,
      and has no empty bucket. */
  lemma IndexSoundInEveryRun(now: string, actions: seq<Action>)
    requires Runs(Initial(now), actions)
    ensures Sound(After(Initial(now), actions).store)
  {
    InitialInv(now);
    RunKeeps(Initial(now), actions);
  }

  /** No id is handed out twice, nor one that was there from the start. */
  lemma NoIdTwice(now: string, actions: seq<Action>)
    requires Runs(Initial(now), actions)
    ensures var issued := After(Initial(now), actions).issued;
      && (forall i, j | 0 <= i < j < |issued| :: issued[i] != issued[j])
      && (forall id <- Initial(now).store.todos :: id !in issued)
  {
    InitialInv(now);
    RunKeeps(Initial(now), actions);
    var s := After(Initial(now), actions);
    forall i, j | 0 <= i < j < |s.issued|
      ensures s.issued[i] != s.issued[j]
    {
      if s.issued[i] == s.issued[j] {
        TodoIdInjective(3 + i, 3 + j);
        assert false;
      }
    }
    SeedsNotIssued(s);
  }

  lemma SeedsNotIssued(s: State)
    requires IssuedInOrder(s.issued, s.sequence)
    ensures TodoId(1) !in s.issued && TodoId(2) !in s.issued
    ensures TodoId(1) == "todo-1" && TodoId(2) == "todo-2"
  {
    forall i | 0 <= i < |s.issued|
      ensures s.issued[i] != TodoId(1) && s.issued[i] != TodoId(2)
    {
      if s.issued[i] == TodoId(1) {
        TodoIdInjective(3 + i, 1);
      }
      if s.issued[i] == TodoId(2) {
        TodoIdInjective(3 + i, 2);
      }
    }
  }

  /** In every interleaving in which no failed update is rolled back on to a deleted todo, the index agrees with a
      search through all todos, for every employee. */
  lemma IndexExactInRun(now: string, actions: seq<Action>)
    requires Runs(Initial(now), actions) && NoneRevived(Initial(now), actions)
    ensures var s := After(Initial(now), actions).store; forall e :: Bucket(s, e) == FullScan(s, e)
  {
    InitialInv(now);
    RunKeeps(Initial(now), actions);
    ExactIffScan(After(Initial(now), actions).store);
  }

  /** The index is exact in every state of the run, the last one included. */
  ghost predicate AlwaysExact(s: State, actions: seq<Action>)
    requires Runs(s, actions)
    decreases |actions|
  {
    Exact(s.store) && (actions == [] || AlwaysExact(Next(s, actions[0]), actions[1..]))
  }

  lemma {:induction false} ExactThroughout(s: State, actions: seq<Action>)
    requires Inv(s) && Exact(s.store) && Runs(s, actions)
    ensures AlwaysExact(s, actions) <==> NoneRevived(s, actions)
    decreases |actions|
  {
    if actions != [] {
      StepKeeps(s, actions[0]);
      if !RevivesDeleted(s, actions[0]) {
        ExactThroughout(Next(s, actions[0]), actions[1..]);
      }
    }
  }

  /** Over whole runs: the index never misses a live todo exactly when no failed update of the run is rolled back on to
      a deleted todo. */
  lemma AlwaysExactIff(now: string, actions: seq<Action>)
    requires Runs(Initial(now), actions)
    ensures AlwaysExact(Initial(now), actions) <==> NoneRevived(Initial(now), actions)
  {
    InitialInv(now);
    ExactThroughout(Initial(now), actions);
  }

  lemma StepThenRun(s: State, a: Action, actions: seq<Action>)
    requires Enabled(s, a) && Runs(Next(s, a), actions)
    ensures Runs(s, [a] + actions) && After(s, [a] + actions) == After(Next(s, a), actions)
  {
    assert ([a] + actions)[1..] == actions;
  }

  /** An update is not published, but only after the todo it is for has been deleted; it is rolled back. */
  function RevivingRun(now: string): seq<Action> {
    [BeginUpdate(0, "todo-1", "new", now)]
        + ([BeginDelete(1, "todo-1", now)] + ([Publish(1, true)] + ([Publish(0, false)] + ([RollBack(0)] + []))))
  }

  /** Then the todo is live again though its deletion was published, and no list shows it. */
  lemma RevivedTodoIsLost(now: string)
    ensures Runs(Initial(now), RevivingRun(now))
    ensures var s := After(Initial(now), RevivingRun(now));
      && Found(s.store, "todo-1") && "todo-1" !in Bucket(s.store, "emp-1") && !Exact(s.store)
      && Replay(Live(Initial(now).store), s.log) != Live(s.store)
  {
    var s0 := Initial(now);
    var s1 := Next(s0, BeginUpdate(0, "todo-1", "new", now));
    var s2 := Next(s1, BeginDelete(1, "todo-1", now));
    var s3 := Next(s2, Publish(1, true));
    var s4 := Next(s3, Publish(0, false));
    var s5 := Next(s4, RollBack(0));
    StepThenRun(s4, RollBack(0), []);
    StepThenRun(s3, Publish(0, false), [RollBack(0)] + []);
    StepThenRun(s2, Publish(1, true), [Publish(0, false)] + ([RollBack(0)] + []));
    StepThenRun(s1, BeginDelete(1, "todo-1", now), [Publish(1, true)] + ([Publish(0, false)] + ([RollBack(0)] + [])));
    StepThenRun(s0, BeginUpdate(0, "todo-1", "new", now),
        [BeginDelete(1, "todo-1", now)] + ([Publish(1, true)] + ([Publish(0, false)] + ([RollBack(0)] + []))));
    assert After(s0, RevivingRun(now)) == s5;
    DeletedInLog(s0, s5, now);
  }

  lemma DeletedInLog(s: State, s': State, now: string)
    requires exists e :: s'.log == [e] && e.deleted && e.todoId == "todo-1"
    requires Found(s'.store, "todo-1")
    ensures Replay(Live(s.store), s'.log) != Live(s'.store)
  {
    var view := Live(s.store);
    assert s'.log[..0] == [];
    assert Replay(view, s'.log) == Apply(view, s'.log[0]);
    assert "todo-1" in Live(s'.store);
  }

  // ------------------------------------------------------------------ one operation at a time

  function ServiceOf(s: State): Service {
    Service(s.store, s.sequence, s.log)
  }

  /** An operation's steps, one right after the other. */
  function Steps(s: State, t: nat, request: Request, now: string, delivered: bool): seq<Action> {
    var rest := [Publish(t, delivered)] + if delivered then [] else [RollBack(t)];
    match request
    case CreateTodo(employeeId, content) => [Allocate(t, employeeId, content)] + ([InsertAllocated(t, now)] + rest)
    case UpdateTodo(id, content) => [BeginUpdate(t, id, content, now)] + if Found(s.store, id) then rest else []
    case DeleteTodo(id) => [BeginDelete(t, id, now)] + if Found(s.store, id) then rest else []
  }

  /** The last steps: the publisher's answer, and the roll-back if it is no. */
  lemma PublishAndEnd(s: State, t: nat, delivered: bool)
    requires Enabled(s, Publish(t, delivered))
    ensures var rest := [Publish(t, delivered)] + if delivered then [] else [RollBack(t)];
      && Runs(s, rest)
      && var o := s.operations[t];
         After(s, rest) == if delivered
           then s.(log := s.log + [Announced(s, o)], operations := s.operations - {t})
           else s.(store := RolledBack(s.store, Failed(o)), operations := s.operations - {t})
  {
    var next := Next(s, Publish(t, delivered));
    if delivered {
      StepThenRun(s, Publish(t, delivered), []);
    } else {
      assert next.operations - {t} == s.operations - {t};
      assert [RollBack(t)] + [] == [RollBack(t)];
      StepThenRun(next, RollBack(t), []);
      StepThenRun(s, Publish(t, delivered), [RollBack(t)]);
    }
  }

  /** An operation that nothing gets in the way of does what the request does when served on its own. */
  lemma AloneIsServed(s: State, t: nat, request: Request, now: string, delivered: bool)
    requires Inv(s) && t !in s.operations
    ensures var steps := Steps(s, t, request, now, delivered);
      && Runs(s, steps) && ServiceOf(After(s, steps)) == Serve(ServiceOf(s), request, now, delivered)
      && After(s, steps).operations == s.operations
  {
    var rest := [Publish(t, delivered)] + if delivered then [] else [RollBack(t)];
    match request
    case CreateTodo(employeeId, content) => CreateAlone(s, t, employeeId, content, now, delivered);
    case UpdateTodo(id, content) =>
      var begin := BeginUpdate(t, id, content, now);
      var begun := Next(s, begin);
      if Found(s.store, id) {
        PublishAndEnd(begun, t, delivered);
        StepThenRun(s, begin, rest);
        assert begun.operations - {t} == s.operations;
      } else {
        StepThenRun(s, begin, []);
      }
    case DeleteTodo(id) =>
      var begin := BeginDelete(t, id, now);
      var begun := Next(s, begin);
      if Found(s.store, id) {
        PublishAndEnd(begun, t, delivered);
        StepThenRun(s, begin, rest);
        assert begun.operations - {t} == s.operations;
      } else {
        StepThenRun(s, begin, []);
      }
  }

  lemma CreateAlone(s: State, t: nat, employeeId: string, content: string, now: string, delivered: bool)
    requires Inv(s) && t !in s.operations
    ensures var request := CreateTodo(employeeId, content);
      var steps := Steps(s, t, request, now, delivered);
      && Runs(s, steps) && ServiceOf(After(s, steps)) == Serve(ServiceOf(s), request, now, delivered)
      && After(s, steps).operations == s.operations
  {
    var rest := [Publish(t, delivered)] + if delivered then [] else [RollBack(t)];
    var begun := Next(s, Allocate(t, employeeId, content));
    var inserted := Next(begun, InsertAllocated(t, now));
    PublishAndEnd(inserted, t, delivered);
    StepThenRun(begun, InsertAllocated(t, now), rest);
    StepThenRun(s, Allocate(t, employeeId, content), [InsertAllocated(t, now)] + rest);
    assert inserted.operations - {t} == s.operations;
  }
}
