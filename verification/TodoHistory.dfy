// What a history of requests comes to, told from the requests alone: which todos are live, whose they are and what they
// say.
module TodoHistory {
  import opened TodoStore

  /** How many of the turns create a todo, delivered or not. */
  function Creations(turns: seq<Turn>): nat {
    if turns == [] then 0
    else
      Creations(turns[..|turns| - 1]) + if turns[|turns| - 1].request.CreateTodo? then 1 else 0
  }

  /** The i-th turn has made the todo: its number is the next one after the two seeds and all creations before. */
  predicate Made(turns: seq<Turn>, i: nat, id: string) {
    && i < |turns| && turns[i].delivered && turns[i].request.CreateTodo?
    && id == TodoId(3 + Creations(turns[..i]))
  }

  predicate Changed(turns: seq<Turn>, i: nat, id: string) {
    i < |turns| && turns[i].delivered && turns[i].request.UpdateTodo? && turns[i].request.id == id
  }

  predicate Removed(turns: seq<Turn>, i: nat, id: string) {
    i < |turns| && turns[i].delivered && turns[i].request.DeleteTodo? && turns[i].request.id == id
  }

  /** The i-th turn is the last one that was delivered and says what the todo's content is. */
  predicate LastWord(turns: seq<Turn>, i: nat, id: string) {
    && (Made(turns, i, id) || Changed(turns, i, id))
    && forall j | i < j < |turns| :: !Made(turns, j, id) && !Changed(turns, j, id)
  }

  predicate NeverSaid(turns: seq<Turn>, id: string) {
    forall j | 0 <= j < |turns| :: !Made(turns, j, id) && !Changed(turns, j, id)
  }

  /** The todos there are to start with. */
  predicate IsSeed(todo: Todo, now: string) {
    || todo == Todo("todo-1", "emp-1", "Complete onboarding docs", now, false)
    || todo == Todo("todo-2", "emp-2", "Prepare quarterly report", now, false)
  }

  /** Its content and time are those of the last delivered request that says so, or its seed's. */
  ghost predicate SaysTheLastWord(now: string, turns: seq<Turn>, id: string, todo: Todo) {
    && (forall i: nat | LastWord(turns, i, id) ::
          todo.content == turns[i].request.content && todo.updatedAt == turns[i].now)
    && (NeverSaid(turns, id) ==>
          exists seed ::
            IsSeed(seed, now) && seed.id == id && seed.content == todo.content && seed.updatedAt == todo.updatedAt)
  }

  /** Its employee is the one it was made for, or its seed's. */
  ghost predicate BelongsToItsMaker(now: string, turns: seq<Turn>, id: string, todo: Todo) {
    && (forall i: nat | Made(turns, i, id) :: todo.employeeId == turns[i].request.employeeId)
    && ((forall i: nat :: !Made(turns, i, id)) ==>
          exists seed :: IsSeed(seed, now) && seed.id == id && seed.employeeId == todo.employeeId)
  }

  /** Made, or there to start with, and not deleted since. */
  ghost predicate IsLive(turns: seq<Turn>, id: string) {
    || (exists i: nat :: Made(turns, i, id) && forall j | i < j < |turns| :: !Removed(turns, j, id))
    || ((id == "todo-1" || id == "todo-2") && forall j | 0 <= j < |turns| :: !Removed(turns, j, id))
  }

  // ------------------------------------------------------------------ one more turn

  lemma Earlier(turns: seq<Turn>, last: Turn, i: nat, id: string)
    requires i < |turns|
    ensures Made(turns + [last], i, id) <==> Made(turns, i, id)
    ensures Changed(turns + [last], i, id) <==> Changed(turns, i, id)
    ensures Removed(turns + [last], i, id) <==> Removed(turns, i, id)
  {
    assert (turns + [last])[..i] == turns[..i];
  }

  lemma Latest(turns: seq<Turn>, last: Turn, id: string)
    ensures Made(turns + [last], |turns|, id)
      <==> last.delivered && last.request.CreateTodo? && id == TodoId(3 + Creations(turns))
  {
    assert (turns + [last])[..|turns|] == turns;
  }

  /** Numbers given out are never above the count. */
  lemma {:induction false} MadeIsCounted(turns: seq<Turn>, i: nat, id: string)
    requires Made(turns, i, id)
    ensures exists n: nat :: n <= 2 + Creations(turns) && id == TodoId(n)
  {
    var last := |turns| - 1;
    assert turns == turns[..last] + [turns[last]];
    if i < last {
      Earlier(turns[..last], turns[last], i, id);
      MadeIsCounted(turns[..last], i, id);
      var n: nat :| n <= 2 + Creations(turns[..last]) && id == TodoId(n);
    } else {
      assert 3 + Creations(turns[..i]) <= 2 + Creations(turns);
    }
  }

  /** The next number has not been given out. */
  lemma NextIsNotMade(turns: seq<Turn>, id: string)
    requires id == TodoId(3 + Creations(turns))
    ensures forall i: nat :: !Made(turns, i, id)
  {
    forall i: nat
      ensures !Made(turns, i, id)
    {
      if Made(turns, i, id) {
        MadeIsCounted(turns, i, id);
        var n: nat :| n <= 2 + Creations(turns) && id == TodoId(n);
        TodoIdInjective(3 + Creations(turns), n);
      }
    }
  }

  /** What is known of the todo after the turns, if it is live. */
  ghost predicate Told(now: string, turns: seq<Turn>, id: string, todo: Todo) {
    SaysTheLastWord(now, turns, id, todo) && BelongsToItsMaker(now, turns, id, todo)
  }

  /** A turn that says nothing of the todo. */
  lemma NothingSaid(now: string, turns: seq<Turn>, last: Turn, id: string, todo: Todo)
    requires !Made(turns + [last], |turns|, id) && !Changed(turns + [last], |turns|, id)
    ensures Told(now, turns, id, todo) ==> Told(now, turns + [last], id, todo)
    ensures !Removed(turns + [last], |turns|, id) ==> (IsLive(turns + [last], id) <==> IsLive(turns, id))
  {
    var more := turns + [last];
    forall i: nat | i < |turns|
      ensures Made(more, i, id) <==> Made(turns, i, id)
      ensures Changed(more, i, id) <==> Changed(turns, i, id)
      ensures Removed(more, i, id) <==> Removed(turns, i, id)
    {
      Earlier(turns, last, i, id);
    }
    forall i: nat | LastWord(more, i, id)
      ensures LastWord(turns, i, id) && more[i] == turns[i]
    {
    }
    if !Removed(more, |turns|, id) {
      SameLife(turns, last, id);
    }
  }

  lemma SameLife(turns: seq<Turn>, last: Turn, id: string)
    requires !Made(turns + [last], |turns|, id) && !Removed(turns + [last], |turns|, id)
    ensures IsLive(turns + [last], id) <==> IsLive(turns, id)
  {
    var more := turns + [last];
    forall i: nat | i < |turns|
      ensures Made(more, i, id) <==> Made(turns, i, id)
      ensures Removed(more, i, id) <==> Removed(turns, i, id)
    {
      Earlier(turns, last, i, id);
    }
    if i: nat :| Made(turns, i, id) && forall j | i < j < |turns| :: !Removed(turns, j, id) {
      assert Made(more, i, id);
    }
    if i: nat :| Made(more, i, id) && forall j | i < j < |more| :: !Removed(more, j, id) {
      assert Made(turns, i, id);
    }
  }

  /** The turn makes the todo. */
  lemma JustMade(now: string, turns: seq<Turn>, last: Turn, id: string, todo: Todo)
    requires Made(turns + [last], |turns|, id)
    requires todo.content == last.request.content && todo.updatedAt == last.now
      && todo.employeeId == last.request.employeeId
    ensures Told(now, turns + [last], id, todo) && IsLive(turns + [last], id)
  {
    var more := turns + [last];
    Latest(turns, last, id);
    NextIsNotMade(turns, id);
    forall i: nat | Made(more, i, id)
      ensures i == |turns|
    {
      if i < |turns| {
        Earlier(turns, last, i, id);
      }
    }
  }

  /** The turn changes the todo. */
  lemma JustChanged(now: string, turns: seq<Turn>, last: Turn, id: string, before: Todo, todo: Todo)
    requires Changed(turns + [last], |turns|, id) && Told(now, turns, id, before) && IsLive(turns, id)
    requires todo.content == last.request.content && todo.updatedAt == last.now && todo.employeeId == before.employeeId
    ensures Told(now, turns + [last], id, todo) && IsLive(turns + [last], id)
  {
    var more := turns + [last];
    forall i: nat | i < |turns|
      ensures Made(more, i, id) <==> Made(turns, i, id)
    {
      Earlier(turns, last, i, id);
    }
    assert !Made(more, |turns|, id);
    SameLife(turns, last, id);
  }

  /** The turn deletes the todo, if there is one. */
  lemma JustRemoved(turns: seq<Turn>, last: Turn, id: string)
    requires Removed(turns + [last], |turns|, id)
    ensures !IsLive(turns + [last], id)
  {
    var more := turns + [last];
    assert !Made(more, |turns|, id);
    forall i: nat | Made(more, i, id)
      ensures i < |turns| && exists j | i < j < |more| :: Removed(more, j, id)
    {
    }
  }

  // ------------------------------------------------------------------ any history

  /** The store has just the todos that the turns tell of. */
  ghost predicate AsTold(now: string, turns: seq<Turn>, v: Service) {
    && ServiceValid(v) && v.sequence == 2 + Creations(turns)
    && forall id :: AsToldOf(now, turns, v.store, id)
  }

  ghost predicate AsToldOf(now: string, turns: seq<Turn>, s: Store, id: string) {
    && (Found(s, id) <==> IsLive(turns, id))
    && (Found(s, id) ==> Told(now, turns, id, s.todos[id]))
  }

  lemma UndeliveredTurn(now: string, turns: seq<Turn>, v: Service, last: Turn, id: string)
    requires AsTold(now, turns, v) && !last.delivered
    ensures AsToldOf(now, turns + [last], Serve(v, last.request, last.now, false).store, id)
  {
    FailureUndoes(v, last.request, last.now);
    assert AsToldOf(now, turns, v.store, id);
    var todo := if id in v.store.todos then v.store.todos[id] else Todo(id, "", "", "", true);
    NothingSaid(now, turns, last, id, todo);
  }

  lemma CreatingTurn(now: string, turns: seq<Turn>, v: Service, last: Turn, id: string)
    requires AsTold(now, turns, v) && last.delivered && last.request.CreateTodo?
    ensures AsToldOf(now, turns + [last], Serve(v, last.request, last.now, true).store, id)
  {
    var s' := Serve(v, last.request, last.now, true).store;
    assert AsToldOf(now, turns, v.store, id);
    Latest(turns, last, id);
    if id == TodoId(v.sequence + 1) {
      JustMade(now, turns, last, id, s'.todos[id]);
    } else {
      var todo := if id in v.store.todos then v.store.todos[id] else Todo(id, "", "", "", true);
      NothingSaid(now, turns, last, id, todo);
    }
  }

  lemma UpdatingTurn(now: string, turns: seq<Turn>, v: Service, last: Turn, id: string)
    requires AsTold(now, turns, v) && last.delivered && last.request.UpdateTodo?
    ensures AsToldOf(now, turns + [last], Serve(v, last.request, last.now, true).store, id)
  {
    var s' := Serve(v, last.request, last.now, true).store;
    assert AsToldOf(now, turns, v.store, id);
    if id != last.request.id {
      var todo := if id in v.store.todos then v.store.todos[id] else Todo(id, "", "", "", true);
      NothingSaid(now, turns, last, id, todo);
    } else if Found(v.store, id) {
      JustChanged(now, turns, last, id, v.store.todos[id], s'.todos[id]);
    } else {
      SameLife(turns, last, id);
    }
  }

  lemma DeletingTurn(now: string, turns: seq<Turn>, v: Service, last: Turn, id: string)
    requires AsTold(now, turns, v) && last.delivered && last.request.DeleteTodo?
    ensures AsToldOf(now, turns + [last], Serve(v, last.request, last.now, true).store, id)
  {
    assert AsToldOf(now, turns, v.store, id);
    if id == last.request.id {
      JustRemoved(turns, last, id);
    } else {
      var todo := if id in v.store.todos then v.store.todos[id] else Todo(id, "", "", "", true);
      NothingSaid(now, turns, last, id, todo);
    }
  }

  lemma SeedsAsTold(now: string, id: string)
    ensures AsToldOf(now, [], Seeded(now).store, id)
  {
    var s := Seeded(now).store;
    if Found(s, id) {
      assert IsSeed(s.todos[id], now);
    }
  }

  /** Main theorem: over any sequence of requests, whichever fail to be published. A todo is live exactly when a
      delivered request has made it, or it was there to start with, and no delivered request has deleted it since. It
      belongs to the employee it was made for, and says what the last delivered request that made or changed it says. */
  lemma {:induction false} LiveTodosAreAsTold(now: string, turns: seq<Turn>)
    ensures AsTold(now, turns, ServeAll(Seeded(now), turns))
  {
    if turns == [] {
      SeededValid(now);
      forall id
        ensures AsToldOf(now, [], Seeded(now).store, id)
      {
        SeedsAsTold(now, id);
      }
    } else {
      var front, last := turns[..|turns| - 1], turns[|turns| - 1];
      assert turns == front + [last];
      LiveTodosAreAsTold(now, front);
      var v := ServeAll(Seeded(now), front);
      ServeKeeps(v, last.request, last.now, last.delivered);
      forall id
        ensures AsToldOf(now, front + [last], Serve(v, last.request, last.now, last.delivered).store, id)
      {
        if !last.delivered {
          UndeliveredTurn(now, front, v, last, id);
        } else {
          match last.request
          case CreateTodo(_, _) => CreatingTurn(now, front, v, last, id);
          case UpdateTodo(_, _) => UpdatingTurn(now, front, v, last, id);
          case DeleteTodo(_) => DeletingTurn(now, front, v, last, id);
        }
      }
    }
  }
}
